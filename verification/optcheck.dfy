/** opt_check of ssu_crontab.c: what the user may type for the five fields. */
module OptCheck {
  import opened CText

  datatype Kind = Min | Hour | Day | Month | Week

  /** A character of a C string; the terminator behind the end. */
  function At(s: string, i: nat): char {
    if i < |s| then s[i] else '\0'
  }

  /** The five *_scope_check functions on two consecutive characters. Falling off the end is no error. */
  predicate ScopeOk(kind: Kind, c: char, next: char) {
    match kind
    case Min => !(c == '0' && '0' <= next <= '9') && !('5' < c <= '9' && '0' <= next <= '9')
    case Hour =>
      !(c == '0' && '0' <= next <= '9') && !(c == '2' && '3' < next <= '9') && !('3' <= c <= '9' && '0' <= next <= '9')
    case Day => c != '0' && !(c == '3' && '2' <= next <= '9') && !('4' <= c <= '9' && '0' <= next <= '9')
    case Month => c != '0' && !(c == '1' && '3' <= next <= '9') && !('2' <= c <= '9' && '0' <= next <= '9')
    case Week => !('7' <= c <= '9') && !('0' <= c <= '6' && '0' <= next <= '9')
  }

  predicate ScopeAt(kind: Kind, s: string, i: nat) {
    ScopeOk(kind, At(s, i), At(s, i + 1))
  }

  predicate Separator(c: char) {
    c == '/' || c == ',' || c == '-'
  }

  /** One character of a field: 0, or the error code. */
  function CharCode(kind: Kind, s: string, i: nat): int {
    if Separator(At(s, i)) then
      if !IsDigit(At(s, i + 1)) then -2
      else if !ScopeAt(kind, s, i + 1) then -1
      else 0
    else if At(s, i) != '*' && !IsDigit(At(s, i)) then -2
    else 0
  }

  predicate FieldOk(kind: Kind, s: string) {
    ScopeAt(kind, s, 0) && forall i :: 0 <= i < |s| ==> CharCode(kind, s, i) == 0
  }

  // ---------------------------------------------------------------- what the codes mean

  predicate InRange(kind: Kind, v: int) {
    match kind
    case Min => 0 <= v <= 59
    case Hour => 0 <= v <= 23
    case Day => 1 <= v <= 31
    case Month => 1 <= v <= 12
    case Week => 0 <= v <= 6
  }

  /** The number at s[i] is in range and has no leading zero, as far as its first two digits tell. */
  predicate NumberInRange(kind: Kind, s: string, i: nat)
    requires i < |s|
  {
    var tens := s[i] as int - '0' as int;
    if i + 1 < |s| && '0' <= s[i + 1] <= '9' then
      tens != 0 && InRange(kind, 10 * tens + (s[i + 1] as int - '0' as int))
    else InRange(kind, tens)
  }

  /** No digit and no star, but / , - are fine in front of a digit. */
  predicate WrongSymbol(s: string, i: nat)
    requires i < |s|
  {
    if s[i] == '/' || s[i] == ',' || s[i] == '-' then !(i + 1 < |s| && '0' <= s[i + 1] <= '9')
    else s[i] != '*' && !('0' <= s[i] <= '9')
  }

  predicate WrongNumber(kind: Kind, s: string, i: nat)
    requires i < |s|
  {
    (s[i] == '/' || s[i] == ',' || s[i] == '-') && i + 1 < |s| && '0' <= s[i + 1] <= '9'
    && !NumberInRange(kind, s, i + 1)
  }

  predicate GoodStart(kind: Kind, s: string) {
    s != "" && '0' <= s[0] <= '9' ==> NumberInRange(kind, s, 0)
  }

  predicate GoodAt(kind: Kind, s: string, i: nat)
    requires i < |s|
  {
    !WrongSymbol(s, i) && !WrongNumber(kind, s, i)
  }

  lemma ScopeExactly(kind: Kind, s: string, i: nat)
    requires i < |s|
    ensures ScopeAt(kind, s, i) <==> ('0' <= s[i] <= '9' ==> NumberInRange(kind, s, i))
  {
    var c, next := At(s, i), At(s, i + 1);
    var tens, ones := c as int - '0' as int, next as int - '0' as int;
    if '0' <= c <= '9' && '0' <= next <= '9' {
      assert ScopeOk(kind, c, next) <==> tens != 0 && InRange(kind, 10 * tens + ones);
    }
  }

  lemma StartExactly(kind: Kind, s: string)
    ensures ScopeAt(kind, s, 0) <==> GoodStart(kind, s)
  {
    if s != "" { ScopeExactly(kind, s, 0); }
  }

  /** -2 for a wrong symbol, -1 for a separator with a number out of range behind it. */
  lemma CodeExactly(kind: Kind, s: string, i: nat)
    requires i < |s|
    ensures CharCode(kind, s, i) == if WrongSymbol(s, i) then -2 else if WrongNumber(kind, s, i) then -1 else 0
  {
    if i + 1 < |s| { ScopeExactly(kind, s, i + 1); }
  }

  /** A field, printed by whom ever, is accepted exactly when every character is a digit, a star, or a / , -
      in front of a digit, and the numbers at the start and behind separators are in range. */
  lemma FieldExactly(kind: Kind, s: string)
    ensures FieldOk(kind, s) <==> GoodStart(kind, s) && forall i :: 0 <= i < |s| ==> GoodAt(kind, s, i)
  {
    StartExactly(kind, s);
    forall i | 0 <= i < |s| ensures CharCode(kind, s, i) == 0 <==> GoodAt(kind, s, i) {
      CodeExactly(kind, s, i);
    }
  }

  // ---------------------------------------------------------------- the five fields

  function KindOf(j: nat): Kind {
    match j case 1 => Min case 2 => Hour case 3 => Day case 4 => Month case _ => Week
  }

  /** Characters are looked at field by field, from left to right. */
  predicate GoodUpTo(argv: seq<string>, j: int, i: int)
    requires |argv| >= 6 && 1 <= j <= 6
  {
    && (forall m, k :: 1 <= m < j && 0 <= k < |argv[m]| ==> GoodAt(KindOf(m), argv[m], k))
    && (j < 6 ==> forall k :: 0 <= k < i <= |argv[j]| ==> GoodAt(KindOf(j), argv[j], k))
  }

  predicate GoodStarts(argv: seq<string>)
    requires |argv| >= 6
  {
    && GoodStart(Min, argv[1]) && GoodStart(Hour, argv[2]) && GoodStart(Day, argv[3])
    && GoodStart(Month, argv[4]) && GoodStart(Week, argv[5])
  }

  /** opt_check: -1 for a number out of range, -2 for a wrong symbol, the first one found; 0 stands
      for falling off the end. It accepts exactly when all five fields are in order. */
  method Check(argv: seq<string>) returns (r: int)
    requires |argv| >= 6
    ensures r == 0 <==> && FieldOk(Min, argv[1]) && FieldOk(Hour, argv[2]) && FieldOk(Day, argv[3])
                        && FieldOk(Month, argv[4]) && FieldOk(Week, argv[5])
    ensures r == 0 || r == -1 || r == -2
    ensures !GoodStarts(argv) ==> r == -1
    ensures GoodStarts(argv) && r != 0 ==>
              exists j, i :: 1 <= j < 6 && 0 <= i < |argv[j]| && GoodUpTo(argv, j, i) &&
                             if r == -2 then WrongSymbol(argv[j], i) else WrongNumber(KindOf(j), argv[j], i)
  {
    for j := 1 to 6
      invariant forall m :: 1 <= m < j ==> GoodStart(KindOf(m), argv[m])
    {
      StartExactly(KindOf(j), argv[j]);
      if !ScopeAt(KindOf(j), argv[j], 0) {
        FieldExactly(KindOf(j), argv[j]);
        return -1;
      }
    }
    for j := 1 to 6
      invariant GoodUpTo(argv, j, 0)
    {
      for i := 0 to |argv[j]|
        invariant GoodUpTo(argv, j, i)
      {
        r := 0;
        if At(argv[j], i) == '/' || At(argv[j], i) == ',' || At(argv[j], i) == '-' {
          if !IsDigit(At(argv[j], i + 1)) {
            r := -2;
          } else if !ScopeAt(KindOf(j), argv[j], i + 1) {
            r := -1;
          }
        } else if At(argv[j], i) != '*' && !IsDigit(At(argv[j], i)) {
          r := -2;
        }
        CodeExactly(KindOf(j), argv[j], i);
        if r != 0 {
          FieldExactly(KindOf(j), argv[j]);
          return;
        }
      }
    }
    r := 0;
    FieldExactly(Min, argv[1]);
    FieldExactly(Hour, argv[2]);
    FieldExactly(Day, argv[3]);
    FieldExactly(Month, argv[4]);
    FieldExactly(Week, argv[5]);
  }
}
