/** Which printed schedules opt_check accepts, and how far that protects make_timetable. */
module Validator {
  import opened CText
  import opened TimeTable
  import opened OptCheck
  import opened Schedule

  function FieldOf(kind: Kind): Field {
    match kind case Min => MIN case Hour => HOUR case Day => MDAY case Month => MONTH case Week => WDAY
  }

  /** A numeral passes the scope check at its first digit. */
  predicate NumOk(kind: Kind, n: Num) {
    ScopeOk(kind, n[0], At(n, 1))
  }

  lemma RangeIsTable(kind: Kind, v: nat)
    ensures InRange(kind, v) <==> FieldOf(kind).lo <= v < FieldOf(kind).size
  {
  }

  /** The number of the first two digits is looked at: it has to be in the field's range and to have no
      leading zero. */
  lemma ScopeIsRange(kind: Kind, n: Num)
    ensures var m := if |n| > 2 then n[..2] else n;
            NumOk(kind, n) <==> InRange(kind, Value(m)) && (|n| > 1 ==> n[0] != '0')
  {
    var m := if |n| > 2 then n[..2] else n;
    if |n| == 1 {
      assert n[..0] == "";
    } else {
      assert m[0] == n[0] && m[1] == n[1] && m[..1][..0] == "";
      assert Value(m) == 10 * Value(m[..1]) + DigitValue(m[1]);
    }
    ScopeExactly(kind, n, 0);
  }

  predicate Clean(kind: Kind, s: string) {
    forall i :: 0 <= i < |s| ==> CharCode(kind, s, i) == 0
  }

  lemma CleanStep(kind: Kind, c: char, s: string)
    ensures Clean(kind, [c] + s) <==> CharCode(kind, [c] + s, 0) == 0 && Clean(kind, s)
  {
    var t := [c] + s;
    forall i: nat ensures At(t, i + 1) == At(s, i) {}
    forall i: nat | i < |s| ensures CharCode(kind, t, i + 1) == CharCode(kind, s, i) {
      assert At(t, i + 1) == At(s, i) && At(t, i + 2) == At(s, i + 1) && At(t, i + 3) == At(s, i + 2);
    }
    if Clean(kind, t) {
      forall i: nat | i < |s| ensures CharCode(kind, s, i) == 0 { assert CharCode(kind, t, i + 1) == 0; }
    }
    if CharCode(kind, t, 0) == 0 && Clean(kind, s) {
      forall i: nat | i < |t| ensures CharCode(kind, t, i) == 0 {
        if i > 0 { assert CharCode(kind, s, i - 1) == 0; }
      }
    }
  }

  /** Digits and stars never offend. */
  lemma {:induction false} CleanDigits(kind: Kind, n: string, rest: string)
    requires forall i :: 0 <= i < |n| ==> IsDigit(n[i])
    ensures Clean(kind, n + rest) <==> Clean(kind, rest)
    decreases |n|
  {
    if n == "" {
      assert n + rest == rest;
    } else {
      assert n + rest == [n[0]] + (n[1..] + rest);
      CleanStep(kind, n[0], n[1..] + rest);
      CleanDigits(kind, n[1..], rest);
    }
  }

  /** A separator wants a numeral in scope behind it. */
  lemma CleanNumeral(kind: Kind, sep: char, n: Num, rest: string)
    requires Separator(sep) && (rest == "" || !IsDigit(rest[0]))
    ensures Clean(kind, [sep] + n + rest) <==> NumOk(kind, n) && Clean(kind, rest)
  {
    var t := [sep] + n + rest;
    assert t == [sep] + (n + rest);
    CleanStep(kind, sep, n + rest);
    CleanDigits(kind, n, rest);
    assert At(t, 0) == sep && At(t, 1) == n[0];
    FirstInScope(kind, n, rest);
    assert At(t, 2) == At(n + rest, 1);
  }

  lemma FirstInScope(kind: Kind, n: Num, rest: string)
    requires rest == "" || !IsDigit(rest[0])
    ensures ScopeAt(kind, n + rest, 0) <==> NumOk(kind, n)
  {
    assert At(n + rest, 0) == n[0];
    assert |n| > 1 ==> At(n + rest, 1) == n[1];
    assert |n| == 1 ==> At(n + rest, 1) == At(rest, 0);
  }

  /** The numerals of an item that stand behind a separator of the item itself. */
  predicate LaterOk(kind: Kind, it: Item) {
    && (it.Range? || it.RangeEvery? ==> NumOk(kind, it.b))
    && (HasPeriod(it) ==> NumOk(kind, it.p))
  }

  predicate FirstOk(kind: Kind, it: Item) {
    Starred(it) || NumOk(kind, it.a)
  }

  predicate EndsItem(rest: string) {
    rest == "" || rest[0] == ','
  }

  lemma CleanHead(kind: Kind, it: Item, rest: string)
    requires rest == "" || !IsDigit(rest[0])
    ensures Clean(kind, Head(it) + rest) <==> (it.Range? || it.RangeEvery? ==> NumOk(kind, it.b)) && Clean(kind, rest)
  {
    if Starred(it) {
      CleanStep(kind, '*', rest);
    } else if it.Range? || it.RangeEvery? {
      assert Head(it) + rest == it.a + (['-'] + it.b + rest);
      CleanDigits(kind, it.a, ['-'] + it.b + rest);
      CleanNumeral(kind, '-', it.b, rest);
    } else {
      CleanDigits(kind, it.a, rest);
    }
  }

  lemma TextOfPeriod(it: Item, rest: string)
    requires HasPeriod(it)
    ensures Text(it) + rest == Head(it) + (['/'] + it.p + rest)
  {
  }

  lemma CleanItem(kind: Kind, it: Item, rest: string)
    requires EndsItem(rest)
    ensures Clean(kind, Text(it) + rest) <==> LaterOk(kind, it) && Clean(kind, rest)
  {
    if HasPeriod(it) {
      TextOfPeriod(it, rest);
      CleanHead(kind, it, ['/'] + it.p + rest);
      CleanNumeral(kind, '/', it.p, rest);
    } else {
      CleanHead(kind, it, rest);
    }
  }

  /** What follows the first numeral. */
  lemma BehindFirst(it: Item, rest: string) returns (tail: string)
    requires !Starred(it) && EndsItem(rest)
    ensures Text(it) + rest == it.a + tail && (tail == "" || !IsDigit(tail[0]))
  {
    match it
    case Range(a, b) => tail := ['-'] + b + rest;
    case OneEvery(a, p) => tail := ['/'] + p + rest;
    case RangeEvery(a, b, p) => tail := ['-'] + b + ['/'] + p + rest;
    case _ => tail := rest;
  }

  /** How an item starts. */
  lemma ItemStart(kind: Kind, it: Item, rest: string)
    requires EndsItem(rest)
    ensures IsDigit(At(Text(it) + rest, 0)) <==> !Starred(it)
    ensures ScopeAt(kind, Text(it) + rest, 0) <==> FirstOk(kind, it)
  {
    var t := Text(it) + rest;
    if Starred(it) {
      assert At(t, 0) == '*';
    } else {
      var tail := BehindFirst(it, rest);
      FirstInScope(kind, it.a, tail);
    }
  }

  /** Behind the first item every item has to start with a numeral in scope. */
  predicate MoreOk(kind: Kind, items: seq<Item>) {
    forall i :: 0 <= i < |items| ==> !Starred(items[i]) && NumOk(kind, items[i].a) && LaterOk(kind, items[i])
  }

  lemma MoreStep(kind: Kind, items: seq<Item>)
    requires items != []
    ensures MoreOk(kind, items) <==>
              !Starred(items[0]) && NumOk(kind, items[0].a) && LaterOk(kind, items[0]) && MoreOk(kind, items[1..])
  {
    var more := items[1..];
    assert forall i :: 0 <= i < |more| ==> more[i] == items[i + 1];
    assert forall i :: 1 <= i < |items| ==> items[i] == more[i - 1];
  }

  lemma {:induction false} CleanMore(kind: Kind, items: seq<Item>)
    requires items != []
    ensures Clean(kind, [','] + FieldText(items)) <==> MoreOk(kind, items)
    decreases |items|
  {
    var it, more := items[0], items[1..];
    var rest := if more == [] then "" else [','] + FieldText(more);
    FieldTextStep(items);
    var t := [','] + FieldText(items);
    CleanStep(kind, ',', FieldText(items));
    CleanItem(kind, it, rest);
    ItemStart(kind, it, rest);
    assert At(t, 1) == At(FieldText(items), 0) && At(t, 2) == At(FieldText(items), 1);
    if more != [] { CleanMore(kind, more); }
    MoreStep(kind, items);
  }

  /** opt_check accepts a printed field exactly when every numeral passes its scope check and only
      the first item has a star. */
  lemma AcceptsExactly(kind: Kind, items: seq<Item>)
    requires items != []
    ensures FieldOk(kind, FieldText(items)) <==>
              FirstOk(kind, items[0]) && LaterOk(kind, items[0]) && MoreOk(kind, items[1..])
  {
    var it, more := items[0], items[1..];
    var rest := if more == [] then "" else [','] + FieldText(more);
    FieldTextStep(items);
    CleanItem(kind, it, rest);
    ItemStart(kind, it, rest);
    if more != [] { CleanMore(kind, more); }
  }

  // ---------------------------------------------------------------- protection

  /** No period behind a single number, and none of zero where it is used. */
  predicate GoodPeriod(it: Item) {
    && !it.OneEvery?
    && (it.StarEvery? ==> Value(it.p) != 0)
    && (it.RangeEvery? && Value(it.a) <= Value(it.b) ==> Value(it.p) != 0)
  }

  /** The last slot of a stepped range. */
  function LastHit(a: nat, b: nat, p: nat): int
    requires a <= b && p > 0
  {
    b - (b - a) % p
  }

  /** The number, the end of the range, or the last slot of a stepped range is inside the table. */
  predicate FitsTable(f: Field, it: Item) {
    match it
    case One(a) => Value(a) < f.size
    case Range(a, b) => Value(a) <= Value(b) ==> Value(b) < f.size
    case RangeEvery(a, b, p) =>
      Value(a) <= Value(b) && Value(p) != 0 ==> LastHit(Value(a), Value(b), Value(p)) < f.size
    case _ => true
  }

  lemma AtLeast(p: int, k: int)
    requires p > 0 && k >= 1
    ensures p * k >= p
  {
    assert p * k == p * (k - 1) + p;
    assert p * (k - 1) >= 0;
  }

  /** A multiple of p strictly between -p and p is zero. */
  lemma Between(p: int, k: int)
    requires p > 0 && -p < p * k < p
    ensures k == 0
  {
    assert p * -k == -(p * k);
    if k > 0 { AtLeast(p, k); }
    if k < 0 { AtLeast(p, -k); }
  }

  lemma WholeSteps(x: int, p: nat, q: int)
    requires p > 0 && x == p * q
    ensures x % p == 0
  {
    assert x == p * (x / p) + x % p;
    assert p * (q - x / p) == x % p;
    Between(p, q - x / p);
  }

  lemma LastStep(d: nat, p: nat, r: int)
    requires p > 0
    ensures (d - d % p) % p == 0
    ensures r <= d && r % p == 0 ==> r <= d - d % p
  {
    var q := d / p;
    assert d - d % p == p * q;
    WholeSteps(d - d % p, p, q);
    if r <= d && r % p == 0 && r > p * q {
      assert r == p * (r / p);
      assert 0 < p * (r / p - q) < p;
      Between(p, r / p - q);
    }
  }

  lemma LastHitIs(a: nat, b: nat, p: nat, k: int)
    requires a <= b && p > 0
    ensures a <= LastHit(a, b, p) <= b && (LastHit(a, b, p) - a) % p == 0
    ensures k <= b && (k - a) % p == 0 ==> k <= LastHit(a, b, p)
  {
    LastStep(b - a, p, k - a);
    LastStep(b - a, p, 0);
    assert 0 % p == 0;
    assert LastHit(a, b, p) - a == (b - a) - (b - a) % p;
  }

  lemma SteppedFits(f: Field, it: Item)
    requires it.RangeEvery? && Value(it.a) <= Value(it.b) && Value(it.p) != 0
    ensures (forall k :: Denotes(f, it, k) ==> k < f.size) <==> LastHit(Value(it.a), Value(it.b), Value(it.p)) < f.size
  {
    var a, b, p := Value(it.a), Value(it.b), Value(it.p);
    LastHitIs(a, b, p, a);
    assert Denotes(f, it, LastHit(a, b, p));
    forall k | Denotes(f, it, k) ensures k <= LastHit(a, b, p) {
      LastHitIs(a, b, p, k);
    }
  }

  /** An item has a meaning exactly when its period is good and its slots fit. */
  lemma MeaningfulExactly(f: Field, it: Item)
    requires f.lo < f.size
    ensures Meaningful(f, it) <==> GoodPeriod(it) && FitsTable(f, it)
  {
    match it
    case One(a) => assert Denotes(f, it, Value(a));
    case Range(a, b) => assert Value(a) <= Value(b) ==> Denotes(f, it, Value(b));
    case RangeEvery(a, b, p) => if Value(a) <= Value(b) && Value(p) != 0 { SteppedFits(f, it); }
    case _ =>
  }

  predicate Short(it: Item) {
    && (!Starred(it) ==> |it.a| <= 2)
    && (it.Range? || it.RangeEvery? ==> |it.b| <= 2)
    && (HasPeriod(it) ==> |it.p| <= 2)
  }

  /** Inside an accepted field the slots of a short item fit. */
  lemma ShortFits(kind: Kind, it: Item)
    requires Short(it) && FirstOk(kind, it) && LaterOk(kind, it)
    ensures FitsTable(FieldOf(kind), it)
  {
    if !Starred(it) {
      ScopeIsRange(kind, it.a);
      RangeIsTable(kind, Value(it.a));
    }
    if it.Range? || it.RangeEvery? {
      ScopeIsRange(kind, it.b);
      RangeIsTable(kind, Value(it.b));
    }
    if it.RangeEvery? {
      if Value(it.a) <= Value(it.b) && Value(it.p) != 0 {
        LastHitIs(Value(it.a), Value(it.b), Value(it.p), 0);
      }
    }
  }

  /** The validator leaves two things open, and settles the second for numerals of one or two digits: an
      accepted field compiles exactly when its periods are good and its slots fit the table. */
  lemma ProtectsExactly(kind: Kind, items: seq<Item>)
    requires items != [] && FieldOk(kind, FieldText(items))
    ensures Compiles(FieldOf(kind), FieldText(items)) <==>
              forall i :: 0 <= i < |items| ==> GoodPeriod(items[i]) && FitsTable(FieldOf(kind), items[i])
    ensures forall i :: 0 <= i < |items| && Short(items[i]) ==> FitsTable(FieldOf(kind), items[i])
  {
    AcceptsExactly(kind, items);
    RoundTrip(FieldOf(kind), items);
    forall i | 0 <= i < |items|
      ensures Meaningful(FieldOf(kind), items[i]) <==> GoodPeriod(items[i]) && FitsTable(FieldOf(kind), items[i])
      ensures Short(items[i]) ==> FitsTable(FieldOf(kind), items[i])
    {
      MeaningfulExactly(FieldOf(kind), items[i]);
      assert i > 0 ==> items[1..][i - 1] == items[i];
      if Short(items[i]) { ShortFits(kind, items[i]); }
    }
  }

  lemma {:induction false} NotZero(n: Num)
    requires n[0] != '0'
    ensures Value(n) != 0
    decreases |n|
  {
    if |n| > 1 {
      NotZero(n[..|n| - 1]);
    } else {
      assert n[..0] == "";
    }
  }

  /** Day, month: no period of zero is ever accepted, whatever its length, so only `n/p` and the slots
      are left to go wrong. */
  lemma DayAndMonthPeriods(kind: Kind, items: seq<Item>)
    requires (kind == Day || kind == Month) && items != [] && FieldOk(kind, FieldText(items))
    ensures forall i :: 0 <= i < |items| && HasPeriod(items[i]) ==> Value(items[i].p) != 0
    ensures Compiles(FieldOf(kind), FieldText(items)) <==>
              forall i :: 0 <= i < |items| ==> !items[i].OneEvery? && FitsTable(FieldOf(kind), items[i])
  {
    AcceptsExactly(kind, items);
    forall i | 0 <= i < |items| && HasPeriod(items[i]) ensures Value(items[i].p) != 0 {
      assert i > 0 ==> items[1..][i - 1] == items[i];
      NotZero(items[i].p);
    }
    ProtectsExactly(kind, items);
  }

  /** Three digits are not looked at beyond the second: minute 100 is accepted and outside the table. */
  lemma LongNumeralEscapes()
    ensures FieldOk(Min, "100") && !Compiles(MIN, "100")
  {
    var n: Num := "100";
    var items := [One(n)];
    AcceptsExactly(Min, items);
    assert n[..2] == "10" && "10"[..1] == "1" && "1"[..0] == "";
    assert Value("1") == 1 && Value("10") == 10 && Value(n) == 100;
    RoundTrip(MIN, items);
    assert Denotes(MIN, items[0], 100);
  }

  /** A number with a period is accepted and makes the compiler read a missing range end. */
  lemma SinglePeriodEscapes(kind: Kind, a: Num, p: Num)
    requires NumOk(kind, a) && NumOk(kind, p)
    ensures FieldOk(kind, a + ['/'] + p) && ItemEffect(FieldOf(kind), a + ['/'] + p) == Fails(NullPointer)
  {
    AcceptsExactly(kind, [OneEvery(a, p)]);
    PrintedEffect(FieldOf(kind), OneEvery(a, p));
  }

  /** A number behind a leading dash or slash is accepted: it is read as a negative number, which is a slot
      outside the table, or as 0. */
  lemma LeadingSeparators(kind: Kind, n: Num)
    requires NumOk(kind, n)
    ensures FieldOk(kind, "-" + n) && FieldOk(kind, "/" + n)
    ensures ItemEffect(FieldOf(kind), "-" + n) ==
            if Value(n) == 0 then Sets(0, 0, 0, 1) else Fails(OutsideTable)
    ensures ItemEffect(FieldOf(kind), "/" + n) == Sets(0, 0, 0, 1)
  {
    Accepted("-", kind, n);
    Accepted("/", kind, n);
    DashEffect(FieldOf(kind), n);
    SlashEffect(FieldOf(kind), n);
  }

  lemma Accepted(sep: string, kind: Kind, n: Num)
    requires NumOk(kind, n) && |sep| == 1 && Separator(sep[0])
    ensures FieldOk(kind, sep + n)
  {
    assert sep + n == [sep[0]] + n + "";
    CleanNumeral(kind, sep[0], n, "");
  }

  // ---------------------------------------------------------------- the two programs together

  /** A schedule whose five fields print as the command's periods. */
  ghost predicate Writes(fields: seq<seq<Item>>, argv: seq<string>) {
    |fields| == 5 && |argv| >= 6 && forall j :: 0 <= j < 5 ==> fields[j] != [] && argv[j + 1] == FieldText(fields[j])
  }

  predicate Sensible(f: Field, items: seq<Item>) {
    forall i :: 0 <= i < |items| ==> GoodPeriod(items[i]) && FitsTable(f, items[i])
  }

  ghost predicate SetBy(f: Field, items: seq<Item>, k: int) {
    exists i :: 0 <= i < |items| && Denotes(f, items[i], k)
  }

  /** An accepted field compiles to the slots its items denote. */
  lemma FieldSet(kind: Kind, items: seq<Item>)
    requires items != [] && Sensible(FieldOf(kind), items) && FieldOk(kind, FieldText(items))
    ensures Compiles(FieldOf(kind), FieldText(items))
    ensures forall k :: Matches(FieldOf(kind), FieldText(items), k) <==> SetBy(FieldOf(kind), items, k)
  {
    ProtectsExactly(kind, items);
    RoundTrip(FieldOf(kind), items);
  }

  /** What ssu_crontab accepts, ssu_crond compiles, unless a period is bad or a slot does not fit: every table
      then has exactly the slots of its own field. */
  method CheckThenCompile(argv: seq<string>, ghost fields: seq<seq<Item>>, min: array<bool>, hour: array<bool>,
                          mday: array<bool>, month: array<bool>, wday: array<bool>) returns (r: int)
    requires Writes(fields, argv)
    requires FieldOk(Min, argv[1]) && FieldOk(Hour, argv[2]) && FieldOk(Day, argv[3])
             && FieldOk(Month, argv[4]) && FieldOk(Week, argv[5]) ==>
               Sensible(MIN, fields[0]) && Sensible(HOUR, fields[1]) && Sensible(MDAY, fields[2])
               && Sensible(MONTH, fields[3]) && Sensible(WDAY, fields[4])
    requires min.Length == 60 && hour.Length == 24 && mday.Length == 32 && month.Length == 13 && wday.Length == 7
    modifies min, hour, mday, month, wday
    ensures r == 0 ==>
              && (forall k :: 0 <= k < 60 ==> (min[k] <==> SetBy(MIN, fields[0], k)))
              && (forall k :: 0 <= k < 24 ==> (hour[k] <==> SetBy(HOUR, fields[1], k)))
              && (forall k :: 0 <= k < 32 ==> (mday[k] <==> SetBy(MDAY, fields[2], k)))
              && (forall k :: 0 <= k < 13 ==> (month[k] <==> SetBy(MONTH, fields[3], k)))
              && (forall k :: 0 <= k < 7 ==> (wday[k] <==> SetBy(WDAY, fields[4], k)))
    ensures r != 0 ==> unchanged(min, hour, mday, month, wday)
  {
    r := Check(argv);
    if r == 0 {
      ghost var token := argv[1..6];
      assert FieldText(fields[0]) == token[0] && FieldOk(Min, token[0]);
      assert FieldText(fields[1]) == token[1] && FieldOk(Hour, token[1]);
      assert FieldText(fields[2]) == token[2] && FieldOk(Day, token[2]);
      assert FieldText(fields[3]) == token[3] && FieldOk(Month, token[3]);
      assert FieldText(fields[4]) == token[4] && FieldOk(Week, token[4]);
      FieldSet(Min, fields[0]);
      FieldSet(Hour, fields[1]);
      FieldSet(Day, fields[2]);
      FieldSet(Month, fields[3]);
      FieldSet(Week, fields[4]);
      MakeTimetable(argv[1..6], min, hour, mday, month, wday);
    }
  }
}
