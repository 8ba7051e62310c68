/** The C string functions the programs rely on: strtok with one delimiter, strcpy up to the terminator, atoi. */
module CText {

  /** Length of the longest prefix without `d`. */
  function Span(s: string, d: char): (n: nat)
    ensures n <= |s| && d !in s[..n] && (n < |s| ==> s[n] == d)
  {
    if s == "" || s[0] == d then 0 else 1 + Span(s[1..], d)
  }

  /** The tokens that strtok(s, d), strtok(NULL, d), ... return before the first NULL. */
  function Tokens(s: string, d: char): (r: seq<string>)
    ensures forall t :: t in r ==> t != "" && d !in t
    decreases |s|
  {
    if s == "" then []
    else if s[0] == d then Tokens(s[1..], d)
    else [s[..Span(s, d)]] + Tokens(s[Span(s, d)..], d)
  }

  /** What the buffer holds, read as a string, once strtok has cut off its first token: leading
      delimiters stay, and the delimiter behind the token has become the terminator. */
  function Cut(s: string, d: char): string
    decreases |s|
  {
    if s == "" then ""
    else if s[0] == d then [d] + Cut(s[1..], d)
    else s[..Span(s, d)]
  }

  /** What strcpy and fputs take of a buffer: everything before the first terminator. */
  function BeforeNul(s: string): (r: string)
    ensures r <= s && (r == s <==> '\0' !in s)
  {
    s[..Span(s, '\0')]
  }

  /** The cut is at the first terminator. */
  lemma BeforeNulIs(s: string)
    ensures '\0' !in BeforeNul(s) && (BeforeNul(s) != s ==> s[|BeforeNul(s)|] == '\0')
  {
  }

  predicate IsDigit(c: char) {
    '0' <= c <= '9'
  }

  function DigitValue(c: char): (v: nat)
    requires IsDigit(c)
    ensures v < 10 && '0' as int + v == c as int
  {
    c as int - '0' as int
  }

  /** The value of the leading digits. */
  function Digits(s: string, value: nat): nat
    decreases |s|
  {
    if s == "" || !IsDigit(s[0]) then value else Digits(s[1..], 10 * value + DigitValue(s[0]))
  }

  predicate IsSpace(c: char) {
    c == ' ' || '\t' <= c <= '\r'
  }

  function Atoi(s: string): int
    decreases |s|
  {
    if s == "" then 0
    else if IsSpace(s[0]) then Atoi(s[1..])
    else if s[0] == '-' then 0 - Digits(s[1..], 0)
    else if s[0] == '+' then Digits(s[1..], 0)
    else Digits(s, 0)
  }

  // ---------------------------------------------------------------- joined text

  lemma {:induction false} SpanIs(s: string, d: char, n: nat)
    requires n <= |s| && d !in s[..n] && (n < |s| ==> s[n] == d)
    ensures Span(s, d) == n
  {
    if n > 0 {
      assert s[..n][0] == s[0] && s[1..][..n - 1] == s[..n][1..];
      SpanIs(s[1..], d, n - 1);
    }
  }

  /** A non-empty text without the delimiter is its own only token. */
  lemma OneToken(s: string, d: char)
    requires s != "" && d !in s
    ensures Tokens(s, d) == [s] && Cut(s, d) == s
  {
    assert s[..|s|] == s;
    SpanIs(s, d, |s|);
  }

  /** Text put in front with a delimiter is one token more. */
  lemma TokenThenRest(x: string, d: char, rest: string)
    requires x != "" && d !in x
    ensures Tokens(x + [d] + rest, d) == [x] + Tokens(rest, d)
  {
    var s := x + [d] + rest;
    assert s[..|x|] == x;
    SpanIs(s, d, |x|);
    assert s[|x|..] == [d] + rest && ([d] + rest)[1..] == rest;
  }

  /** Of such a text the first token is left. */
  lemma CutToFirst(x: string, d: char, rest: string)
    requires x != "" && d !in x
    ensures Cut(x + [d] + rest, d) == x
  {
    var s := x + [d] + rest;
    assert s[..|x|] == x;
    SpanIs(s, d, |x|);
  }

  /** Delimiters in front give no token, and stay in the buffer. */
  lemma DelimiterFirst(d: char, rest: string)
    ensures Tokens("", d) == [] && Tokens([d] + rest, d) == Tokens(rest, d)
    ensures Cut("", d) == "" && Cut([d] + rest, d) == [d] + Cut(rest, d)
  {
    assert ([d] + rest)[1..] == rest;
  }

  /** The items one after the other, with the delimiter between them. */
  function Join(items: seq<string>, d: char): string {
    if items == [] then ""
    else if |items| == 1 then items[0]
    else items[0] + [d] + Join(items[1..], d)
  }

  lemma {:induction false} TokensOfJoin(items: seq<string>, d: char)
    requires forall t :: t in items ==> t != "" && d !in t
    ensures Tokens(Join(items, d), d) == items
  {
    if |items| == 1 {
      assert items[0] in items;
      OneToken(items[0], d);
    } else if |items| > 1 {
      assert items[0] in items;
      TokenThenRest(items[0], d, Join(items[1..], d));
      assert forall t :: t in items[1..] ==> t in items;
      TokensOfJoin(items[1..], d);
    }
  }

  // ---------------------------------------------------------------- numerals

  predicate Numeral(s: string) {
    s != "" && forall i :: 0 <= i < |s| ==> IsDigit(s[i])
  }

  /** One or more decimal digits. */
  type Num = s: string | Numeral(s) witness "0"

  /** The number a numeral denotes, by its last digit. */
  function Value(s: string): nat
    requires forall i :: 0 <= i < |s| ==> IsDigit(s[i])
  {
    if s == "" then 0 else 10 * Value(s[..|s| - 1]) + DigitValue(s[|s| - 1])
  }

  lemma {:induction false} DigitsSplit(s: string, t: string, value: nat)
    requires forall i :: 0 <= i < |s| ==> IsDigit(s[i])
    ensures Digits(s + t, value) == Digits(t, Digits(s, value))
    decreases |s|
  {
    if s == "" {
      assert s + t == t;
    } else {
      assert (s + t)[1..] == s[1..] + t;
      DigitsSplit(s[1..], t, 10 * value + DigitValue(s[0]));
    }
  }

  lemma {:induction false} DigitsIsValue(s: string)
    requires forall i :: 0 <= i < |s| ==> IsDigit(s[i])
    ensures Digits(s, 0) == Value(s)
    decreases |s|
  {
    if s != "" {
      var n := |s| - 1;
      DigitsIsValue(s[..n]);
      DigitsSplit(s[..n], [s[n]], 0);
      assert s[..n] + [s[n]] == s;
    }
  }

  /** atoi reads every numeral as the number it denotes. */
  lemma AtoiIsValue(s: Num)
    ensures Atoi(s) == Value(s)
  {
    DigitsIsValue(s);
  }

  lemma DigitsRead(n: Num, rest: string)
    requires rest == "" || !('0' <= rest[0] <= '9')
    ensures Digits(n + rest, 0) == Value(n)
  {
    DigitsIsValue(n);
    DigitsSplit(n, rest, 0);
  }

  /** atoi reads the digits at the front, and one sign before them. */
  lemma AtoiReads(n: Num, rest: string)
    requires rest == "" || !('0' <= rest[0] <= '9')
    ensures Atoi(n + rest) == Value(n)
    ensures Atoi(['-'] + (n + rest)) == 0 - Value(n)
    ensures Atoi(['+'] + (n + rest)) == Value(n)
  {
    DigitsRead(n, rest);
    assert (['-'] + (n + rest))[1..] == n + rest;
    assert (['+'] + (n + rest))[1..] == n + rest;
    assert IsDigit((n + rest)[0]);
  }

  /** White space in front of them is skipped, and anything else makes it 0. */
  lemma AtoiSkips(c: char, rest: string)
    ensures Atoi("") == 0
    ensures c == ' ' || 9 <= c as int <= 13 ==> Atoi([c] + rest) == Atoi(rest)
    ensures !(c == ' ' || 9 <= c as int <= 13 || '0' <= c <= '9' || c == '+' || c == '-') ==> Atoi([c] + rest) == 0
    ensures c == '+' || c == '-' ==> rest == "" || '0' <= rest[0] <= '9' || Atoi([c] + rest) == 0
  {
    assert ([c] + rest)[1..] == rest;
  }

  /** The decimal numeral of a number, without leading zeros. */
  function Decimal(n: nat): (s: Num)
    ensures Value(s) == n && (|s| > 1 ==> s[0] != '0')
    ensures |s| <= 2 <==> n < 100
  {
    var c := (n % 10 + '0' as int) as char;
    if n < 10 then [c]
    else
      var t := Decimal(n / 10);
      assert (t + [c])[..|t|] == t && DigitValue(c) == n % 10;
      assert Value(t + [c]) == 10 * Value(t) + n % 10;
      t + [c]
  }
}
