/** Schedules as data: what their printed text makes the compiler and the validator do. */
module Schedule {
  import opened CText
  import opened TimeTable

  /** A comma item; the arguments are numerals as typed. */
  datatype Item =
    | Star
    | One(a: Num)
    | Range(a: Num, b: Num)
    | StarEvery(p: Num)
    | OneEvery(a: Num, p: Num)
    | RangeEvery(a: Num, b: Num, p: Num)

  /** In front of the slash. */
  function Head(it: Item): string {
    match it
    case Star => "*"
    case StarEvery(_) => "*"
    case One(a) => a
    case OneEvery(a, _) => a
    case Range(a, b) => a + ['-'] + b
    case RangeEvery(a, b, _) => a + ['-'] + b
  }

  predicate HasPeriod(it: Item) {
    it.StarEvery? || it.OneEvery? || it.RangeEvery?
  }

  predicate Starred(it: Item) {
    it.Star? || it.StarEvery?
  }

  function Text(it: Item): string {
    if HasPeriod(it) then Head(it) + ['/'] + it.p else Head(it)
  }

  function Texts(items: seq<Item>): (r: seq<string>)
    ensures |r| == |items| && forall i :: 0 <= i < |r| ==> r[i] == Text(items[i])
  {
    seq(|items|, i requires 0 <= i < |items| => Text(items[i]))
  }

  function FieldText(items: seq<Item>): string {
    Join(Texts(items), ',')
  }

  /** The first item and what follows it. */
  lemma FieldTextStep(items: seq<Item>)
    requires items != []
    ensures FieldText(items) == Text(items[0]) + if |items| == 1 then "" else [','] + FieldText(items[1..])
  {
    assert Texts(items)[1..] == Texts(items[1..]);
  }

  // ---------------------------------------------------------------- what an item means

  /** Slot k belongs to the item. */
  predicate Denotes(f: Field, it: Item, k: int) {
    match it
    case Star => f.lo <= k < f.size
    case One(a) => k == Value(a)
    case Range(a, b) => Value(a) <= k <= Value(b)
    case StarEvery(p) => f.lo <= k < f.size && Value(p) != 0 && k % Value(p) == 0
    case OneEvery(_, _) => false
    case RangeEvery(a, b, p) => Value(a) <= k <= Value(b) && Value(p) != 0 && (k - Value(a)) % Value(p) == 0
  }

  /** The item has a meaning: no period behind a single number, no period of zero where it
      matters, and no slot outside the table. */
  ghost predicate Meaningful(f: Field, it: Item) {
    && !it.OneEvery?
    && (it.StarEvery? ==> Value(it.p) != 0)
    && (it.RangeEvery? && Value(it.a) <= Value(it.b) ==> Value(it.p) != 0)
    && forall k :: Denotes(f, it, k) ==> k < f.size
  }

  lemma NumeralHasOnlyDigits(n: Num)
    ensures ',' !in n && '/' !in n && '-' !in n && n != "*"
  {
    assert IsDigit(n[0]) && "*"[0] == '*';
  }

  /** Printing and splitting an item is the identity. */
  lemma ItemParts(it: Item)
    ensures Text(it) != "" && ',' !in Text(it) && Head(it) != ""
    ensures Tokens(Text(it), '/') == if HasPeriod(it) then [Head(it), it.p] else [Head(it)]
    ensures !HasPeriod(it) ==> Cut(Text(it), '/') == Head(it)
    ensures Tokens(Head(it), '-') == if it.Range? || it.RangeEvery? then [it.a, it.b] else [Head(it)]
    ensures !(it.Range? || it.RangeEvery?) ==> Cut(Head(it), '-') == Head(it)
    ensures Head(it) == "*" <==> Starred(it)
  {
    if !Starred(it) { NumeralHasOnlyDigits(it.a); }
    if it.Range? || it.RangeEvery? {
      NumeralHasOnlyDigits(it.b);
      OneToken(it.b, '-');
      TokenThenRest(it.a, '-', it.b);
    } else {
      OneToken(Head(it), '-');
    }
    if HasPeriod(it) {
      NumeralHasOnlyDigits(it.p);
      OneToken(it.p, '/');
      TokenThenRest(Head(it), '/', it.p);
    } else {
      OneToken(Head(it), '/');
    }
  }

  lemma PrintedEffect(f: Field, it: Item)
    requires f.lo < f.size
    ensures var e := ItemEffect(f, Text(it));
            match it
            case Star => e == Loop(f, f.lo, f.size - 1, 0, 1)
            case One(a) => e == Loop(f, Value(a), Value(a), 0, 1)
            case Range(a, b) => e == Loop(f, Value(a), Value(b), 0, 1)
            case StarEvery(p) => e == Loop(f, f.lo, f.size - 1, 0, Value(p))
            case OneEvery(_, _) => e == Fails(NullPointer)
            case RangeEvery(a, b, p) => e == Loop(f, Value(a), Value(b), Value(a), Value(p))
  {
    ItemParts(it);
    if !Starred(it) { AtoiIsValue(it.a); }
    if it.Range? || it.RangeEvery? { AtoiIsValue(it.b); }
    if HasPeriod(it) { AtoiIsValue(it.p); }
  }

  lemma LoopMeaning(f: Field, from: int, to: int, start: int, period: int)
    ensures var e := Sets(from, to, start, period);
            Loop(f, from, to, start, period) == e <==>
              (from <= to ==> period != 0) && forall k :: Hits(e, k) ==> 0 <= k < f.size
    ensures Loop(f, from, to, start, period).Sets? ==> Loop(f, from, to, start, period) == Sets(from, to, start, period)
  {
  }

  /** An item compiles exactly when it has a meaning, and then it sets exactly the slots it denotes. */
  lemma ItemCompiles(f: Field, it: Item)
    requires f.lo < f.size
    ensures ItemEffect(f, Text(it)).Sets? <==> Meaningful(f, it)
    ensures ItemEffect(f, Text(it)).Sets? ==> forall k :: Hits(ItemEffect(f, Text(it)), k) <==> Denotes(f, it, k)
  {
    PrintedEffect(f, it);
    if !it.OneEvery? {
      var from := if Starred(it) then f.lo else Value(it.a);
      var to := if Starred(it) then f.size - 1 else if it.One? then Value(it.a) else Value(it.b);
      var start := if it.RangeEvery? then Value(it.a) else 0;
      var period := if HasPeriod(it) then Value(it.p) else 1;
      LoopMeaning(f, from, to, start, period);
      forall k ensures Hits(Sets(from, to, start, period), k) <==> Denotes(f, it, k) {
        HitsDenoted(f, it, k);
      }
    }
  }

  /** The bounds, start and period that the text of an item stands for. */
  lemma HitsDenoted(f: Field, it: Item, k: int)
    requires f.lo < f.size && !it.OneEvery?
    ensures var from := if Starred(it) then f.lo else Value(it.a);
            var to := if Starred(it) then f.size - 1 else if it.One? then Value(it.a) else Value(it.b);
            var start := if it.RangeEvery? then Value(it.a) else 0;
            var period := if HasPeriod(it) then Value(it.p) else 1;
            Hits(Sets(from, to, start, period), k) <==> Denotes(f, it, k)
  {
  }

  lemma FieldItems(items: seq<Item>)
    ensures Tokens(FieldText(items), ',') == Texts(items)
  {
    forall t | t in Texts(items) ensures t != "" && ',' !in t {
      var i :| 0 <= i < |items| && t == Text(items[i]);
      ItemParts(items[i]);
    }
    TokensOfJoin(Texts(items), ',');
  }

  /** Printer and compiler: the printed field compiles exactly when every item has a meaning, and
      then a slot is set exactly when some item denotes it. */
  lemma RoundTrip(f: Field, items: seq<Item>)
    requires f.lo < f.size
    ensures Compiles(f, FieldText(items)) <==> forall i :: 0 <= i < |items| ==> Meaningful(f, items[i])
    ensures Compiles(f, FieldText(items)) ==>
              forall k :: Matches(f, FieldText(items), k) <==> exists i :: 0 <= i < |items| && Denotes(f, items[i], k)
  {
    FieldItems(items);
    var ts := Texts(items);
    forall i | 0 <= i < |items|
      ensures ItemEffect(f, ts[i]).Sets? <==> Meaningful(f, items[i])
      ensures ItemEffect(f, ts[i]).Sets? ==> forall k :: Hits(ItemEffect(f, ts[i]), k) <==> Denotes(f, items[i], k)
    {
      ItemCompiles(f, items[i]);
    }
    assert forall t :: t in ts ==> exists i :: 0 <= i < |ts| && ts[i] == t;
    assert Compiles(f, FieldText(items)) <==> forall i :: 0 <= i < |items| ==> ItemEffect(f, ts[i]).Sets?;
    if Compiles(f, FieldText(items)) {
      forall k ensures Matches(f, FieldText(items), k) <==> exists i :: 0 <= i < |items| && Denotes(f, items[i], k) {
        if i :| 0 <= i < |items| && Denotes(f, items[i], k) {
          assert Hits(ItemEffect(f, ts[i]), k);
        }
        if t :| t in ts && Hits(ItemEffect(f, t), k) {
          var i :| 0 <= i < |ts| && ts[i] == t;
          assert Hits(ItemEffect(f, ts[i]), k);
        }
      }
    }
  }

  // ---------------------------------------------------------------- items as typed

  /** What a star stands for in each field. */
  lemma StarSets(k: int)
    ensures Hits(ItemEffect(MIN, "*"), k) <==> 0 <= k <= 59
    ensures Hits(ItemEffect(HOUR, "*"), k) <==> 0 <= k <= 23
    ensures Hits(ItemEffect(MDAY, "*"), k) <==> 1 <= k <= 31
    ensures Hits(ItemEffect(MONTH, "*"), k) <==> 1 <= k <= 12
    ensures Hits(ItemEffect(WDAY, "*"), k) <==> 0 <= k <= 6
  {
    ItemCompiles(MIN, Star);
    ItemCompiles(HOUR, Star);
    ItemCompiles(MDAY, Star);
    ItemCompiles(MONTH, Star);
    ItemCompiles(WDAY, Star);
  }

  /** Where a printed item makes the program go wrong, and how. */
  lemma ItemFails(f: Field, it: Item)
    requires f.lo < f.size
    ensures ItemEffect(f, Text(it)) == Fails(NullPointer) <==> it.OneEvery?
    ensures ItemEffect(f, Text(it)) == Fails(DivideByZero) <==>
              (it.StarEvery? || (it.RangeEvery? && Value(it.a) <= Value(it.b))) && Value(it.p) == 0
    ensures ItemEffect(f, Text(it)) == Fails(OutsideTable) <==> exists k :: Denotes(f, it, k) && k >= f.size
  {
    PrintedEffect(f, it);
    ItemCompiles(f, it);
  }

  /** Any text between commas without a slash, cut at its dashes: pieces behind the second are ignored, and
      what is no number counts as atoi reads it. */
  lemma TypedPlain(f: Field, ends: seq<string>)
    requires ends != [] && forall t :: t in ends ==> t != "" && '-' !in t && '/' !in t
    ensures var item := Join(ends, '-');
            ItemEffect(f, item) ==
            if item == "*" then Loop(f, f.lo, f.size - 1, 0, 1)
            else if |ends| == 1 then Loop(f, Atoi(item), Atoi(item), 0, 1)
            else Loop(f, Atoi(ends[0]), Atoi(ends[1]), 0, 1)
  {
    var item := Join(ends, '-');
    JoinClean(ends, '-', '/');
    OneToken(item, '/');
    TokensOfJoin(ends, '-');
    HeadAlone(ends);
  }

  /** Any text with slashes, cut at them and its first piece at the dashes: pieces behind the second are
      ignored. */
  lemma TypedPeriod(f: Field, ends: seq<string>, more: seq<string>)
    requires ends != [] && forall t :: t in ends ==> t != "" && '-' !in t && '/' !in t
    requires more != [] && forall t :: t in more ==> t != "" && '/' !in t
    ensures var head := Join(ends, '-');
            ItemEffect(f, Join([head] + more, '/')) ==
            if head == "*" then Loop(f, f.lo, f.size - 1, 0, Atoi(more[0]))
            else if |ends| == 1 then Fails(NullPointer)
            else Loop(f, Atoi(ends[0]), Atoi(ends[1]), Atoi(ends[0]), Atoi(more[0]))
  {
    var head := Join(ends, '-');
    var parts := [head] + more;
    assert parts[0] == head && parts[1] == more[0];
    assert Tokens(Join(parts, '/'), '/') == parts by {
      JoinClean(ends, '-', '/');
      TokensOfJoin(parts, '/');
    }
    TokensOfJoin(ends, '-');
  }

  lemma HeadAlone(ends: seq<string>)
    requires ends != [] && forall t :: t in ends ==> t != "" && '-' !in t
    ensures |ends| == 1 ==> Cut(Join(ends, '-'), '-') == Join(ends, '-')
    ensures |ends| > 1 ==> Join(ends, '-') != "*"
  {
    assert ends[0] in ends;
    if |ends| == 1 {
      OneToken(ends[0], '-');
    } else {
      assert Join(ends, '-')[|ends[0]|] == '-';
    }
  }

  lemma {:induction false} JoinClean(items: seq<string>, d: char, c: char)
    requires items != [] && c != d && forall t :: t in items ==> t != "" && c !in t
    ensures Join(items, d) != "" && c !in Join(items, d)
  {
    assert items[0] in items;
    if |items| > 1 {
      assert forall t :: t in items[1..] ==> t in items;
      JoinClean(items[1..], d, c);
    }
  }

  lemma DashEffect(f: Field, n: Num)
    requires f.lo < f.size
    ensures ItemEffect(f, "-" + n) == if Value(n) == 0 then Sets(0, 0, 0, 1) else Fails(OutsideTable)
  {
    var item := "-" + n;
    NumeralHasOnlyDigits(n);
    OneToken(item, '/');
    DelimiterFirst('-', n);
    OneToken(n, '-');
    assert item == ['-'] + n == ['-'] + (n + "");
    AtoiReads(n, "");
    var v := 0 - Value(n);
    assert Hits(Sets(v, v, 0, 1), v);
  }

  lemma SlashEffect(f: Field, n: Num)
    requires f.lo < f.size
    ensures ItemEffect(f, "/" + n) == Sets(0, 0, 0, 1)
  {
    var item := "/" + n;
    NumeralHasOnlyDigits(n);
    DelimiterFirst('/', n);
    OneToken(n, '/');
    assert item == ['/'] + n;
    OneToken(item, '-');
    AtoiSkips('/', n);
  }
}
