/** make_timetable of ssu_crond.c: one comma-separated field compiled into a table of slots. The
    program has the same code five times, with these bounds. */
module TimeTable {
  import opened CText

  /** `*` stands for the slots lo <= k < size; the table has `size` slots. */
  datatype Field = Field(lo: nat, size: nat)

  const MIN := Field(0, 60)
  const HOUR := Field(0, 24)
  const MDAY := Field(1, 32)
  const MONTH := Field(1, 13)
  const WDAY := Field(0, 7)

  datatype Fault = NullPointer | DivideByZero | OutsideTable

  /** What one comma item does to the table: the slots it sets, or where the program goes wrong. */
  datatype Effect = Fails(fault: Fault) | Sets(from: int, to: int, start: int, period: int)

  /** Slot k is set: from <= k <= to, and k is a whole number of periods behind start. */
  predicate Hits(e: Effect, k: int) {
    e.Sets? && e.from <= k <= e.to && e.period != 0 && (k - e.start) % e.period == 0
  }

  /** A loop over from..to that stores into the slots it hits. */
  function Loop(f: Field, from: int, to: int, start: int, period: int): Effect {
    if from <= to && period == 0 then Fails(DivideByZero)
    else if exists k :: from <= k <= to && Hits(Sets(from, to, start, period), k) && !(0 <= k < f.size) then
      Fails(OutsideTable)
    else Sets(from, to, start, period)
  }

  /** Lines 156 to 193 for one item. */
  function ItemEffect(f: Field, item: string): Effect {
    var parts := Tokens(item, '/');
    if parts == [] then Fails(NullPointer)
    else if |parts| == 1 then
      var buf := Cut(item, '/');
      var ends := Tokens(buf, '-');
      if |ends| < 2 then
        var text := Cut(buf, '-');
        if text == "*" then Loop(f, f.lo, f.size - 1, 0, 1) else Loop(f, Atoi(text), Atoi(text), 0, 1)
      else Loop(f, Atoi(ends[0]), Atoi(ends[1]), 0, 1)
    else if parts[0] == "*" then Loop(f, f.lo, f.size - 1, 0, Atoi(parts[1]))
    else
      var ends := Tokens(parts[0], '-');
      if |ends| < 2 then Fails(NullPointer)
      else Loop(f, Atoi(ends[0]), Atoi(ends[1]), Atoi(ends[0]), Atoi(parts[1]))
  }

  /** The field compiles: no item makes the program go wrong. */
  predicate Compiles(f: Field, text: string) {
    forall item :: item in Tokens(text, ',') ==> ItemEffect(f, item).Sets?
  }

  /** Some comma item sets slot k. */
  predicate Matches(f: Field, text: string, k: int) {
    exists item :: item in Tokens(text, ',') && Hits(ItemEffect(f, item), k)
  }

  // ---------------------------------------------------------------- the tables in place

  /** One of the loops that store into a table. */
  method Store(f: Field, table: array<bool>, from: int, to: int, start: int, period: int)
    requires table.Length == f.size && Loop(f, from, to, start, period).Sets?
    modifies table
    ensures forall k :: 0 <= k < table.Length ==>
              table[k] == (old(table[k]) || Hits(Sets(from, to, start, period), k))
  {
    var k := from;
    while k <= to
      invariant from <= k && (k <= to + 1 || k == from)
      invariant forall i :: 0 <= i < table.Length ==>
        table[i] == (old(table[i]) || (i < k && Hits(Sets(from, to, start, period), i)))
    {
      if (k - start) % period == 0 {
        assert Hits(Sets(from, to, start, period), k);
        table[k] := true;
      }
      k := k + 1;
    }
  }

  method StoreItem(f: Field, table: array<bool>, item: string)
    requires table.Length == f.size && ItemEffect(f, item).Sets?
    modifies table
    ensures forall k :: 0 <= k < table.Length ==> table[k] == (old(table[k]) || Hits(ItemEffect(f, item), k))
  {
    var parts := Tokens(item, '/');
    if |parts| == 1 {
      var buf := Cut(item, '/');
      var ends := Tokens(buf, '-');
      if |ends| < 2 {
        var text := Cut(buf, '-');
        if text == "*" {
          Store(f, table, f.lo, f.size - 1, 0, 1);
        } else {
          Store(f, table, Atoi(text), Atoi(text), 0, 1);
        }
      } else {
        Store(f, table, Atoi(ends[0]), Atoi(ends[1]), 0, 1);
      }
    } else if parts[0] == "*" {
      Store(f, table, f.lo, f.size - 1, 0, Atoi(parts[1]));
    } else {
      var ends := Tokens(parts[0], '-');
      Store(f, table, Atoi(ends[0]), Atoi(ends[1]), Atoi(ends[0]), Atoi(parts[1]));
    }
  }

  /** One field of make_timetable: clear the table, split at commas, store item by item. The
      table refines the matcher. */
  method MakeField(f: Field, table: array<bool>, text: string)
    requires table.Length == f.size && Compiles(f, text)
    modifies table
    ensures forall k :: 0 <= k < f.size ==> (table[k] <==> Matches(f, text, k))
  {
    for k := 0 to table.Length
      invariant forall i :: 0 <= i < k ==> !table[i]
    {
      table[k] := false;
    }
    var buf := Tokens(text, ',');
    for j := 0 to |buf|
      invariant forall k :: 0 <= k < f.size ==>
        (table[k] <==> exists i :: 0 <= i < j && Hits(ItemEffect(f, buf[i]), k))
    {
      assert buf[j] in buf;
      StoreItem(f, table, buf[j]);
    }
    forall k | 0 <= k < f.size ensures table[k] <==> Matches(f, text, k) {
      assert table[k] ==> exists i :: 0 <= i < |buf| && buf[i] in buf && Hits(ItemEffect(f, buf[i]), k);
    }
  }

  /** make_timetable. */
  method MakeTimetable(token: seq<string>, min: array<bool>, hour: array<bool>, mday: array<bool>,
                       month: array<bool>, wday: array<bool>)
    requires |token| >= 5
    requires min.Length == 60 && hour.Length == 24 && mday.Length == 32 && month.Length == 13 && wday.Length == 7
    requires Compiles(MIN, token[0]) && Compiles(HOUR, token[1]) && Compiles(MDAY, token[2])
    requires Compiles(MONTH, token[3]) && Compiles(WDAY, token[4])
    modifies min, hour, mday, month, wday
    ensures forall k :: 0 <= k < 60 ==> (min[k] <==> Matches(MIN, token[0], k))
    ensures forall k :: 0 <= k < 24 ==> (hour[k] <==> Matches(HOUR, token[1], k))
    ensures forall k :: 0 <= k < 32 ==> (mday[k] <==> Matches(MDAY, token[2], k))
    ensures forall k :: 0 <= k < 13 ==> (month[k] <==> Matches(MONTH, token[3], k))
    ensures forall k :: 0 <= k < 7 ==> (wday[k] <==> Matches(WDAY, token[4], k))
  {
    MakeField(MIN, min, token[0]);
    MakeField(HOUR, hour, token[1]);
    MakeField(MDAY, mday, token[2]);
    MakeField(MONTH, month, token[3]);
    MakeField(WDAY, wday, token[4]);
  }

  // ---------------------------------------------------------------- the table as a set of items

  /** Order and repetition of the items do not matter, and more items set more slots. */
  lemma ItemsAsSet(f: Field, items: seq<string>, others: seq<string>)
    requires forall t :: t in items ==> t != "" && ',' !in t
    requires forall t :: t in items ==> t in others
    requires forall t :: t in others ==> t != "" && ',' !in t
    ensures Compiles(f, Join(others, ',')) ==> Compiles(f, Join(items, ','))
    ensures forall k :: Matches(f, Join(items, ','), k) ==> Matches(f, Join(others, ','), k)
    ensures (forall t :: t in others ==> t in items) ==>
              (Compiles(f, Join(items, ',')) <==> Compiles(f, Join(others, ','))) &&
              forall k :: Matches(f, Join(items, ','), k) <==> Matches(f, Join(others, ','), k)
  {
    TokensOfJoin(items, ',');
    TokensOfJoin(others, ',');
  }
}
