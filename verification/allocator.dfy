/** The first-fit allocator of alloc.c on values: a bitmap of 8-byte units and a table of sizes. */
module Allocator {
  import opened Wrappers

  /** A block handed out and not yet freed, in units. */
  datatype Block = Block(start: nat, len: nat)

  /** mem_alloc, mem_offset, and the blocks the callers still own. */
  datatype Page = Page(marks: seq<bool>, sizes: seq<int>, live: seq<Block>)

  predicate Fits(marks: seq<bool>, start: int, n: int) {
    0 <= start && start + n <= |marks| && forall k :: start <= k < start + n ==> !marks[k]
  }

  /** The lowest start from `from` on where n units are free. */
  function FirstFit(marks: seq<bool>, n: nat, from: nat): (r: Option<nat>)
    ensures r.Some? ==>
              from <= r.value && Fits(marks, r.value, n) && forall s :: from <= s < r.value ==> !Fits(marks, s, n)
    ensures r.None? ==> forall s :: from <= s ==> !Fits(marks, s, n)
    decreases |marks| - from
  {
    if from + n > |marks| then None
    else if Fits(marks, from, n) then Some(from)
    else if from == |marks| then None
    else FirstFit(marks, n, from + 1)
  }

  function FirstMarked(marks: seq<bool>, from: nat): (r: Option<nat>)
    requires from <= |marks|
    ensures r.Some? ==> from <= r.value < |marks| && marks[r.value] && forall k :: from <= k < r.value ==> !marks[k]
    ensures r.None? ==> forall k :: from <= k < |marks| ==> !marks[k]
    decreases |marks| - from
  {
    if from == |marks| then None
    else if marks[from] then Some(from)
    else FirstMarked(marks, from + 1)
  }

  /** The unit alloc returns, or None for NULL. A request for no bytes gets the unit behind the
      first marked one: the countdown starts at zero and only a marked unit brings it back there. */
  function AllocStart(marks: seq<bool>, size: int): (r: Option<nat>)
    ensures size > 0 && r.Some? ==>
              size % 8 == 0 && Fits(marks, r.value, size / 8)
              && forall u :: 0 <= u < r.value ==> !Fits(marks, u, size / 8)
    ensures size > 0 && r.None? ==> size % 8 != 0 || forall u :: 0 <= u ==> !Fits(marks, u, size / 8)
    ensures size == 0 && r.Some? ==>
              0 < r.value <= |marks| && marks[r.value - 1] && forall k :: 0 <= k < r.value - 1 ==> !marks[k]
    ensures size == 0 && r.None? ==> forall k :: 0 <= k < |marks| ==> !marks[k]
    ensures size < 0 ==> r.None?
  {
    if size % 8 != 0 || size > 8 * |marks| || size < 0 then None
    else if size == 0 then
      match FirstMarked(marks, 0)
      case None => None
      case Some(f) => Some(f + 1)
    else FirstFit(marks, size / 8, 0)
  }

  function Mark(marks: seq<bool>, start: nat, n: nat, v: bool): (r: seq<bool>)
    requires start + n <= |marks|
    ensures |r| == |marks|
    ensures forall k :: 0 <= k < |r| ==> r[k] == if start <= k < start + n then v else marks[k]
  {
    seq(|marks|, k requires 0 <= k < |marks| => if start <= k < start + n then v else marks[k])
  }

  predicate Covers(b: Block, k: int) {
    b.start <= k < b.start + b.len
  }

  ghost predicate Marked(live: seq<Block>, k: int) {
    exists i :: 0 <= i < |live| && Covers(live[i], k)
  }

  /** Live blocks are inside the page and apart, a unit is marked exactly when one of them covers
      it, and the size table is right at their starts and inside the page everywhere. */
  ghost predicate Valid(p: Page) {
    && |p.marks| == |p.sizes|
    && (forall u :: 0 <= u < |p.sizes| ==> 0 <= p.sizes[u] && u + p.sizes[u] <= |p.marks|)
    && (forall i :: 0 <= i < |p.live| ==>
          var b := p.live[i]; b.len > 0 && b.start + b.len <= |p.marks| && p.sizes[b.start] == b.len)
    && (forall i, j, k :: 0 <= i < j < |p.live| && Covers(p.live[i], k) ==> !Covers(p.live[j], k))
    && (forall k :: 0 <= k < |p.marks| ==> (p.marks[k] <==> Marked(p.live, k)))
  }

  /** The store of a request for no bytes stays inside the size table. */
  predicate InTable(marks: seq<bool>, size: int) {
    AllocStart(marks, size) != Some(|marks|)
  }

  lemma InTableExactly(marks: seq<bool>, size: int)
    ensures InTable(marks, size) <==>
              !(size == 0 && marks != [] && marks[|marks| - 1] && forall k :: 0 <= k < |marks| - 1 ==> !marks[k])
  {
  }

  function Alloc(p: Page, size: int): Page
    requires |p.marks| == |p.sizes| && InTable(p.marks, size)
  {
    match AllocStart(p.marks, size)
    case None => p
    case Some(start) =>
      if size == 0 then p.(sizes := p.sizes[start := 0])
      else Page(Mark(p.marks, start, size / 8, true), p.sizes[start := size / 8], p.live + [Block(start, size / 8)])
  }

  /** Clearing what the table says of unit u stays inside the page. */
  predicate Freeable(p: Page, u: nat) {
    u < |p.sizes| && 0 <= p.sizes[u] && u + p.sizes[u] <= |p.marks|
  }

  /** dealloc of the pointer to unit u: the size table is read but not cleared. */
  function Dealloc(p: Page, u: nat): Page
    requires Freeable(p, u)
  {
    Page(Mark(p.marks, u, p.sizes[u], false), p.sizes, Drop(p.live, u))
  }

  /** Without the block that starts at u. */
  function Drop(live: seq<Block>, u: nat): (r: seq<Block>)
  {
    if live == [] then []
    else if live[0].start == u then live[1..]
    else [live[0]] + Drop(live[1..], u)
  }

  // ---------------------------------------------------------------- one operation

  /** alloc stays inside its tables and keeps the page valid; for no bytes, exactly when the unit behind the
      first marked one is a unit of the page and not the start of a live block. */
  lemma AllocKeeps(p: Page, size: int)
    requires Valid(p)
    ensures InTable(p.marks, size) && Valid(Alloc(p, size)) <==>
              size != 0 ||
              match AllocStart(p.marks, 0)
              case None => true
              case Some(u) => u < |p.marks| && forall i :: 0 <= i < |p.live| ==> p.live[i].start != u
  {
    if !InTable(p.marks, size) { return; }
    var q := Alloc(p, size);
    match AllocStart(p.marks, size)
    case None =>
    case Some(start) =>
      if size != 0 {
        AddBlock(p, start, size / 8);
      } else {
        forall i | 0 <= i < |p.live| && p.live[i].start == start ensures !Valid(q) {
          assert q.live[i].len != q.sizes[start];
        }
      }
  }

  /** A request gets units of its own, an eighth of its bytes, and nothing else changes; one for no bytes
      clears the size of the unit it gets. */
  lemma AllocGives(p: Page, size: int)
    requires Valid(p) && InTable(p.marks, size)
    ensures match AllocStart(p.marks, size)
            case None => Alloc(p, size) == p
            case Some(u) =>
              var q, n := Alloc(p, size), size / 8;
              && 8 * n == size && u + n <= |p.marks| == |q.marks|
              && (forall k :: 0 <= k < |p.marks| ==> (q.marks[k] <==> p.marks[k] || u <= k < u + n))
              && (forall k :: u <= k < u + n ==> !p.marks[k])
              && q.live == (if n == 0 then p.live else p.live + [Block(u, n)])
              && |q.sizes| == |p.sizes| && q.sizes[u] == n
              && (forall k :: 0 <= k < |p.sizes| && k != u ==> q.sizes[k] == p.sizes[k])
  {
  }

  lemma AddBlock(p: Page, start: nat, n: nat)
    requires Valid(p) && n > 0 && Fits(p.marks, start, n)
    ensures Valid(Page(Mark(p.marks, start, n, true), p.sizes[start := n], p.live + [Block(start, n)]))
  {
    var b := Block(start, n);
    var q := Page(Mark(p.marks, start, n, true), p.sizes[start := n], p.live + [b]);
    forall i, k | 0 <= i < |p.live| && Covers(p.live[i], k) ensures !Covers(b, k) {
      assert p.marks[k];
    }
    forall i | 0 <= i < |p.live| ensures p.live[i].start != start {
      assert Covers(p.live[i], p.live[i].start);
      assert Marked(p.live, p.live[i].start);
    }
    forall k | 0 <= k < |q.marks| ensures q.marks[k] <==> Marked(q.live, k) {
      if Covers(b, k) { assert Covers(q.live[|p.live|], k); }
      if i :| 0 <= i < |p.live| && Covers(p.live[i], k) { assert Covers(q.live[i], k); }
    }
  }

  lemma {:induction false} DropAt(live: seq<Block>, i: nat)
    requires i < |live| && forall j :: 0 <= j < i ==> live[j].start != live[i].start
    ensures Drop(live, live[i].start) == live[..i] + live[i + 1..]
  {
    if i > 0 {
      DropAt(live[1..], i - 1);
      assert live[..i] + live[i + 1..] == [live[0]] + (live[1..][..i - 1] + live[1..][i..]);
    }
  }

  /** dealloc of a live block gives back exactly its units. */
  lemma DeallocKeeps(p: Page, i: nat)
    requires Valid(p) && i < |p.live|
    ensures Freeable(p, p.live[i].start) && Valid(Dealloc(p, p.live[i].start))
    ensures var b, q := p.live[i], Dealloc(p, p.live[i].start);
            && q.live == p.live[..i] + p.live[i + 1..] && q.sizes == p.sizes && |q.marks| == |p.marks|
            && (forall k :: 0 <= k < |p.marks| ==>
                  (q.marks[k] <==> p.marks[k] && !(b.start <= k < b.start + b.len)))
            && (forall k :: b.start <= k < b.start + b.len ==> p.marks[k])
  {
    var b := p.live[i];
    forall k | b.start <= k < b.start + b.len ensures p.marks[k] { assert Covers(p.live[i], k); }
    StartsDiffer(p, i);
    DropAt(p.live, i);
    var q := Dealloc(p, b.start);
    var rest := p.live[..i] + p.live[i + 1..];
    assert q.live == rest;
    forall k | 0 <= k < |q.marks| ensures q.marks[k] <==> Marked(rest, k) {
      MarkedWithout(p, i, k);
    }
    forall j | 0 <= j < |rest| ensures rest[j] == p.live[if j < i then j else j + 1] {
    }
  }

  lemma StartsDiffer(p: Page, i: nat)
    requires Valid(p) && i < |p.live|
    ensures forall j :: 0 <= j < |p.live| && j != i ==> p.live[j].start != p.live[i].start
  {
    var b := p.live[i];
    forall j | 0 <= j < |p.live| && j != i ensures p.live[j].start != b.start {
      assert Covers(p.live[j], p.live[j].start) && Covers(b, b.start);
    }
  }

  /** Another live block covers k exactly when some block does and this one does not. */
  lemma MarkedWithout(p: Page, i: nat, k: int)
    requires Valid(p) && i < |p.live|
    ensures Marked(p.live[..i] + p.live[i + 1..], k) <==> Marked(p.live, k) && !Covers(p.live[i], k)
  {
    var rest := p.live[..i] + p.live[i + 1..];
    if j :| 0 <= j < |p.live| && Covers(p.live[j], k) {
      assert j != i ==> rest[if j < i then j else j - 1] == p.live[j];
    }
    if j :| 0 <= j < |rest| && Covers(rest[j], k) {
      assert rest[j] == p.live[if j < i then j else j + 1];
    }
  }

  /** Freeing a unit where no live block starts is harmless exactly when the stale size there
      reaches into no live block. */
  lemma StrayDealloc(p: Page, u: nat)
    requires Valid(p) && u < |p.sizes| && forall i :: 0 <= i < |p.live| ==> p.live[i].start != u
    ensures Valid(Dealloc(p, u)) <==> forall k :: u <= k < u + p.sizes[u] ==> !p.marks[k]
  {
    DropNothing(p.live, u);
    var q := Dealloc(p, u);
    if forall k :: u <= k < u + p.sizes[u] ==> !p.marks[k] {
      assert q == p;
    } else {
      var k :| u <= k < u + p.sizes[u] && p.marks[k];
      assert !q.marks[k] && Marked(q.live, k);
    }
  }

  lemma {:induction false} DropNothing(live: seq<Block>, u: nat)
    requires forall i :: 0 <= i < |live| ==> live[i].start != u
    ensures Drop(live, u) == live
  {
    if live != [] { DropNothing(live[1..], u); }
  }

  // ---------------------------------------------------------------- conservation

  function CountMarks(marks: seq<bool>): nat {
    if marks == [] then 0 else CountMarks(marks[..|marks| - 1]) + if marks[|marks| - 1] then 1 else 0
  }

  function TotalLen(live: seq<Block>): nat {
    if live == [] then 0 else TotalLen(live[..|live| - 1]) + live[|live| - 1].len
  }

  lemma {:induction false} CountCleared(marks: seq<bool>, start: nat, n: nat)
    requires start + n <= |marks| && forall k :: start <= k < start + n ==> marks[k]
    ensures CountMarks(Mark(marks, start, n, false)) + n == CountMarks(marks)
    decreases |marks|
  {
    if marks != [] {
      var m := |marks| - 1;
      var r := Mark(marks, start, n, false);
      if start + n <= m {
        assert r[..m] == Mark(marks[..m], start, n, false);
        CountCleared(marks[..m], start, n);
      } else if n > 0 {
        assert r[..m] == Mark(marks[..m], start, n - 1, false);
        CountCleared(marks[..m], start, n - 1);
      } else {
        assert r == marks;
      }
    }
  }

  lemma {:induction false} CountNone(marks: seq<bool>)
    requires forall k :: 0 <= k < |marks| ==> !marks[k]
    ensures CountMarks(marks) == 0
  {
    if marks != [] { CountNone(marks[..|marks| - 1]); }
  }

  /** The marked units are exactly as many as the callers own. */
  lemma {:induction false} Conservation(p: Page)
    requires Valid(p)
    ensures CountMarks(p.marks) == TotalLen(p.live)
    decreases |p.live|
  {
    if p.live == [] {
      CountNone(p.marks);
    } else {
      var i := |p.live| - 1;
      var b := p.live[i];
      DeallocKeeps(p, i);
      assert p.live[..i] + p.live[i + 1..] == p.live[..i];
      forall k | b.start <= k < b.start + b.len ensures p.marks[k] { assert Covers(p.live[i], k); }
      CountCleared(p.marks, b.start, b.len);
      Conservation(Dealloc(p, b.start));
    }
  }

  // ---------------------------------------------------------------- whole runs

  datatype Op = AllocOp(size: int) | FreeOp(i: nat)

  /** init_alloc. */
  function Fresh(n: nat): Page {
    Page(seq(n, _ => false), seq(n, _ => 0), [])
  }

  /** A request for some bytes, or a pointer that is still live: what the callers owe. */
  predicate Proper(p: Page, op: Op) {
    match op
    case AllocOp(size) => size != 0
    case FreeOp(i) => i < |p.live|
  }

  /** The operation stays inside the tables. */
  predicate Defined(p: Page, op: Op) {
    match op
    case AllocOp(size) => |p.marks| == |p.sizes| && InTable(p.marks, size)
    case FreeOp(i) => i < |p.live| && Freeable(p, p.live[i].start)
  }

  function Do(p: Page, op: Op): Page
    requires Defined(p, op)
  {
    match op
    case AllocOp(size) => Alloc(p, size)
    case FreeOp(i) => Dealloc(p, p.live[i].start)
  }

  /** On a valid page whatever the callers may ask for is defined, and keeps the page valid. */
  lemma DoKeeps(p: Page, op: Op)
    requires Valid(p) && Proper(p, op)
    ensures Defined(p, op) && Valid(Do(p, op)) && |Do(p, op).marks| == |p.marks|
  {
    match op
    case AllocOp(size) => AllocKeeps(p, size);
    case FreeOp(i) => DeallocKeeps(p, i);
  }

  /** The operations lead from a fresh page to `p`. */
  ghost predicate Reaches(n: nat, ops: seq<Op>, p: Page)
    decreases |ops|
  {
    if ops == [] then p == Fresh(n)
    else
      var op := ops[|ops| - 1];
      exists q :: Reaches(n, ops[..|ops| - 1], q) && Proper(q, op) && Defined(q, op) && p == Do(q, op)
  }

  /** After any sequence of requests and frees of live blocks the page is valid, and conserved. */
  lemma {:induction false} RunsValid(n: nat, ops: seq<Op>, p: Page)
    requires Reaches(n, ops, p)
    ensures Valid(p) && |p.marks| == n && CountMarks(p.marks) == TotalLen(p.live)
    decreases |ops|
  {
    if ops != [] {
      var op := ops[|ops| - 1];
      var q :| Reaches(n, ops[..|ops| - 1], q) && Proper(q, op) && Defined(q, op) && p == Do(q, op);
      RunsValid(n, ops[..|ops| - 1], q);
      DoKeeps(q, op);
    }
    Conservation(p);
  }

  /** No run gets stuck: whatever the callers may do next is defined. */
  lemma RunsGoOn(n: nat, ops: seq<Op>, p: Page, op: Op)
    requires Reaches(n, ops, p) && Proper(p, op)
    ensures Defined(p, op) && Reaches(n, ops + [op], Do(p, op))
  {
    RunsValid(n, ops, p);
    DoKeeps(p, op);
    var more := ops + [op];
    assert more[..|more| - 1] == ops && more[|more| - 1] == op;
    assert Reaches(n, more[..|more| - 1], p);
  }

  /** A block freed right after it was handed out leaves the bitmap as it was. */
  lemma AllocThenDealloc(p: Page, size: int)
    requires Valid(p) && size != 0 && AllocStart(p.marks, size).Some?
    ensures var u, q := AllocStart(p.marks, size).value, Alloc(p, size);
            Valid(q) && Freeable(q, u) && Dealloc(q, u).marks == p.marks
  {
    AllocKeeps(p, size);
  }

  /** With no block live the whole page can be had in one piece, although no size was ever cleared. */
  lemma NothingLeaks(p: Page)
    requires Valid(p) && p.live == [] && |p.marks| > 0
    ensures AllocStart(p.marks, 8 * |p.marks|) == Some(0)
  {
    var n := |p.marks|;
    forall k | 0 <= k < n ensures !p.marks[k] {
      assert !Marked(p.live, k);
    }
    assert Fits(p.marks, 0, n) && 8 * n / 8 == n && 8 * n % 8 == 0;
    assert FirstFit(p.marks, n, 0) == Some(0);
  }

  /** The places, in the list of live blocks, of the blocks freed one after the other. */
  predicate FreesAll(live: seq<Block>, order: seq<nat>) {
    |order| == |live| && forall k :: 0 <= k < |order| ==> order[k] < |order| - k
  }

  ghost function FreeAll(p: Page, order: seq<nat>): (q: Page)
    requires Valid(p) && FreesAll(p.live, order)
    ensures Valid(q) && q.live == [] && |q.marks| == |p.marks|
    decreases |order|
  {
    if order == [] then p
    else
      DeallocKeeps(p, order[0]);
      FreeAll(Dealloc(p, p.live[order[0]].start), order[1..])
  }

  /** Freeing every live block, in any order, lets the whole page be had again. */
  lemma FreeInAnyOrder(p: Page, order: seq<nat>)
    requires Valid(p) && FreesAll(p.live, order) && |p.marks| > 0
    ensures AllocStart(FreeAll(p, order).marks, 8 * |p.marks|) == Some(0)
  {
    NothingLeaks(FreeAll(p, order));
  }
}
