/** alloc.c itself: the two tables updated in place, the scan with its single countdown. */
module AllocatorInPlace {
  import opened Allocator
  import opened Wrappers

  class Arena {
    const base: int
    const memAlloc: array<bool>
    const memOffset: array<int>
    /** The blocks the callers own; the program does not keep them. */
    ghost var live: seq<Block>

    ghost predicate Ready()
      reads this, memAlloc, memOffset
    {
      memAlloc.Length == memOffset.Length && Valid(View())
    }

    ghost function View(): Page
      reads this, memAlloc, memOffset
    {
      Page(memAlloc[..], memOffset[..], live)
    }

    /** init_alloc. */
    constructor (base: int, n: nat)
      ensures this.base == base && fresh(memAlloc) && fresh(memOffset)
      ensures Ready() && View() == Fresh(n)
      ensures memAlloc.Length == memOffset.Length == n && live == []
      ensures forall k :: 0 <= k < n ==> !memAlloc[k] && memOffset[k] == 0
    {
      this.base := base;
      memAlloc := new bool[n];
      memOffset := new int[n];
      live := [];
      new;
      for i := 0 to n
        invariant forall k :: 0 <= k < i ==> !memAlloc[k] && memOffset[k] == 0
        invariant live == []
      {
        memAlloc[i] := false;
        memOffset[i] := 0;
      }
      assert memAlloc[..] == Fresh(n).marks && memOffset[..] == Fresh(n).sizes;
    }

    method MarkUnits(start: nat, n: nat, v: bool)
      requires start + n <= memAlloc.Length
      modifies memAlloc
      ensures memAlloc[..] == Mark(old(memAlloc[..]), start, n, v)
    {
      for j := 0 to n
        invariant forall k :: 0 <= k < memAlloc.Length ==>
          memAlloc[k] == if start <= k < start + j then v else old(memAlloc[k])
      {
        memAlloc[start + j] := v;
      }
    }

    /** The scan: `count` is what the current free run still lacks. The loop is written to count to the
        number of bytes, so it leaves the bitmap exactly when a request that is not refused outright
        finds no place. */
    method Scan(size: int) returns (start: Option<nat>, outside: bool)
      ensures start == AllocStart(memAlloc[..], size)
      ensures outside <==> memAlloc.Length > 0 && size % 8 == 0 && size <= 8 * memAlloc.Length && start.None?
    {
      outside := false;
      if size % 8 != 0 || size > 8 * memAlloc.Length {
        return None, false;
      }
      var n := size / 8;
      var count := n;
      ghost var marks := memAlloc[..];
      for i := 0 to 8 * memAlloc.Length
        invariant i <= memAlloc.Length && !outside
        invariant n < 0 ==> count < 0
        invariant n == 0 ==> count == -i && forall k :: 0 <= k < i ==> !marks[k]
        invariant n > 0 ==> 0 < count <= n && n - count <= i
        invariant n > 0 ==> forall k :: i - (n - count) <= k < i ==> !marks[k]
        invariant n > 0 ==> n - count < i ==> marks[i - (n - count) - 1]
        invariant n > 0 ==> forall s :: s + n <= i ==> !Fits(marks, s, n)
      {
        if i == memAlloc.Length {
          return None, true;
        }
        if !memAlloc[i] {
          count := count - 1;
        } else {
          count := n;
        }
        if count == 0 {
          assert n > 0 ==> Fits(marks, i - n + 1, n) && forall s :: s < i - n + 1 ==> !Fits(marks, s, n);
          assert n == 0 ==> marks[i];
          return Some(i - n + 1), false;
        }
        forall s | n > 0 && s + n == i + 1 ensures !Fits(marks, s, n) {
          assert s <= i - (n - count) && (n - count < i + 1 ==> marks[i - (n - count)]);
        }
      }
      return None, false;
    }

    /** alloc: a pointer into the page, or 0 for NULL. `outside`: the size would be stored behind the table,
        which only a request for no bytes can bring about. */
    method Alloc(size: int) returns (ptr: int, outside: bool)
      requires Ready()
      modifies this, memAlloc, memOffset
      ensures outside <==> !InTable(old(memAlloc[..]), size)
      ensures View() == if outside then old(View()) else Allocator.Alloc(old(View()), size)
      ensures size != 0 ==> Ready() && !outside
      ensures ptr == match AllocStart(old(memAlloc[..]), size) case None => 0 case Some(u) => base + 8 * u
    {
      AllocKeeps(View(), size);
      var start, _ := Scan(size);
      if start.None? {
        return 0, false;
      }
      MarkUnits(start.value, size / 8, true);
      outside := start.value == memOffset.Length;
      if outside {
        return base + 8 * start.value, true;
      }
      memOffset[start.value] := size / 8;
      if size != 0 { live := live + [Block(start.value, size / 8)]; }
      ptr := base + 8 * start.value;
    }

    /** dealloc of any pointer into the page. */
    method Dealloc(ptr: int)
      requires Ready() && base <= ptr < base + 8 * memAlloc.Length
      modifies this`live, memAlloc
      ensures View() == Allocator.Dealloc(old(View()), (ptr - base) / 8)
      ensures (exists i :: 0 <= i < |old(live)| && old(live)[i].start == (ptr - base) / 8) ==> Ready()
    {
      var u := (ptr - base) / 8;
      ghost var before := View();
      MarkUnits(u, memOffset[u], false);
      live := Drop(live, u);
      if i :| 0 <= i < |before.live| && before.live[i].start == u {
        DeallocKeeps(before, i);
      }
    }
  }
}
