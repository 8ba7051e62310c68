/** What planning and applying do to the destination: the exact result, exactly when it is the mirror the
    program is for, and exactly when a second run finds nothing to do. */
module Synced {
  import opened Sync

  predicate Distinct(names: seq<string>) {
    forall i, j :: 0 <= i < j < |names| ==> names[i] != names[j]
  }

  /** readdir yields every name of the directory once. */
  ghost predicate Lists(names: seq<string>, d: Dir) {
    Distinct(names) && forall n :: n in names <==> n in d
  }

  predicate IsDirectory(d: Dir, name: string) {
    name in d && d[name].Directory?
  }

  ghost predicate SwapIn(names: seq<string>, m: string) {
    exists n :: n in names && m == Swp(n)
  }

  lemma SwpInjective(a: string, b: string)
    requires Swp(a) == Swp(b)
    ensures a == b
  {
    assert a == Swp(a)[..|Swp(a)| - 4];
    assert b == Swp(b)[..|Swp(b)| - 4];
  }

  lemma {:induction false} RmListDistinct(src: Dir, dst: Dir, names: seq<string>)
    requires Distinct(names)
    ensures Distinct(RmList(src, dst, names))
  {
    if names != [] {
      var k := |names| - 1;
      RmListDistinct(src, dst, names[..k]);
      assert names[k] !in names[..k];
    }
  }

  // ---------------------------------------------------------------- the three loops of the apply phase

  /** Removing succeeds unless a directory has the swap file's name. */
  lemma {:induction false} RmAllDone(d: Dir, names: seq<string>)
    requires Distinct(names) && forall n :: n in names ==> IsFile(d, n)
    ensures RmAll(d, names).Done? <==> forall n :: n in names ==> !IsDirectory(d, Swp(n))
    decreases |names|
  {
    if names != [] {
      assert names[0] in names;
      if RmStep(d, names[0]).Done? {
        var e := RmStep(d, names[0]).dir;
        var rest := names[1..];
        assert forall n :: n in names <==> n == names[0] || n in rest;
        assert forall n :: n in rest ==> n != names[0];
        RmAllDone(e, rest);
        assert forall m :: IsDirectory(e, m) <==> IsDirectory(d, m);
      }
    }
  }

  /** Names that are not swap names: removed when listed, otherwise untouched. */
  lemma {:induction false} RmAllKeeps(d: Dir, names: seq<string>)
    requires RmAll(d, names).Done?
    ensures var r := RmAll(d, names).dir;
            forall m :: !SwapIn(names, m) ==>
              (m in r <==> m in d && m !in names) && (m in r ==> r[m] == d[m])
    decreases |names|
  {
    if names != [] {
      var e := RmStep(d, names[0]).dir;
      var rest := names[1..];
      assert forall n :: n in names <==> n == names[0] || n in rest;
      RmAllKeeps(e, rest);
      forall m | !SwapIn(names, m)
        ensures !SwapIn(rest, m) && (m in e <==> m in d && m != names[0]) && (m in e ==> e[m] == d[m])
      {
        assert m != Swp(names[0]);
      }
    }
  }

  /** A run of removals that got through met no directory under a swap name. */
  lemma {:induction false} RmAllDirectories(d: Dir, names: seq<string>)
    requires RmAll(d, names).Done?
    ensures var r := RmAll(d, names).dir;
            && (forall m :: IsDirectory(d, m) <==> IsDirectory(r, m))
            && (forall m :: SwapIn(names, m) ==> !IsDirectory(d, m))
    decreases |names|
  {
    if names != [] {
      var e := RmStep(d, names[0]).dir;
      var rest := names[1..];
      assert forall n :: n in names <==> n == names[0] || n in rest;
      RmAllDirectories(e, rest);
      assert forall m :: IsDirectory(d, m) <==> IsDirectory(e, m);
    }
  }

  /** Adding succeeds unless a directory has the file's name, and gives each file its copy. */
  lemma {:induction false} AddAllIs(src: Dir, d: Dir, names: seq<string>)
    requires forall n :: n in names ==> IsFile(src, n)
    ensures AddAll(src, d, names).Done? <==> forall n :: n in names ==> !IsDirectory(d, n)
    ensures AddAll(src, d, names).Done? ==>
              var r := AddAll(src, d, names).dir;
              && (forall m :: m in names ==>
                    m in src && src[m].File? && m in r && r[m] == File(Copied(src[m].content), src[m].mtime))
              && (forall m :: m !in names ==> (m in r <==> m in d) && (m in r ==> r[m] == d[m]))
    decreases |names|
  {
    if names != [] {
      assert names[0] in names;
      if AddStep(src, d, names[0]).Done? {
        var e := AddStep(src, d, names[0]).dir;
        var rest := names[1..];
        assert forall n :: n in names <==> n == names[0] || n in rest;
        AddAllIs(src, e, rest);
        assert forall m :: IsDirectory(e, m) <==> IsDirectory(d, m);
      }
    }
  }

  lemma {:induction false} DropAllIs(d: Dir, names: seq<string>)
    ensures var r := DropAll(d, names);
            forall m :: (m in r <==> m in d && !(SwapIn(names, m) && d[m].File?)) && (m in r ==> r[m] == d[m])
    decreases |names|
  {
    if names != [] {
      var e := DropStep(d, names[0]);
      var rest := names[1..];
      assert forall n :: n in names <==> n == names[0] || n in rest;
      DropAllIs(e, rest);
      forall m ensures SwapIn(names, m) <==> m == Swp(names[0]) || SwapIn(rest, m) {
        if m == Swp(names[0]) { assert names[0] in names; }
      }
    }
  }

  /** Until remove_swp a removed file is still there under its swap name, with its time and what fgets and
      fputs copy of it, unless its own name or that of its swap file is in use for another file of the run. */
  lemma {:induction false} BackupsKept(d: Dir, names: seq<string>, n: string)
    requires RmAll(d, names).Done? && Distinct(names) && n in names && IsFile(d, n)
    requires n + ".swp" !in names && !SwapIn(names, n)
    ensures var r, swap := RmAll(d, names).dir, n + ".swp";
            n !in r && swap in r && r[swap] == File(Copied(d[n].content), d[n].mtime)
    decreases |names|
  {
    var e := RmStep(d, names[0]).dir;
    var rest := names[1..];
    assert forall m :: m in names <==> m == names[0] || m in rest;
    assert Swp(names[0]) != n;
    if n == names[0] {
      RmAllKeeps(e, rest);
      assert !SwapIn(rest, n);
      forall m | m in rest ensures Swp(m) != Swp(n) {
        if Swp(m) == Swp(n) { SwpInjective(m, n); }
      }
      assert !SwapIn(rest, Swp(n));
    } else {
      BackupsKept(e, rest, n);
    }
  }

  // ---------------------------------------------------------------- the whole run

  /** The name of a swap file the run makes. */
  ghost predicate Temporary(src: Dir, dst: Dir, m: string) {
    exists n :: Differs(src, dst, n) && m == Swp(n)
  }

  /** What a directory in the way of a copy or of a swap file does: the run exits. */
  ghost predicate Blocked(src: Dir, dst: Dir) {
    || (exists n :: IsFile(src, n) && IsDirectory(dst, n))
    || (exists n :: Differs(src, dst, n) && IsDirectory(dst, Swp(n)))
  }

  /** Every file that needed copying is the copy fgets and fputs make, every swap name is gone, the rest is
      as it was. */
  ghost function Final(src: Dir, dst: Dir): Dir {
    map m | m in src.Keys + dst.Keys && !Temporary(src, dst, m) && (m in dst || IsFile(src, m)) ::
      if Missing(src, dst, m) then File(Copied(src[m].content), src[m].mtime) else dst[m]
  }

  lemma BlockedExactly(src: Dir, dst: Dir, names: seq<string>)
    requires Lists(names, src)
    ensures Apply(src, dst, RmList(src, dst, names), AddList(src, dst, names)).Exit? <==> Blocked(src, dst)
  {
    var rm, add := RmList(src, dst, names), AddList(src, dst, names);
    RmListDistinct(src, dst, names);
    RmAllDone(dst, rm);
    if RmAll(dst, rm).Done? {
      var d := RmAll(dst, rm).dir;
      RmAllDirectories(dst, rm);
      AddAllIs(src, d, add);
      if n :| IsFile(src, n) && IsDirectory(dst, n) {
        assert n in add && IsDirectory(d, n);
      }
    }
  }

  /** The three loops in a row, for one entry. */
  lemma EntryIs(src: Dir, dst: Dir, rm: seq<string>, add: seq<string>, d: Dir, e: Dir, r: Dir, m: string)
    requires forall n :: n in rm <==> Differs(src, dst, n)
    requires forall n :: n in add <==> Missing(src, dst, n)
    requires RmAll(dst, rm) == Done(d) && AddAll(src, d, add) == Done(e) && DropAll(e, rm) == r
    ensures (m in r <==> m in Final(src, dst)) && (m in r ==> r[m] == Final(src, dst)[m])
  {
    assert SwapIn(rm, m) <==> Temporary(src, dst, m);
    assert !SwapIn(rm, m) ==> (m in d <==> m in dst && m !in rm) && (m in d ==> d[m] == dst[m]) by {
      RmAllKeeps(dst, rm);
    }
    assert SwapIn(rm, m) ==> !IsDirectory(d, m) by {
      RmAllDirectories(dst, rm);
    }
    assert m in add ==> m in e && e[m] == File(Copied(src[m].content), src[m].mtime) by {
      AddAllIs(src, d, add);
    }
    assert m !in add ==> (m in e <==> m in d) && (m in e ==> e[m] == d[m]) by {
      AddAllIs(src, d, add);
    }
    assert (m in r <==> m in e && !(SwapIn(rm, m) && e[m].File?)) && (m in r ==> r[m] == e[m]) by {
      DropAllIs(e, rm);
    }
  }

  lemma EntriesAre(src: Dir, dst: Dir, rm: seq<string>, add: seq<string>, d: Dir, e: Dir, r: Dir)
    requires forall n :: n in rm <==> Differs(src, dst, n)
    requires forall n :: n in add <==> Missing(src, dst, n)
    requires RmAll(dst, rm) == Done(d) && AddAll(src, d, add) == Done(e) && DropAll(e, rm) == r
    ensures r == Final(src, dst)
  {
    forall m ensures (m in r <==> m in Final(src, dst)) && (m in r ==> r[m] == Final(src, dst)[m]) {
      EntryIs(src, dst, rm, add, d, e, r, m);
    }
  }

  /** Source files of another size or time are removed, and copied like those that dst has not as files. */
  lemma PlanListed(src: Dir, dst: Dir, names: seq<string>, n: string)
    requires Lists(names, src)
    ensures n in RmList(src, dst, names) <==>
              && n in src && src[n].File? && n in dst && dst[n].File?
              && (|src[n].content| != |dst[n].content| || src[n].mtime != dst[n].mtime)
    ensures n in AddList(src, dst, names) <==>
              n in RmList(src, dst, names) || (n in src && src[n].File? && !(n in dst && dst[n].File?))
  {
  }

  /** The exact effect of a run that is not blocked. */
  lemma ApplyIs(src: Dir, dst: Dir, names: seq<string>)
    requires Lists(names, src) && !Blocked(src, dst)
    ensures Apply(src, dst, RmList(src, dst, names), AddList(src, dst, names)) == Done(Final(src, dst))
  {
    BlockedExactly(src, dst, names);
    var rm, add := RmList(src, dst, names), AddList(src, dst, names);
    var d := RmAll(dst, rm).dir;
    var e := AddAll(src, d, add).dir;
    EntriesAre(src, dst, rm, add, d, e, DropAll(e, rm));
  }

  // ---------------------------------------------------------------- a run that exits

  /** Removing stops at the first name that cannot be removed, with the effect of the names before it. */
  lemma {:induction false} RmStops(d: Dir, names: seq<string>) returns (k: nat)
    requires RmAll(d, names).Exit?
    ensures k < |names| && RmAll(d, names[..k]) == Done(RmAll(d, names).dir)
    decreases |names|
  {
    if RmStep(d, names[0]).Exit? {
      k := 0;
    } else {
      var i := RmStops(RmStep(d, names[0]).dir, names[1..]);
      k := i + 1;
      assert names[..k][1..] == names[1..][..i];
    }
  }

  lemma {:induction false} AddStops(src: Dir, d: Dir, names: seq<string>) returns (k: nat)
    requires AddAll(src, d, names).Exit?
    ensures k < |names| && AddAll(src, d, names[..k]) == Done(AddAll(src, d, names).dir)
    decreases |names|
  {
    if AddStep(src, d, names[0]).Exit? {
      k := 0;
    } else {
      var i := AddStops(src, AddStep(src, d, names[0]).dir, names[1..]);
      k := i + 1;
      assert names[..k][1..] == names[1..][..i];
    }
  }

  /** A file of dst is as it was, or is the copy of the source's, or is backed up under its swap name. */
  ghost predicate Kept(src: Dir, dst: Dir, e: Dir, m: string)
    requires m in dst && dst[m].File?
  {
    || (m in e && e[m] == dst[m])
    || (m in src && src[m].File? && m in e && e[m] == File(Copied(src[m].content), src[m].mtime))
    || (m + ".swp" in e && e[m + ".swp"] == File(Copied(dst[m].content), dst[m].mtime))
  }

  /** Removing some of the names that differ. */
  lemma RmKeeps(src: Dir, dst: Dir, names: seq<string>, m: string)
    requires Distinct(names) && (forall n :: n in names ==> Differs(src, dst, n)) && RmAll(dst, names).Done?
    requires m in dst && dst[m].File? && !Temporary(src, dst, m) && !(m + ".swp" in src && src[m + ".swp"].File?)
    ensures var e := RmAll(dst, names).dir;
            if m in names then m + ".swp" in e && e[m + ".swp"] == File(Copied(dst[m].content), dst[m].mtime)
            else m in e && e[m] == dst[m]
  {
    assert !SwapIn(names, m);
    if m in names {
      BackupsKept(dst, names, m);
    } else {
      RmAllKeeps(dst, names);
    }
  }

  /** Copying some of the names, for one entry. */
  lemma AddKeeps(src: Dir, d: Dir, names: seq<string>, m: string)
    requires (forall n :: n in names ==> IsFile(src, n)) && AddAll(src, d, names).Done?
    ensures var e := AddAll(src, d, names).dir;
            if m in names then m in src && src[m].File? && m in e && e[m] == File(Copied(src[m].content), src[m].mtime)
            else m in d ==> m in e && e[m] == d[m]
  {
    AddAllIs(src, d, names);
  }

  lemma AddExitKeeps(src: Dir, dst: Dir, rm: seq<string>, add: seq<string>, m: string)
    requires Distinct(rm) && (forall n :: n in rm ==> Differs(src, dst, n)) && RmAll(dst, rm).Done?
    requires (forall n :: n in add ==> IsFile(src, n)) && AddAll(src, RmAll(dst, rm).dir, add).Exit?
    requires m in dst && dst[m].File? && !Temporary(src, dst, m) && !(m + ".swp" in src && src[m + ".swp"].File?)
    ensures Kept(src, dst, AddAll(src, RmAll(dst, rm).dir, add).dir, m)
  {
    var d := RmAll(dst, rm).dir;
    var k := AddStops(src, d, add);
    var done := add[..k];
    assert forall n :: n in done ==> n in add;
    RmKeeps(src, dst, rm, m);
    AddKeeps(src, d, done, m);
    AddKeeps(src, d, done, m + ".swp");
  }

  /** Whatever point a run exits at, no file of dst is lost whose name is no swap name of the run and whose
      swap file has no source file's name. */
  lemma ExitKeeps(src: Dir, dst: Dir, names: seq<string>, e: Dir, m: string)
    requires Lists(names, src)
    requires Apply(src, dst, RmList(src, dst, names), AddList(src, dst, names)) == Exit(e)
    requires m in dst && dst[m].File? && !Temporary(src, dst, m) && !(m + ".swp" in src && src[m + ".swp"].File?)
    ensures Kept(src, dst, e, m)
  {
    var rm, add := RmList(src, dst, names), AddList(src, dst, names);
    RmListDistinct(src, dst, names);
    if RmAll(dst, rm).Exit? {
      var k := RmStops(dst, rm);
      assert forall n :: n in rm[..k] ==> n in rm;
      RmKeeps(src, dst, rm[..k], m);
    } else {
      AddExitKeeps(src, dst, rm, add, m);
    }
  }

  // ---------------------------------------------------------------- what the program promises

  /** dst with every source file in it: copied if it was absent or differed, and nothing else changed. */
  function Mirror(src: Dir, dst: Dir): Dir {
    map m | m in src.Keys + dst.Keys && (m in dst || IsFile(src, m)) ::
      if Missing(src, dst, m) then src[m] else dst[m]
  }

  /** No directory has a source file's name, no swap name is taken, nothing to copy holds a NUL. */
  ghost predicate Clean(src: Dir, dst: Dir) {
    && (forall n :: IsFile(src, n) ==> !IsDirectory(dst, n))
    && (forall n :: Differs(src, dst, n) ==> Swp(n) !in dst && !IsFile(src, Swp(n)))
    && (forall n :: Missing(src, dst, n) ==> '\0' !in src[n].content)
  }

  lemma FinalIsMirror(src: Dir, dst: Dir)
    requires Clean(src, dst)
    ensures Final(src, dst) == Mirror(src, dst)
  {
    var out, mirror := Final(src, dst), Mirror(src, dst);
    forall m ensures (m in out <==> m in mirror) && (m in out ==> out[m] == mirror[m]) {
      if Missing(src, dst, m) { CopiedExactly(src[m].content); }
    }
  }

  lemma OnlyIfClean(src: Dir, dst: Dir)
    requires !Blocked(src, dst) && Final(src, dst) == Mirror(src, dst)
    ensures Clean(src, dst)
  {
    var out, mirror := Final(src, dst), Mirror(src, dst);
    forall n | Differs(src, dst, n) ensures Swp(n) !in dst && !IsFile(src, Swp(n)) {
      assert Temporary(src, dst, Swp(n));
      assert Swp(n) !in out;
    }
    forall n | Missing(src, dst, n) ensures '\0' !in src[n].content {
      assert n in mirror && mirror[n] == src[n];
      CopiedExactly(src[n].content);
    }
  }

  /** The run ends in the mirror exactly when source and destination are clean. */
  lemma SyncsExactly(src: Dir, dst: Dir, names: seq<string>)
    requires Lists(names, src)
    ensures Apply(src, dst, RmList(src, dst, names), AddList(src, dst, names)) == Done(Mirror(src, dst))
            <==> Clean(src, dst)
  {
    BlockedExactly(src, dst, names);
    if !Blocked(src, dst) {
      ApplyIs(src, dst, names);
      if Clean(src, dst) {
        FinalIsMirror(src, dst);
      } else if Final(src, dst) == Mirror(src, dst) {
        OnlyIfClean(src, dst);
      }
    }
  }

  /** The mirror agrees with the source in size and time, has the content of what was absent or differed,
      and differs from dst in nothing else; in particular it has no swap file that dst had not. */
  lemma MirrorMeets(src: Dir, dst: Dir, n: string)
    ensures var r := Mirror(src, dst);
            if n in src && src[n].File? then
              && n in r && r[n].File? && |r[n].content| == |src[n].content| && r[n].mtime == src[n].mtime
              && r[n] == (if n in dst && dst[n].File? && |dst[n].content| == |src[n].content|
                             && dst[n].mtime == src[n].mtime
                          then dst[n] else src[n])
            else (n in r <==> n in dst) && (n in r ==> r[n] == dst[n])
  {
  }

  lemma NothingLeft(src: Dir, r: Dir, names: seq<string>)
    requires Lists(names, src)
    ensures (RmList(src, r, names) == [] && AddList(src, r, names) == []) <==> forall n :: !Missing(src, r, n)
  {
    var rm, add := RmList(src, r, names), AddList(src, r, names);
    if add == [] {
      forall n ensures !Missing(src, r, n) {
        assert n !in add;
      }
    } else {
      assert add[0] in add;
    }
    if rm != [] {
      assert rm[0] in rm;
    }
  }

  lemma MissingAfter(src: Dir, dst: Dir, n: string)
    requires IsFile(src, n)
    ensures Missing(src, Final(src, dst), n) <==>
            Temporary(src, dst, n) || (Missing(src, dst, n) && '\0' in src[n].content)
  {
    CopiedExactly(src[n].content);
  }

  /** Nothing is left to do after a run exactly when nothing copied held a NUL and no swap name is a
      source file's. */
  lemma SettlesExactly(src: Dir, dst: Dir, names: seq<string>, r: Dir)
    requires Lists(names, src)
    requires Apply(src, dst, RmList(src, dst, names), AddList(src, dst, names)) == Done(r)
    ensures (RmList(src, r, names) == [] && AddList(src, r, names) == [])
            <==> (forall n :: Missing(src, dst, n) ==> '\0' !in src[n].content)
                 && (forall n :: Differs(src, dst, n) ==> !IsFile(src, Swp(n)))
  {
    assert r == Final(src, dst) by {
      BlockedExactly(src, dst, names);
      ApplyIs(src, dst, names);
    }
    NothingLeft(src, r, names);
    forall n | IsFile(src, n) ensures Missing(src, r, n) <==>
                                      Temporary(src, dst, n) || (Missing(src, dst, n) && '\0' in src[n].content)
    {
      MissingAfter(src, dst, n);
    }
    if forall n :: !Missing(src, r, n) {
      forall n | Differs(src, dst, n) ensures !IsFile(src, Swp(n)) {
        assert Temporary(src, dst, Swp(n));
      }
    }
  }

  /** A clean run is idempotent: planning again lists nothing, and the mirror is its own mirror. */
  lemma Idempotent(src: Dir, dst: Dir, names: seq<string>)
    requires Lists(names, src) && Clean(src, dst)
    ensures var r := Mirror(src, dst);
            && Apply(src, dst, RmList(src, dst, names), AddList(src, dst, names)) == Done(r)
            && RmList(src, r, names) == [] && AddList(src, r, names) == []
            && Mirror(src, r) == r
  {
    SyncsExactly(src, dst, names);
    MirrorSettled(src, dst);
    NothingLeft(src, Mirror(src, dst), names);
  }

  lemma MirrorSettled(src: Dir, dst: Dir)
    ensures var r := Mirror(src, dst);
            (forall n :: !Missing(src, r, n)) && Mirror(src, r) == r
  {
    var r := Mirror(src, dst);
    forall n ensures !Missing(src, r, n) { MirrorMeets(src, dst, n); }
    assert Mirror(src, r) == r;
  }

  /** The mirror has every source file's content exactly when files of the same size and time were already
      the same. */
  lemma ContentsExactly(src: Dir, dst: Dir)
    ensures (forall n :: IsFile(src, n) ==>
                           IsFile(Mirror(src, dst), n) && Mirror(src, dst)[n].content == src[n].content)
            <==> forall n :: IsFile(src, n) && IsFile(dst, n) && Alike(src[n], dst[n]) ==>
                               src[n].content == dst[n].content
  {
    var r := Mirror(src, dst);
    forall n | IsFile(src, n)
      ensures IsFile(r, n) && (r[n].content == src[n].content <==>
                (IsFile(dst, n) && Alike(src[n], dst[n]) ==> src[n].content == dst[n].content))
    {
      MirrorMeets(src, dst, n);
      if !Missing(src, dst, n) { assert r[n] == dst[n]; }
    }
  }

  /** After any run that gets through, clean or not: the source file's content is there exactly when its name
      is no swap name of the run, it held no NUL if it was copied, and it was the same if it was not. */
  lemma ContentExactly(src: Dir, dst: Dir, n: string)
    requires IsFile(src, n)
    ensures (IsFile(Final(src, dst), n) && Final(src, dst)[n].content == src[n].content)
            <==> !Temporary(src, dst, n) &&
                 if Missing(src, dst, n) then '\0' !in src[n].content else dst[n].content == src[n].content
  {
    CopiedExactly(src[n].content);
  }

  /** Even when nothing is listed the contents may differ: only size and time are compared. */
  lemma SameSizeSameTime()
    ensures var src: Dir, dst: Dir := map["f" := File("a", 0)], map["f" := File("b", 0)];
            && Clean(src, dst) && AddList(src, dst, ["f"]) == [] && Mirror(src, dst) == dst
            && dst["f"].content != src["f"].content
  {
    var src: Dir, dst: Dir := map["f" := File("a", 0)], map["f" := File("b", 0)];
    assert ["f"][..0] == [];
    assert !Missing(src, dst, "f");
    assert Mirror(src, dst) == dst;
  }

  /** The whole program on two directories: what it leaves in dst, whether it gets through or exits. It
      succeeds with the mirror exactly when the directories are clean. */
  method Synchronise(s: Syncer, src: Dir, srcNames: seq<string>, dstNames: seq<string>) returns (ok: bool)
    requires Lists(srcNames, src) && (forall n :: n in dstNames <==> n in s.dst)
    requires s.addList == [] && s.rmList == []
    modifies s
    ensures ok <==> !Blocked(src, old(s.dst))
    ensures ok ==> s.dst == Final(src, old(s.dst))
    ensures ok && s.dst == Mirror(src, old(s.dst)) <==> Clean(src, old(s.dst))
    ensures !ok ==> var dst := old(s.dst);
                    Apply(src, dst, RmList(src, dst, srcNames), AddList(src, dst, srcNames)) == Exit(s.dst)
  {
    s.RsyncDir(src, srcNames, dstNames);
    SyncsExactly(src, s.dst, srcNames);
    BlockedExactly(src, s.dst, srcNames);
    if !Blocked(src, s.dst) { ApplyIs(src, s.dst, srcNames); }
    ok := s.Rsync(src);
  }
}
