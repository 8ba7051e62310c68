/** ssu_rsync.c for directories: plan, apply, and removal of the swap files, on maps from names to
    entries. */
module Sync {
  import opened CText

  /** What stat and the file contents show of a directory entry. */
  datatype Entry = File(content: string, mtime: int) | Directory

  type Dir = map<string, Entry>

  /** Exit: the program stops and leaves the directory as it then is. */
  datatype Outcome = Exit(dir: Dir) | Done(dir: Dir)

  const BUFFER_SIZE := 1024

  function Swp(name: string): string {
    name + ".swp"
  }

  predicate IsFile(d: Dir, name: string) {
    name in d && d[name].File?
  }

  /** Same size and modification time. */
  predicate Alike(a: Entry, b: Entry) {
    a.File? && b.File? && |a.content| == |b.content| && a.mtime == b.mtime
  }

  // ---------------------------------------------------------------- copying by fgets and fputs

  /** How many characters one fgets reads: up to a newline, at most the buffer less one. */
  function LineLen(s: string, room: nat): (n: nat)
    requires room > 0
    ensures n <= |s| && n <= room && (s != "" ==> n > 0)
  {
    if s == "" then 0
    else if s[0] == '\n' || room == 1 then 1
    else 1 + LineLen(s[1..], room - 1)
  }

  function Copied(s: string): string
    decreases |s|
  {
    if s == "" then ""
    else
      var n := LineLen(s, BUFFER_SIZE - 1);
      BeforeNul(s[..n]) + Copied(s[n..])
  }

  /** A file is copied faithfully exactly when it has no NUL; otherwise the copy is shorter. */
  lemma {:induction false} CopiedExactly(s: string)
    ensures |Copied(s)| <= |s|
    ensures '\0' !in s ==> Copied(s) == s
    ensures '\0' in s ==> |Copied(s)| < |s|
    decreases |s|
  {
    if s != "" {
      var n := LineLen(s, BUFFER_SIZE - 1);
      CopiedExactly(s[n..]);
      assert s == s[..n] + s[n..];
      assert '\0' in s <==> '\0' in s[..n] || '\0' in s[n..];
    }
  }

  lemma {:induction false} LineLenIs(s: string, n: nat, room: nat)
    requires 0 < n <= |s| && n <= room && '\n' !in s[..n - 1]
    requires s[n - 1] == '\n' || n == room || n == |s|
    ensures LineLen(s, room) == n
  {
    if n > 1 {
      assert s[0] == s[..n - 1][0] && s[1..][..n - 2] == s[..n - 1][1..];
      LineLenIs(s[1..], n - 1, room - 1);
    }
  }

  /** A line, with its newline if it has one, and each 1023 characters of a longer one, lose what follows
      their first NUL. */
  lemma LineCopied(line: string, rest: string)
    requires 0 < |line| <= 1023 && '\n' !in line[..|line| - 1]
    requires line[|line| - 1] == '\n' || |line| == 1023 || rest == ""
    ensures Copied(line + rest) == BeforeNul(line) + Copied(rest) && Copied("") == ""
  {
    var s := line + rest;
    assert s[..|line|] == line && s[|line|..] == rest && s[..|line| - 1] == line[..|line| - 1];
    LineLenIs(s, |line|, BUFFER_SIZE - 1);
  }

  // ---------------------------------------------------------------- plan

  /** A source file that dst has as a file of another size or time. */
  predicate Differs(src: Dir, dst: Dir, name: string) {
    IsFile(src, name) && IsFile(dst, name) && !Alike(src[name], dst[name])
  }

  /** A source file that has to be copied. */
  predicate Missing(src: Dir, dst: Dir, name: string) {
    IsFile(src, name) && !(IsFile(dst, name) && Alike(src[name], dst[name]))
  }

  function RmList(src: Dir, dst: Dir, names: seq<string>): (r: seq<string>)
    ensures forall n :: n in r <==> n in names && Differs(src, dst, n)
  {
    if names == [] then []
    else
      var k := |names| - 1;
      assert names == names[..k] + [names[k]];
      RmList(src, dst, names[..k]) + if Differs(src, dst, names[k]) then [names[k]] else []
  }

  function AddList(src: Dir, dst: Dir, names: seq<string>): (r: seq<string>)
    ensures forall n :: n in r <==> n in names && Missing(src, dst, n)
  {
    if names == [] then []
    else
      var k := |names| - 1;
      assert names == names[..k] + [names[k]];
      AddList(src, dst, names[..k]) + if Missing(src, dst, names[k]) then [names[k]] else []
  }

  lemma PlanGrows(src: Dir, dst: Dir, names: seq<string>, i: nat)
    requires i < |names|
    ensures RmList(src, dst, names[..i + 1]) ==
            RmList(src, dst, names[..i]) + if Differs(src, dst, names[i]) then [names[i]] else []
    ensures AddList(src, dst, names[..i + 1]) ==
            AddList(src, dst, names[..i]) + if Missing(src, dst, names[i]) then [names[i]] else []
  {
    assert names[..i + 1][..i] == names[..i];
  }

  // ---------------------------------------------------------------- apply

  /** Lines 280 to 312 for one name: keep a swap copy, remove the file. */
  function RmStep(d: Dir, name: string): Outcome {
    if !IsFile(d, name) || (Swp(name) in d && d[Swp(name)].Directory?) then Exit(d)
    else Done(d[Swp(name) := File(Copied(d[name].content), d[name].mtime)] - {name})
  }

  function RmAll(d: Dir, names: seq<string>): Outcome
    decreases |names|
  {
    if names == [] then Done(d)
    else
      match RmStep(d, names[0])
      case Exit(e) => Exit(e)
      case Done(e) => RmAll(e, names[1..])
  }

  /** Lines 315 to 349 for one name. */
  function AddStep(src: Dir, d: Dir, name: string): Outcome {
    if !IsFile(src, name) || (name in d && d[name].Directory?) then Exit(d)
    else Done(d[name := File(Copied(src[name].content), src[name].mtime)])
  }

  function AddAll(src: Dir, d: Dir, names: seq<string>): Outcome
    decreases |names|
  {
    if names == [] then Done(d)
    else
      match AddStep(src, d, names[0])
      case Exit(e) => Exit(e)
      case Done(e) => AddAll(src, e, names[1..])
  }

  function DropStep(d: Dir, name: string): Dir {
    if IsFile(d, Swp(name)) then d - {Swp(name)} else d
  }

  function DropAll(d: Dir, names: seq<string>): Dir
    decreases |names|
  {
    if names == [] then d else DropAll(DropStep(d, names[0]), names[1..])
  }

  function Apply(src: Dir, dst: Dir, rmList: seq<string>, addList: seq<string>): Outcome {
    match RmAll(dst, rmList)
    case Exit(e) => Exit(e)
    case Done(d) =>
      match AddAll(src, d, addList)
      case Exit(e) => Exit(e)
      case Done(e) => Done(DropAll(e, rmList))
  }

  // ---------------------------------------------------------------- the program

  class Syncer {
    var addList: seq<string>
    var rmList: seq<string>
    var dst: Dir

    constructor (dst: Dir)
      ensures this.dst == dst && addList == [] && rmList == []
    {
      this.dst := dst;
      addList, rmList := [], [];
    }

    /** The inner loop of rsync_dir: one source file against the files of dst. */
    method Compare(src: Dir, name: string, dstNames: seq<string>)
      requires IsFile(src, name) && forall n :: n in dstNames <==> n in dst
      modifies this`addList, this`rmList
      ensures rmList == old(rmList) + if Differs(src, dst, name) then [name] else []
      ensures addList == old(addList) + if Missing(src, dst, name) then [name] else []
    {
      var isExist := false;
      var j := 0;
      while j < |dstNames| && !isExist
        invariant j <= |dstNames|
        invariant !isExist ==> forall k :: 0 <= k < j ==> !(dst[dstNames[k]].File? && dstNames[k] == name)
        invariant isExist ==> IsFile(dst, name)
        invariant rmList == old(rmList) + if isExist && Differs(src, dst, name) then [name] else []
        invariant addList == old(addList) + if isExist && Differs(src, dst, name) then [name] else []
      {
        if dst[dstNames[j]].File? && name == dstNames[j] {
          if !Alike(src[name], dst[name]) {
            rmList := rmList + [name];
            addList := addList + [name];
          }
          isExist := true;
        }
        j := j + 1;
      }
      if !isExist {
        addList := addList + [name];
      }
    }

    /** rsync_dir: compare every source file with every file of dst. */
    method RsyncDir(src: Dir, srcNames: seq<string>, dstNames: seq<string>)
      requires (forall n :: n in srcNames <==> n in src) && forall n :: n in dstNames <==> n in dst
      requires addList == [] && rmList == []
      modifies this`addList, this`rmList
      ensures rmList == RmList(src, dst, srcNames) && addList == AddList(src, dst, srcNames)
    {
      for i := 0 to |srcNames|
        invariant rmList == RmList(src, dst, srcNames[..i]) && addList == AddList(src, dst, srcNames[..i])
      {
        PlanGrows(src, dst, srcNames, i);
        if src[srcNames[i]].File? {
          Compare(src, srcNames[i], dstNames);
        }
      }
      assert srcNames[..|srcNames|] == srcNames;
    }

    /** rsync followed by remove_swp; false stands for exit(1), which leaves dst as it then is. */
    method Rsync(src: Dir) returns (ok: bool)
      modifies this`dst
      ensures Apply(src, old(dst), rmList, addList) == if ok then Done(dst) else Exit(dst)
    {
      for i := 0 to |rmList|
        invariant RmAll(old(dst), rmList) == RmAll(dst, rmList[i..])
      {
        var name := rmList[i];
        assert rmList[i..][1..] == rmList[i + 1..];
        if !IsFile(dst, name) || (Swp(name) in dst && dst[Swp(name)].Directory?) { return false; }
        dst := dst[Swp(name) := File(Copied(dst[name].content), dst[name].mtime)];
        dst := dst - {name};
      }
      ghost var mid := dst;
      for i := 0 to |addList|
        invariant RmAll(old(dst), rmList) == Done(mid)
        invariant AddAll(src, mid, addList) == AddAll(src, dst, addList[i..])
      {
        var name := addList[i];
        assert addList[i..][1..] == addList[i + 1..];
        if !IsFile(src, name) || (name in dst && dst[name].Directory?) { return false; }
        dst := dst[name := File(Copied(src[name].content), src[name].mtime)];
      }
      ghost var full := dst;
      for i := 0 to |rmList|
        invariant RmAll(old(dst), rmList) == Done(mid) && AddAll(src, mid, addList) == Done(full)
        invariant DropAll(full, rmList) == DropAll(dst, rmList[i..])
      {
        assert rmList[i..][1..] == rmList[i + 1..];
        if IsFile(dst, Swp(rmList[i])) {
          dst := dst - {Swp(rmList[i])};
        }
      }
      ok := true;
    }
  }
}
