/** The line index of ssu_read_4.c: an offset/length table built while the file is read in chunks. */
module LineIndex {

  const TABLE_SIZE := 128

  function Concat(parts: seq<string>): string {
    if parts == [] then "" else parts[0] + Concat(parts[1..])
  }

  function Newlines(s: string): nat {
    if s == "" then 0 else (if s[0] == '\n' then 1 else 0) + Newlines(s[1..])
  }

  /** Ends at its only newline. */
  predicate Terminated(line: string) {
    line != "" && line[|line| - 1] == '\n' && '\n' !in line[..|line| - 1]
  }

  /** `lines` are the lines of `s`: one after the other they are the file, all but the last end at
      their only newline, and the last, which may be empty, has none. */
  ghost predicate AreLines(s: string, lines: seq<string>) {
    && lines != [] && Concat(lines) == s
    && (forall i :: 0 <= i < |lines| - 1 ==> Terminated(lines[i]))
    && '\n' !in lines[|lines| - 1]
  }

  function Lines(s: string): (r: seq<string>)
    ensures r != []
  {
    if s == "" then [""]
    else if s[0] == '\n' then ["\n"] + Lines(s[1..])
    else
      var rest := Lines(s[1..]);
      [[s[0]] + rest[0]] + rest[1..]
  }

  /** A newline in front is a line of its own ... */
  lemma BreakInFront(s: string, lines: seq<string>)
    requires AreLines(s, lines)
    ensures AreLines("\n" + s, ["\n"] + lines)
  {
    assert (["\n"] + lines)[1..] == lines;
  }

  /** ... and any other character belongs to the first line. */
  lemma CharInFront(c: char, s: string, lines: seq<string>)
    requires AreLines(s, lines) && c != '\n'
    ensures AreLines([c] + s, [[c] + lines[0]] + lines[1..])
  {
    var first, rest := [c] + lines[0], lines[1..];
    assert ([first] + rest)[1..] == rest;
    assert [c] + (lines[0] + Concat(rest)) == first + Concat(rest);
    if |lines| > 1 {
      assert Terminated(lines[0]);
      assert first[..|first| - 1] == [c] + lines[0][..|lines[0]| - 1];
    }
  }

  lemma {:induction false} LinesAreLines(s: string)
    ensures AreLines(s, Lines(s))
  {
    if s != "" {
      LinesAreLines(s[1..]);
      assert s == [s[0]] + s[1..];
      if s[0] == '\n' {
        BreakInFront(s[1..], Lines(s[1..]));
      } else {
        CharInFront(s[0], s[1..], Lines(s[1..]));
      }
    }
  }

  /** Without a first line that is only a newline ... */
  lemma BreakTaken(s: string, lines: seq<string>)
    requires AreLines(s, lines) && lines[0] == "\n"
    ensures s != "" && s[0] == '\n' && |lines| > 1 && AreLines(s[1..], lines[1..])
  {
    assert s == "\n" + Concat(lines[1..]);
    assert s[1..] == Concat(lines[1..]);
  }

  /** ... or without the first character of a longer one the lines are those of the rest. */
  lemma CharTaken(s: string, lines: seq<string>)
    requires AreLines(s, lines) && lines[0] != "" && lines[0] != "\n"
    ensures s != "" && s[0] == lines[0][0] != '\n' && AreLines(s[1..], [lines[0][1..]] + lines[1..])
    ensures lines[0] == [s[0]] + lines[0][1..]
  {
    var line, rest := lines[0], lines[1..];
    assert s == line + Concat(rest) && line == [line[0]] + line[1..];
    assert s[1..] == line[1..] + Concat(rest);
    assert ([line[1..]] + rest)[1..] == rest;
    if |lines| > 1 {
      assert Terminated(line) && |line| > 1;
      assert line[..|line| - 1] == [line[0]] + line[1..][..|line| - 2];
    }
  }

  /** The lines of a file are determined by what is said of them in AreLines. */
  lemma {:induction false} LinesUnique(s: string, lines: seq<string>)
    requires AreLines(s, lines)
    ensures lines == Lines(s)
    decreases |s|
  {
    if lines[0] == "" {
      assert |lines| == 1 && lines == [""];
      assert s == "" + Concat(lines[1..]);
    } else if lines[0] == "\n" {
      BreakTaken(s, lines);
      LinesUnique(s[1..], lines[1..]);
      assert lines == [lines[0]] + lines[1..];
    } else {
      CharTaken(s, lines);
      var tail := [lines[0][1..]] + lines[1..];
      LinesUnique(s[1..], tail);
      assert tail[1..] == lines[1..];
      assert lines == [lines[0]] + lines[1..];
    }
  }

  function Grown(ls: seq<string>, c: char): seq<string>
    requires ls != []
  {
    var n := |ls| - 1;
    if c == '\n' then ls[..n] + [ls[n] + [c], ""] else ls[..n] + [ls[n] + [c]]
  }

  /** A longer list, or a longer first line, grows in the same way at its end. */
  lemma GrownBehind(first: string, d: char, ls: seq<string>, c: char)
    requires ls != []
    ensures Grown([first] + ls, c) == [first] + Grown(ls, c)
    ensures Grown([[d] + ls[0]] + ls[1..], c) == [[d] + Grown(ls, c)[0]] + Grown(ls, c)[1..]
  {
    var n := |ls| - 1;
    assert ([first] + ls)[..n + 1] == [first] + ls[..n];
    if n == 0 {
      assert [d] + (ls[0] + [c]) == ([d] + ls[0]) + [c];
    } else {
      var head, rest := [d] + ls[0], ls[1..];
      assert rest[..n - 1] == ls[1..n];
      assert ([head] + rest)[..n] == [head] + rest[..n - 1];
    }
  }

  /** Reading one more character. */
  lemma {:induction false} LinesGrow(s: string, c: char)
    ensures Lines(s + [c]) == Grown(Lines(s), c)
  {
    if s == "" {
      assert s + [c] == [c] && [c][1..] == "" && [c] + Lines("")[0] == [c];
      assert Grown([""], c) == if c == '\n' then [[c], ""] else [[c]];
    } else {
      assert (s + [c])[1..] == s[1..] + [c];
      LinesGrow(s[1..], c);
      GrownBehind("\n", s[0], Lines(s[1..]), c);
    }
  }

  lemma {:induction false} LinesCount(s: string)
    ensures |Lines(s)| == Newlines(s) + 1
  {
    if s != "" { LinesCount(s[1..]); }
  }

  /** Where line e starts: behind everything before it. */
  function StartOf(lines: seq<string>, e: nat): nat
    requires e <= |lines|
  {
    if e == 0 then 0 else StartOf(lines, e - 1) + |lines[e - 1]|
  }

  lemma {:induction false} StartPrefix(lines: seq<string>, others: seq<string>, e: nat)
    requires e <= |lines| && e <= |others| && lines[..e] == others[..e]
    ensures StartOf(lines, e) == StartOf(others, e)
    decreases e
  {
    if e > 0 {
      assert lines[..e][..e - 1] == lines[..e - 1] && others[..e][..e - 1] == others[..e - 1];
      assert lines[e - 1] == lines[..e][e - 1] && others[e - 1] == others[..e][e - 1];
      StartPrefix(lines, others, e - 1);
    }
  }

  /** The lines lie in the file one behind the other. */
  lemma {:induction false} LineInFile(s: string, e: nat)
    requires e < |Lines(s)|
    ensures StartOf(Lines(s), e) + |Lines(s)[e]| <= |s|
    ensures s[StartOf(Lines(s), e)..StartOf(Lines(s), e) + |Lines(s)[e]|] == Lines(s)[e]
    ensures e == |Lines(s)| - 1 ==> StartOf(Lines(s), e) + |Lines(s)[e]| == |s|
  {
    LinesAreLines(s);
    SliceOfConcat(Lines(s), e);
  }

  lemma SliceBehind(front: string, s: string, k: nat, n: nat)
    requires k + n <= |s|
    ensures (front + s)[|front| + k..|front| + k + n] == s[k..k + n]
  {
  }

  lemma {:induction false} SliceOfConcat(parts: seq<string>, e: nat)
    requires e < |parts|
    ensures StartOf(parts, e) + |parts[e]| <= |Concat(parts)|
    ensures Concat(parts)[StartOf(parts, e)..StartOf(parts, e) + |parts[e]|] == parts[e]
    ensures e == |parts| - 1 ==> StartOf(parts, e) + |parts[e]| == |Concat(parts)|
    decreases |parts|
  {
    var first, rest := parts[0], parts[1..];
    assert Concat(parts) == first + Concat(rest);
    if e > 0 {
      StartShift(parts, e);
      SliceOfConcat(rest, e - 1);
      assert parts[e] == rest[e - 1];
      SliceBehind(first, Concat(rest), StartOf(rest, e - 1), |parts[e]|);
    } else {
      assert (first + Concat(rest))[..|first|] == first;
      assert |parts| == 1 ==> Concat(rest) == "";
    }
  }

  lemma {:induction false} StartShift(parts: seq<string>, e: nat)
    requires 0 < e <= |parts|
    ensures StartOf(parts, e) == |parts[0]| + StartOf(parts[1..], e - 1)
    decreases e
  {
    if e > 1 { StartShift(parts, e - 1); }
  }

  // ---------------------------------------------------------------- the table in place

  /** The table holds these lines; entries behind them are still zero. */
  ghost predicate Rows(offset: seq<int>, length: seq<int>, ls: seq<string>) {
    && |offset| == |length| == TABLE_SIZE && |ls| <= TABLE_SIZE
    && (forall e: nat :: e < |ls| ==> offset[e] == StartOf(ls, e) && length[e] == |ls[e]|)
    && (forall e :: |ls| <= e < TABLE_SIZE ==> offset[e] == 0 && length[e] == 0)
  }

  ghost predicate Indexes(offset: seq<int>, length: seq<int>, s: string) {
    Rows(offset, length, Lines(s))
  }

  /** The lines with one more character still fit the table, and the file ends where the last of them does. */
  lemma GrownFits(s: string, c: char)
    requires Newlines(s + [c]) < TABLE_SIZE
    ensures Lines(s + [c]) == Grown(Lines(s), c) && |Grown(Lines(s), c)| <= TABLE_SIZE
    ensures var n := |Lines(s)| - 1; |s| == StartOf(Lines(s), n) + |Lines(s)[n]|
  {
    LinesGrow(s, c);
    LinesCount(s + [c]);
    LinesAreLines(s);
    SliceOfConcat(Lines(s), |Lines(s)| - 1);
  }

  /** What one more character does to the table. */
  lemma IndexesGrow(offset: seq<int>, length: seq<int>, s: string, c: char)
    requires Indexes(offset, length, s) && Newlines(s + [c]) < TABLE_SIZE
    ensures var n := |Lines(s)| - 1;
            && |Lines(s + [c])| - 1 == (if c == '\n' then n + 1 else n) < TABLE_SIZE
            && Indexes(if c == '\n' then offset[n + 1 := |s| + 1] else offset, length[n := length[n] + 1], s + [c])
  {
    GrownFits(s, c);
    RowsGrow(offset, length, Lines(s), c, |s|);
  }

  lemma RowsGrow(offset: seq<int>, length: seq<int>, ls: seq<string>, c: char, at: int)
    requires Rows(offset, length, ls) && ls != [] && |Grown(ls, c)| <= TABLE_SIZE
    requires at == StartOf(ls, |ls| - 1) + |ls[|ls| - 1]|
    ensures var n := |ls| - 1;
            && |Grown(ls, c)| - 1 == (if c == '\n' then n + 1 else n)
            && Rows(if c == '\n' then offset[n + 1 := at + 1] else offset, length[n := length[n] + 1], Grown(ls, c))
  {
    GrownTable(ls, c);
    var n, ms := |ls| - 1, Grown(ls, c);
    var offset' := if c == '\n' then offset[n + 1 := at + 1] else offset;
    var length' := length[n := length[n] + 1];
    forall e: nat | e < |ms| ensures offset'[e] == StartOf(ms, e) && length'[e] == |ms[e]| {
      if e <= n { assert offset[e] == StartOf(ls, e) && length[e] == |ls[e]|; }
    }
  }

  /** Growing changes the length of the last line, and starts a line behind it. */
  lemma GrownTable(ls: seq<string>, c: char)
    requires ls != []
    ensures var n, ms := |ls| - 1, Grown(ls, c);
            && |ms| == (if c == '\n' then n + 2 else n + 1) && |ms[n]| == |ls[n]| + 1
            && (forall e: nat :: e < n ==> StartOf(ms, e) == StartOf(ls, e) && |ms[e]| == |ls[e]|)
            && StartOf(ms, n) == StartOf(ls, n)
            && (c == '\n' ==> StartOf(ms, n + 1) == StartOf(ls, n) + |ls[n]| + 1 && ms[n + 1] == "")
  {
    var n, ms := |ls| - 1, Grown(ls, c);
    assert ms[..n] == ls[..n];
    StartPrefix(ls, ms, n);
    forall e: nat | e < n ensures StartOf(ms, e) == StartOf(ls, e) && |ms[e]| == |ls[e]| {
      assert ms[..e] == ls[..e];
      StartPrefix(ls, ms, e);
      assert ms[..n][e] == ls[..n][e];
    }
  }

  class LineTable {
    const offset: array<int>
    const length: array<int>

    constructor ()
      ensures fresh(offset) && fresh(length) && offset != length
      ensures Indexes(offset[..], length[..], "")
    {
      offset := new int[TABLE_SIZE](_ => 0);
      length := new int[TABLE_SIZE](_ => 0);
    }

    /** One character of the inner loop; `at` counts the characters read so far. The offset behind the
        128th newline would go outside the table. */
    method ReadChar(c: char, entry: nat, at: int, ghost s: string) returns (next: nat, outside: bool)
      requires offset != length && Indexes(offset[..], length[..], s) && entry == |Lines(s)| - 1 && at == |s|
      modifies offset, length
      ensures outside <==> Newlines(s + [c]) >= 128
      ensures !outside ==> Indexes(offset[..], length[..], s + [c]) && next == |Lines(s + [c])| - 1
    {
      LinesCount(s);
      NewlinesApart(s, [c]);
      next, outside := entry, c == '\n' && entry + 1 == TABLE_SIZE;
      if !outside { IndexesGrow(offset[..], length[..], s, c); }
      length[entry] := length[entry] + 1;
      if c == '\n' && !outside {
        next := entry + 1;
        offset[next] := at + 1;
      }
      assert length[..] == old(length[..])[entry := old(length[entry]) + 1];
      assert !outside ==> offset[..] == if c == '\n' then old(offset[..])[entry + 1 := at + 1] else old(offset[..]);
    }

    /** The inner loop of main: one chunk. */
    method ReadChunk(buf: string, entry: nat, at: int, ghost s: string) returns (next: nat, outside: bool)
      requires offset != length && Indexes(offset[..], length[..], s) && entry == |Lines(s)| - 1 && at == |s|
      modifies offset, length
      ensures outside <==> Newlines(s + buf) >= 128
      ensures !outside ==> Indexes(offset[..], length[..], s + buf) && next == |Lines(s + buf)| - 1
    {
      next, outside := entry, false;
      assert s + buf[..0] == s;
      for i := 0 to |buf|
        invariant !outside && Indexes(offset[..], length[..], s + buf[..i]) && next == |Lines(s + buf[..i])| - 1
      {
        assert s + buf[..i] + [buf[i]] == s + buf[..i + 1] && s + buf[..i + 1] + buf[i + 1..] == s + buf;
        NewlinesApart(s + buf[..i + 1], buf[i + 1..]);
        next, outside := ReadChar(buf[i], next, at + i, s + buf[..i]);
        if outside { return; }
      }
      assert buf[..|buf|] == buf;
      LinesCount(s + buf);
    }

    /** The outer loop: however `read` cuts the file into chunks, the table is that of the file; it is left
        exactly when the file has 128 newlines or more. */
    method Build(chunks: seq<string>) returns (entry: nat, outside: bool)
      requires offset != length && Indexes(offset[..], length[..], "")
      modifies offset, length
      ensures outside <==> Newlines(Concat(chunks)) >= 128
      ensures !outside ==> Indexes(offset[..], length[..], Concat(chunks)) && entry == Newlines(Concat(chunks))
    {
      ghost var s := "";
      entry, outside := 0, false;
      var at := 0;
      for j := 0 to |chunks|
        invariant !outside && s + Concat(chunks[j..]) == Concat(chunks)
        invariant Indexes(offset[..], length[..], s) && entry == |Lines(s)| - 1 && at == |s|
      {
        assert chunks[j..][1..] == chunks[j + 1..];
        assert s + chunks[j] + Concat(chunks[j + 1..]) == Concat(chunks);
        NewlinesApart(s + chunks[j], Concat(chunks[j + 1..]));
        entry, outside := ReadChunk(chunks[j], entry, at, s);
        if outside { return; }
        at := at + |chunks[j]|;
        s := s + chunks[j];
      }
      assert chunks[|chunks|..] == [] && s + "" == s;
      LinesCount(s);
    }

    /** lseek and read for line number n: numbers below 1 end the program, those above 128 lie outside the
        table, and behind the last line there is nothing. */
    method LookUp(n: int, file: string) returns (answer: Answer)
      requires Indexes(offset[..], length[..], file)
      ensures n < 1 ==> answer == Ends
      ensures n > 128 ==> answer == Outside
      ensures 1 <= n <= 128 ==> answer == Line(if n <= |Lines(file)| then Lines(file)[n - 1] else "")
    {
      var e := n - 1;
      if e < 0 { return Ends; }
      if e >= TABLE_SIZE { return Outside; }
      if e < |Lines(file)| { LineInFile(file, e); }
      answer := Line(file[offset[e]..offset[e] + length[e]]);
    }
  }

  /** What looking up a number comes to. */
  datatype Answer = Ends | Outside | Line(text: string)

  lemma {:induction false} NewlinesApart(s: string, t: string)
    ensures Newlines(s + t) == Newlines(s) + Newlines(t)
  {
    if s == "" {
      assert s + t == t;
    } else {
      assert (s + t)[1..] == s[1..] + t;
      NewlinesApart(s[1..], t);
    }
  }
}
