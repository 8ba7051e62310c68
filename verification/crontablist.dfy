/** The crontab file as a list: when ADD and REMOVE are append and delete, and when the printed numbers
    are positions. */
module CrontabList {
  import opened CText
  import opened LineIndex
  import opened CrontabFile

  /** A line of the file: its number as printed, and the periods with the command. */
  datatype Entry = Entry(index: string, payload: string)

  function Line(e: Entry): string {
    e.index + ". " + e.payload + "\n"
  }

  predicate AllDigits(s: string) {
    forall i :: 0 <= i < |s| ==> IsDigit(s[i])
  }

  /** Overwriting has put any character but a line break or a terminator in front of the digits. */
  predicate Good(e: Entry) {
    && e.index != "" && AllDigits(e.index[1..]) && e.index[0] != '\n' && e.index[0] != '\0'
    && GoodPayload(e.payload)
  }

  predicate GoodPayload(p: string) {
    p != "" && '\n' !in p && '\0' !in p
  }

  predicate AllGood(es: seq<Entry>) {
    forall i {:trigger Good(es[i])} :: 0 <= i < |es| ==> Good(es[i])
  }

  function LinesOf(es: seq<Entry>): (r: seq<string>)
    ensures |r| == |es| && forall i :: 0 <= i < |r| ==> r[i] == Line(es[i])
  {
    seq(|es|, i requires 0 <= i < |es| => Line(es[i]))
  }

  function Text(es: seq<Entry>): string {
    Concat(LinesOf(es))
  }

  function Payloads(es: seq<Entry>): (r: seq<string>)
    ensures |r| == |es| && forall i :: 0 <= i < |r| ==> r[i] == es[i].payload
  {
    seq(|es|, i requires 0 <= i < |es| => es[i].payload)
  }

  // ---------------------------------------------------------------- reading the payloads back

  function LeadingDigits(s: string): (n: nat)
    ensures n <= |s|
  {
    if s == "" || !IsDigit(s[0]) then 0 else 1 + LeadingDigits(s[1..])
  }

  /** Behind the number, its dot and its space, without the line break. */
  function PayloadOf(line: string): string {
    if line == "" then ""
    else
      var k := 1 + LeadingDigits(line[1..]);
      if |line| < k + 3 then "" else line[k + 2..|line| - 1]
  }

  function PayloadsOf(lines: seq<string>): (r: seq<string>)
    ensures |r| == |lines| && forall i :: 0 <= i < |r| ==> r[i] == PayloadOf(lines[i])
  {
    seq(|lines|, i requires 0 <= i < |lines| => PayloadOf(lines[i]))
  }

  /** The commands a text stands for. */
  function Stored(text: string): seq<string> {
    PayloadsOf(ReadLines(text))
  }

  lemma {:induction false} DigitsThenDot(ds: string, rest: string)
    requires AllDigits(ds) && rest != "" && !IsDigit(rest[0])
    ensures LeadingDigits(ds + rest) == |ds|
  {
    if ds == "" {
      assert ds + rest == rest;
    } else {
      assert (ds + rest)[1..] == ds[1..] + rest;
      DigitsThenDot(ds[1..], rest);
    }
  }

  lemma GoodLine(e: Entry)
    requires Good(e)
    ensures Terminated(Line(e)) && PayloadOf(Line(e)) == e.payload && BeforeNul(Line(e)) == Line(e)
  {
    var line, rest := Line(e), ". " + e.payload + "\n";
    assert line == e.index + rest;
    assert line[1..] == e.index[1..] + rest;
    DigitsThenDot(e.index[1..], rest);
    assert line[|e.index| + 2..|line| - 1] == e.payload;
    assert line[..|line| - 1] == e.index + ". " + e.payload;
    assert forall c :: c in e.index ==> c == e.index[0] || c in e.index[1..];
  }

  // ---------------------------------------------------------------- reading piece by piece

  /** No unfinished line at the end. */
  predicate Whole(text: string) {
    text != "" ==> text[|text| - 1] == '\n'
  }

  lemma {:induction false} ConcatApart(a: seq<string>, b: seq<string>)
    ensures Concat(a + b) == Concat(a) + Concat(b)
  {
    if a == [] {
      assert a + b == b;
    } else {
      assert (a + b)[1..] == a[1..] + b;
      ConcatApart(a[1..], b);
    }
  }

  lemma {:induction false} ConcatLast(parts: seq<string>)
    requires parts != []
    ensures Concat(parts) == Concat(parts[..|parts| - 1]) + parts[|parts| - 1]
  {
    assert parts == parts[..|parts| - 1] + [parts[|parts| - 1]];
    ConcatEnd(parts[..|parts| - 1], parts[|parts| - 1]);
  }

  lemma LastOf(front: string, last: string)
    ensures last != "" ==> (front + last)[|front + last| - 1] == last[|last| - 1]
  {
  }

  /** A text of whole lines has an empty last line, which is not read. */
  lemma WholeLines(text: string)
    requires Whole(text)
    ensures var ls := Lines(text);
            ls[|ls| - 1] == "" && ReadLines(text) == ls[..|ls| - 1] && Concat(ls[..|ls| - 1]) == text
  {
    var ls := Lines(text);
    LastOf(Concat(ls[..|ls| - 1]), ls[|ls| - 1]);
    ConcatLast(ls);
    LinesAreLines(text);
  }

  lemma AreLinesApart(text: string, more: string, front: seq<string>, ms: seq<string>)
    requires Concat(front) == text && (forall i :: 0 <= i < |front| ==> Terminated(front[i])) && AreLines(more, ms)
    ensures AreLines(text + more, front + ms)
  {
    ConcatApart(front, ms);
    var ls := front + ms;
    forall i | 0 <= i < |ls| - 1 ensures Terminated(ls[i]) {
      if i < |front| {
        assert ls[i] == front[i];
      } else {
        assert ls[i] == ms[i - |front|] && Terminated(ms[i - |front|]);
      }
    }
    assert ls[|ls| - 1] == ms[|ms| - 1];
  }

  lemma WholeAreTerminated(text: string)
    requires Whole(text)
    ensures var front := ReadLines(text);
            Concat(front) == text && forall i :: 0 <= i < |front| ==> Terminated(front[i])
  {
    WholeLines(text);
    LinesAreLines(text);
    var ls := Lines(text);
    var front := ReadLines(text);
    forall i | 0 <= i < |front| ensures Terminated(front[i]) {
      assert front[i] == ls[i] && Terminated(ls[i]);
    }
  }

  lemma LinesApart(text: string, more: string)
    requires Whole(text)
    ensures Lines(text + more) == ReadLines(text) + Lines(more)
  {
    WholeAreTerminated(text);
    LinesAreLines(more);
    AreLinesApart(text, more, ReadLines(text), Lines(more));
    LinesUnique(text + more, ReadLines(text) + Lines(more));
  }

  lemma FrontOf(a: seq<string>, b: seq<string>)
    requires b != []
    ensures (a + b)[|a + b| - 1] == b[|b| - 1] && (a + b)[..|a + b| - 1] == a + b[..|b| - 1]
  {
  }

  lemma ReadApart(text: string, more: string)
    requires Whole(text)
    ensures ReadLines(text + more) == ReadLines(text) + ReadLines(more)
  {
    LinesApart(text, more);
    FrontOf(ReadLines(text), Lines(more));
  }

  lemma PayloadsApart(a: seq<string>, b: seq<string>)
    ensures PayloadsOf(a + b) == PayloadsOf(a) + PayloadsOf(b)
  {
  }

  /** Reading resumes behind whole lines. */
  lemma StoredApart(text: string, more: string)
    requires Whole(text)
    ensures Stored(text + more) == Stored(text) + Stored(more)
  {
    ReadApart(text, more);
    PayloadsApart(ReadLines(text), ReadLines(more));
  }

  lemma ConcatOne(line: string)
    ensures Concat([line]) == line
  {
    assert [line][1..] == [];
  }

  lemma StoredLine(line: string)
    requires Terminated(line)
    ensures ReadLines(line) == [line] && Stored(line) == [PayloadOf(line)]
  {
    assert AreLines(line, [line, ""]) by {
      assert [line, ""] == [line] + [""];
      ConcatEnd([line], "");
      ConcatOne(line);
    }
    LinesUnique(line, [line, ""]);
    assert [line, ""][..1] == [line];
  }

  lemma {:induction false} LinesRead(es: seq<Entry>)
    requires AllGood(es)
    ensures ReadLines(Text(es)) == LinesOf(es)
  {
    if es == [] {
      assert LinesOf(es) == [];
    } else {
      var line, rest := Line(es[0]), Text(es[1..]);
      GoodLine(es[0]);
      LinesRead(es[1..]);
      assert LinesOf(es) == [line] + LinesOf(es[1..]);
      assert Text(es) == line + rest by {
        assert LinesOf(es)[1..] == LinesOf(es[1..]);
      }
      ReadApart(line, rest);
      StoredLine(line);
    }
  }

  lemma StoredIs(es: seq<Entry>)
    requires AllGood(es)
    ensures Stored(Text(es)) == Payloads(es)
  {
    LinesRead(es);
    forall i | 0 <= i < |es| ensures PayloadOf(LinesOf(es)[i]) == Payloads(es)[i] {
      GoodLine(es[i]);
    }
  }

  // ---------------------------------------------------------------- ADD

  lemma {:induction false} TextGrows(es: seq<Entry>, e: Entry)
    ensures Text(es + [e]) == Text(es) + Line(e)
  {
    assert LinesOf(es + [e]) == LinesOf(es) + [Line(e)];
    ConcatEnd(LinesOf(es), Line(e));
  }

  function Added(es: seq<Entry>, payload: string): seq<Entry> {
    es + [Entry(Decimal(|es|), payload)]
  }

  lemma AddedIsGood(es: seq<Entry>, payload: string)
    requires AllGood(es) && GoodPayload(payload)
    ensures AllGood(Added(es, payload)) && Text(es) + AddedLine(|es|, payload) == Text(Added(es, payload))
  {
    var e := Entry(Decimal(|es|), payload);
    assert Good(e) by {
      assert forall c :: c in e.index ==> IsDigit(c);
    }
    TextGrows(es, e);
  }

  lemma PayloadsGrow(es: seq<Entry>, e: Entry)
    ensures Payloads(es + [e]) == Payloads(es) + [e.payload]
  {
  }

  /** Adding a command appends it to the list, whatever its number. */
  lemma AddAppends(es: seq<Entry>, payload: string)
    requires AllGood(es) && GoodPayload(payload)
    ensures Stored(Text(es) + AddedLine(|es|, payload)) == Stored(Text(es)) + [payload]
  {
    AddedIsGood(es, payload);
    StoredIs(es);
    StoredIs(Added(es, payload));
    PayloadsGrow(es, Entry(Decimal(|es|), payload));
  }

  // ---------------------------------------------------------------- REMOVE

  /** The overwriting character ends the string or the line. */
  predicate Clobbers(count: nat) {
    Mark(count) == '\0' || Mark(count) == '\n'
  }

  /** What line i is read back as once line `number` has gone. */
  function Survivor(es: seq<Entry>, number: nat, i: nat): seq<string>
    requires i < |es|
  {
    if i == number then []
    else if i < number then [es[i].payload]
    else if Mark(i) == '\0' then []
    else if Mark(i) == '\n' then ["", PayloadOf(Line(es[i])[1..])]
    else [es[i].payload]
  }

  function Survivors(es: seq<Entry>, number: nat, count: nat): seq<string>
    requires count <= |es|
  {
    if count == 0 then [] else Survivors(es, number, count - 1) + Survivor(es, number, count - 1)
  }

  function Renamed(e: Entry, i: nat): Entry
    requires Good(e)
  {
    Entry([Mark(i)] + e.index[1..], e.payload)
  }

  lemma RenamedLine(e: Entry, i: nat)
    requires Good(e)
    ensures Renumbered(Line(e), i) == Line(Renamed(e, i))
    ensures !Clobbers(i) ==> Good(Renamed(e, i))
  {
    assert Line(e)[1..] == e.index[1..] + ". " + e.payload + "\n";
    assert Renamed(e, i).index[1..] == e.index[1..];
  }

  lemma CopyRead(es: seq<Entry>, number: nat, i: nat)
    requires AllGood(es) && i < |es|
    ensures var copy := Concat(Kept(LinesOf(es)[i], number, i));
            Whole(copy) && Stored(copy) == Survivor(es, number, i)
  {
    var line := LinesOf(es)[i];
    GoodLine(es[i]);
    ConcatOne(BeforeNul(line));
    ConcatOne(BeforeNul(Renumbered(line, i)));
    assert Stored("") == [];
    if i < number {
      StoredLine(line);
    } else if i > number {
      RenamedLine(es[i], i);
      if Mark(i) == '\0' {
        assert BeforeNul(Renumbered(line, i)) == "";
      } else if Mark(i) == '\n' {
        BrokenLine(es[i], i);
      } else {
        GoodLine(Renamed(es[i], i));
        StoredLine(Renumbered(line, i));
      }
    }
  }

  lemma BrokenLine(e: Entry, i: nat)
    requires Good(e) && Mark(i) == '\n'
    ensures var copy := BeforeNul(Renumbered(Line(e), i));
            Whole(copy) && Stored(copy) == ["", PayloadOf(Line(e)[1..])]
  {
    GoodLine(e);
    var line, rest := Line(e), Line(e)[1..];
    assert Renumbered(line, i) == "\n" + rest && '\0' !in rest;
    assert Terminated(rest) by {
      assert rest[..|rest| - 1] == line[..|line| - 1][1..];
    }
    StoredLine("\n");
    StoredLine(rest);
    StoredApart("\n", rest);
    assert PayloadOf("\n") == "";
  }

  lemma CopiesText(lines: seq<string>, number: nat, i: nat)
    requires i < |lines| && Filled(lines)
    ensures Concat(Copies(lines, number, i + 1)) == Concat(Copies(lines, number, i)) + Concat(Kept(lines[i], number, i))
  {
    ConcatApart(Copies(lines, number, i), Kept(lines[i], number, i));
  }

  lemma Appended(text: string, more: string, stored: seq<string>, read: seq<string>)
    requires Whole(text) && Whole(more) && Stored(text) == stored && Stored(more) == read
    ensures Whole(text + more) && Stored(text + more) == stored + read
  {
    StoredApart(text, more);
  }

  /** The text of the first `count` copies, and what it is read back as. */
  ghost predicate ReadsBack(es: seq<Entry>, number: nat, count: nat)
    requires AllGood(es) && count <= |es|
  {
    var text := Concat(Copies(LinesOf(es), number, count));
    Whole(text) && Stored(text) == Survivors(es, number, count)
  }

  lemma NothingReadsBack(es: seq<Entry>, number: nat)
    requires AllGood(es)
    ensures ReadsBack(es, number, 0)
  {
    assert Concat(Copies(LinesOf(es), number, 0)) == "";
    assert Stored("") == [];
  }

  lemma CopiesStep(es: seq<Entry>, number: nat, i: nat)
    requires AllGood(es) && i < |es| && ReadsBack(es, number, i)
    ensures ReadsBack(es, number, i + 1)
  {
    var lines := LinesOf(es);
    CopyRead(es, number, i);
    CopiesText(lines, number, i);
    Appended(Concat(Copies(lines, number, i)), Concat(Kept(lines[i], number, i)),
             Survivors(es, number, i), Survivor(es, number, i));
  }

  lemma CopiesRead(es: seq<Entry>, number: nat, count: nat)
    requires AllGood(es) && count <= |es|
    ensures ReadsBack(es, number, count)
  {
    NothingReadsBack(es, number);
    for i := 0 to count
      invariant ReadsBack(es, number, i)
    {
      CopiesStep(es, number, i);
    }
  }

  /** What the rewritten file is read back as, for every number. */
  lemma RemoveReads(es: seq<Entry>, number: nat)
    requires AllGood(es)
    ensures Stored(RemoveText(Text(es), |es|, number)) == Survivors(es, number, |es|)
  {
    LinesRead(es);
    CopiesRead(es, number, |es|);
    var copies := Copies(LinesOf(es), number, |es|);
    assert FirstRows(copies, |es|) == copies;
  }

  // ---------------------------------------------------------------- when REMOVE is delete

  function Deleted<T>(s: seq<T>, k: nat): seq<T> {
    if k < |s| then s[..k] + s[k + 1..] else s
  }

  /** No line behind the removed one is destroyed by its new first character. */
  predicate Renumbers(n: nat, number: nat) {
    forall i :: number < i < n ==> !Clobbers(i)
  }

  /** What becomes of entry i: behind the one that goes it has a new first character. */
  function Stays(e: Entry, k: nat, i: nat): seq<Entry>
    requires Good(e)
  {
    if i == k then [] else [if k < i then Renamed(e, i) else e]
  }

  /** The first `count` entries after the removal. */
  function RemovedFrom(es: seq<Entry>, k: nat, count: nat): (r: seq<Entry>)
    requires AllGood(es) && count <= |es|
    ensures |r| == if k < count then count - 1 else count
  {
    if count == 0 then [] else RemovedFrom(es, k, count - 1) + Stays(es[count - 1], k, count - 1)
  }

  function Removed(es: seq<Entry>, k: nat): seq<Entry>
    requires AllGood(es)
  {
    RemovedFrom(es, k, |es|)
  }

  lemma {:induction false} RemovedAt(es: seq<Entry>, k: nat, count: nat, j: nat)
    requires AllGood(es) && count <= |es| && j < |RemovedFrom(es, k, count)|
    ensures j >= k ==> j + 1 < count && Good(es[j + 1])
    ensures RemovedFrom(es, k, count)[j] == if j < k then es[j] else Renamed(es[j + 1], j + 1)
    decreases count
  {
    var i := count - 1;
    if j < |RemovedFrom(es, k, i)| {
      RemovedAt(es, k, i, j);
    }
    assert Good(es[i]);
  }

  lemma KeptLine(e: Entry, k: nat, i: nat)
    requires Good(e) && (k < i ==> !Clobbers(i))
    ensures |Kept(Line(e), k, i)| == |Stays(e, k, i)|
    ensures forall j :: 0 <= j < |Stays(e, k, i)| ==> Kept(Line(e), k, i)[j] == Line(Stays(e, k, i)[j])
  {
    GoodLine(e);
    RenamedLine(e, i);
    if k < i { GoodLine(Renamed(e, i)); }
  }

  /** These are the lines of those entries. */
  predicate Prints(lines: seq<string>, es: seq<Entry>) {
    |lines| == |es| && forall j :: 0 <= j < |lines| ==> lines[j] == Line(es[j])
  }

  lemma PrintsTogether(lines: seq<string>, es: seq<Entry>, more: seq<string>, others: seq<Entry>)
    requires Prints(lines, es) && Prints(more, others)
    ensures Prints(lines + more, es + others)
  {
  }

  /** The copies of the first i lines are the lines of what is left of the first i entries. */
  ghost predicate CopiesPrint(es: seq<Entry>, k: nat, i: nat)
    requires AllGood(es) && i <= |es|
  {
    Prints(Copies(LinesOf(es), k, i), RemovedFrom(es, k, i))
  }

  lemma CopiesPrintStep(es: seq<Entry>, k: nat, i: nat)
    requires AllGood(es) && i < |es| && (k < i ==> !Clobbers(i)) && CopiesPrint(es, k, i)
    ensures CopiesPrint(es, k, i + 1)
  {
    var kept, stays := Kept(LinesOf(es)[i], k, i), Stays(es[i], k, i);
    assert Prints(kept, stays) by { KeptLine(es[i], k, i); }
    PrintsTogether(Copies(LinesOf(es), k, i), RemovedFrom(es, k, i), kept, stays);
  }

  lemma NoCopies(es: seq<Entry>, k: nat)
    requires AllGood(es)
    ensures CopiesPrint(es, k, 0)
  {
  }

  lemma CopiesAllPrint(es: seq<Entry>, k: nat)
    requires AllGood(es) && Renumbers(|es|, k)
    ensures CopiesPrint(es, k, |es|)
  {
    NoCopies(es, k);
    for i := 0 to |es|
      invariant CopiesPrint(es, k, i)
    {
      assert k < i ==> !Clobbers(i);
      CopiesPrintStep(es, k, i);
    }
  }

  lemma CopiesKept(es: seq<Entry>, k: nat)
    requires AllGood(es) && Renumbers(|es|, k)
    ensures Copies(LinesOf(es), k, |es|) == LinesOf(Removed(es, k))
  {
    CopiesAllPrint(es, k);
  }

  /** The rewritten file, when no line is destroyed: of what is left the first `counter` entries. */
  lemma RemoveGives(es: seq<Entry>, counter: int, k: nat)
    requires AllGood(es) && Renumbers(|es|, k)
    ensures var r := Removed(es, k);
            RemoveText(Text(es), counter, k) ==
            if counter <= 0 then "" else if counter < |r| then Text(r[..counter]) else Text(r)
  {
    var r := Removed(es, k);
    LinesRead(es);
    CopiesKept(es, k);
    if 0 < counter < |r| {
      assert FirstRows(LinesOf(r), counter) == LinesOf(r[..counter]);
    }
  }

  lemma RemovedEntry(es: seq<Entry>, k: nat, j: nat)
    requires AllGood(es) && Renumbers(|es|, k) && j < |Removed(es, k)|
    ensures Good(Removed(es, k)[j]) && Removed(es, k)[j].payload == es[if j < k then j else j + 1].payload
  {
    RemovedAt(es, k, |es|, j);
    if j < k {
      assert Good(es[j]);
    } else {
      assert !Clobbers(j + 1);
      RenamedLine(es[j + 1], j + 1);
    }
  }

  lemma RemovedIsGood(es: seq<Entry>, k: nat)
    requires AllGood(es) && Renumbers(|es|, k)
    ensures AllGood(Removed(es, k)) && Payloads(Removed(es, k)) == Deleted(Payloads(es), k)
  {
    var r := Removed(es, k);
    forall j | 0 <= j < |r| ensures Good(r[j]) && Payloads(r)[j] == Deleted(Payloads(es), k)[j] {
      RemovedEntry(es, k, j);
    }
  }

  /** A line broken in two shows as an empty command ... */
  lemma {:induction false} BrokenShows(es: seq<Entry>, number: nat, count: nat, i: nat)
    requires count <= |es| && number < i < count && Mark(i) == '\n'
    ensures "" in Survivors(es, number, count)
    decreases count
  {
    if i < count - 1 {
      BrokenShows(es, number, count - 1, i);
    } else {
      assert "" in Survivor(es, number, i);
    }
  }

  /** ... and one that is lost leaves the list too short. */
  lemma {:induction false} LostShows(es: seq<Entry>, number: nat, count: nat)
    requires count <= |es| && forall i :: number < i < count ==> Mark(i) != '\n'
    ensures |Survivors(es, number, count)| <= count - (if number < count then 1 else 0)
    ensures !Renumbers(count, number) ==> |Survivors(es, number, count)| < count - 1
  {
    if count > 0 {
      var i := count - 1;
      LostShows(es, number, i);
      assert |Survivor(es, number, i)| == if i == number || (number < i && Clobbers(i)) then 0 else 1;
      assert Renumbers(i, number) && !Renumbers(count, number) ==> number < i && Clobbers(i);
    }
  }

  lemma RemoveDeletes(es: seq<Entry>, number: nat)
    requires AllGood(es) && Renumbers(|es|, number)
    ensures Stored(RemoveText(Text(es), |es|, number)) == Deleted(Payloads(es), number)
  {
    RemoveGives(es, |es|, number);
    RemovedIsGood(es, number);
    StoredIs(Removed(es, number));
  }

  lemma DeletedFilled(es: seq<Entry>, number: nat)
    requires AllGood(es)
    ensures "" !in Deleted(Payloads(es), number)
  {
    var ps := Payloads(es);
    forall i | 0 <= i < |ps| ensures ps[i] != "" {
      assert Good(es[i]);
    }
  }

  lemma SurvivorsDiffer(es: seq<Entry>, number: nat)
    requires AllGood(es) && !Renumbers(|es|, number)
    ensures Survivors(es, number, |es|) != Deleted(Payloads(es), number)
  {
    if i :| number < i < |es| && Mark(i) == '\n' {
      BrokenShows(es, number, |es|, i);
    } else {
      LostShows(es, number, |es|);
    }
    DeletedFilled(es, number);
    assert |Deleted(Payloads(es), number)| >= |es| - 1;
  }

  lemma RemoveLoses(es: seq<Entry>, number: nat)
    requires AllGood(es) && !Renumbers(|es|, number)
    ensures Stored(RemoveText(Text(es), |es|, number)) != Deleted(Payloads(es), number)
  {
    RemoveReads(es, number);
    SurvivorsDiffer(es, number);
  }

  /** REMOVE deletes the command with that number from the list, and the counter is again the number
      of commands, exactly when the number is that of a line and no line behind it is destroyed. */
  lemma RemoveDeletesExactly(es: seq<Entry>, number: nat)
    requires AllGood(es)
    ensures var stored := Stored(RemoveText(Text(es), |es|, number));
            (stored == Deleted(Stored(Text(es)), number) && |es| - 1 == |stored|)
            <==> number < |es| && Renumbers(|es|, number)
  {
    StoredIs(es);
    if Renumbers(|es|, number) {
      RemoveDeletes(es, number);
    } else {
      RemoveLoses(es, number);
    }
  }

  /** Up to 209 lines nothing is destroyed; the removal of a line from 210 loses the last one. */
  lemma SmallFiles(n: nat, number: nat)
    ensures n <= 209 ==> Renumbers(n, number)
    ensures n == 210 && number < 209 ==> !Renumbers(n, number)
  {
    assert Clobbers(209);
  }

  // ---------------------------------------------------------------- whole runs

  datatype Command = Add(payload: string) | Remove(number: nat)

  /** The text and the counter. */
  datatype File = File(text: string, counter: int)

  function Do(f: File, c: Command): File {
    match c
    case Add(payload) => File(f.text + AddedLine(f.counter, payload), f.counter + 1)
    case Remove(number) => File(RemoveText(f.text, f.counter, number), f.counter - 1)
  }

  function DoAll(f: File, cs: seq<Command>): File {
    if cs == [] then f else Do(DoAll(f, cs[..|cs| - 1]), cs[|cs| - 1])
  }

  function OnList(ps: seq<string>, c: Command): seq<string> {
    match c
    case Add(payload) => ps + [payload]
    case Remove(number) => Deleted(ps, number)
  }

  function AllOnList(ps: seq<string>, cs: seq<Command>): seq<string> {
    if cs == [] then ps else OnList(AllOnList(ps, cs[..|cs| - 1]), cs[|cs| - 1])
  }

  predicate Proper(n: nat, c: Command) {
    match c
    case Add(payload) => GoodPayload(payload)
    case Remove(number) => number < n && Renumbers(n, number)
  }

  /** Every command is proper for the list it meets. */
  predicate AllProper(ps: seq<string>, cs: seq<Command>) {
    cs == [] || (AllProper(ps, cs[..|cs| - 1]) && Proper(|AllOnList(ps, cs[..|cs| - 1])|, cs[|cs| - 1]))
  }

  /** The file holds these entries and the counter counts them. */
  predicate Holds(f: File, es: seq<Entry>) {
    AllGood(es) && f == File(Text(es), |es|)
  }

  function Moved(es: seq<Entry>, c: Command): seq<Entry>
    requires AllGood(es)
  {
    match c
    case Add(payload) => Added(es, payload)
    case Remove(number) => Removed(es, number)
  }

  lemma CommandKeeps(es: seq<Entry>, c: Command)
    requires AllGood(es) && Proper(|es|, c)
    ensures Holds(Do(File(Text(es), |es|), c), Moved(es, c)) && Payloads(Moved(es, c)) == OnList(Payloads(es), c)
  {
    match c
    case Add(payload) =>
      AddedIsGood(es, payload);
      PayloadsGrow(es, Entry(Decimal(|es|), payload));
    case Remove(number) =>
      RemoveGives(es, |es|, number);
      RemovedIsGood(es, number);
  }

  lemma AddNumbers(es: seq<Entry>, payload: string)
    requires Numbered(es)
    ensures Numbered(Added(es, payload))
  {
    var fs := Added(es, payload);
    forall i | 0 <= i < |fs| ensures fs[i].index == Decimal(i) {
      assert i < |es| ==> fs[i] == es[i];
    }
  }

  lemma CommandNumbers(es: seq<Entry>, c: Command)
    requires AllGood(es) && Proper(|es|, c) && Numbered(es) && (c.Remove? ==> |es| <= 10)
    ensures Numbered(Moved(es, c))
  {
    match c
    case Add(payload) => AddNumbers(es, payload);
    case Remove(number) => NumberedExactly(es, number);
  }

  /** Under proper commands the file is the list, appending and deleting commands, and the counter its
      length; while removals meet at most ten lines, every line is printed with its position. */
  lemma {:induction false} RunIsList(es: seq<Entry>, cs: seq<Command>) returns (fs: seq<Entry>)
    requires AllGood(es) && AllProper(Payloads(es), cs)
    ensures Holds(DoAll(File(Text(es), |es|), cs), fs) && Payloads(fs) == AllOnList(Payloads(es), cs)
    ensures Numbered(es) && AllShort(Payloads(es), cs) ==> Numbered(fs)
    decreases |cs|
  {
    if cs == [] {
      fs := es;
    } else {
      var c := cs[|cs| - 1];
      var gs := RunIsList(es, cs[..|cs| - 1]);
      CommandKeeps(gs, c);
      fs := Moved(gs, c);
      if Numbered(gs) && (c.Remove? ==> |gs| <= 10) { CommandNumbers(gs, c); }
    }
  }

  // ---------------------------------------------------------------- printed numbers

  /** Every line is printed with its position. */
  predicate Numbered(es: seq<Entry>) {
    forall i :: 0 <= i < |es| ==> es[i].index == Decimal(i)
  }

  /** No removal meets more than ten lines. */
  predicate AllShort(ps: seq<string>, cs: seq<Command>) {
    cs == [] || (AllShort(ps, cs[..|cs| - 1]) && (cs[|cs| - 1].Remove? ==> |AllOnList(ps, cs[..|cs| - 1])| <= 10))
  }

  lemma MarkedNumber(i: nat)
    requires i > 0
    ensures [Mark(i)] + Decimal(i)[1..] == Decimal(i - 1) <==> i < 10
  {
    var d, p := Decimal(i), Decimal(i - 1);
    assert d[|d| - 1] == (i % 10 + '0' as int) as char;
    assert p[|p| - 1] == ((i - 1) % 10 + '0' as int) as char;
    if i >= 10 {
      var q := [Mark(i)] + d[1..];
      assert q[|q| - 1] == d[|d| - 1] != p[|p| - 1];
    }
  }

  /** Behind the removed line only the lines before the tenth keep the right number. */
  lemma NumberedAt(es: seq<Entry>, k: nat, j: nat)
    requires AllGood(es) && Numbered(es) && k < |es| && j < |Removed(es, k)|
    ensures Removed(es, k)[j].index == Decimal(j) <==> j < k || j < 9
  {
    RemovedAt(es, k, |es|, j);
    if j < k {
      assert es[j].index == Decimal(j);
    } else {
      assert es[j + 1].index == Decimal(j + 1);
      MarkedNumber(j + 1);
    }
  }

  /** Removing a line keeps the printed numbers equal to the positions exactly when it is the last line or
      there are at most ten: only the first digit of the later ones is rewritten. */
  lemma NumberedExactly(es: seq<Entry>, k: nat)
    requires AllGood(es) && Numbered(es) && k < |es|
    ensures Numbered(Removed(es, k)) <==> k == |es| - 1 || |es| <= 10
  {
    var r := Removed(es, k);
    forall j | 0 <= j < |r| ensures r[j].index == Decimal(j) <==> j < k || j < 9 {
      NumberedAt(es, k, j);
    }
    var last := |r| - 1;
    if |es| > 10 && k < |es| - 1 {
      assert r[last].index != Decimal(last);
    }
  }

  // ---------------------------------------------------------------- what the daemon reads

  /** The fields of a text: n of them end at the first n spaces, the last takes the rest; those for which
      there is no space left stay empty. */
  function Fields(s: string, n: nat): (r: seq<string>)
    ensures |r| == n + 1
    decreases n
  {
    var k := Span(s, ' ');
    if n == 0 then [s]
    else if k == |s| then [s] + Fields("", n - 1)
    else [s[..k]] + Fields(s[k + 1..], n - 1)
  }

  /** command_separation of the daemon: it starts at the fourth character and stops at the line break. */
  function DaemonReads(line: string): seq<string>
    requires |line| > 3
  {
    Fields(line[3..|line| - 1], 5)
  }

  lemma FirstField(item: string, rest: string, n: nat)
    requires ' ' !in item && n > 0
    ensures Fields(item + [' '] + rest, n) == [item] + Fields(rest, n - 1)
  {
    var s, k := item + [' '] + rest, |item|;
    assert s[k] == ' ' && s[..k] == item && s[k + 1..] == rest;
    SpanIs(s, ' ', k);
  }

  /** Joining up to n spaces and splitting at them are inverse. */
  lemma {:induction false} FieldsOfJoin(items: seq<string>)
    requires items != [] && forall i :: 0 <= i < |items| - 1 ==> ' ' !in items[i]
    ensures Fields(Join(items, ' '), |items| - 1) == items
  {
    if |items| > 1 {
      FirstField(items[0], Join(items[1..], ' '), |items| - 1);
      FieldsOfJoin(items[1..]);
      assert items == [items[0]] + items[1..];
    }
  }

  function Spaces(s: string): nat {
    if s == "" then 0 else Spaces(s[1..]) + if s[0] == ' ' then 1 else 0
  }

  lemma {:induction false} SpacesApart(s: string, t: string)
    ensures Spaces(s + t) == Spaces(s) + Spaces(t)
  {
    if s == "" {
      assert s + t == t;
    } else {
      assert (s + t)[1..] == s[1..] + t;
      SpacesApart(s[1..], t);
    }
  }

  lemma {:induction false} FirstSpace(s: string)
    requires Spaces(s) > 0
    ensures var k := Span(s, ' ');
            k < |s| && s[k] == ' ' && Spaces(s) == 1 + Spaces(s[k + 1..])
  {
    if s[0] != ' ' {
      FirstSpace(s[1..]);
      var k := Span(s, ' ');
      assert s[1..][k..] == s[k + 1..];
    }
  }

  lemma SplitAt(s: string, k: nat)
    requires k < |s|
    ensures s == s[..k] + [s[k]] + s[k + 1..]
  {
  }

  lemma JoinMore(item: string, more: seq<string>)
    requires more != []
    ensures Join([item] + more, ' ') == item + [' '] + Join(more, ' ')
  {
    assert ([item] + more)[1..] == more;
  }

  lemma FieldsStep(s: string, n: nat)
    requires n > 0 && Span(s, ' ') < |s|
    ensures Fields(s, n) == [s[..Span(s, ' ')]] + Fields(s[Span(s, ' ') + 1..], n - 1)
  {
  }

  /** Where there are enough spaces nothing is lost. */
  lemma {:induction false} JoinOfFields(s: string, n: nat)
    requires Spaces(s) >= n
    ensures Join(Fields(s, n), ' ') == s
    decreases n
  {
    if n > 0 {
      FirstSpace(s);
      var k := Span(s, ' ');
      var head, rest := s[..k], s[k + 1..];
      JoinOfFields(rest, n - 1);
      FieldsStep(s, n);
      JoinMore(head, Fields(rest, n - 1));
      SplitAt(s, k);
    }
  }

  lemma {:induction false} SpacesInJoin(items: seq<string>)
    requires items != []
    ensures Spaces(Join(items, ' ')) >= |items| - 1
  {
    if |items| > 1 {
      var rest := Join(items[1..], ' ');
      SpacesInJoin(items[1..]);
      assert items[0] + [' '] + rest == items[0] + ([' '] + rest);
      SpacesApart(items[0], [' '] + rest);
      SpacesApart([' '], rest);
    }
  }

  /** The daemon starts inside the printed number, or behind it. */
  lemma DaemonStarts(e: Entry)
    requires Good(e)
    ensures |Line(e)| > 3 && Line(e)[3..|Line(e)| - 1] == (e.index + ". ")[3..] + e.payload
  {
    var before := e.index + ". ";
    assert Line(e) == before + e.payload + "\n";
    assert Line(e)[..|Line(e)| - 1] == before + e.payload;
  }

  /** With something in front of the periods they are not read as they are. */
  lemma NotReadBehind(before: string, items: seq<string>)
    requires |items| == 6 && before != ""
    ensures Fields(before + Join(items, ' '), 5) != items
  {
    var payload := Join(items, ' ');
    SpacesInJoin(items);
    SpacesApart(before, payload);
    JoinOfFields(before + payload, 5);
    assert |before + payload| > |payload|;
  }

  /** The daemon gets the five periods and the command exactly when the printed number has one character. */
  lemma DaemonReadsExactly(e: Entry, argv: seq<string>)
    requires Good(e) && |argv| == 7 && e.payload == Payload(argv) && forall i :: 1 <= i < 6 ==> ' ' !in argv[i]
    ensures |Line(e)| > 3
    ensures DaemonReads(Line(e)) == argv[1..] <==> |e.index| == 1
  {
    DaemonStarts(e);
    var before := (e.index + ". ")[3..];
    if |e.index| == 1 {
      assert before + e.payload == e.payload;
      FieldsOfJoin(argv[1..]);
    } else {
      NotReadBehind(before, argv[1..]);
    }
  }

  /** A command is read right exactly if the file had less than ten lines when it was added, whatever is
      removed in front of it later. */
  lemma ReadRightExactly(argv: seq<string>, n: nat, i: nat)
    requires |argv| == 7 && GoodPayload(Payload(argv)) && forall k :: 1 <= k < 6 ==> ' ' !in argv[k]
    ensures var e := Entry(Decimal(n), Payload(argv));
            && Good(e) && |Line(e)| > 3 && (DaemonReads(Line(e)) == argv[1..] <==> n < 10)
            && (!Clobbers(i) ==>
                  |Line(Renamed(e, i))| > 3 && (DaemonReads(Line(Renamed(e, i))) == argv[1..] <==> n < 10))
  {
    var e := Entry(Decimal(n), Payload(argv));
    assert Good(e) by {
      assert forall c :: c in e.index ==> IsDigit(c);
    }
    DaemonReadsExactly(e, argv);
    if !Clobbers(i) {
      RenamedLine(e, i);
      DaemonReadsExactly(Renamed(e, i), argv);
    }
  }

  lemma NoneRemoved(es: seq<Entry>, k: nat)
    requires AllGood(es) && k >= |es|
    ensures Removed(es, k) == es
  {
    forall j | 0 <= j < |es| ensures Removed(es, k)[j] == es[j] {
      RemovedAt(es, k, |es|, j);
    }
  }

  lemma StrayText(es: seq<Entry>, counter: nat, k: nat)
    requires AllGood(es) && counter <= |es| <= k
    ensures RemoveText(Text(es), counter, k) == Text(es[..counter])
  {
    RemoveGives(es, counter, k);
    NoneRemoved(es, k);
    if counter == |es| { assert es[..counter] == es; }
  }

  /** Removing a number that no line has leaves the text alone but lowers the counter; a second time the last
      command is lost. */
  lemma StrayRemove(es: seq<Entry>, a: nat, b: nat)
    requires AllGood(es) && a >= |es| && b >= |es|
    ensures Do(File(Text(es), |es|), Remove(a)) == File(Text(es), |es| - 1)
    ensures es != [] ==>
              Do(Do(File(Text(es), |es|), Remove(a)), Remove(b)) == File(Text(es[..|es| - 1]), |es| - 2)
  {
    assert es[..|es|] == es;
    StrayText(es, |es|, a);
    if es != [] { StrayText(es, |es| - 1, b); }
  }
}
