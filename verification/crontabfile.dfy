/** ssu_crontab.c: the crontab file under ADD and REMOVE, as the text the program keeps and as the list of
    commands it stands for. */
module CrontabFile {
  import opened CText
  import opened LineIndex

  /** What the fgets loops see: the lines of the text, without an empty last one. */
  function ReadLines(text: string): seq<string> {
    var ls := Lines(text);
    if ls[|ls| - 1] == "" then ls[..|ls| - 1] else ls
  }

  /** %d */
  function Shown(n: int): string {
    if n < 0 then "-" + Decimal(-n) else Decimal(n)
  }

  /** The five period fields and the command, with single spaces between them. */
  function Payload(argv: seq<string>): string
    requires |argv| == 7
  {
    Join(argv[1..], ' ')
  }

  function AddedLine(counter: int, payload: string): string {
    Shown(counter) + ". " + payload + "\n"
  }

  /** REMOVE checks its number against the counter with one to spare, twice over. */
  predicate NumberOk(arg: string, counter: int) {
    arg != "" && IsDigit(arg[0]) && Atoi(arg) - 1 <= counter
  }

  /** The character written over the first one of line `count` when an earlier line goes. */
  function Mark(count: nat): char {
    ((count + 47) % 256) as char
  }

  function Renumbered(line: string, count: nat): string
    requires |line| > 0
  {
    [Mark(count)] + line[1..]
  }

  /** What the loop of remove_command stores for line `count`, nothing for the line that goes. */
  function Kept(line: string, number: nat, count: nat): seq<string>
    requires |line| > 0
  {
    if count < number then [BeforeNul(line)]
    else if count == number then []
    else [BeforeNul(Renumbered(line, count))]
  }

  predicate Filled(lines: seq<string>) {
    forall i :: 0 <= i < |lines| ==> |lines[i]| > 0
  }

  /** The rows filled after `count` lines. */
  function Copies(lines: seq<string>, number: nat, count: nat): (r: seq<string>)
    requires count <= |lines| && Filled(lines)
    ensures |r| == if number < count then count - 1 else count
  {
    if count == 0 then [] else Copies(lines, number, count - 1) + Kept(lines[count - 1], number, count - 1)
  }

  /** The first `n` copies; the rows behind the last one are empty. */
  function FirstRows(copies: seq<string>, n: int): seq<string> {
    if n <= 0 then [] else if n < |copies| then copies[..n] else copies
  }

  function RemoveText(text: string, counter: int, number: nat): string {
    ReadLinesFilled(text);
    Concat(FirstRows(Copies(ReadLines(text), number, |ReadLines(text)|), counter))
  }

  lemma ReadLinesFilled(text: string)
    ensures Filled(ReadLines(text))
  {
    LinesAreLines(text);
    var all, ls := Lines(text), ReadLines(text);
    var last := |all| - 1;
    forall i | 0 <= i < |ls| ensures |ls[i]| > 0 {
      assert ls[i] == all[i];
      assert i < last ==> Terminated(all[i]);
    }
  }

  /** The lines read are the text: none is empty, and all but the last end at their only line break. */
  lemma ReadLinesIs(text: string)
    ensures var ls := ReadLines(text);
            && Concat(ls) == text && (forall i :: 0 <= i < |ls| ==> |ls[i]| > 0)
            && (forall i :: 0 <= i < |ls| - 1 ==> Terminated(ls[i]))
            && (ls != [] && '\n' in ls[|ls| - 1] ==> Terminated(ls[|ls| - 1]))
  {
    LinesAreLines(text);
    ReadLinesFilled(text);
    var all, ls := Lines(text), ReadLines(text);
    var n := |all| - 1;
    if all[n] == "" {
      assert all == ls + [""];
      ConcatEnd(ls, "");
    }
    forall i | 0 <= i < |ls| ensures ls[i] == all[i] {}
  }

  /** The new first characters count up from '/', through '0' to '9' and beyond them; at the 209th line they
      start again from the terminator. */
  lemma MarkIs(count: nat)
    ensures count <= 208 ==> Mark(count) as int == '0' as int - 1 + count
    ensures Mark(209) == '\0' && Mark(count + 256) == Mark(count)
  {
  }

  lemma ShownReads(n: int)
    ensures Atoi(Shown(n)) == n
  {
    if n < 0 {
      var d := Decimal(-n);
      AtoiReads(d, "");
      assert Shown(n) == ['-'] + (d + "");
    } else {
      AtoiIsValue(Decimal(n));
    }
  }

  /** The line that ADD writes. */
  lemma AddedLineIs(counter: int, argv: seq<string>)
    requires |argv| == 7
    ensures AddedLine(counter, Payload(argv)) ==
            Shown(counter) + ". "
            + (argv[1] + " " + argv[2] + " " + argv[3] + " " + argv[4] + " " + argv[5] + " " + argv[6]) + "\n"
  {
    var text := "";
    for i := 1 to 6
      invariant Payload(argv) == text + Join(argv[i..], ' ')
      invariant i == 1 ==> text == ""
      invariant i == 2 ==> text == argv[1] + " "
      invariant i == 3 ==> text == argv[1] + " " + argv[2] + " "
      invariant i == 4 ==> text == argv[1] + " " + argv[2] + " " + argv[3] + " "
      invariant i == 5 ==> text == argv[1] + " " + argv[2] + " " + argv[3] + " " + argv[4] + " "
      invariant i == 6 ==> text == argv[1] + " " + argv[2] + " " + argv[3] + " " + argv[4] + " " + argv[5] + " "
    {
      assert argv[i..][1..] == argv[i + 1..];
      JoinStep(text, argv[i..]);
      text := text + argv[i] + " ";
    }
    assert argv[6..] == [argv[6]];
  }

  lemma RowStaysOnce(lines: seq<string>, number: nat, n: nat, j: nat, row: string)
    requires n < |lines| && Filled(lines) && j < |Copies(lines, number, n)| && Copies(lines, number, n)[j] == row
    ensures j < |Copies(lines, number, n + 1)| && Copies(lines, number, n + 1)[j] == row
  {
  }

  /** Rows once filled stay where they are. */
  lemma RowStays(lines: seq<string>, number: nat, count: nat, n: nat, j: nat)
    requires n <= count <= |lines| && Filled(lines) && j < |Copies(lines, number, n)|
    ensures j < |Copies(lines, number, count)| && Copies(lines, number, count)[j] == Copies(lines, number, n)[j]
  {
    var row := Copies(lines, number, n)[j];
    for k := n to count
      invariant j < |Copies(lines, number, k)| && Copies(lines, number, k)[j] == row
    {
      RowStaysOnce(lines, number, k, j, row);
    }
  }

  lemma RowFilled(lines: seq<string>, number: nat, i: nat)
    requires i < |lines| && Filled(lines) && i != number
    ensures var r := Copies(lines, number, i + 1);
            && r != [] && (i < number ==> r[|r| - 1] == BeforeNul(lines[i]))
            && (i > number ==> r[|r| - 1] == BeforeNul([Mark(i)] + lines[i][1..]))
  {
  }

  /** Line i is copied up to its first terminator, behind the line that goes with its new first character. */
  lemma CopiesAt(lines: seq<string>, number: nat, count: nat, i: nat)
    requires i < count <= |lines| && Filled(lines) && i != number
    ensures |Copies(lines, number, count)| == if number < count then count - 1 else count
    ensures i < number ==> Copies(lines, number, count)[i] == BeforeNul(lines[i])
    ensures i > number ==> Copies(lines, number, count)[i - 1] == BeforeNul([Mark(i)] + lines[i][1..])
  {
    var k := if i < number then i else i - 1;
    RowStays(lines, number, count, i + 1, k);
    RowFilled(lines, number, i);
  }

  lemma RenumberedIs(line: string, count: nat)
    requires |line| > 0
    ensures Renumbered(line, count) == line[0 := Mark(count)]
  {
  }

  /** number_check refuses what does not start with a digit. */
  lemma RefusesOthers(arg: string, counter: int)
    requires arg == "" || !('0' <= arg[0] <= '9')
    ensures !NumberOk(arg, counter)
  {
  }

  /** It reads the digits at the front, and lets through two numbers that no line has. */
  lemma GuardIsLoose(number: Num, rest: string, counter: int)
    requires rest == "" || !('0' <= rest[0] <= '9')
    ensures NumberOk(number + rest, counter) <==> Value(number) <= counter + 1
  {
    AtoiReads(number, rest);
  }

  lemma JoinStep(text: string, items: seq<string>)
    requires |items| > 1
    ensures text + Join(items, ' ') == (text + items[0] + " ") + Join(items[1..], ' ')
  {
  }

  lemma LineParts(text: string, number: string, payload: string)
    ensures text + number + ". " + payload + "\n" == text + (number + ". " + payload + "\n")
  {
  }

  // ---------------------------------------------------------------- the program

  class Crontab {
    var text: string
    var lineCounter: int

    /** Opening the file counts its lines. */
    constructor (text: string)
      ensures this.text == text && lineCounter == |ReadLines(text)|
    {
      this.text := text;
      var lines := ReadLines(text);
      lineCounter := 0;
      new;
      for i := 0 to |lines|
        invariant lineCounter == i && this.text == text
      {
        lineCounter := lineCounter + 1;
      }
    }

    method AddCommand(argv: seq<string>)
      requires |argv| == 7
      modifies this
      ensures text == old(text) + AddedLine(old(lineCounter), Payload(argv)) && lineCounter == old(lineCounter) + 1
    {
      text := text + Shown(lineCounter);
      text := text + ". ";
      ghost var head := text;
      for i := 1 to 6
        invariant lineCounter == old(lineCounter)
        invariant head + Payload(argv) == text + Join(argv[i..], ' ')
      {
        assert argv[i..][1..] == argv[i + 1..];
        JoinStep(text, argv[i..]);
        text := text + argv[i];
        text := text + " ";
      }
      assert argv[6..] == [argv[6]];
      text := text + argv[6];
      text := text + "\n";
      LineParts(old(text), Shown(lineCounter), Payload(argv));
      lineCounter := lineCounter + 1;
    }

    /** The reading loop of remove_command: the rows to keep, the later ones with a new first character. */
    method CopyLines(lines: seq<string>, number: nat) returns (copy: seq<string>)
      requires Filled(lines)
      ensures copy == Copies(lines, number, |lines|)
    {
      copy := [];
      var count := 0;
      while count < |lines|
        invariant count <= |lines|
        invariant copy == Copies(lines, number, count)
      {
        ghost var before := copy;
        var buf := lines[count];
        if count < number {
          copy := copy + [BeforeNul(buf)];
        } else if count > number {
          buf := buf[0 := Mark(count)];
          RenumberedIs(lines[count], count);
          copy := copy + [BeforeNul(buf)];
        }
        assert copy == before + Kept(lines[count], number, count);
        count := count + 1;
      }
    }

    method RemoveCommand(number: nat)
      modifies this
      ensures text == RemoveText(old(text), old(lineCounter), number) && lineCounter == old(lineCounter) - 1
    {
      ReadLinesFilled(text);
      var copy := CopyLines(ReadLines(text), number);
      lineCounter := lineCounter - 1;
      text := "";
      var i := 0;
      while i < lineCounter + 1
        invariant 0 <= i && lineCounter == old(lineCounter) - 1
        invariant text == Concat(FirstRows(copy, i)) && (i <= lineCounter + 1 || i == 0)
      {
        OneMoreRow(copy, i);
        text := text + if i < |copy| then copy[i] else "";
        i := i + 1;
      }
    }
  }

  lemma OneMoreRow(copies: seq<string>, i: nat)
    ensures Concat(FirstRows(copies, i + 1)) == Concat(FirstRows(copies, i)) + if i < |copies| then copies[i] else ""
  {
    if i < |copies| {
      ConcatEnd(copies[..i], copies[i]);
      assert copies[..i + 1] == copies[..i] + [copies[i]];
      assert FirstRows(copies, i) == copies[..i] && FirstRows(copies, i + 1) == copies[..i + 1];
    } else {
      assert FirstRows(copies, i) == copies == FirstRows(copies, i + 1);
    }
  }

  lemma {:induction false} ConcatEnd(parts: seq<string>, part: string)
    ensures Concat(parts + [part]) == Concat(parts) + part
  {
    if parts == [] {
      assert [part][1..] == [];
    } else {
      assert (parts + [part])[1..] == parts[1..] + [part];
      ConcatEnd(parts[1..], part);
    }
  }
}
