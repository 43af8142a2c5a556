/** Printing a file's last lines: characters go into a circular buffer of n line slots, and
    the slots are printed from the oldest on. */
module Tail {

  const NUL: char := '\0'
  const MAX_LINE_LENGTH: nat := 1024

  // ---------------------------------------------------------------- the input as records

  // Finished records and the one still being read.
  datatype Reading = Reading(records: seq<string>, pending: string)

  // A newline ends a record, and so does a full slot, whose character is dropped.
  function Next(r: Reading, c: char): Reading {
    if c == '\n' || |r.pending| >= MAX_LINE_LENGTH - 1 then Reading(r.records + [r.pending], "")
    else Reading(r.records, r.pending + [c])
  }

  function Feed(input: string): Reading {
    if input == "" then Reading([], "") else Next(Feed(input[..|input| - 1]), input[|input| - 1])
  }

  // What a C string holds: the characters before the first NUL.
  function CString(s: string): string {
    if s == "" || s[0] == NUL then "" else [s[0]] + CString(s[1..])
  }

  // The record `i` places from the oldest of the last n, or nothing.
  function Slot(records: seq<string>, n: nat, i: nat): string
    requires i < n
  {
    if n <= |records| + i then records[|records| + i - n] else ""
  }

  // The non-empty ones of some records, as they are printed.
  function Shown(records: seq<string>): seq<string> {
    if records == [] then []
    else
      var last := CString(records[|records| - 1]);
      Shown(records[..|records| - 1]) + if last != "" then [last] else []
  }

  function LastOf(records: seq<string>, n: nat): seq<string> {
    if |records| <= n then records else records[|records| - n..]
  }

  function Slots(records: seq<string>, n: nat): (s: seq<string>)
    ensures |s| == n
  {
    seq(n, (i: nat) requires i < n => Slot(records, n, i))
  }

  // ---------------------------------------------------------------- the circular buffer

  function Wrap(n: nat, k: nat): (r: nat)
    requires k < 2 * n
    ensures r < n && r == k % n
  {
    if k >= n then k - n else k
  }

  // The i-th row to print.
  function Printed(n: nat, current: nat, i: nat): (j: nat)
    requires current < n && i < n
    ensures j == Wrap(n, current + i)
  {
    (current + i) % n
  }

  ghost predicate Buffer(lines: array2<char>, n: nat) {
    0 < n && lines.Length0 == n && lines.Length1 == MAX_LINE_LENGTH
  }

  // Row j is a terminated string that starts with the record.
  ghost predicate Terminated(lines: array2<char>, n: nat, j: nat, record: string)
    requires Buffer(lines, n)
    reads lines
  {
    && j < n && |record| < MAX_LINE_LENGTH
    && (forall k :: 0 <= k < |record| ==> lines[j, k] == record[k])
    && lines[j, |record|] == NUL
  }

  // The row i places after the current one holds the i-th oldest of the last n records.
  ghost predicate Aged(lines: array2<char>, n: nat, current: nat, records: seq<string>, i: nat)
    requires Buffer(lines, n) && current < n && i < n
    reads lines
  {
    Terminated(lines, n, Wrap(n, current + i), Slot(records, n, i))
  }

  lemma AgedNext(records: seq<string>, record: string, n: nat, current: nat, i: nat)
    requires current < n && i < n
    ensures i + 1 < n ==>
              Wrap(n, Wrap(n, current + 1) + i) == Wrap(n, current + (i + 1)) &&
              Slot(records + [record], n, i) == Slot(records, n, i + 1)
    ensures i + 1 == n ==>
              Wrap(n, Wrap(n, current + 1) + i) == current && Slot(records + [record], n, i) == record
  {
  }

  // Row j as a C string.
  function RowString(lines: array2<char>, n: nat, j: nat, k: nat): string
    requires Buffer(lines, n) && j < n && k <= MAX_LINE_LENGTH
    reads lines
    decreases MAX_LINE_LENGTH - k
  {
    if k == MAX_LINE_LENGTH || lines[j, k] == NUL then "" else [lines[j, k]] + RowString(lines, n, j, k + 1)
  }

  lemma {:induction false} RowIsRecord(lines: array2<char>, n: nat, j: nat, record: string, k: nat)
    requires Buffer(lines, n) && Terminated(lines, n, j, record) && k <= |record|
    ensures RowString(lines, n, j, k) == CString(record[k..])
    decreases |record| - k
  {
    if k < |record| {
      RowIsRecord(lines, n, j, record, k + 1);
      assert record[k..][1..] == record[k + 1..];
    }
  }

  // One more character of the row is on the printed side.
  lemma RowUnrolled(lines: array2<char>, n: nat, j: nat, k: nat, s: string)
    requires Buffer(lines, n) && j < n && k <= MAX_LINE_LENGTH
    ensures if k < MAX_LINE_LENGTH && lines[j, k] != NUL
            then s + RowString(lines, n, j, k) == s + [lines[j, k]] + RowString(lines, n, j, k + 1)
            else s + RowString(lines, n, j, k) == s
  {
  }

  method PrintRow(lines: array2<char>, n: nat, j: nat) returns (s: string)
    requires Buffer(lines, n) && j < n
    ensures s == RowString(lines, n, j, 0)
  {
    hide RowString;
    s := "";
    var k := 0;
    assert s + RowString(lines, n, j, 0) == RowString(lines, n, j, 0);
    while k < MAX_LINE_LENGTH && lines[j, k] != NUL
      invariant 0 <= k <= MAX_LINE_LENGTH
      invariant s + RowString(lines, n, j, k) == RowString(lines, n, j, 0)
    {
      RowUnrolled(lines, n, j, k, s);
      s := s + [lines[j, k]];
      k := k + 1;
    }
    RowUnrolled(lines, n, j, k, s);
  }

  // The last unfinished record is at the front of the current row, over an older one.
  ghost predicate Filling(lines: array2<char>, n: nat, current: nat, r: Reading)
    requires Buffer(lines, n) && current < n
    reads lines
  {
    && |r.pending| < MAX_LINE_LENGTH
    && (r.pending == "" ==> Aged(lines, n, current, r.records, 0))
    && (forall k :: 0 <= k < |r.pending| ==> lines[current, k] == r.pending[k])
  }

  ghost predicate Loaded(lines: array2<char>, n: nat, current: nat, r: Reading)
    requires Buffer(lines, n) && current < n
    reads lines
  {
    && Filling(lines, n, current, r)
    && forall i :: 0 < i < n ==> Aged(lines, n, current, r.records, i)
  }

  // One character read: into the current row, or its end and on to the next row.
  method Read(lines: array2<char>, n: nat, current0: nat, pos0: nat, c: char, ghost r: Reading)
    returns (current: nat, pos: nat)
    requires Buffer(lines, n) && current0 < n && pos0 == |r.pending| && Loaded(lines, n, current0, r)
    modifies lines
    ensures current < n && pos == |Next(r, c).pending| && Loaded(lines, n, current, Next(r, c))
  {
    hide Slot, Wrap;
    current, pos := current0, pos0;
    if c == '\n' || pos >= MAX_LINE_LENGTH - 1 {
      lines[current, pos] := NUL;
      current := (current + 1) % n;
      pos := 0;
      assert current == Wrap(n, current0 + 1);
      forall i | 0 <= i < n ensures Aged(lines, n, current, r.records + [r.pending], i) {
        AgedNext(r.records, r.pending, n, current0, i);
        if i + 1 < n {
          assert old(Aged(lines, n, current0, r.records, i + 1));
          OtherRow(n, current0, i + 1);
        }
      }
    } else {
      lines[current, pos] := c;
      pos := pos + 1;
      forall i | 0 < i < n ensures Aged(lines, n, current, r.records, i) {
        assert old(Aged(lines, n, current0, r.records, i));
        OtherRow(n, current0, i);
      }
    }
  }

  lemma OtherRow(n: nat, current: nat, i: nat)
    requires current < n && 0 < i < n
    ensures Wrap(n, current + i) != current
  {
  }

  // ---------------------------------------------------------------- printing

  lemma {:induction false} ShownBoth(a: seq<string>, b: seq<string>)
    ensures Shown(a + b) == Shown(a) + Shown(b)
  {
    if b == [] {
      assert a + b == a;
    } else {
      ShownBoth(a, b[..|b| - 1]);
      assert (a + b)[..|a + b| - 1] == a + b[..|b| - 1];
    }
  }

  lemma {:induction false} ShownBlank(records: seq<string>)
    requires forall i :: 0 <= i < |records| ==> records[i] == ""
    ensures Shown(records) == []
  {
    if records != [] {
      ShownBlank(records[..|records| - 1]);
    }
  }

  // Slots no record has reached yet print nothing.
  lemma SlotsAreLast(records: seq<string>, n: nat)
    ensures Shown(Slots(records, n)) == Shown(LastOf(records, n))
  {
    if |records| <= n {
      var blank := seq(n - |records|, _ => "");
      assert Slots(records, n) == blank + records;
      ShownBlank(blank);
      ShownBoth(blank, records);
    } else {
      assert Slots(records, n) == records[|records| - n..];
    }
  }

  lemma {:induction false} RowStartsWith(lines: array2<char>, n: nat, j: nat, s: string, k: nat)
    requires Buffer(lines, n) && j < n && k <= |s| <= MAX_LINE_LENGTH
    requires forall i :: 0 <= i < |s| ==> lines[j, i] == s[i]
    ensures CString(s[k..]) <= RowString(lines, n, j, k)
    decreases |s| - k
  {
    if k < |s| && s[k] != NUL {
      RowStartsWith(lines, n, j, s, k + 1);
      assert s[k..][1..] == s[k + 1..];
    }
  }

  lemma ShownNext(records: seq<string>, n: nat, i: nat)
    requires 0 < i < n
    ensures Shown(Slots(records, n)[1..i + 1]) ==
            Shown(Slots(records, n)[1..i]) + Shown([Slot(records, n, i)])
  {
    assert Slots(records, n)[1..i + 1] == Slots(records, n)[1..i] + [Slot(records, n, i)];
    ShownBoth(Slots(records, n)[1..i], [Slot(records, n, i)]);
  }

  lemma ShownOne(record: string)
    ensures Shown([record]) == if CString(record) == "" then [] else [CString(record)]
  {
    assert [record][..0] == [];
    assert Shown([]) == [];
  }

  // What a row adds to the output.
  function RowShown(lines: array2<char>, n: nat, j: nat): seq<string>
    requires Buffer(lines, n) && j < n
    reads lines
  {
    if lines[j, 0] == NUL then [] else [RowString(lines, n, j, 0)]
  }

  lemma RowShownIs(lines: array2<char>, n: nat, j: nat, record: string)
    requires Buffer(lines, n) && Terminated(lines, n, j, record)
    ensures RowShown(lines, n, j) == Shown([record])
  {
    RowIsRecord(lines, n, j, record, 0);
    assert record[0..] == record;
    ShownOne(record);
  }

  lemma RowShownBegins(lines: array2<char>, n: nat, j: nat, pending: string)
    requires Buffer(lines, n) && j < n && 0 < |pending| < MAX_LINE_LENGTH && pending[0] != NUL
    requires forall k :: 0 <= k < |pending| ==> lines[j, k] == pending[k]
    ensures |RowShown(lines, n, j)| == 1 && CString(pending) <= RowShown(lines, n, j)[0]
  {
    RowStartsWith(lines, n, j, pending, 0);
    assert pending[0..] == pending;
  }

  lemma RowShownNothing(lines: array2<char>, n: nat, j: nat)
    requires Buffer(lines, n) && j < n && lines[j, 0] == NUL
    ensures RowShown(lines, n, j) == []
  {
  }

  lemma SlotsSplit(records: seq<string>, n: nat)
    requires 0 < n
    ensures Shown(Slots(records, n)) == Shown([Slot(records, n, 0)]) + Shown(Slots(records, n)[1..])
  {
    assert Slots(records, n) == [Slot(records, n, 0)] + Slots(records, n)[1..];
    ShownBoth([Slot(records, n, 0)], Slots(records, n)[1..]);
  }

  method PrintLines(lines: array2<char>, n: nat, current: nat, ghost r: Reading) returns (out: seq<string>)
    requires Buffer(lines, n) && current < n && Loaded(lines, n, current, r)
    ensures r.pending == "" ==> out == Shown(Slots(r.records, n))
    ensures r.pending != "" && r.pending[0] != NUL ==>
              out != [] && CString(r.pending) <= out[0] && out[1..] == Shown(Slots(r.records, n)[1..])
    ensures r.pending != "" && r.pending[0] == NUL ==> out == Shown(Slots(r.records, n)[1..])
  {
    hide RowString, RowShown, Shown, CString, Slots, Slot, Wrap, Printed, Terminated;
    out := [];
    ghost var head, rest := RowShown(lines, n, current), Slots(r.records, n);
    for i := 0 to n
      invariant out == if i == 0 then [] else head + Shown(rest[1..i])
    {
      var index := Printed(n, current, i);
      var row := PrintSlot(lines, n, index);
      out := out + row;
      CurrentRow(n, current);
      if i == 0 {
        ShownNone();
      } else {
        assert Aged(lines, n, current, r.records, i);
        RowShownIs(lines, n, index, Slot(r.records, n, i));
        ShownNext(r.records, n, i);
      }
    }
    assert rest[1..n] == rest[1..];
    if r.pending == "" {
      assert Aged(lines, n, current, r.records, 0);
      CurrentRow(n, current);
      RowShownIs(lines, n, current, Slot(r.records, n, 0));
      SlotsSplit(r.records, n);
    } else if r.pending[0] != NUL {
      RowShownBegins(lines, n, current, r.pending);
    } else {
      assert lines[current, 0] == NUL;
      RowShownNothing(lines, n, current);
    }
  }

  lemma CurrentRow(n: nat, current: nat)
    requires current < n
    ensures Wrap(n, current + 0) == current
  {
  }

  lemma ShownNone()
    ensures forall s: seq<string> {:trigger Shown(s[1..1])} :: 0 < |s| ==> Shown(s[1..1]) == []
  {
  }

  method PrintSlot(lines: array2<char>, n: nat, j: nat) returns (row: seq<string>)
    requires Buffer(lines, n) && j < n
    ensures row == RowShown(lines, n, j)
  {
    row := [];
    if lines[j, 0] != NUL {
      var s := PrintRow(lines, n, j);
      row := [s];
    }
  }

  lemma NothingRead(lines: array2<char>, n: nat)
    requires Buffer(lines, n) && forall j :: 0 <= j < n ==> lines[j, 0] == NUL
    ensures Feed("") == Reading([], "") && Loaded(lines, n, 0, Feed(""))
  {
  }

  /** The whole program: when the input ends with its last record, the non-empty ones among
      the last n records, oldest first. An unfinished record comes out first instead, with
      whatever its slot still held behind it, or not at all when it starts with a NUL. */
  method TailFile(input: string, n: nat) returns (out: seq<string>)
    requires 1 <= n
    ensures Feed(input).pending == "" ==> out == Shown(LastOf(Feed(input).records, n))
    ensures var r := Feed(input);
            r.pending != "" && r.pending[0] != NUL ==>
              out != [] && CString(r.pending) <= out[0] && out[1..] == Shown(Slots(r.records, n)[1..])
    ensures var r := Feed(input);
            r.pending != "" && r.pending[0] == NUL ==> out == Shown(Slots(r.records, n)[1..])
  {
    hide Next, Feed, Filling, Slots, Shown, CString;
    var lines := new char[n, MAX_LINE_LENGTH];
    for i := 0 to n
      invariant forall j :: 0 <= j < i ==> lines[j, 0] == NUL
    {
      lines[i, 0] := NUL;
    }
    var current: nat, pos: nat, k: nat := 0, 0, 0;
    assert input[..0] == "";
    NothingRead(lines, n);
    while k < |input|
      invariant k <= |input| && current < n
      invariant pos == |Feed(input[..k]).pending| && Loaded(lines, n, current, Feed(input[..k]))
    {
      FeedNext(input[..k], input[k]);
      assert input[..k] + [input[k]] == input[..k + 1];
      current, pos := Read(lines, n, current, pos, input[k], Feed(input[..k]));
      k := k + 1;
    }
    assert input[..k] == input;
    SlotsAreLast(Feed(input).records, n);
    out := PrintLines(lines, n, current, Feed(input));
  }

  // ---------------------------------------------------------------- newline-terminated text

  // Lines the slots can hold whole.
  predicate Fits(line: string) {
    |line| <= 1023 && '\n' !in line && NUL !in line
  }

  function Join(lines: seq<string>): string {
    if lines == [] then "" else Join(lines[..|lines| - 1]) + lines[|lines| - 1] + "\n"
  }

  lemma FeedNext(text: string, c: char)
    ensures Feed(text + [c]) == Next(Feed(text), c)
  {
    assert (text + [c])[..|text|] == text;
  }

  lemma {:induction false} FeedLine(text: string, line: string)
    requires Feed(text).pending == "" && |line| <= 1023 && '\n' !in line
    ensures Feed(text + line) == Reading(Feed(text).records, line)
  {
    hide Feed;
    if line == "" {
      assert text + line == text;
    } else {
      var n := |line| - 1;
      FeedLine(text, line[..n]);
      FeedNext(text + line[..n], line[n]);
      assert text + line[..n] + [line[n]] == text + line;
      assert line == line[..n] + [line[n]];
      assert line[n] in line;
    }
  }

  lemma {:induction false} LinesAreRecords(lines: seq<string>)
    requires forall i :: 0 <= i < |lines| ==> Fits(lines[i])
    ensures Feed(Join(lines)) == Reading(lines, "")
  {
    if lines != [] {
      var n := |lines| - 1;
      var text := Join(lines[..n]);
      LinesAreRecords(lines[..n]);
      FeedLine(text, lines[n]);
      FeedNext(text + lines[n], '\n');
      assert lines == lines[..n] + [lines[n]];
    }
  }

  // The records of a line of any length: 1023 characters at a time, the next one being lost.
  function Cut(line: string): seq<string> {
    if |line| <= 1023 then [line] else [line[..1023]] + Cut(line[1024..])
  }

  function Cuts(lines: seq<string>): seq<string> {
    if lines == [] then [] else Cuts(lines[..|lines| - 1]) + Cut(lines[|lines| - 1])
  }

  lemma {:induction false} FeedLongLine(text: string, line: string)
    requires Feed(text).pending == "" && '\n' !in line
    ensures Feed(text + line + "\n") == Reading(Feed(text).records + Cut(line), "")
    decreases |line|
  {
    hide Feed;
    if |line| <= 1023 {
      FeedLine(text, line);
      FeedNext(text + line, '\n');
    } else {
      var first := text + line[..1023];
      FeedLine(text, line[..1023]);
      FeedNext(first, line[1023]);
      assert first + [line[1023]] == text + line[..1024];
      FeedLongLine(text + line[..1024], line[1024..]);
      assert text + line[..1024] + line[1024..] == text + line;
      Regroup(Feed(text).records, [line[..1023]], Cut(line[1024..]));
    }
  }

  lemma Regroup(a: seq<string>, b: seq<string>, c: seq<string>)
    ensures a + b + c == a + (b + c)
  {
  }

  /** Newline-terminated text of any lines is read back as their cuts. */
  lemma {:induction false} LinesAreCut(lines: seq<string>)
    requires forall i :: 0 <= i < |lines| ==> '\n' !in lines[i]
    ensures Feed(Join(lines)) == Reading(Cuts(lines), "")
  {
    hide Feed, Cut;
    if lines == [] {
      FeedNothing();
    } else {
      LinesAreCut(lines[..|lines| - 1]);
      FeedLongLine(Join(lines[..|lines| - 1]), lines[|lines| - 1]);
    }
  }

  lemma FeedNothing()
    ensures Feed("") == Reading([], "")
  {
  }

  // A record ends for printing at its first NUL, if it has one.
  lemma {:induction false} CStringStops(s: string, rest: string)
    requires NUL !in s && (rest != "" ==> rest[0] == '\0')
    ensures CString(s + rest) == s
  {
    if s == "" {
      assert s + rest == rest;
    } else {
      assert (s + rest)[1..] == s[1..] + rest;
      CStringStops(s[1..], rest);
    }
  }

  function NonEmpty(lines: seq<string>): seq<string> {
    if lines == [] then []
    else
      var n := |lines| - 1;
      NonEmpty(lines[..n]) + if lines[n] != "" then [lines[n]] else []
  }

  lemma {:induction false} ShownIsNonEmpty(lines: seq<string>)
    requires forall i :: 0 <= i < |lines| ==> Fits(lines[i])
    ensures Shown(lines) == NonEmpty(lines)
  {
    if lines != [] {
      ShownIsNonEmpty(lines[..|lines| - 1]);
      CStringStops(lines[|lines| - 1], "");
      assert lines[|lines| - 1] + "" == lines[|lines| - 1];
    }
  }

  /** On newline-terminated text with lines that fit, what is printed is the non-empty lines
      among the last n, in file order. */
  lemma TailOfText(lines: seq<string>, n: nat)
    requires forall i :: 0 <= i < |lines| ==> Fits(lines[i])
    ensures Feed(Join(lines)).pending == ""
    ensures Shown(LastOf(Feed(Join(lines)).records, n)) == NonEmpty(LastOf(lines, n))
  {
    hide Shown, NonEmpty, Fits, Feed, Join;
    LinesAreRecords(lines);
    ShownIsNonEmpty(LastOf(lines, n));
  }
}
