/** The word table: a tokenizer that lowercases runs of letters and digits and cuts them every
    99 characters, and a table of at most 1000 words updated in place. */
module WordCount {

  const MAX_WORDS: nat := 1000
  const MAX_WORD_LENGTH: nat := 100

  // ---------------------------------------------------------------- the table, as a function

  datatype Entry = Entry(word: string, count: nat)

  function IndexOf(table: seq<Entry>, word: string): (i: nat)
    ensures i <= |table|
    ensures i < |table| ==> table[i].word == word
    ensures forall j :: 0 <= j < i ==> table[j].word != word
  {
    if table == [] || table[0].word == word then 0 else 1 + IndexOf(table[1..], word)
  }

  function Added(table: seq<Entry>, word: string): seq<Entry> {
    var i := IndexOf(table, word);
    if i < |table| then table[i := Entry(word, table[i].count + 1)]
    else if |table| < MAX_WORDS then table + [Entry(word, 1)]
    else table
  }

  function Table(tokens: seq<string>): seq<Entry> {
    if tokens == [] then [] else Added(Table(tokens[..|tokens| - 1]), tokens[|tokens| - 1])
  }

  // The distinct tokens in the order they first appear.
  function Distinct(tokens: seq<string>): seq<string> {
    if tokens == [] then []
    else
      var before, last := Distinct(tokens[..|tokens| - 1]), tokens[|tokens| - 1];
      if last in before then before else before + [last]
  }

  function Words(table: seq<Entry>): seq<string> {
    seq(|table|, (i: nat) requires i < |table| => table[i].word)
  }

  function Kept(words: seq<string>): seq<string> {
    if |words| <= 1000 then words else words[..1000]
  }

  lemma {:induction false} DistinctMembers(tokens: seq<string>, w: string)
    ensures w in Distinct(tokens) <==> w in tokens
  {
    if tokens != [] {
      var n := |tokens| - 1;
      DistinctMembers(tokens[..n], w);
      assert tokens == tokens[..n] + [tokens[n]];
    }
  }

  lemma {:induction false} DistinctOnce(tokens: seq<string>)
    ensures forall i, j :: 0 <= i < j < |Distinct(tokens)| ==> Distinct(tokens)[i] != Distinct(tokens)[j]
  {
    if tokens != [] {
      DistinctOnce(tokens[..|tokens| - 1]);
    }
  }

  lemma CountNext(tokens: seq<string>, n: nat, w: string)
    requires n + 1 == |tokens|
    ensures multiset(tokens)[w] == multiset(tokens[..n])[w] + if w == tokens[n] then 1 else 0
  {
    assert tokens == tokens[..n] + [tokens[n]];
  }

  /** The table's words are the first 1000 distinct tokens, in order of first appearance, and
      each count is the word's exact number of occurrences among the tokens. */
  lemma {:induction false} TableCounts(tokens: seq<string>)
    ensures Words(Table(tokens)) == Kept(Distinct(tokens))
    ensures forall i :: 0 <= i < |Table(tokens)| ==>
              Table(tokens)[i].count == multiset(tokens)[Table(tokens)[i].word]
  {
    if tokens != [] {
      var n := |tokens| - 1;
      var before, last := tokens[..n], tokens[n];
      var t := Table(before);
      TableCounts(before);
      DistinctMembers(before, last);
      DistinctOnce(before);
      var i := IndexOf(t, last);
      forall k | 0 <= k < |t| ensures Words(t)[k] == t[k].word == Distinct(before)[k] {
      }
      forall w ensures multiset(tokens)[w] == multiset(before)[w] + if w == last then 1 else 0 {
        CountNext(tokens, n, w);
      }
      if i < |t| {
        assert Words(Added(t, last)) == Words(t);
      } else if |t| < MAX_WORDS {
        assert Distinct(before) == Words(t);
        assert last !in Words(t);
        assert Words(Added(t, last)) == Words(t) + [last];
        assert multiset(before)[last] == 0;
      }
    }
  }

  // ---------------------------------------------------------------- the table in place

  class WordTable {
    var words: array<string>
    var counts: array<nat>
    var count: nat

    ghost predicate Valid()
      reads this
    {
      words.Length == MAX_WORDS && counts.Length == MAX_WORDS && count <= MAX_WORDS
    }

    ghost function Entries(): (s: seq<Entry>)
      requires Valid()
      reads this, words, counts
      ensures |s| == count
    {
      seq(count, (i: nat) requires Valid() && i < count reads this, words, counts => Entry(words[i], counts[i]))
    }

    constructor ()
      ensures Valid() && fresh(words) && fresh(counts) && Entries() == []
    {
      words := new string[MAX_WORDS](_ => "");
      counts := new nat[MAX_WORDS](_ => 0);
      count := 0;
    }

    method AddWord(word: string)
      requires Valid()
      modifies this`count, words, counts
      ensures Valid() && Entries() == Added(old(Entries()), word)
    {
      ghost var before := Entries();
      for i := 0 to count
        invariant Entries() == before
        invariant forall j :: 0 <= j < i ==> before[j].word != word
      {
        assert before[i] == Entry(words[i], counts[i]);
        if words[i] == word {
          counts[i] := counts[i] + 1;
          assert IndexOf(before, word) == i;
          assert Entries() == before[i := Entry(word, before[i].count + 1)];
          return;
        }
      }
      if count < MAX_WORDS {
        words[count] := word;
        counts[count] := 1;
        count := count + 1;
        assert Entries() == before + [Entry(word, 1)];
      }
    }
  }

  // ---------------------------------------------------------------- tokens

  predicate Alnum(c: char) {
    '0' <= c <= '9' || 'a' <= c <= 'z' || 'A' <= c <= 'Z'
  }

  function Lower(c: char): char {
    if 'A' <= c <= 'Z' then c - 'A' + 'a' else c
  }

  function Flush(buffer: string): seq<string> {
    if buffer == "" then [] else [buffer]
  }

  // The tokens still to come, given what the buffer holds.
  function TokensFrom(buffer: string, input: string): seq<string>
    decreases |input|
  {
    if input == "" then Flush(buffer)
    else if Alnum(input[0]) then
      var longer := buffer + [Lower(input[0])];
      if |longer| >= MAX_WORD_LENGTH - 1 then [longer] + TokensFrom("", input[1..])
      else TokensFrom(longer, input[1..])
    else Flush(buffer) + TokensFrom("", input[1..])
  }

  function Tokens(input: string): seq<string> {
    TokensFrom("", input)
  }

  lemma TableNext(tokens: seq<string>, w: string)
    ensures Table(tokens + [w]) == Added(Table(tokens), w)
  {
    assert (tokens + [w])[..|tokens|] == tokens;
  }

  // One character moves from the input to the tokens or the buffer.
  lemma TokensNext(done: seq<string>, buffer: string, input: string)
    requires input != "" && |buffer| < MAX_WORD_LENGTH - 1
    ensures var longer := buffer + [Lower(input[0])];
            done + TokensFrom(buffer, input) ==
            if !Alnum(input[0]) then (if buffer == "" then done else done + [buffer]) + TokensFrom("", input[1..])
            else if |longer| >= MAX_WORD_LENGTH - 1 then done + [longer] + TokensFrom("", input[1..])
            else done + TokensFrom(longer, input[1..])
  {
    var longer := buffer + [Lower(input[0])];
    if !Alnum(input[0]) {
      Regroup(done, Flush(buffer), TokensFrom("", input[1..]));
      assert done + [] == done;
    } else if |longer| >= MAX_WORD_LENGTH - 1 {
      Regroup(done, [longer], TokensFrom("", input[1..]));
    }
  }

  lemma Regroup(a: seq<string>, b: seq<string>, c: seq<string>)
    ensures a + (b + c) == a + b + c
  {
  }

  /** Counting a file's words, in the order they are read. */
  method CountWords(input: string) returns (table: WordTable)
    ensures fresh(table) && table.Valid() && table.Entries() == Table(Tokens(input))
  {
    hide Table, TokensFrom, Added;
    table := new WordTable();
    ghost var tokens: seq<string> := [];
    assert Table([]) == [] by { EmptyTable(); }
    var buffer := new char[MAX_WORD_LENGTH];
    var pos: nat, k: nat := 0, 0;
    while k < |input|
      invariant k <= |input| && pos < MAX_WORD_LENGTH - 1
      invariant fresh(table) && fresh(table.words) && fresh(table.counts) && table.Valid()
      invariant table.Entries() == Table(tokens)
      invariant tokens + TokensFrom(buffer[..pos], input[k..]) == Tokens(input)
    {
      label Read:
      var c := input[k];
      TokensNext(tokens, buffer[..pos], input[k..]);
      assert input[k..][1..] == input[k + 1..];
      k := k + 1;
      if Alnum(c) {
        buffer[pos] := Lower(c);
        pos := pos + 1;
        assert buffer[..pos] == old@Read(buffer[..pos - 1]) + [Lower(c)];
        if pos >= MAX_WORD_LENGTH - 1 {
          TableNext(tokens, buffer[..pos]);
          tokens := tokens + [buffer[..pos]];
          table.AddWord(buffer[..pos]);
          pos := 0;
        }
      } else if pos > 0 {
        TableNext(tokens, buffer[..pos]);
        tokens := tokens + [buffer[..pos]];
        table.AddWord(buffer[..pos]);
        pos := 0;
      }
    }
    assert input[k..] == "";
    NoMoreInput(tokens, buffer[..pos]);
    if pos > 0 {
      TableNext(tokens, buffer[..pos]);
      table.AddWord(buffer[..pos]);
    }
  }

  lemma EmptyTable()
    ensures Table([]) == []
  {
  }

  lemma NoMoreInput(tokens: seq<string>, buffer: string)
    ensures tokens + TokensFrom(buffer, "") == if buffer == "" then tokens else tokens + [buffer]
  {
  }

  // ---------------------------------------------------------------- what the tokens are

  // A run cut into pieces of 99 characters and a shorter rest.
  function Pieces(run: string): seq<string> {
    if run == "" then []
    else if |run| <= 99 then [run]
    else [run[..99]] + Pieces(run[99..])
  }

  function Lowered(s: string): string {
    seq(|s|, (i: nat) requires i < |s| => Lower(s[i]))
  }

  // The length of the letters and digits at the front.
  function RunLength(input: string): (k: nat)
    ensures k <= |input|
    ensures forall i :: 0 <= i < k ==> Alnum(input[i])
    ensures k < |input| ==> !Alnum(input[k])
  {
    if input == "" || !Alnum(input[0]) then 0 else 1 + RunLength(input[1..])
  }

  // The tokens, run by run.
  function RunTokens(input: string): seq<string>
    decreases |input|
  {
    if input == "" then []
    else
      var k := RunLength(input);
      if k == 0 then RunTokens(input[1..])
      else Pieces(Lowered(input[..k])) + RunTokens(input[k..])
  }

  lemma {:induction false} RunIsCut(buffer: string, run: string, rest: string)
    requires |buffer| < MAX_WORD_LENGTH - 1
    requires forall i :: 0 <= i < |run| ==> Alnum(run[i])
    requires rest != "" ==> !Alnum(rest[0])
    ensures TokensFrom(buffer, run + rest) == Pieces(buffer + Lowered(run)) + TokensFrom("", rest)
    decreases |run|
  {
    if run == "" {
      assert run + rest == rest && buffer + Lowered(run) == buffer;
    } else {
      var longer := buffer + [Lower(run[0])];
      assert (run + rest)[1..] == run[1..] + rest;
      assert buffer + Lowered(run) == longer + Lowered(run[1..]);
      if |longer| >= MAX_WORD_LENGTH - 1 {
        RunIsCut("", run[1..], rest);
        assert "" + Lowered(run[1..]) == Lowered(run[1..]);
        PieceOff(longer, Lowered(run[1..]));
      } else {
        RunIsCut(longer, run[1..], rest);
      }
    }
  }

  lemma PieceOff(piece: string, rest: string)
    requires |piece| == MAX_WORD_LENGTH - 1
    ensures Pieces(piece + rest) == [piece] + Pieces(rest)
  {
    if rest == "" {
      assert piece + rest == piece;
    } else {
      assert (piece + rest)[..|piece|] == piece && (piece + rest)[|piece|..] == rest;
    }
  }

  /** The tokens are the maximal runs of letters and digits, lowercased, each cut every 99
      characters. */
  lemma {:induction false} TokensAreRuns(input: string)
    ensures Tokens(input) == RunTokens(input)
    decreases |input|
  {
    if input != "" {
      var k := RunLength(input);
      if k == 0 {
        TokensAreRuns(input[1..]);
      } else {
        assert input == input[..k] + input[k..];
        RunIsCut("", input[..k], input[k..]);
        assert "" + Lowered(input[..k]) == Lowered(input[..k]);
        TokensAreRuns(input[k..]);
      }
    }
  }

  function Concat(tokens: seq<string>): string {
    if tokens == [] then "" else tokens[0] + Concat(tokens[1..])
  }

  // By ASCII codes: digits and lower case stay, upper case moves down, the rest goes.
  function Folded(c: char): string {
    var code := c as int;
    if 48 <= code <= 57 || 97 <= code <= 122 then [c]
    else if 65 <= code <= 90 then [(code + 32) as char]
    else ""
  }

  function LettersAndDigits(input: string): string {
    if input == "" then "" else Folded(input[0]) + LettersAndDigits(input[1..])
  }

  lemma FoldedIsLower(c: char)
    ensures Folded(c) == if Alnum(c) then [Lower(c)] else ""
  {
  }

  /** Nothing is lost or reordered: the tokens put together are the input's letters and digits
      in lower case, and every token has 1 to 99 characters. */
  lemma {:induction false} TokensKeepAll(buffer: string, input: string)
    requires |buffer| < MAX_WORD_LENGTH - 1
    ensures Concat(TokensFrom(buffer, input)) == buffer + LettersAndDigits(input)
    ensures forall t :: t in TokensFrom(buffer, input) ==> 1 <= |t| <= 99
    decreases |input|
  {
    hide Folded;
    if input != "" {
      FoldedIsLower(input[0]);
    }
    if input == "" {
    } else if Alnum(input[0]) {
      var longer := buffer + [Lower(input[0])];
      assert buffer + LettersAndDigits(input) == longer + LettersAndDigits(input[1..]);
      if |longer| >= MAX_WORD_LENGTH - 1 {
        TokensKeepAll("", input[1..]);
        assert "" + LettersAndDigits(input[1..]) == LettersAndDigits(input[1..]);
        assert ([longer] + TokensFrom("", input[1..]))[1..] == TokensFrom("", input[1..]);
      } else {
        TokensKeepAll(longer, input[1..]);
      }
    } else {
      TokensKeepAll("", input[1..]);
      var rest := TokensFrom("", input[1..]);
      assert "" + LettersAndDigits(input[1..]) == LettersAndDigits(input[1..]);
      if buffer == "" {
        assert [] + rest == rest;
      } else {
        assert ([buffer] + rest)[1..] == rest;
      }
    }
  }
}
