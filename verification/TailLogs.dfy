/** writeBufferedLogs of cmd/api/logging/logging.go: reading, stopping early, reversing, truncating. */
module TailLogs {
  import opened Strings
  import opened Wrappers

  /** What parseLine makes of one raw line: its entries, or a failure. */
  type Parsed = Option<seq<string>>

  datatype Response = Failed | NotFound | Shown(lines: seq<string>)

  function LineCount(entries: seq<string>): nat {
    if entries == [] then 0 else LineCount(entries[..|entries| - 1]) + Count(entries[|entries| - 1], '\n') + 1
  }

  function NonBlank(lines: seq<string>): (r: seq<string>)
    ensures |r| <= |lines| && ("" !in lines ==> r == lines)
    ensures forall l :: l in r <==> l in lines && l != ""
  {
    if lines == [] then []
    else if lines[|lines| - 1] == "" then NonBlank(lines[..|lines| - 1])
    else NonBlank(lines[..|lines| - 1]) + [lines[|lines| - 1]]
  }

  /** The lines of the entries that are not blank, in order. */
  function Lines(entries: seq<string>): seq<string> {
    if entries == [] then []
    else Lines(entries[..|entries| - 1]) + NonBlank(Split(entries[|entries| - 1], '\n'))
  }

  /** The entries with the last one first. */
  function Reversed(entries: seq<string>): (r: seq<string>)
    ensures |r| == |entries| && forall i | 0 <= i < |entries| :: r[i] == entries[|entries| - 1 - i]
  {
    seq(|entries|, i requires 0 <= i < |entries| => entries[|entries| - 1 - i])
  }

  function LastLines(lines: seq<string>, tail: int): seq<string> {
    if 0 < tail < |lines| then lines[|lines| - tail..] else lines
  }

  /** The entries read: all of them, or when tailing, up to the raw line that brings the count to the tail. */
  function Buffered(raw: seq<Parsed>, readFails: bool, tail: int, entries: seq<string>): Option<seq<string>> {
    if raw == [] then (if readFails then None else Some(entries))
    else if raw[0].None? then None
    else
      var more := entries + raw[0].value;
      if tail > 0 && LineCount(more) >= tail && !(|raw| == 1 && !readFails) then Some(more)
      else Buffered(raw[1..], readFails, tail, more)
  }

  function Respond(read: Option<seq<string>>, reverse: bool, tail: int): Response {
    if read.None? then Failed
    else if read.value == [] then NotFound
    else Shown(LastLines(Lines(if reverse then Reversed(read.value) else read.value), tail))
  }

  /** Just the blank lines disappear, and the others keep their order. */
  lemma {:induction false} NonBlankOfSum(a: seq<string>, b: seq<string>)
    ensures NonBlank(a + b) == NonBlank(a) + NonBlank(b)
  {
    if b == [] {
      assert a + b == a;
    } else {
      var n := |b| - 1;
      NonBlankOfSum(a, b[..n]);
      assert (a + b)[..|a + b| - 1] == a + b[..n];
    }
  }

  lemma NonBlankOfOne(line: string)
    ensures NonBlank([line]) == if line == "" then [] else [line]
  {
    assert [line][..0] == [];
  }

  /** slices.Reverse: the ends are exchanged and move towards each other. */
  method Reverse(entries: array<string>)
    modifies entries
    ensures entries[..] == Reversed(old(entries[..]))
  {
    ghost var was := entries[..];
    var left, right := 0, entries.Length - 1;
    while left < right
      invariant 0 <= left <= right + 1 && left + right == entries.Length - 1
      invariant forall k | 0 <= k < entries.Length ::
                  entries[k] == if left <= k <= right then was[k] else Reversed(was)[k]
    {
      entries[left], entries[right] := entries[right], entries[left];
      left, right := left + 1, right - 1;
    }
  }

  /**
   * The reading loop. raw are the parsed lines of the body, the last one being what precedes the end of
   * it; readFails says that reading breaks after them.
   */
  method ReadEntries(raw: seq<Parsed>, readFails: bool, tail: int) returns (entries: Option<seq<string>>)
    requires raw != [] || readFails
    ensures entries == Buffered(raw, readFails, tail, [])
  {
    hide Count;
    var isTailing := tail > 0;
    var allEntries: seq<string>, lineCount := [], 0;
    var n := 0;
    while true
      invariant 0 <= n <= |raw| && (n == |raw| ==> readFails)
      invariant lineCount == LineCount(allEntries)
      invariant Buffered(raw[n..], readFails, tail, allEntries) == Buffered(raw, readFails, tail, [])
      decreases |raw| - n
    {
      if n == |raw| {
        return None;
      }
      if raw[n].None? {
        return None;
      }
      var parsedLines := raw[n].value;
      ghost var before := allEntries;
      for i := 0 to |parsedLines|
        invariant allEntries == before + parsedLines[..i] && lineCount == LineCount(allEntries)
      {
        assert (allEntries + [parsedLines[i]])[..|allEntries|] == allEntries;
        allEntries := allEntries + [parsedLines[i]];
        lineCount := lineCount + Count(parsedLines[i], '\n') + 1;
      }
      assert allEntries == before + raw[n].value;
      assert raw[n..][0] == raw[n] && raw[n..][1..] == raw[n + 1..];
      n := n + 1;
      var eof := n == |raw| && !readFails;
      if eof {
        break;
      }
      if isTailing && lineCount >= tail {
        break;
      }
    }
    return Some(allEntries);
  }

  method WriteBufferedLogs(raw: seq<Parsed>, readFails: bool, reverse: bool, tail: int) returns (response: Response)
    requires raw != [] || readFails
    ensures response == Respond(Buffered(raw, readFails, tail, []), reverse, tail)
    // Without a tail, every line that is not blank is shown, from the oldest on.
    ensures tail <= 0 && !readFails && Readable(raw) && AllEntries(raw) != [] ==>
              response == Shown(Lines(if reverse then Reversed(AllEntries(raw)) else AllEntries(raw)))
    // The request fails when reading breaks, or a line cannot be parsed, before the tail is full.
    ensures response == Failed <==> exists n | 0 <= n <= |raw| :: FailsAt(raw, readFails, tail, n)
    // Nothing is found when all is read and holds no entry.
    ensures response == NotFound <==> !readFails && Readable(raw) && AllEntries(raw) == []
    // Otherwise the raw lines up to the one that fills the tail, or all of them, are shown, cut to the tail.
    ensures response.Shown? ==>
              (exists n | 0 < n <= |raw| ::
                 && StopsAt(raw, readFails, tail, n)
                 && var lines := Lines(if reverse then Reversed(AllEntries(raw[..n])) else AllEntries(raw[..n]));
                    response.lines == if tail > 0 && tail < |lines| then lines[|lines| - tail..] else lines)
  {
    hide Buffered, Lines, Reversed, StopsAt, FailsAt, Readable, AllEntries;
    ResponseShows(raw, readFails, reverse, tail);
    var entries := ReadEntries(raw, readFails, tail);
    if entries.None? {
      return Failed;
    }
    var allEntries := entries.value;
    if |allEntries| == 0 {
      return NotFound;
    }
    if reverse {
      var buffer := new string[|allEntries|](i requires 0 <= i < |allEntries| => allEntries[i]);
      assert buffer[..] == allEntries;
      Reverse(buffer);
      allEntries := buffer[..];
    }
    var flatLines := Flattened(allEntries);
    if tail > 0 && |flatLines| > tail {
      flatLines := flatLines[|flatLines| - tail..];
    }
    return Shown(flatLines);
  }

  method Flattened(entries: seq<string>) returns (flatLines: seq<string>)
    ensures flatLines == Lines(entries)
  {
    flatLines := [];
    for i := 0 to |entries|
      invariant flatLines == Lines(entries[..i])
    {
      assert entries[..i + 1][..i] == entries[..i];
      var parts := Split(entries[i], '\n');
      ghost var before := flatLines;
      for j := 0 to |parts|
        invariant flatLines == before + NonBlank(parts[..j])
      {
        assert parts[..j + 1][..j] == parts[..j];
        if parts[j] != "" {
          flatLines := flatLines + [parts[j]];
        }
      }
      assert parts[..|parts|] == parts;
    }
    assert entries[..|entries|] == entries;
  }

  /** All the entries of a body that is read to its end. */
  function AllEntries(raw: seq<Parsed>): seq<string>
    requires forall p | p in raw :: p.Some?
  {
    if raw == [] then [] else raw[0].value + AllEntries(raw[1..])
  }

  predicate Readable(raw: seq<Parsed>) {
    forall p | p in raw :: p.Some?
  }

  /** The first n raw lines can be read, and none of them but possibly the last has filled the tail. */
  predicate ReadsTo(raw: seq<Parsed>, tail: int, n: nat)
    requires n <= |raw|
  {
    Readable(raw[..n]) && (tail > 0 ==> forall m | 0 <= m < n :: LineCount(AllEntries(raw[..m])) < tail)
  }

  /** Reading stops after raw line n: it is the last one, or it fills the tail. */
  predicate StopsAt(raw: seq<Parsed>, readFails: bool, tail: int, n: nat)
    requires n <= |raw|
  {
    ReadsTo(raw, tail, n) && ((n == |raw| && !readFails) || (tail > 0 && LineCount(AllEntries(raw[..n])) >= tail))
  }

  /** After n raw lines the tail is not full, and the next one cannot be had or parsed. */
  predicate FailsAt(raw: seq<Parsed>, readFails: bool, tail: int, n: nat)
    requires n <= |raw|
  {
    && ReadsTo(raw, tail, n) && (tail > 0 ==> LineCount(AllEntries(raw[..n])) < tail)
    && if n == |raw| then readFails else raw[n].None?
  }

  lemma ReadsOn(raw: seq<Parsed>, tail: int, n: nat)
    requires n < |raw| && ReadsTo(raw, tail, n) && raw[n].Some?
    requires tail > 0 ==> LineCount(AllEntries(raw[..n])) < tail
    ensures ReadsTo(raw, tail, n + 1) && AllEntries(raw[..n + 1]) == AllEntries(raw[..n]) + raw[n].value
  {
    hide LineCount;
    assert raw[..n + 1] == raw[..n] + [raw[n]];
    forall m | 0 <= m <= n ensures raw[..n + 1][..m] == raw[..m] && Readable(raw[..m]) {
      assert forall p | p in raw[..m] :: p in raw[..n];
    }
    assert raw[..n + 1][..n + 1] == raw[..n + 1] && raw[..n + 1][..n] == raw[..n];
    OneMoreRawLine(raw[..n + 1], n);
  }

  /** Where the loop ends, from raw line k on. */
  lemma {:induction false} LoopEnds(raw: seq<Parsed>, readFails: bool, tail: int, k: nat) returns (n: nat)
    requires k <= |raw| && (k == |raw| ==> readFails) && ReadsTo(raw, tail, k)
    requires tail > 0 ==> LineCount(AllEntries(raw[..k])) < tail
    ensures n <= |raw|
    ensures var read := Buffered(raw[k..], readFails, tail, AllEntries(raw[..k]));
            if read.None? then FailsAt(raw, readFails, tail, n)
            else n > k && StopsAt(raw, readFails, tail, n) && read.value == AllEntries(raw[..n])
    decreases |raw| - k
  {
    hide LineCount, AllEntries, ReadsTo;
    if k == |raw| || raw[k].None? {
      n := k;
    } else {
      assert raw[k..][0] == raw[k] && raw[k..][1..] == raw[k + 1..];
      ReadsOn(raw, tail, k);
      assert Readable(raw[..k + 1]) by { ReadsMeansReadable(raw, tail, k + 1); }
      if (tail > 0 && LineCount(AllEntries(raw[..k + 1])) >= tail) || (k + 1 == |raw| && !readFails) {
        n := k + 1;
      } else {
        n := LoopEnds(raw, readFails, tail, k + 1);
      }
    }
  }

  lemma ReadsMeansReadable(raw: seq<Parsed>, tail: int, n: nat)
    requires n <= |raw| && ReadsTo(raw, tail, n)
    ensures Readable(raw[..n])
  {
  }

  /** Reading fails at most at one place, and not where or before it stops. */
  lemma FailsOrStops(raw: seq<Parsed>, readFails: bool, tail: int, n: nat, m: nat)
    requires 0 < n <= |raw| && m <= |raw| && StopsAt(raw, readFails, tail, n)
    ensures !FailsAt(raw, readFails, tail, m)
  {
    hide LineCount, AllEntries;
    if m < n {
      assert raw[..n][m] == raw[m] && raw[..n][m] in raw[..n];
    }
  }

  lemma WholeBody(raw: seq<Parsed>, tail: int, n: nat)
    requires 0 < n <= |raw| && StopsAt(raw, false, tail, n) && Readable(raw)
    ensures n < |raw| ==> AllEntries(raw[..n]) != []
    ensures n == |raw| ==> AllEntries(raw[..n]) == AllEntries(raw)
    ensures AllEntries(raw) == AllEntries(raw[..n]) + AllEntries(raw[n..])
  {
    assert LineCount([]) == 0;
    assert raw == raw[..n] + raw[n..];
    AllEntriesOfSum(raw[..n], raw[n..]);
    assert n == |raw| ==> raw[n..] == [];
  }

  lemma ResponseShows(raw: seq<Parsed>, readFails: bool, reverse: bool, tail: int)
    requires raw != [] || readFails
    ensures var response := Respond(Buffered(raw, readFails, tail, []), reverse, tail);
            && (tail <= 0 && !readFails && Readable(raw) && AllEntries(raw) != [] ==>
                  response == Shown(Lines(if reverse then Reversed(AllEntries(raw)) else AllEntries(raw))))
            && (response == Failed <==> exists n | 0 <= n <= |raw| :: FailsAt(raw, readFails, tail, n))
            && (response == NotFound <==> !readFails && Readable(raw) && AllEntries(raw) == [])
            && (response.Shown? ==>
                  (exists n | 0 < n <= |raw| ::
                     && StopsAt(raw, readFails, tail, n)
                     && var lines := Lines(if reverse then Reversed(AllEntries(raw[..n])) else AllEntries(raw[..n]));
                        response.lines == if tail > 0 && tail < |lines| then lines[|lines| - tail..] else lines))
  {
    hide Lines, Reversed, Buffered, AllEntries, LineCount, FailsAt;
    NothingRead(raw, tail);
    assert raw[0..] == raw;
    var n := LoopEnds(raw, readFails, tail, 0);
    var read := Buffered(raw, readFails, tail, []);
    if read.None? {
      assert FailsAt(raw, readFails, tail, n);
      FailsSomewhere(raw, readFails, tail, n);
    } else {
      forall m | 0 <= m <= |raw| ensures !FailsAt(raw, readFails, tail, m) {
        FailsOrStops(raw, readFails, tail, n, m);
      }
      if Readable(raw) && !readFails {
        WholeBody(raw, tail, n);
      }
      StopsWithin(raw, readFails, tail, n);
    }
  }

  lemma NothingRead(raw: seq<Parsed>, tail: int)
    ensures ReadsTo(raw, tail, 0) && AllEntries(raw[..0]) == [] && LineCount([]) == 0
  {
  }

  lemma FailsSomewhere(raw: seq<Parsed>, readFails: bool, tail: int, n: nat)
    requires n <= |raw| && FailsAt(raw, readFails, tail, n)
    ensures readFails || !Readable(raw)
  {
    if n < |raw| {
      assert raw[n] in raw;
    }
  }

  /** Reading that stops with no entry has read everything. */
  lemma StopsWithin(raw: seq<Parsed>, readFails: bool, tail: int, n: nat)
    requires 0 < n <= |raw| && StopsAt(raw, readFails, tail, n)
    ensures AllEntries(raw[..n]) == [] ==> n == |raw| && !readFails && raw[..n] == raw && Readable(raw)
    ensures tail <= 0 ==> n == |raw| && !readFails && raw[..n] == raw
  {
    assert LineCount([]) == 0;
    assert n == |raw| ==> raw[..n] == raw;
  }

  /** The least number of raw lines, from n on, whose entries count tail lines; all of them if none do. */
  function RawRead(raw: seq<Parsed>, tail: int, n: nat): (r: nat)
    requires Readable(raw) && n <= |raw|
    ensures n <= r <= |raw|
    ensures forall m | n <= m < r :: LineCount(AllEntries(raw[..m])) < tail
    ensures r < |raw| ==> LineCount(AllEntries(raw[..r])) >= tail
    decreases |raw| - n
  {
    if n == |raw| || LineCount(AllEntries(raw[..n])) >= tail then n else RawRead(raw, tail, n + 1)
  }

  lemma {:induction false} AllEntriesOfSum(a: seq<Parsed>, b: seq<Parsed>)
    requires Readable(a) && Readable(b)
    ensures AllEntries(a + b) == AllEntries(a) + AllEntries(b)
  {
    if a == [] {
      assert a + b == b;
    } else {
      AllEntriesOfSum(a[1..], b);
      assert (a + b)[1..] == a[1..] + b;
    }
  }

  lemma OneMoreRawLine(raw: seq<Parsed>, n: nat)
    requires Readable(raw) && n < |raw|
    ensures AllEntries(raw[..n + 1]) == AllEntries(raw[..n]) + raw[n].value
  {
    assert raw[..n + 1] == raw[..n] + [raw[n]];
    AllEntriesOfSum(raw[..n], [raw[n]]);
    assert [raw[n]][1..] == [];
    assert AllEntries([raw[n]]) == raw[n].value + [];
  }

  /** The loop reads just these raw lines. */
  lemma {:induction false} BufferedIsPrefix(raw: seq<Parsed>, tail: int, n: nat)
    requires Readable(raw) && tail > 0 && n <= RawRead(raw, tail, 0)
    requires n == RawRead(raw, tail, 0) ==> n == |raw|
    ensures Buffered(raw[n..], false, tail, AllEntries(raw[..n])) == Some(AllEntries(raw[..RawRead(raw, tail, 0)]))
    decreases |raw| - n
  {
    hide LineCount, AllEntries;
    if n < |raw| {
      OneMoreRawLine(raw, n);
      var more := AllEntries(raw[..n + 1]);
      assert raw[n] in raw;
      assert raw[n..][0] == raw[n] && raw[n..][1..] == raw[n + 1..];
      assert Buffered(raw[n..], false, tail, AllEntries(raw[..n])) ==
             if LineCount(more) >= tail && n + 1 < |raw| then Some(more) else Buffered(raw[n + 1..], false, tail, more);
      if n + 1 == |raw| || n + 1 < RawRead(raw, tail, 0) {
        BufferedIsPrefix(raw, tail, n + 1);
      }
    }
  }

  lemma ReadIsPrefix(raw: seq<Parsed>, tail: int)
    requires Readable(raw) && tail > 0
    ensures var n := RawRead(raw, tail, 0);
            && Buffered(raw, false, tail, []) == Some(AllEntries(raw[..n]))
            && AllEntries(raw) == AllEntries(raw[..n]) + AllEntries(raw[n..])
  {
    var n := RawRead(raw, tail, 0);
    assert raw[..0] == [] && raw[0..] == raw && LineCount([]) == 0;
    BufferedIsPrefix(raw, tail, 0);
    assert raw == raw[..n] + raw[n..];
    AllEntriesOfSum(raw[..n], raw[n..]);
  }

  lemma {:induction false} LinesOfSum(a: seq<string>, b: seq<string>)
    ensures Lines(a + b) == Lines(a) + Lines(b)
  {
    hide NonBlank, Split;
    if b == [] {
      assert a + b == a;
    } else {
      var n := |b| - 1;
      LinesOfSum(a, b[..n]);
      assert (a + b)[..|a + b| - 1] == a + b[..n];
    }
  }

  lemma ReversedOfSum(a: seq<string>, b: seq<string>)
    ensures Reversed(a + b) == Reversed(b) + Reversed(a)
  {
    assert forall i | 0 <= i < |a| + |b| :: Reversed(a + b)[i] == (Reversed(b) + Reversed(a))[i];
  }

  lemma {:induction false} LinesOfReversed(entries: seq<string>)
    ensures |Lines(Reversed(entries))| == |Lines(entries)|
  {
    if entries != [] {
      LinesOfReversed(entries[1..]);
      assert entries == [entries[0]] + entries[1..];
      ReversedOfSum([entries[0]], entries[1..]);
      assert Reversed([entries[0]]) == [entries[0]];
      LinesOfSum([entries[0]], entries[1..]);
      LinesOfSum(Reversed(entries[1..]), [entries[0]]);
    }
  }

  lemma {:induction false} NoBlankLineCount(entries: seq<string>)
    requires forall e | e in entries :: "" !in Split(e, '\n')
    ensures |Lines(entries)| == LineCount(entries)
  {
    if entries != [] {
      NoBlankLineCount(entries[..|entries| - 1]);
    }
  }

  /**
   * The raw lines that bring the count to the tail, blank lines included, hold that many lines without
   * them; or nothing but blank lines follows.
   */
  predicate EnoughRead(raw: seq<Parsed>, tail: int)
    requires Readable(raw)
  {
    var n := RawRead(raw, tail, 0);
    tail <= |Lines(AllEntries(raw[..n]))| || Lines(AllEntries(raw[n..])) == []
  }

  /**
   * From a newest-first backend the response is the last lines of the whole log in order of time
   * exactly when the lines read before the stop, not counting blank ones, suffice.
   */
  lemma TailOfReversedIff(raw: seq<Parsed>, tail: int)
    requires Readable(raw) && AllEntries(raw) != [] && tail > 0
    ensures Respond(Buffered(raw, false, tail, []), true, tail)
            == Shown(LastLines(Lines(Reversed(AllEntries(raw))), tail))
            <==> EnoughRead(raw, tail)
  {
    hide Lines, Reversed, Buffered, AllEntries, RawRead;
    ReadIsPrefix(raw, tail);
    var n := RawRead(raw, tail, 0);
    var read, rest := AllEntries(raw[..n]), AllEntries(raw[n..]);
    ReadSomething(raw, tail);
    ReversedOfSum(read, rest);
    LinesOfSum(Reversed(rest), Reversed(read));
    LinesOfReversed(read);
    LinesOfReversed(rest);
    TailOfSum(Lines(Reversed(rest)), Lines(Reversed(read)), tail);
  }

  lemma ReadSomething(raw: seq<Parsed>, tail: int)
    requires Readable(raw) && AllEntries(raw) != [] && tail > 0
    ensures AllEntries(raw[..RawRead(raw, tail, 0)]) != []
  {
    var n := RawRead(raw, tail, 0);
    assert LineCount([]) == 0;
    assert n == |raw| ==> raw[..n] == raw;
  }

  lemma TailOfSum(older: seq<string>, newer: seq<string>, tail: int)
    requires tail > 0
    ensures LastLines(newer, tail) == LastLines(older + newer, tail) <==> tail <= |newer| || older == []
  {
    if tail <= |newer| {
      assert LastLines(newer, tail) == LastLines(older + newer, tail);
    } else if older == [] {
      assert older + newer == newer;
    } else {
      assert |LastLines(older + newer, tail)| > |newer|;
    }
  }

  /** Entries without blank lines always suffice: the response is exactly the last lines. */
  lemma TailIsLastLines(raw: seq<Parsed>, tail: int)
    requires Readable(raw) && AllEntries(raw) != [] && tail > 0
    requires forall e | e in AllEntries(raw) :: "" !in Split(e, '\n')
    ensures Respond(Buffered(raw, false, tail, []), true, tail)
            == Shown(LastLines(Lines(Reversed(AllEntries(raw))), tail))
  {
    ReadIsPrefix(raw, tail);
    var n := RawRead(raw, tail, 0);
    assert forall e | e in AllEntries(raw[..n]) :: e in AllEntries(raw);
    NoBlankLineCount(AllEntries(raw[..n]));
    assert n == |raw| ==> raw[n..] == [];
    TailOfReversedIff(raw, tail);
  }

  lemma LinesOfOne(entry: string)
    ensures Lines([entry]) == NonBlank(Split(entry, '\n')) && LineCount([entry]) == |Split(entry, '\n')|
  {
    hide Split, NonBlank, Count;
    assert [entry][..0] == [];
    assert Lines([]) == [];
  }

  lemma ExampleLines()
    ensures Lines(["b\n"]) == ["b"] && Lines(["a"]) == ["a"] && LineCount(["b\n"]) == 2
  {
    hide Split, Lines, LineCount;
    SplitPair("b", "", '\n');
    SplitWord("a", '\n');
    assert "b" + ['\n'] + "" == "b\n";
    LinesOfOne("b\n");
    LinesOfOne("a");
    assert ["b", ""][..1] == ["b"];
    assert NonBlank(["b"]) == ["b"];
  }

  /** Two entries, the newer one ending in an empty line: two lines are asked for and one is shown. */
  lemma BlankLineIsCounted()
    ensures var raw := [Some(["b\n"]), Some(["a"])];
            Respond(Buffered(raw, false, 2, []), true, 2) == Shown(["b"])
            && LastLines(Lines(Reversed(AllEntries(raw))), 2) == ["a", "b"]
  {
    hide Lines, LineCount;
    var raw := [Some(["b\n"]), Some(["a"])];
    ExampleLines();
    LinesOfSum(["a"], ["b\n"]);
    assert raw[1..] == [Some(["a"])] && raw[1..][1..] == [];
    assert AllEntries(raw[1..]) == ["a"] && AllEntries(raw) == ["b\n", "a"];
    assert Reversed(["b\n", "a"]) == ["a"] + ["b\n"] && Reversed(["b\n"]) == ["b\n"];
    assert [] + ["b\n"] == ["b\n"];
  }

  predicate Distinct(lines: seq<string>) {
    forall i, j | 0 <= i < j < |lines| :: lines[i] != lines[j]
  }

  /**
   * From an oldest-first backend the early stop keeps the oldest lines: with lines that differ, such as
   * timestamped ones, the response ends where the log does exactly when the raw lines that bring the
   * count to the tail are followed by blank lines only.
   */
  lemma TailOfForwardIff(raw: seq<Parsed>, tail: int)
    requires Readable(raw) && AllEntries(raw) != [] && tail > 0 && Distinct(Lines(AllEntries(raw)))
    ensures Respond(Buffered(raw, false, tail, []), false, tail) == Shown(LastLines(Lines(AllEntries(raw)), tail))
            <==> Lines(AllEntries(raw[RawRead(raw, tail, 0)..])) == []
  {
    hide Lines, Buffered, AllEntries, RawRead;
    ReadIsPrefix(raw, tail);
    ReadSomething(raw, tail);
    var n := RawRead(raw, tail, 0);
    var read, rest := AllEntries(raw[..n]), AllEntries(raw[n..]);
    LinesOfSum(read, rest);
    TailOfDistinct(Lines(read), Lines(rest), tail);
  }

  lemma TailOfDistinct(a: seq<string>, b: seq<string>, tail: int)
    requires tail > 0 && Distinct(a + b)
    ensures LastLines(a, tail) == LastLines(a + b, tail) <==> b == []
  {
    var shown, ideal := LastLines(a, tail), LastLines(a + b, tail);
    if b == [] {
      assert a + b == a;
    } else {
      var last := (a + b)[|a + b| - 1];
      assert ideal[|ideal| - 1] == last;
      forall i | 0 <= i < |shown| ensures shown[i] != last {
        var k := i + |a| - |shown|;
        assert shown[i] == (a + b)[k];
      }
    }
  }

  /** Two lines, the oldest first: one line is asked for and the older one is shown. */
  lemma OldestFirstShowsOldest()
    ensures var raw := [Some(["a"]), Some(["b"])];
            Respond(Buffered(raw, false, 1, []), false, 1) == Shown(["a"])
            && LastLines(Lines(AllEntries(raw)), 1) == ["b"]
  {
    hide Lines, LineCount;
    var raw := [Some(["a"]), Some(["b"])];
    OneLine("a");
    OneLine("b");
    LinesOfSum(["a"], ["b"]);
    assert raw[1..] == [Some(["b"])] && raw[1..][1..] == [];
    assert AllEntries(raw[1..]) == ["b"] && AllEntries(raw) == ["a"] + ["b"];
    assert [] + ["a"] == ["a"];
  }

  lemma OneLine(word: string)
    requires word != "" && '\n' !in word
    ensures Lines([word]) == [word] && LineCount([word]) == 1
  {
    hide Lines, LineCount, Split;
    SplitWord(word, '\n');
    LinesOfOne(word);
    OneWord(word);
  }

  lemma OneWord(word: string)
    requires word != ""
    ensures NonBlank([word]) == [word]
  {
    assert [word][..0] == [];
  }
}
