/**
 * `parse_output` in sel_fingerprint.py: the output of the relay's `id`
 * command is split into lines, each line is searched with the
 * identification pattern, and every match is stored in a dictionary under
 * its key, a later line overriding an earlier one with the same key.
 * The dictionary building is stated once over the per-line search results
 * (`Build`) and shared with the telnet fingerprint of sel_scanner.py.
 */
module Fingerprint {
  import opened Options
  import opened Text
  import opened FingerprintFormat

  /** One dictionary entry: `{"value": V, "extra": E}`, or `{"value": V}` when EXTRA is not kept. */
  datatype Entry = Entry(value: string, extra: Option<string>)

  type Record = map<string, Entry>

  function EntryOf(m: Match, p: Pattern): Entry {
    Entry(m.value, if p.ExtraRequired() then Some(m.extra) else None)
  }

  /** One pass of the loop body: a match is stored under its key, no match leaves the dictionary as it is. */
  function Store(d: Record, r: Option<Match>, p: Pattern): Record {
    match r
    case None => d
    case Some(m) => d[m.key := EntryOf(m, p)]
  }

  /**
   * The dictionary the loop builds from the search results of successive
   * lines; each result adds at most one key.
   */
  function Build(ms: seq<Option<Match>>, p: Pattern): (d: Record)
    ensures |d| <= |ms|
  {
    if ms == [] then map[] else Store(Build(ms[..|ms| - 1], p), ms[|ms| - 1], p)
  }

  /** The search result of each line. */
  function LineMatches(lines: seq<string>, p: Pattern): (ms: seq<Option<Match>>)
    ensures |ms| == |lines|
    ensures forall i :: 0 <= i < |lines| ==> ms[i] == Search(lines[i], p)
  {
    seq(|lines|, i requires 0 <= i < |lines| => Search(lines[i], p))
  }

  /** The dictionary a list of lines gives: never more entries than lines. */
  function ParseLines(lines: seq<string>, p: Pattern): (d: Record)
    ensures |d| <= |lines|
  {
    Build(LineMatches(lines, p), p)
  }

  /** Search result `r` is a match whose key is `k`. */
  predicate HasKey(r: Option<Match>, k: string) {
    r.Some? && r.value.key == k
  }

  /** Line `line` has a match, and the match's key is `k`. */
  predicate Yields(line: string, p: Pattern, k: string) {
    HasKey(Search(line, p), k)
  }

  // ---------------------------------------------------------------------------
  // Building the dictionary

  lemma {:induction false} BuildAppend(a: seq<Option<Match>>, b: seq<Option<Match>>, p: Pattern)
    ensures Build(a + b, p) == Build(a, p) + Build(b, p)
    decreases |b|
  {
    if b == [] {
      assert a + b == a;
    } else {
      var front, last := b[..|b| - 1], b[|b| - 1];
      assert (a + b)[..|a + b| - 1] == a + front && (a + b)[|a + b| - 1] == last;
      BuildAppend(a, front, p);
      StoreOverride(Build(a, p), Build(front, p), last, p);
    }
  }

  /** Storing into an override is storing into its right-hand side. */
  lemma StoreOverride(d1: Record, d2: Record, r: Option<Match>, p: Pattern)
    ensures Store(d1 + d2, r, p) == d1 + Store(d2, r, p)
  {
  }


  lemma {:induction false} BuildKeys(ms: seq<Option<Match>>, p: Pattern, k: string)
    ensures k in Build(ms, p) <==> exists i :: 0 <= i < |ms| && HasKey(ms[i], k)
  {
    if ms != [] {
      var front := ms[..|ms| - 1];
      BuildKeys(front, p, k);
      if exists i :: 0 <= i < |front| && HasKey(front[i], k) {
        var i :| 0 <= i < |front| && HasKey(front[i], k);
        assert ms[i] == front[i];
      }
      if exists i :: 0 <= i < |ms| && HasKey(ms[i], k) {
        var i :| 0 <= i < |ms| && HasKey(ms[i], k);
        if i < |front| {
          assert front[i] == ms[i];
        }
      }
    }
  }

  lemma {:induction false} BuildLastWins(ms: seq<Option<Match>>, p: Pattern, i: nat, m: Match)
    requires i < |ms| && ms[i] == Some(m)
    requires forall j :: i < j < |ms| ==> !HasKey(ms[j], m.key)
    ensures m.key in Build(ms, p) && Build(ms, p)[m.key] == EntryOf(m, p)
  {
    if i < |ms| - 1 {
      var front := ms[..|ms| - 1];
      assert front[i] == ms[i];
      assert !HasKey(ms[|ms| - 1], m.key);
      BuildLastWins(front, p, i, m);
    }
  }

  lemma {:induction false} BuildShape(ms: seq<Option<Match>>, p: Pattern)
    requires forall i :: 0 <= i < |ms| && ms[i].Some? ==> WellFormed(ms[i].value, p)
    ensures var d := Build(ms, p);
            forall k :: k in d ==>
              && k != [] && Excludes(k, '=')
              && d[k].value != [] && Excludes(d[k].value, '"')
              && (d[k].extra.Some? <==> p.ExtraRequired())
              && (d[k].extra.Some? ==> d[k].extra.value != [] && Excludes(d[k].extra.value, '"'))
  {
    if ms != [] {
      var front := ms[..|ms| - 1];
      assert forall i :: 0 <= i < |front| ==> front[i] == ms[i];
      BuildShape(front, p);
      var last := ms[|ms| - 1];
      assert last.Some? ==> WellFormed(last.value, p);
    }
  }

  // ---------------------------------------------------------------------------
  // The dictionary of a list of lines

  /**
   * Every key is non-empty and free of '=', every value and every kept
   * EXTRA non-empty and free of '"', and EXTRA is kept exactly by the
   * identification parser.
   */
  lemma ParseLinesShape(lines: seq<string>, p: Pattern)
    ensures var d := ParseLines(lines, p);
            forall k :: k in d ==>
              && k != [] && Excludes(k, '=')
              && d[k].value != [] && Excludes(d[k].value, '"')
              && (d[k].extra.Some? <==> p.ExtraRequired())
              && (d[k].extra.Some? ==> d[k].extra.value != [] && Excludes(d[k].extra.value, '"'))
  {
    var ms := LineMatches(lines, p);
    assert forall i :: 0 <= i < |ms| && ms[i].Some? ==> WellFormed(ms[i].value, p);
    BuildShape(ms, p);
    assert ParseLines(lines, p) == Build(ms, p);
  }

  /** Parsing is compositional: the lines of `b` override what the lines of `a` built. */
  lemma ParseLinesAppend(a: seq<string>, b: seq<string>, p: Pattern)
    ensures ParseLines(a + b, p) == ParseLines(a, p) + ParseLines(b, p)
  {
    assert LineMatches(a + b, p) == LineMatches(a, p) + LineMatches(b, p);
    BuildAppend(LineMatches(a, p), LineMatches(b, p), p);
  }

  /** A key is in the dictionary exactly when some line's match has it as its key. */
  lemma KeyOrigin(lines: seq<string>, p: Pattern, k: string)
    ensures k in ParseLines(lines, p) <==> exists i :: 0 <= i < |lines| && Yields(lines[i], p, k)
  {
    var ms := LineMatches(lines, p);
    BuildKeys(ms, p, k);
    assert forall i :: 0 <= i < |lines| ==> (Yields(lines[i], p, k) <==> HasKey(ms[i], k));
  }

  /** Output in which no line matches gives the empty dictionary, not an error. */
  lemma NoMatchEmpty(lines: seq<string>, p: Pattern)
    requires forall i :: 0 <= i < |lines| ==> Search(lines[i], p).None?
    ensures ParseLines(lines, p) == map[]
  {
    forall k | k in ParseLines(lines, p) ensures false {
      KeyOrigin(lines, p, k);
    }
  }

  /** When a key occurs on several lines, the entry from the last of them wins. */
  lemma LastWins(lines: seq<string>, p: Pattern, i: nat, m: Match)
    requires i < |lines| && Search(lines[i], p) == Some(m)
    requires forall j :: i < j < |lines| ==> !Yields(lines[j], p, m.key)
    ensures m.key in ParseLines(lines, p) && ParseLines(lines, p)[m.key] == EntryOf(m, p)
  {
    BuildLastWins(LineMatches(lines, p), p, i, m);
  }

  /** A line on its own contributes exactly its leftmost match, or nothing. */
  lemma OneLine(line: string, p: Pattern)
    ensures ParseLines([line], p) == Store(map[], Search(line, p), p)
  {
    var ms := LineMatches([line], p);
    assert ms[..0] == [];
    assert ParseLines([line], p) == Store(Build([], p), ms[0], p);
  }

  /** The loop's step: one more line is one more `Store`. */
  lemma ParseLinesSnoc(lines: seq<string>, line: string, p: Pattern)
    ensures ParseLines(lines + [line], p) == Store(ParseLines(lines, p), Search(line, p), p)
  {
    var ms := LineMatches(lines + [line], p);
    assert ms[..|ms| - 1] == LineMatches(lines, p);
  }

  // ---------------------------------------------------------------------------
  // parse_output

  /** `parse_output(output)`: the identification pattern over every line of the command output. */
  method ParseOutput(output: string) returns (parsed: Record)
    ensures parsed == ParseLines(SplitLines(output), IdOutput)
  {
    var lines := SplitLines(output);
    parsed := StoreLines(lines);
  }

  /** The loop of `parse_output` over the lines of the output. */
  method StoreLines(lines: seq<string>) returns (parsed: Record)
    ensures parsed == ParseLines(lines, IdOutput)
  {
    parsed := map[];
    var i := 0;
    while i < |lines|
      invariant 0 <= i <= |lines|
      invariant parsed == ParseLines(lines[..i], IdOutput)
    {
      var m := Search(lines[i], IdOutput);
      LinesStep(lines, i, IdOutput);
      if m.Some? {
        parsed := parsed[m.value.key := Entry(m.value.value, Some(m.value.extra))];
      }
      i := i + 1;
    }
    assert lines[..i] == lines;
  }

  /** The dictionary of the first `i + 1` lines is that of the first `i` with line `i` stored. */
  lemma LinesStep(lines: seq<string>, i: nat, p: Pattern)
    requires i < |lines|
    ensures ParseLines(lines[..i + 1], p) == Store(ParseLines(lines[..i], p), Search(lines[i], p), p)
  {
    var front, line := lines[..i], lines[i];
    assert lines[..i + 1] == front + [line];
    ParseLinesSnoc(front, line, p);
  }

  /** Output that is the lines joined by "\n" parses as those lines do. */
  lemma OutputOfLines(lines: seq<string>, p: Pattern)
    requires forall k :: 0 <= k < |lines| ==> NoLineBreak(lines[k])
    requires lines != [] ==> lines[|lines| - 1] != []
    ensures ParseLines(SplitLines(Join(lines)), p) == ParseLines(lines, p)
  {
    SplitLinesJoin(lines);
  }

  /** Output holding one line `"K=V","E"` gives the dictionary with the one entry K -> {value: V, extra: E}. */
  lemma ExactLineOutput(m: Match, ws1: string, ws2: string)
    requires WellFormed(m, IdOutput) && AllSpace(ws1) && AllSpace(ws2)
    requires NoLineBreak(Render(m.key, m.value, ws1, ws2, m.extra))
    ensures ParseLines(SplitLines(Render(m.key, m.value, ws1, ws2, m.extra)), IdOutput)
         == map[m.key := Entry(m.value, Some(m.extra))]
  {
    var line := Render(m.key, m.value, ws1, ws2, m.extra);
    OutputOfLines([line], IdOutput);
    OneLine(line, IdOutput);
    ExactLine(m, ws1, ws2, IdOutput);
  }

  /** Output holding one line `"K=V",""` gives the empty dictionary: EXTRA must not be empty. */
  lemma EmptyExtraOutput(key: string, value: string, ws1: string, ws2: string)
    requires key != [] && Excludes(key, '=')
    requires value != [] && Excludes(value, '"')
    requires AllSpace(ws1) && AllSpace(ws2)
    requires NoLineBreak(Render(key, value, ws1, ws2, ""))
    ensures ParseLines(SplitLines(Render(key, value, ws1, ws2, "")), IdOutput) == map[]
  {
    var line := Render(key, value, ws1, ws2, "");
    OutputOfLines([line], IdOutput);
    OneLine(line, IdOutput);
    EmptyExtraRejected(key, value, ws1, ws2);
  }
}
