/**
 * The line format of the relay's `id` output, `"KEY=VALUE","EXTRA"`, and the
 * two regular expressions the scanner matches it with:
 *
 *   sel_fingerprint.py   "([^=]+)=([^"]+)"\s*,\s*"([^"]+)"   EXTRA captured, non-empty
 *   sel_scanner.py       "([^=]+)=([^"]+)"\s*,\s*"[^"]*"     EXTRA may be empty, dropped
 *
 * Each character class excludes the delimiter that follows it, so at a given
 * start position the backtracking engine has exactly one way to succeed: the
 * key runs to the first '=', the value to the next '"', each `\s*` over the
 * whole run of white space. `MatchPrefix` follows that run of spans, and
 * `Search` tries start positions from the left as `re.search` does.
 */
module FingerprintFormat {
  import opened Options
  import opened Text

  /** Which of the two regular expressions a parser uses. */
  datatype Pattern =
    | IdOutput    // sel_fingerprint.py: EXTRA is a non-empty captured group
    | TelnetScan  // sel_scanner.py: EXTRA may be empty and is not captured
  {
    predicate ExtraRequired() { IdOutput? }
  }

  /** The groups of one successful match. */
  datatype Match = Match(key: string, value: string, extra: string)

  /** What any match of pattern `p` satisfies, read off the character classes. */
  predicate WellFormed(m: Match, p: Pattern) {
    && m.key != [] && Excludes(m.key, '=')
    && m.value != [] && Excludes(m.value, '"')
    && Excludes(m.extra, '"')
    && (p.ExtraRequired() ==> m.extra != [])
  }

  /** The text of a line in the documented shape, with the white space around the comma. */
  function Render(key: string, value: string, ws1: string, ws2: string, extra: string): string {
    "\"" + key + "=" + value + "\"" + ws1 + "," + ws2 + "\"" + extra + "\""
  }

  /** The index of the first `c` in `t`, or `|t|`: where a greedy `[^c]*` stops. */
  function Until(t: string, c: char): (n: nat)
    ensures n <= |t|
    ensures forall i :: 0 <= i < n ==> t[i] != c
    ensures n < |t| ==> t[n] == c
  {
    if t == [] || t[0] == c then 0
    else 1 + Until(t[1..], c)
  }

  /** The length of the leading run of white space in `t`: where a greedy `\s*` stops. */
  function SpacesEnd(t: string): (n: nat)
    ensures n <= |t|
    ensures forall i :: 0 <= i < n ==> IsSpace(t[i])
    ensures n < |t| ==> !IsSpace(t[n])
  {
    if t == [] || !IsSpace(t[0]) then 0
    else 1 + SpacesEnd(t[1..])
  }

  /** The pattern anchored at the start of `t` (what the engine does at one start position). */
  function MatchPrefix(t: string, p: Pattern): (r: Option<Match>)
    ensures r.Some? ==> WellFormed(r.value, p)
  {
    if t == [] || t[0] != '"' then None else MatchKey(t[1..], p)
  }

  /** `([^=]+)=`: the key runs to the first '='. */
  function MatchKey(u: string, p: Pattern): (r: Option<Match>)
    ensures r.Some? ==> WellFormed(r.value, p)
  {
    var n := Until(u, '=');
    if n == 0 || n == |u| then None
    else
      assert Excludes(u[..n], '=');
      MatchValue(u[..n], u[n + 1..], p)
  }

  /** `([^"]+)"`: the value runs to the next '"'. */
  function MatchValue(key: string, u: string, p: Pattern): (r: Option<Match>)
    ensures r.Some? ==> r.value.key == key && r.value.value != [] && Excludes(r.value.value, '"')
    ensures r.Some? ==> Excludes(r.value.extra, '"') && (p.ExtraRequired() ==> r.value.extra != [])
  {
    var n := Until(u, '"');
    if n == 0 || n == |u| then None
    else
      assert Excludes(u[..n], '"');
      MatchComma(key, u[..n], u[n + 1..], p)
  }

  /** `\s*,`: white space, then the comma. */
  function MatchComma(key: string, value: string, w: string, p: Pattern): (r: Option<Match>)
    ensures r.Some? ==> r.value.key == key && r.value.value == value
    ensures r.Some? ==> Excludes(r.value.extra, '"') && (p.ExtraRequired() ==> r.value.extra != [])
  {
    var a := SpacesEnd(w);
    if a == |w| || w[a] != ',' then None else MatchOpenExtra(key, value, w[a + 1..], p)
  }

  /** `\s*"`: white space, then the quote that opens EXTRA. */
  function MatchOpenExtra(key: string, value: string, w: string, p: Pattern): (r: Option<Match>)
    ensures r.Some? ==> r.value.key == key && r.value.value == value
    ensures r.Some? ==> Excludes(r.value.extra, '"') && (p.ExtraRequired() ==> r.value.extra != [])
  {
    var b := SpacesEnd(w);
    if b == |w| || w[b] != '"' then None else MatchExtra(key, value, w[b + 1..], p)
  }

  /** `([^"]+)"` or `[^"]*"`: EXTRA runs to the closing quote. */
  function MatchExtra(key: string, value: string, x: string, p: Pattern): (r: Option<Match>)
    ensures r.Some? ==> r.value.key == key && r.value.value == value
    ensures r.Some? ==> Excludes(r.value.extra, '"') && (p.ExtraRequired() ==> r.value.extra != [])
  {
    var n := Until(x, '"');
    if n == |x| || (p.ExtraRequired() && n == 0) then None
    else
      assert Excludes(x[..n], '"');
      Some(Match(key, value, x[..n]))
  }

  /** The anchored result at every start position `re.search` tries, `0` to `|line|`. */
  function Starts(line: string, p: Pattern): (ms: seq<Option<Match>>)
    ensures |ms| == |line| + 1
    ensures forall k {:trigger ms[k]} {:trigger MatchPrefix(line[k..], p)} ::
              0 <= k <= |line| ==> ms[k] == MatchPrefix(line[k..], p)
  {
    seq(|line| + 1, k requires 0 <= k <= |line| => MatchPrefix(line[k..], p))
  }

  /** The first position from `i` on that has a match, or `|ms|` when none does. */
  function FirstMatch(ms: seq<Option<Match>>, i: nat): (j: nat)
    requires i <= |ms|
    ensures i <= j <= |ms|
    ensures forall k :: i <= k < j ==> ms[k].None?
    ensures j < |ms| ==> ms[j].Some?
    decreases |ms| - i
  {
    if i == |ms| || ms[i].Some? then i else FirstMatch(ms, i + 1)
  }

  /** `pattern.search(line)`: the match at the leftmost position that has one. */
  function Search(line: string, p: Pattern): (r: Option<Match>)
    ensures r.None? <==> forall j :: 0 <= j <= |line| ==> MatchPrefix(line[j..], p).None?
    ensures r.Some? ==> WellFormed(r.value, p)
  {
    var ms := Starts(line, p);
    var j := FirstMatch(ms, 0);
    if j < |ms| then ms[j] else None
  }

  /** `FirstMatch` lands on the first `Some` at or after `i`. */
  lemma {:induction false} FirstMatchIs(ms: seq<Option<Match>>, i: nat, j: nat)
    requires i <= j < |ms| && ms[j].Some?
    requires forall k :: i <= k < j ==> ms[k].None?
    ensures FirstMatch(ms, i) == j
    decreases j - i
  {
    if i < j {
      FirstMatchIs(ms, i + 1, j);
    }
  }

  /** `re.search` answers with the match at the leftmost position that has one. */
  lemma SearchIsLeftmost(line: string, p: Pattern, j: nat)
    requires j <= |line| && MatchPrefix(line[j..], p).Some?
    requires forall k :: 0 <= k < j ==> MatchPrefix(line[k..], p).None?
    ensures Search(line, p) == MatchPrefix(line[j..], p)
  {
    var ms := Starts(line, p);
    forall k | 0 <= k < j ensures ms[k].None? {
      assert ms[k] == MatchPrefix(line[k..], p);
    }
    assert ms[j] == MatchPrefix(line[j..], p);
    FirstMatchIs(ms, 0, j);
  }

  /** A match `re.search` returns sits at a position with no match before it. */
  lemma SearchPosition(line: string, p: Pattern) returns (j: nat)
    requires Search(line, p).Some?
    ensures j <= |line| && Search(line, p) == MatchPrefix(line[j..], p)
    ensures forall k :: 0 <= k < j ==> MatchPrefix(line[k..], p).None?
  {
    var ms := Starts(line, p);
    j := FirstMatch(ms, 0);
    forall k | 0 <= k < j ensures MatchPrefix(line[k..], p).None? {
      assert ms[k].None?;
    }
  }

  // ---------------------------------------------------------------------------
  // The matcher against the shape it recognises

  /** A greedy `[^c]*` over `a + b` stops where `a` ends, if `a` has no `c` and `b` starts with one. */
  lemma UntilOf(a: string, c: char, b: string)
    requires Excludes(a, c)
    requires b == [] || b[0] == c
    ensures Until(a + b, c) == |a|
  {
    var n := Until(a + b, c);
    assert forall i :: 0 <= i < |a| ==> (a + b)[i] == a[i];
    assert b != [] ==> (a + b)[|a|] == b[0];
  }

  /** A greedy `\s*` over `a + b` stops where the white space `a` ends, if `b` starts with something else. */
  lemma SpacesEndOf(a: string, b: string)
    requires AllSpace(a)
    requires b == [] || !IsSpace(b[0])
    ensures SpacesEnd(a + b) == |a|
  {
    var n := SpacesEnd(a + b);
    assert forall i :: 0 <= i < |a| ==> (a + b)[i] == a[i];
    assert b != [] ==> (a + b)[|a|] == b[0];
  }

  /** The key group runs to the first '='. */
  lemma KeyShaped(key: string, rest: string, p: Pattern)
    requires Excludes(key, '=')
    ensures MatchKey(key + "=" + rest, p) == if key == [] then None else MatchValue(key, rest, p)
  {
    var u := key + "=" + rest;
    assert u == key + ("=" + rest);
    UntilOf(key, '=', "=" + rest);
    assert u[..|key|] == key;
    assert u[|key| + 1..] == rest;
  }

  /** The value group runs to the next '"'. */
  lemma ValueShaped(key: string, value: string, rest: string, p: Pattern)
    requires value != [] && Excludes(value, '"')
    ensures MatchValue(key, value + "\"" + rest, p) == MatchComma(key, value, rest, p)
  {
    var u := value + "\"" + rest;
    assert u == value + ("\"" + rest);
    UntilOf(value, '"', "\"" + rest);
    assert u[..|value|] == value;
    assert u[|value| + 1..] == rest;
  }

  /** White space and a comma. */
  lemma CommaShaped(key: string, value: string, ws: string, rest: string, p: Pattern)
    requires AllSpace(ws)
    ensures MatchComma(key, value, ws + "," + rest, p) == MatchOpenExtra(key, value, rest, p)
  {
    var w := ws + "," + rest;
    assert w == ws + ("," + rest);
    SpacesEndOf(ws, "," + rest);
    assert w[|ws| + 1..] == rest;
  }

  /** White space and the quote that opens EXTRA. */
  lemma OpenExtraShaped(key: string, value: string, ws: string, x: string, p: Pattern)
    requires AllSpace(ws)
    ensures MatchOpenExtra(key, value, ws + "\"" + x, p) == MatchExtra(key, value, x, p)
  {
    var w := ws + "\"" + x;
    assert w == ws + ("\"" + x);
    SpacesEndOf(ws, "\"" + x);
    assert w[|ws| + 1..] == x;
  }

  /**
   * A line that starts with `"K=V"`, white space, a comma, white space and a
   * quote is decided by what follows that quote alone, and K is the key.
   */
  lemma ShapedPrefix(key: string, value: string, ws1: string, ws2: string, x: string, p: Pattern)
    requires Excludes(key, '=')
    requires value != [] && Excludes(value, '"')
    requires AllSpace(ws1) && AllSpace(ws2)
    ensures MatchPrefix("\"" + key + "=" + value + "\"" + ws1 + "," + ws2 + "\"" + x, p)
         == if key == [] then None else MatchExtra(key, value, x, p)
  {
    var r3 := ws2 + "\"" + x;
    var r2 := ws1 + "," + r3;
    var r1 := value + "\"" + r2;
    var t := "\"" + key + "=" + value + "\"" + ws1 + "," + ws2 + "\"" + x;
    assert t == "\"" + (key + "=" + r1);
    assert t[1..] == key + "=" + r1;
    KeyShaped(key, r1, p);
    ValueShaped(key, value, r2, p);
    CommaShaped(key, value, ws1, r3, p);
    OpenExtraShaped(key, value, ws2, x, p);
  }

  /**
   * Completeness: where a line holds `"K=V"ws1,ws2"E"` with K, V and E as
   * the character classes allow, the pattern matches there with exactly those groups.
   */
  lemma MatchPrefixComplete(m: Match, ws1: string, ws2: string, t: string, p: Pattern)
    requires WellFormed(m, p) && AllSpace(ws1) && AllSpace(ws2)
    requires Render(m.key, m.value, ws1, ws2, m.extra) <= t
    ensures MatchPrefix(t, p) == Some(m)
  {
    var line := Render(m.key, m.value, ws1, ws2, m.extra);
    var tail := t[|line|..];
    var x := m.extra + ("\"" + tail);
    assert t == line + tail;
    assert t == "\"" + m.key + "=" + m.value + "\"" + ws1 + "," + ws2 + "\"" + x;
    ShapedPrefix(m.key, m.value, ws1, ws2, x, p);
    UntilOf(m.extra, '"', "\"" + tail);
    assert x[..|m.extra|] == m.extra;
  }

  /** Any text is its prefix, the character at `n` and the rest. */
  lemma Reassemble(u: string, n: nat)
    requires n < |u|
    ensures u == u[..n] + ([u[n]] + u[n + 1..])
  {
  }

  /** A key match splits its text at the first '='. */
  lemma KeySound(u: string, p: Pattern) returns (key: string, rest: string)
    requires MatchKey(u, p).Some?
    ensures u == key + ("=" + rest) && Excludes(key, '=')
    ensures MatchKey(u, p) == MatchValue(key, rest, p)
  {
    var n := Until(u, '=');
    key, rest := u[..n], u[n + 1..];
    Reassemble(u, n);
  }

  /** A value match splits its text at the next '"'. */
  lemma ValueSound(key: string, u: string, p: Pattern) returns (value: string, rest: string)
    requires MatchValue(key, u, p).Some?
    ensures u == value + ("\"" + rest)
    ensures MatchValue(key, u, p) == MatchComma(key, value, rest, p)
  {
    var n := Until(u, '"');
    value, rest := u[..n], u[n + 1..];
    Reassemble(u, n);
  }

  /** The comma comes after a run of white space. */
  lemma CommaSound(key: string, value: string, w: string, p: Pattern) returns (ws: string, rest: string)
    requires MatchComma(key, value, w, p).Some?
    ensures w == ws + ("," + rest) && AllSpace(ws)
    ensures MatchComma(key, value, w, p) == MatchOpenExtra(key, value, rest, p)
  {
    var a := SpacesEnd(w);
    ws, rest := w[..a], w[a + 1..];
    Reassemble(w, a);
  }

  /** The quote that opens EXTRA comes after a run of white space. */
  lemma OpenExtraSound(key: string, value: string, w: string, p: Pattern) returns (ws: string, x: string)
    requires MatchOpenExtra(key, value, w, p).Some?
    ensures w == ws + ("\"" + x) && AllSpace(ws)
    ensures MatchOpenExtra(key, value, w, p) == MatchExtra(key, value, x, p)
  {
    var b := SpacesEnd(w);
    ws, x := w[..b], w[b + 1..];
    Reassemble(w, b);
  }

  /** EXTRA is followed by its closing quote. */
  lemma ExtraSound(key: string, value: string, x: string, p: Pattern) returns (tail: string)
    requires MatchExtra(key, value, x, p).Some?
    ensures x == MatchExtra(key, value, x, p).value.extra + ("\"" + tail)
  {
    var n := Until(x, '"');
    tail := x[n + 1..];
    Reassemble(x, n);
  }

  /**
   * Soundness: a match is always the documented shape, found at the start of
   * `t`, with groups the character classes allow.
   */
  lemma MatchPrefixSound(t: string, p: Pattern)
    requires MatchPrefix(t, p).Some?
    ensures WellFormed(MatchPrefix(t, p).value, p)
    ensures var m := MatchPrefix(t, p).value;
            exists ws1, ws2 :: AllSpace(ws1) && AllSpace(ws2) && Render(m.key, m.value, ws1, ws2, m.extra) <= t
  {
    var key, value, ws1, ws2, extra, tail := Decompose(t, p);
    RenderNested(key, value, ws1, ws2, extra, tail);
    var line := Render(key, value, ws1, ws2, extra);
    assert t == line + tail;
    assert line <= t;
  }

  /** The pieces of `t` that a match at its start consumes, in order, and what is left. */
  lemma Decompose(t: string, p: Pattern) returns (key: string, value: string, ws1: string, ws2: string, extra: string, tail: string)
    requires MatchPrefix(t, p).Some?
    ensures MatchPrefix(t, p) == Some(Match(key, value, extra))
    ensures AllSpace(ws1) && AllSpace(ws2)
    ensures t == "\"" + (key + ("=" + (value + ("\"" + (ws1 + ("," + (ws2 + ("\"" + (extra + ("\"" + tail))))))))))
  {
    var r1, r2;
    PrefixStep(t, p);
    key, r1 := KeySound(t[1..], p);
    value, r2 := ValueSound(key, r1, p);
    extra, ws1, ws2, tail := DecomposeTail(key, value, r2, p);
  }

  /** The opening quote. */
  lemma PrefixStep(t: string, p: Pattern)
    requires MatchPrefix(t, p).Some?
    ensures t == "\"" + t[1..]
    ensures MatchPrefix(t, p) == MatchKey(t[1..], p)
  {
    assert t == [t[0]] + t[1..];
  }

  /** The same, for what follows the value's closing quote. */
  lemma DecomposeTail(key: string, value: string, w: string, p: Pattern) returns (extra: string, ws1: string, ws2: string, tail: string)
    requires MatchComma(key, value, w, p).Some?
    ensures MatchComma(key, value, w, p) == Some(Match(key, value, extra))
    ensures AllSpace(ws1) && AllSpace(ws2)
    ensures w == ws1 + ("," + (ws2 + ("\"" + (extra + ("\"" + tail)))))
  {
    var r3, x;
    ws1, r3 := CommaSound(key, value, w, p);
    ws2, x := OpenExtraSound(key, value, r3, p);
    tail := ExtraSound(key, value, x, p);
    extra := MatchExtra(key, value, x, p).value.extra;
  }

  /** `Render` followed by more text, with the concatenations nested to the right. */
  lemma RenderNested(key: string, value: string, ws1: string, ws2: string, extra: string, tail: string)
    ensures Render(key, value, ws1, ws2, extra) + tail
         == "\"" + (key + ("=" + (value + ("\"" + (ws1 + ("," + (ws2 + ("\"" + (extra + ("\"" + tail))))))))))
  {
  }

  /**
   * Python's `search` finds nothing in a line that matches nowhere: a
   * corollary of one direction of `Search`'s own contract, stated on its own
   * for callers that reason position by position.
   */
  lemma SearchNone(line: string, p: Pattern)
    requires forall j :: 0 <= j <= |line| ==> MatchPrefix(line[j..], p).None?
    ensures Search(line, p) == None
  {
  }

  /** A line in the exact documented shape yields its own key, value and extra. */
  lemma ExactLine(m: Match, ws1: string, ws2: string, p: Pattern)
    requires WellFormed(m, p) && AllSpace(ws1) && AllSpace(ws2)
    ensures Search(Render(m.key, m.value, ws1, ws2, m.extra), p) == Some(m)
  {
    var line := Render(m.key, m.value, ws1, ws2, m.extra);
    assert line[0..] == line;
    MatchPrefixComplete(m, ws1, ws2, line, p);
  }

  /** Text with no '=' in it cannot match either pattern. */
  lemma NoEqualsNoMatch(t: string, p: Pattern)
    requires Excludes(t, '=')
    ensures MatchPrefix(t, p) == None
  {
    if t != [] && t[0] == '"' {
      var u := t[1..];
      assert forall i :: 0 <= i < |u| ==> u[i] == t[i + 1];
    }
  }

  /**
   * `"K=V",""`: the identification parser's pattern requires `[^"]+` for
   * EXTRA, so a line whose EXTRA is empty yields nothing at all: no start
   * position in it matches.
   */
  lemma EmptyExtraRejected(key: string, value: string, ws1: string, ws2: string)
    requires key != [] && Excludes(key, '=')
    requires value != [] && Excludes(value, '"')
    requires AllSpace(ws1) && AllSpace(ws2)
    ensures Search(Render(key, value, ws1, ws2, ""), IdOutput) == None
  {
    var line := Render(key, value, ws1, ws2, "");
    var tail := "\"" + ws1 + "," + ws2 + "\"\"";
    var r1 := "=" + value + tail;
    assert line == "\"" + key + r1;
    forall j | 0 <= j <= |line|
      ensures MatchPrefix(line[j..], IdOutput).None?
    {
      if j <= |key| {
        EmptyExtraInKey(key, value, ws1, ws2, j);
      } else if j < |key| + 2 + |value| {
        assert line[j] == r1[j - |key| - 1];
        assert j == |key| + 1 || line[j] == value[j - |key| - 2];
      } else {
        EmptyExtraInTail(key, value, ws1, ws2, j);
      }
    }
  }

  /** A start position inside the key of `"K=V",""` finds the same empty EXTRA. */
  lemma EmptyExtraInKey(key: string, value: string, ws1: string, ws2: string, j: nat)
    requires Excludes(key, '=')
    requires value != [] && Excludes(value, '"')
    requires AllSpace(ws1) && AllSpace(ws2)
    requires j <= |key|
    ensures MatchPrefix(Render(key, value, ws1, ws2, "")[j..], IdOutput).None?
  {
    var line := Render(key, value, ws1, ws2, "");
    var r1 := "=" + value + "\"" + ws1 + "," + ws2 + "\"\"";
    assert line == "\"" + key + r1;
    if line[j] == '"' {
      var k' := key[j..];
      assert line[j..] == "\"" + k' + r1 by {
        if j > 0 {
          assert line[j] == key[j - 1];
          assert line[j + 1..] == k' + r1;
          assert line[j..] == [line[j]] + line[j + 1..];
        }
      }
      assert Excludes(k', '=') by {
        forall i | 0 <= i < |k'| ensures k'[i] != '=' { assert k'[i] == key[j + i]; }
      }
      assert line[j..] == "\"" + k' + "=" + value + "\"" + ws1 + "," + ws2 + "\"" + "\"";
      ShapedPrefix(k', value, ws1, ws2, "\"", IdOutput);
    }
  }

  /** Past the value of `"K=V",""` there is no '=' left for a match. */
  lemma EmptyExtraInTail(key: string, value: string, ws1: string, ws2: string, j: nat)
    requires AllSpace(ws1) && AllSpace(ws2)
    requires |key| + 2 + |value| <= j <= |Render(key, value, ws1, ws2, "")|
    ensures MatchPrefix(Render(key, value, ws1, ws2, "")[j..], IdOutput).None?
  {
    var line := Render(key, value, ws1, ws2, "");
    var start := |key| + 2 + |value|;
    var tail := "\"" + ws1 + "," + ws2 + "\"\"";
    assert line == ("\"" + key + "=" + value) + tail;
    assert line[j..] == tail[j - start..];
    forall i | j - start <= i < |tail| ensures tail[i] != '=' {
      if 1 <= i < 1 + |ws1| {
        assert tail[i] == ws1[i - 1];
      } else if 2 + |ws1| <= i < 2 + |ws1| + |ws2| {
        assert tail[i] == ws2[i - 2 - |ws1|];
      }
    }
    assert Excludes(tail[j - start..], '=');
    NoEqualsNoMatch(tail[j - start..], IdOutput);
  }

  /** The scanner's telnet pattern does accept `"K=V",""`, with an empty EXTRA. */
  lemma EmptyExtraAccepted(key: string, value: string, ws1: string, ws2: string)
    requires key != [] && Excludes(key, '=')
    requires value != [] && Excludes(value, '"')
    requires AllSpace(ws1) && AllSpace(ws2)
    ensures Search(Render(key, value, ws1, ws2, ""), TelnetScan) == Some(Match(key, value, ""))
  {
    ExactLine(Match(key, value, ""), ws1, ws2, TelnetScan);
  }

  function StrictOf(r: Option<Match>): Option<Match> {
    if r.Some? && r.value.extra != [] then r else None
  }

  /** At one start position, the identification pattern is the telnet pattern minus empty EXTRAs. */
  lemma StrictIsLenientWithExtra(t: string)
    ensures MatchPrefix(t, IdOutput) == StrictOf(MatchPrefix(t, TelnetScan))
  {
  }

  /**
   * Where the telnet pattern's leftmost match has a non-empty EXTRA, the
   * identification pattern finds the same match.
   */
  lemma StrictAgreesWithLenient(line: string)
    requires Search(line, TelnetScan).Some? && Search(line, TelnetScan).value.extra != []
    ensures Search(line, IdOutput) == Search(line, TelnetScan)
  {
    var j := SearchPosition(line, TelnetScan);
    forall k | 0 <= k < j ensures MatchPrefix(line[k..], IdOutput).None? {
      StrictIsLenientWithExtra(line[k..]);
    }
    StrictIsLenientWithExtra(line[j..]);
    SearchIsLeftmost(line, IdOutput, j);
  }

  /**
   * One line, two dictionaries: the telnet pattern takes the leftmost
   * `"A=1",""`, while the identification pattern skips it and its leftmost
   * match starts at that entry's closing quote, so its key spans `,"" "B`.
   */
  lemma PatternsDisagree()
    ensures var line := "\"A=1\",\"\" \"B=2\",\"x\"";
            && Search(line, TelnetScan) == Some(Match("A", "1", ""))
            && Search(line, IdOutput) == Some(Match(",\"\" \"B", "2", "x"))
  {
    var line := "\"A=1\",\"\" \"B=2\",\"x\"";
    TelnetSearch(line);
    IdSearch(line);
  }

  lemma TelnetSearch(line: string)
    requires line == "\"A=1\",\"\" \"B=2\",\"x\""
    ensures Search(line, TelnetScan) == Some(Match("A", "1", ""))
  {
    TelnetTakesFirst(line);
    assert line[0..] == line;
    SearchIsLeftmost(line, TelnetScan, 0);
  }

  lemma IdSearch(line: string)
    requires line == "\"A=1\",\"\" \"B=2\",\"x\""
    ensures Search(line, IdOutput) == Some(Match(",\"\" \"B", "2", "x"))
  {
    IdSkipsFirst(line);
    IdMatchesAtQuote(line);
    assert line[0..] == line;
    NoQuoteInFirstEntry(line);
    LeftmostAfterSkips(line, 4, IdOutput);
  }

  lemma NoQuoteInFirstEntry(line: string)
    requires line == "\"A=1\",\"\" \"B=2\",\"x\""
    ensures forall k :: 0 < k < 4 ==> line[k] != '"'
  {
  }

  /** When no start before `j` can open a match and `j` does, `re.search` starts at `j`. */
  lemma LeftmostAfterSkips(s: string, j: nat, p: Pattern)
    requires j <= |s| && MatchPrefix(s[j..], p).Some?
    requires MatchPrefix(s, p).None?
    requires forall k :: 0 < k < j ==> s[k] != '"'
    ensures Search(s, p) == MatchPrefix(s[j..], p)
  {
    forall k | 0 <= k < j ensures MatchPrefix(s[k..], p).None? {
      if k > 0 {
        assert s[k..][0] == s[k];
      } else {
        assert s[0..] == s;
      }
    }
    SearchIsLeftmost(s, p, j);
  }

  lemma TelnetTakesFirst(line: string)
    requires line == "\"A=1\",\"\" \"B=2\",\"x\""
    ensures MatchPrefix(line, TelnetScan) == Some(Match("A", "1", ""))
  {
    assert Render("A", "1", "", "", "") <= line;
    MatchPrefixComplete(Match("A", "1", ""), "", "", line, TelnetScan);
  }

  lemma IdSkipsFirst(line: string)
    requires line == "\"A=1\",\"\" \"B=2\",\"x\""
    ensures MatchPrefix(line, IdOutput).None?
  {
    var head, rest := "\"A=1\",\"", "\" \"B=2\",\"x\"";
    assert line == head + rest;
    assert head == "\"" + "A" + "=" + "1" + "\"" + "" + "," + "" + "\"";
    ShapedPrefix("A", "1", "", "", rest, IdOutput);
    assert Until(rest, '"') == 0;
  }

  lemma IdMatchesAtQuote(line: string)
    requires line == "\"A=1\",\"\" \"B=2\",\"x\""
    ensures MatchPrefix(line[4..], IdOutput) == Some(Match(",\"\" \"B", "2", "x"))
  {
    assert Render(",\"\" \"B", "2", "", "", "x") == line[4..];
    MatchPrefixComplete(Match(",\"\" \"B", "2", "x"), "", "", line[4..], IdOutput);
  }
}
