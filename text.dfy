/**
 * Python string primitives the scanner relies on, over `string` (a sequence
 * of Unicode scalar values): the character classes of `\s` and `\d`,
 * `str.splitlines`, `"\n".join`, the `in` substring test and `str.lower`.
 */
module Text {

  /** The line boundaries `str.splitlines` splits on. */
  predicate IsLineBreak(c: char) {
    c in {'\n', '\r', '\U{000B}', '\U{000C}', '\U{001C}', '\U{001D}', '\U{001E}',
          '\U{0085}', '\U{2028}', '\U{2029}'}
  }

  /** The characters `str.isspace` accepts, which is what `\s` matches in a `str` pattern. */
  predicate IsSpace(c: char) {
    c in {'\t', '\n', '\U{000B}', '\U{000C}', '\r', '\U{001C}', '\U{001D}', '\U{001E}',
          '\U{001F}', ' ', '\U{0085}', '\U{00A0}', '\U{1680}', '\U{2028}', '\U{2029}',
          '\U{202F}', '\U{205F}', '\U{3000}'}
    || '\U{2000}' <= c <= '\U{200A}'
  }

  /** An ASCII decimal digit (`\d` restricted to ASCII). */
  predicate IsDigit(c: char) {
    '0' <= c <= '9'
  }

  predicate AllSpace(s: string) {
    forall i :: 0 <= i < |s| ==> IsSpace(s[i])
  }

  predicate AllDigits(s: string) {
    forall i :: 0 <= i < |s| ==> IsDigit(s[i])
  }

  predicate Excludes(s: string, c: char) {
    forall i :: 0 <= i < |s| ==> s[i] != c
  }

  predicate NoLineBreak(s: string) {
    forall i :: 0 <= i < |s| ==> !IsLineBreak(s[i])
  }

  /** Python's `pat in s`: `pat` occurs in `s` at some position (the empty string occurs everywhere). */
  predicate Contains(s: string, pat: string) {
    exists i :: 0 <= i <= |s| - |pat| && pat <= s[i..]
  }

  predicate IsUpper(c: char) {
    'A' <= c <= 'Z'
  }

  function LowerChar(c: char): char {
    if IsUpper(c) then (c as int + 32) as char else c
  }

  /**
   * `str.lower` on ASCII letters: the result holds no capital, and it differs
   * from the input only where the input has a capital, which becomes the
   * letter 32 code points further on.
   */
  function Lower(s: string): (r: string)
    ensures |r| == |s|
    ensures forall i :: 0 <= i < |r| ==> !IsUpper(r[i])
    ensures forall i :: 0 <= i < |s| ==> (r[i] == s[i] <==> !IsUpper(s[i]))
    ensures forall i :: 0 <= i < |s| && IsUpper(s[i]) ==> r[i] as int == s[i] as int + 32
  {
    seq(|s|, i requires 0 <= i < |s| => LowerChar(s[i]))
  }

  /** Lower-casing twice is lower-casing once. */
  lemma LowerIdempotent(s: string)
    ensures Lower(Lower(s)) == Lower(s)
  {
  }

  /** The index of the first line boundary in `s`, or `|s|` when there is none. */
  function LineEnd(s: string): (n: nat)
    ensures n <= |s|
    ensures NoLineBreak(s[..n])
    ensures n < |s| ==> IsLineBreak(s[n])
  {
    if s == [] || IsLineBreak(s[0]) then 0
    else 1 + LineEnd(s[1..])
  }

  /**
   * `str.splitlines()`: the text between boundaries, where "\r\n" counts as
   * one boundary and a boundary at the very end does not open an empty last line.
   */
  function SplitLines(s: string): (lines: seq<string>)
    ensures lines == [] <==> s == []
    ensures forall k :: 0 <= k < |lines| ==> NoLineBreak(lines[k])
    decreases |s|
  {
    if s == [] then []
    else
      var n := LineEnd(s);
      var skip := if n == |s| then 0
                  else if s[n] == '\r' && n + 1 < |s| && s[n + 1] == '\n' then 2
                  else 1;
      [s[..n]] + SplitLines(s[n + skip..])
  }

  /** `"\n".join(lines)`: the text starts with the first line and ends with the last. */
  function Join(lines: seq<string>): (r: string)
    ensures lines != [] ==> lines[0] <= r
    ensures |lines| > 1 ==> |lines[0]| < |r| && r[|lines[0]|] == '\n'
  {
    if lines == [] then ""
    else if |lines| == 1 then lines[0]
    else lines[0] + "\n" + Join(lines[1..])
  }

  /**
   * Splitting the joined report gives the lines back, as long as no line
   * holds a boundary of its own and the last line is not empty.
   */
  lemma {:induction false} SplitLinesJoin(lines: seq<string>)
    requires forall k :: 0 <= k < |lines| ==> NoLineBreak(lines[k])
    requires lines != [] ==> lines[|lines| - 1] != []
    ensures SplitLines(Join(lines)) == lines
  {
    if lines == [] {
    } else if |lines| == 1 {
      SplitLinesLast(lines[0]);
    } else {
      var a, rest := lines[0], lines[1..];
      var tail := Join(rest);
      assert Join(lines) == a + "\n" + tail;
      RestClean(lines);
      SplitLinesFirst(a, tail);
      SplitLinesJoin(rest);
      assert lines == [a] + rest;
    }
  }

  lemma RestClean(lines: seq<string>)
    requires lines != []
    requires forall k :: 0 <= k < |lines| ==> NoLineBreak(lines[k])
    ensures forall k :: 0 <= k < |lines[1..]| ==> NoLineBreak(lines[1..][k])
  {
    forall k | 0 <= k < |lines[1..]| ensures NoLineBreak(lines[1..][k]) {
      assert lines[1..][k] == lines[k + 1];
    }
  }

  /** A non-empty text without boundaries is one line. */
  lemma SplitLinesLast(s: string)
    requires s != [] && NoLineBreak(s)
    ensures SplitLines(s) == [s]
  {
    assert LineEnd(s) == |s| by { LineEndOfClean(s, []); assert s + [] == s; }
    assert s[..|s|] == s;
    assert s[|s|..] == [];
  }

  /** A boundary-free first line followed by "\n" is split off as it is. */
  lemma SplitLinesFirst(a: string, t: string)
    requires NoLineBreak(a)
    ensures SplitLines(a + "\n" + t) == [a] + SplitLines(t)
  {
    var s := a + "\n" + t;
    assert s == a + ("\n" + t);
    LineEndOfClean(a, "\n" + t);
    assert s[|a|] == '\n';
    assert s[..|a|] == a;
    assert s[|a| + 1..] == t;
  }

  /** The first boundary of `a + t` is where the boundary-free `a` ends, if `t` starts with one. */
  lemma {:induction false} LineEndOfClean(a: string, t: string)
    requires NoLineBreak(a)
    requires t == [] || IsLineBreak(t[0])
    ensures LineEnd(a + t) == |a|
  {
    if a != [] {
      assert (a + t)[1..] == a[1..] + t;
      LineEndOfClean(a[1..], t);
    }
  }

  /** Joining two non-empty reports puts one "\n" between them. */
  lemma {:induction false} JoinAppend(a: seq<string>, b: seq<string>)
    requires a != [] && b != []
    ensures Join(a + b) == Join(a) + "\n" + Join(b)
  {
    if |a| == 1 {
      assert (a + b)[1..] == b;
    } else {
      var tail := a[1..];
      assert (a + b)[0] == a[0] && (a + b)[1..] == tail + b;
      JoinAppend(tail, b);
      assert Join(a + b) == a[0] + "\n" + Join(tail + b);
      assert Join(a) == a[0] + "\n" + Join(tail);
    }
  }
}
