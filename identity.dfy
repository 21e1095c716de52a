/**
 * How `main` in sel_scanner.py names the relay from its fingerprint: the
 * MODEL and FW values when present; when FW is missing (or empty) and an FID
 * is present, the version is the first `R<digits>-V<digits>` in the FID and,
 * if MODEL is missing too, the model is an `SEL-<digits>` at the start of
 * the FID. `\d` is taken to match the ASCII digits.
 */
module Identity {
  import opened Options
  import opened Text
  import opened Fingerprint
  import opened ScannerFingerprint

  /** The model and version the scanner reports; a missing or empty value is printed as "n/a". */
  datatype Ident = Ident(model: Option<string>, version: Option<string>)

  /** `fp.get(key, {}).get("value")`. */
  function Get(fp: Record, key: string): (r: Option<string>)
    ensures r.Some? <==> key in fp
    ensures key in fp ==> r.value == fp[key].value
  {
    if key in fp then Some(fp[key].value) else None
  }

  /** Python truthiness of an optional string: present and non-empty. */
  predicate Truthy(o: Option<string>) {
    o.Some? && o.value != []
  }

  /** The length of the leading run of digits: where a greedy `\d+` stops. */
  function DigitRun(t: string): (n: nat)
    ensures n <= |t|
    ensures forall i :: 0 <= i < n ==> IsDigit(t[i])
    ensures n < |t| ==> !IsDigit(t[n])
  {
    if t == [] || !IsDigit(t[0]) then 0 else 1 + DigitRun(t[1..])
  }

  /** `v` splits as "R", `a` digits, "-V" and at least one more digit. */
  predicate TokenSplit(v: string, a: nat) {
    && 1 <= a && a + 4 <= |v|
    && v[0] == 'R' && AllDigits(v[1..1 + a])
    && v[1 + a] == '-' && v[2 + a] == 'V'
    && AllDigits(v[3 + a..])
  }

  /** A text the group `(R\d+-V\d+)` can capture. */
  ghost predicate IsVersionToken(v: string) {
    exists a: nat :: TokenSplit(v, a)
  }

  /** A text the group `(SEL-\d+)` can capture. */
  predicate IsModelToken(m: string) {
    |m| >= 5 && m[..4] == "SEL-" && AllDigits(m[4..])
  }

  /** `R\d+-V\d+` anchored at the start of `t`, each `\d+` as long as it goes. */
  function VersionPrefix(t: string): Option<string> {
    if t == [] || t[0] != 'R' then None
    else
      var a := DigitRun(t[1..]);
      if a == 0 || |t| < a + 3 || t[1 + a] != '-' || t[2 + a] != 'V' then None
      else
        var b := DigitRun(t[3 + a..]);
        if b == 0 then None else Some(t[..3 + a + b])
  }

  /**
   * `re.search(r"(R\d+-V\d+)", fid)`: the capture at the leftmost position
   * that has one, which is always a version token.
   */
  function VersionSearch(s: string): (r: Option<string>)
    ensures r.Some? ==> IsVersionToken(r.value)
  {
    if VersionPrefix(s).Some? then
      VersionPrefixSound(s);
      VersionPrefix(s)
    else if s == [] then None
    else VersionSearch(s[1..])
  }

  /**
   * `re.match(r"(SEL-\d+)", fid)`: anchored at the start, the digits as long
   * as they go. What it finds is a model token at the start of the FID with
   * no digit right after it.
   */
  function ModelPrefix(fid: string): (r: Option<string>)
    ensures r.Some? ==> r.value <= fid && IsModelToken(r.value)
    ensures r.Some? ==> |r.value| == |fid| || !IsDigit(fid[|r.value|])
  {
    if |fid| < 4 || fid[..4] != "SEL-" then None
    else
      var b := DigitRun(fid[4..]);
      if b == 0 then None
      else
        var m := fid[..4 + b];
        assert m[..4] == fid[..4];
        assert forall i :: 0 <= i < b ==> m[4..][i] == fid[4..][i];
        assert |m| < |fid| ==> fid[|m|] == fid[4..][b];
        Some(m)
  }

  /**
   * The lines of `main` that derive the model and version from the
   * fingerprint. A reported value that is not the record's own MODEL or FW
   * value was read from the FID: a model token at its start, or a version token.
   */
  function Identify(fp: Record): (r: Ident)
    ensures r.model != Get(fp, "MODEL") ==>
              "FID" in fp && (r.model.Some? ==> IsModelToken(r.model.value) && r.model.value <= fp["FID"].value)
    ensures r.version != Get(fp, "FW") ==>
              "FID" in fp && (r.version.Some? ==> IsVersionToken(r.version.value))
  {
    var model := Get(fp, "MODEL");
    var version := Get(fp, "FW");
    if !Truthy(version) && "FID" in fp then
      var fid := fp["FID"].value;
      Ident(if !Truthy(model) then ModelPrefix(fid) else model, VersionSearch(fid))
    else
      Ident(model, version)
  }

  // ---------------------------------------------------------------------------
  // The extraction against the shape of its tokens

  lemma DigitRunExact(t: string, n: nat)
    requires n <= |t| && AllDigits(t[..n])
    requires n == |t| || !IsDigit(t[n])
    ensures DigitRun(t) == n
  {
    var r := DigitRun(t);
    assert forall i :: 0 <= i < n ==> t[..n][i] == t[i];
  }

  lemma DigitRunAtLeast(t: string, n: nat)
    requires n <= |t| && AllDigits(t[..n])
    ensures DigitRun(t) >= n
  {
    var r := DigitRun(t);
    assert forall i :: 0 <= i < n ==> t[..n][i] == t[i];
  }

  /** What `VersionPrefix` captures is a version token followed by no further digit. */
  lemma VersionPrefixSound(t: string)
    requires VersionPrefix(t).Some?
    ensures var v := VersionPrefix(t).value;
            v <= t && IsVersionToken(v) && (|v| == |t| || !IsDigit(t[|v|]))
  {
    var v := VersionPrefix(t).value;
    var a := DigitRun(t[1..]);
    var b := DigitRun(t[3 + a..]);
    assert v == t[..3 + a + b];
    var d1, d2 := v[1..1 + a], v[3 + a..];
    forall i | 0 <= i < |d1| ensures IsDigit(d1[i]) {
      assert d1[i] == t[1..][i];
    }
    forall i | 0 <= i < |d2| ensures IsDigit(d2[i]) {
      assert d2[i] == t[3 + a..][i];
    }
    assert TokenSplit(v, a);
    assert |v| < |t| ==> t[|v|] == t[3 + a..][b];
  }

  /** Where a version token starts, `VersionPrefix` captures one. */
  lemma VersionPrefixComplete(t: string, j: nat)
    requires j <= |t| && IsVersionToken(t[..j])
    ensures VersionPrefix(t).Some?
  {
    var v := t[..j];
    var a: nat :| TokenSplit(v, a);
    assert forall i :: 0 <= i < a ==> t[1..][..a][i] == v[1..1 + a][i];
    DigitRunExact(t[1..], a);
    var u := t[3 + a..];
    assert v[3 + a..][0] == v[3 + a] == u[0];
    assert IsDigit(u[0]) && u[..1] == [u[0]];
    DigitRunAtLeast(u, 1);
  }

  /**
   * The version recovered from an FID is a version token that occurs in it,
   * with no version token starting further left and no digit right after it.
   */
  lemma VersionIsLeftmostToken(s: string) returns (i: nat)
    requires VersionSearch(s).Some?
    ensures var v := VersionSearch(s).value;
            && i + |v| <= |s| && s[i..i + |v|] == v && IsVersionToken(v)
            && (i + |v| == |s| || !IsDigit(s[i + |v|]))
            && forall k, j :: 0 <= k < i && k <= j <= |s| ==> !IsVersionToken(s[k..j])
  {
    i := VersionFoundAt(s);
    VersionPrefixSound(s[i..]);
    SliceAt(s, i, VersionSearch(s).value);
    NoTokenBefore(s, i);
  }

  /** A prefix `v` of `s[i..]` sits at `i` in `s`, and what follows it in `s` follows it there. */
  lemma SliceAt(s: string, i: nat, v: string)
    requires i <= |s| && v <= s[i..]
    ensures i + |v| <= |s| && s[i..i + |v|] == v
    ensures i + |v| < |s| ==> s[i + |v|] == s[i..][|v|]
  {
    assert s[i..i + |v|] == s[i..][..|v|];
  }

  /** No start position before `i` with no capture means no version token starting before `i`. */
  lemma NoTokenBefore(s: string, i: nat)
    requires i <= |s|
    requires forall k {:trigger VersionPrefix(s[k..])} :: 0 <= k < i ==> VersionPrefix(s[k..]).None?
    ensures forall k, j :: 0 <= k < i && k <= j <= |s| ==> !IsVersionToken(s[k..j])
  {
    forall k, j | 0 <= k < i && k <= j <= |s| ensures !IsVersionToken(s[k..j]) {
      NoTokenAtStart(s[k..]);
      assert s[k..][0..j - k] == s[k..j];
    }
  }

  /** `VersionSearch` answers with the capture at the first position that has one. */
  lemma {:induction false} VersionFoundAt(s: string) returns (i: nat)
    requires VersionSearch(s).Some?
    ensures i <= |s| && VersionPrefix(s[i..]) == VersionSearch(s)
    ensures forall k {:trigger VersionPrefix(s[k..])} :: 0 <= k < i ==> VersionPrefix(s[k..]).None?
  {
    if VersionPrefix(s).Some? {
      i := 0;
      assert s[0..] == s;
    } else {
      var i' := VersionFoundAt(s[1..]);
      i := i' + 1;
      assert s[i..] == s[1..][i'..];
      forall k | 0 <= k < i ensures VersionPrefix(s[k..]).None? {
        if k == 0 {
          assert s[0..] == s;
        } else {
          assert s[k..] == s[1..][k - 1..];
        }
      }
    }
  }

  lemma Shifted(s: string, k: nat, j: nat)
    requires 0 < k <= j <= |s|
    ensures s[k..j] == s[1..][k - 1..j - 1]
  {
    assert forall i :: 0 <= i < j - k ==> s[k..j][i] == s[1..][k - 1..j - 1][i];
  }

  lemma NoTokenAtStart(s: string)
    requires VersionPrefix(s).None?
    ensures forall j :: 0 <= j <= |s| ==> !IsVersionToken(s[0..j])
  {
    forall j | 0 <= j <= |s| ensures !IsVersionToken(s[0..j]) {
      if IsVersionToken(s[0..j]) {
        assert s[0..j] == s[..j];
        VersionPrefixComplete(s, j);
      }
    }
  }

  /** No version is recovered exactly when the FID holds no version token anywhere. */
  lemma {:induction false} NoVersionToken(s: string)
    ensures VersionSearch(s).None? <==> forall k, j :: 0 <= k <= j <= |s| ==> !IsVersionToken(s[k..j])
  {
    if VersionSearch(s).Some? {
      var i := VersionIsLeftmostToken(s);
    } else {
      NoTokenAtStart(s);
      if s != [] {
        NoVersionToken(s[1..]);
        forall k, j | 0 <= k <= j <= |s| ensures !IsVersionToken(s[k..j]) {
          if k > 0 {
            Shifted(s, k, j);
          }
        }
      }
    }
  }

  /** No model is recovered exactly when the FID does not start with a model token. */
  lemma ModelPrefixNone(fid: string)
    ensures ModelPrefix(fid).None? <==> forall j :: 0 <= j <= |fid| ==> !IsModelToken(fid[..j])
  {
    if ModelPrefix(fid).Some? {
      assert fid[..|ModelPrefix(fid).value|] == ModelPrefix(fid).value;
    } else {
      forall j | 0 <= j <= |fid| ensures !IsModelToken(fid[..j]) {
        if IsModelToken(fid[..j]) {
          assert fid[..j][..4] == fid[..4];
          assert forall i :: 0 <= i < 1 ==> fid[4..][..1][i] == fid[..j][4..][i];
          DigitRunAtLeast(fid[4..], 1);
        }
      }
    }
  }

  // ---------------------------------------------------------------------------
  // Which value is reported

  /**
   * The version is the FW value when that is non-empty; otherwise, when an FID
   * is present, the leftmost version token of the FID or nothing.
   */
  lemma VersionChoice(fp: Record)
    ensures Truthy(Get(fp, "FW")) ==> Identify(fp).version == Get(fp, "FW")
    ensures !Truthy(Get(fp, "FW")) && "FID" in fp ==> Identify(fp).version == VersionSearch(fp["FID"].value)
    ensures !Truthy(Get(fp, "FW")) && "FID" !in fp ==> Identify(fp).version == Get(fp, "FW")
  {
  }

  /**
   * The model is the MODEL value when that is non-empty. When MODEL and FW
   * are both missing or empty and an FID is present, it is the FID's leading
   * model token or nothing; in every other case it is MODEL's value.
   */
  lemma ModelChoice(fp: Record)
    ensures Truthy(Get(fp, "MODEL")) ==> Identify(fp).model == Get(fp, "MODEL")
    ensures !Truthy(Get(fp, "MODEL")) && !Truthy(Get(fp, "FW")) && "FID" in fp ==>
              Identify(fp).model == ModelPrefix(fp["FID"].value)
    ensures !(!Truthy(Get(fp, "MODEL")) && !Truthy(Get(fp, "FW")) && "FID" in fp) ==>
              Identify(fp).model == Get(fp, "MODEL")
  {
  }

  /**
   * An FID shaped `SEL-<m>-R<d1>-V<d2>` followed by anything that does not
   * start with a digit (such as `SEL-787-R110-V1-Z002001-D20190508`) names
   * model `SEL-<m>` and version `R<d1>-V<d2>` when the fingerprint holds nothing else.
   */
  lemma FidExample(m: string, d1: string, d2: string, post: string)
    requires m != [] && AllDigits(m) && d1 != [] && AllDigits(d1) && d2 != [] && AllDigits(d2)
    requires post == [] || !IsDigit(post[0])
    ensures var fid := "SEL-" + m + "-R" + d1 + "-V" + d2 + post;
            Identify(map["FID" := Entry(fid, None)]) == Ident(Some("SEL-" + m), Some("R" + d1 + "-V" + d2))
  {
    var t := "R" + d1 + "-V" + d2 + post;
    var fid := "SEL-" + m + "-R" + d1 + "-V" + d2 + post;
    assert fid == "SEL-" + (m + ("-" + t));
    ModelOfFid(fid, m, "-" + t);
    VersionOfFid(fid, m, t, d1, d2, post);
  }

  /**
   * The simulated relay's FID has that shape, with `m` = 787, `d1` = 110 and
   * `d2` = 1, so it names model SEL-787 and version R110-V1.
   */
  lemma FakeFidShape()
    ensures FakeFid == "SEL-" + "787" + "-R" + "110" + "-V" + "1" + "-Z002001-D20190508"
    ensures AllDigits("787") && AllDigits("110") && AllDigits("1") && !IsDigit('-')
  {
  }

  lemma ModelOfFid(fid: string, m: string, rest: string)
    requires m != [] && AllDigits(m) && (rest == [] || !IsDigit(rest[0]))
    requires fid == "SEL-" + (m + rest)
    ensures ModelPrefix(fid) == Some("SEL-" + m)
  {
    assert fid[..4] == "SEL-";
    assert fid[4..] == m + rest;
    assert (m + rest)[..|m|] == m;
    assert rest != [] ==> (m + rest)[|m|] == rest[0];
    DigitRunExact(fid[4..], |m|);
    assert fid[..4 + |m|] == "SEL-" + m;
  }

  lemma VersionOfFid(fid: string, m: string, t: string, d1: string, d2: string, post: string)
    requires m != [] && AllDigits(m) && d1 != [] && AllDigits(d1) && d2 != [] && AllDigits(d2)
    requires post == [] || !IsDigit(post[0])
    requires t == "R" + d1 + "-V" + d2 + post
    requires fid == "SEL-" + (m + ("-" + t))
    ensures VersionSearch(fid) == Some("R" + d1 + "-V" + d2)
  {
    var n := 5 + |m|;
    FidLayout(fid, m, t);
    forall k | 0 <= k < n ensures VersionPrefix(fid[k..]).None? {
      assert fid[k..][0] == fid[k];
    }
    SearchSkips(fid, n);
    VersionTokenAt(t, d1, d2, post);
  }

  /** Before the version part, a FID of this form holds no `R`. */
  lemma FidLayout(fid: string, m: string, t: string)
    requires AllDigits(m)
    requires fid == "SEL-" + (m + ("-" + t))
    ensures 5 + |m| <= |fid| && fid[5 + |m|..] == t
    ensures forall k :: 0 <= k < 5 + |m| ==> fid[k] != 'R'
  {
    assert forall k :: 0 <= k < 4 ==> fid[k] == "SEL-"[k];
    assert forall k :: 4 <= k < 4 + |m| ==> fid[k] == m[k - 4];
    assert fid[4 + |m|] == '-';
  }

  /** `R<d1>-V<d2>` followed by a non-digit is captured as the version token. */
  lemma VersionTokenAt(t: string, d1: string, d2: string, post: string)
    requires d1 != [] && AllDigits(d1) && d2 != [] && AllDigits(d2)
    requires post == [] || !IsDigit(post[0])
    requires t == "R" + d1 + "-V" + d2 + post
    ensures VersionPrefix(t) == Some("R" + d1 + "-V" + d2)
  {
    TokenLayout(t, d1, d2, post);
    DigitRunOf(d1, "-V" + d2 + post);
    DigitRunOf(d2, post);
    VersionPrefixOf(t, |d1|, |d2|);
  }

  /** Where the parts of `R<d1>-V<d2><post>` sit. */
  lemma TokenLayout(t: string, d1: string, d2: string, post: string)
    requires t == "R" + d1 + "-V" + d2 + post
    ensures |t| == 3 + |d1| + |d2| + |post|
    ensures t[0] == 'R' && t[1..] == d1 + ("-V" + d2 + post)
    ensures t[1 + |d1|] == '-' && t[2 + |d1|] == 'V'
    ensures t[3 + |d1|..] == d2 + post
    ensures t[..3 + |d1| + |d2|] == "R" + d1 + "-V" + d2
  {
    var head := "R" + d1 + "-V";
    assert t == head + (d2 + post);
    assert t == "R" + (d1 + ("-V" + d2 + post));
  }

  /** `VersionPrefix` read off the positions of its parts. */
  lemma VersionPrefixOf(t: string, a: nat, b: nat)
    requires 0 < a && 0 < b && a + 3 <= |t|
    requires t[0] == 'R' && DigitRun(t[1..]) == a && t[1 + a] == '-' && t[2 + a] == 'V'
    requires DigitRun(t[3 + a..]) == b
    ensures VersionPrefix(t) == Some(t[..3 + a + b])
  {
  }

  /** `\d+` over digits `d` followed by a non-digit stops at the end of `d`. */
  lemma DigitRunOf(d: string, rest: string)
    requires AllDigits(d)
    requires rest == [] || !IsDigit(rest[0])
    ensures DigitRun(d + rest) == |d|
  {
    assert (d + rest)[..|d|] == d;
    DigitRunExact(d + rest, |d|);
  }

  /** Positions where no version token can start are skipped by the search. */
  lemma {:induction false} SearchSkips(s: string, n: nat)
    requires n <= |s|
    requires forall k {:trigger VersionPrefix(s[k..])} :: 0 <= k < n ==> VersionPrefix(s[k..]).None?
    ensures VersionSearch(s) == VersionSearch(s[n..])
  {
    if n > 0 {
      assert s[0..] == s;
      forall k | 0 <= k < n - 1 ensures VersionPrefix(s[1..][k..]).None? {
        assert s[1..][k..] == s[k + 1..];
      }
      SearchSkips(s[1..], n - 1);
      assert s[1..][n - 1..] == s[n..];
    }
  }

  /** In test mode the scanner reports model SEL351 and version 2.0. */
  lemma FakeExample()
    ensures Identify(FakeFingerprint()) == Ident(Some(FakeModel), Some(FakeFirmware))
  {
  }
}
