/**
 * `telnet_fingerprint` in sel_scanner.py: in test mode a fixed record is
 * returned without any connection; otherwise the `id` output is parsed with
 * the telnet pattern, which keeps only each line's VALUE, and a failure of
 * the exchange yields the empty dictionary. The text the relay sends is an
 * input: `None` stands for the exchange raising an exception.
 */
module ScannerFingerprint {
  import opened Options
  import opened Text
  import opened FingerprintFormat
  import opened Fingerprint

  const FakeModel := "SEL351"
  const FakeFirmware := "2.0"
  const FakeFid := "SEL-787-R110-V1-Z002001-D20190508"

  /** The simulated fingerprint of test mode. */
  function FakeFingerprint(): (fp: Record)
    ensures fp.Keys == {"MODEL", "FW", "FID"}
    ensures fp["MODEL"].value == FakeModel && fp["FW"].value == FakeFirmware && fp["FID"].value == FakeFid
    ensures forall k :: k in fp ==> fp[k].extra.None?
  {
    map["MODEL" := Entry(FakeModel, None), "FW" := Entry(FakeFirmware, None), "FID" := Entry(FakeFid, None)]
  }

  /**
   * `telnet_fingerprint(ip)`: the fixed record in test mode, the empty
   * dictionary when the exchange fails, and otherwise the telnet pattern
   * over every line of the reply.
   */
  method TelnetFingerprint(testMode: bool, raw: Option<string>) returns (parsed: Record)
    ensures testMode ==> parsed == FakeFingerprint()
    ensures !testMode && raw.None? ==> parsed == map[]
    ensures !testMode && raw.Some? ==> parsed == ParseLines(SplitLines(raw.value), TelnetScan)
  {
    if testMode {
      return FakeFingerprint();
    }
    if raw.None? {
      return map[];
    }
    parsed := map[];
    var lines := SplitLines(raw.value);
    var i := 0;
    while i < |lines|
      invariant 0 <= i <= |lines|
      invariant parsed == ParseLines(lines[..i], TelnetScan)
    {
      var m := Search(lines[i], TelnetScan);
      LinesStep(lines, i, TelnetScan);
      if m.Some? {
        parsed := parsed[m.value.key := Entry(m.value.value, None)];
      }
      i := i + 1;
    }
    assert lines[..i] == lines;
  }

  /** Every entry of a parsed telnet reply holds a VALUE only, never an EXTRA. */
  lemma TelnetKeepsValueOnly(raw: string)
    ensures var d := ParseLines(SplitLines(raw), TelnetScan);
            forall k :: k in d ==> d[k].extra.None? && d[k].value != [] && Excludes(d[k].value, '"')
  {
    ParseLinesShape(SplitLines(raw), TelnetScan);
  }

  /** A reply line `"K=V",""` is kept by the telnet parser, as K -> {value: V}. */
  lemma TelnetAcceptsEmptyExtra(key: string, value: string, ws1: string, ws2: string)
    requires key != [] && Excludes(key, '=')
    requires value != [] && Excludes(value, '"')
    requires AllSpace(ws1) && AllSpace(ws2)
    requires NoLineBreak(Render(key, value, ws1, ws2, ""))
    ensures ParseLines(SplitLines(Render(key, value, ws1, ws2, "")), TelnetScan)
         == map[key := Entry(value, None)]
  {
    var line := Render(key, value, ws1, ws2, "");
    OutputOfLines([line], TelnetScan);
    OneLine(line, TelnetScan);
    EmptyExtraAccepted(key, value, ws1, ws2);
  }
}
