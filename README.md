# relayred core, modelled in Dafny

relayred is a scanner for SEL protective relays. It reads a relay's identity
over telnet, tries the factory-default elevation passwords, probes Modbus/TCP
for an identification response and for an unprotected coil, and looks up the
relay's model in a CVE database. This project models the logic the scanner
applies to what it reads. Every byte received from a relay is a parameter of
the model. So is every Modbus reply and every CVE database.

Modules, one per part of the program:

- `Text` covers the Python string operations the core relies on:
  - `str.splitlines` and `"\n".join`;
  - the `in` substring test;
  - ASCII `str.lower`;
  - the regex classes `\s` and `\d`.
- `FingerprintFormat` covers the two `"KEY=VALUE","EXTRA"` regular expressions and how `re.search` applies them.
  - `IdOutput` is the pattern of `parse_output`. Its extra field must be non-empty.
  - `TelnetScan` is the pattern of `telnet_fingerprint`. It accepts an empty extra field.
  - Each regex is a deterministic span function, which is exactly the greedy behaviour of the Python regex engine on these patterns.
  - `Search` takes the leftmost start position.
- `Fingerprint` covers the dictionary that `parse_output` builds, line by line with the last write winning. `ParseOutput` splits the output into lines and calls `StoreLines`, the imperative loop over those lines, which is proved against that dictionary.
- `ScannerFingerprint` covers `telnet_fingerprint`: its simulated record in test mode, the parse of the `id` reply, and the empty record when the exchange raises.
- `Identity` covers how `main` derives the model and version:
  - The version is `FW` when `FW` is truthy. Otherwise, when an FID is present, it is the first `R\d+-V\d+` token in the FID.
  - The model is `MODEL`, with one exception: when `FW` is falsy, an FID is present and `MODEL` is falsy too, the model is an anchored `SEL-\d+` at the start of the FID.
  - So a record with a truthy `FW` and no `MODEL` reports no model.
- `Elevation` covers `check_elevation`:
  - the ACC → 2AC → CAL ladder;
  - the lines written to the relay;
  - the status of each role after the first reply without `TRNSFRMR`.
- `CveFilter` covers `find_cves`. It is a nested loop proved equal to a filter. The filter keeps the database's order and reports each database entry at most once: an item that occurs twice in the database is reported twice.
- `Ics` covers the class `SEL787Scanner` from `sel_ics.py` and the Modbus client it drives.
  - The client is a class whose replies come from a `Link` value.
  - Its request log and close count show exactly which requests a probe sends and that the session is closed.

The FID `"SEL-787-R110-V1-Z002001-D20190508"` of the simulated record
identifies as model `SEL-787`, version `R110-V1`. Since the simulated record
also carries `MODEL` and `FW`, `main` reports `SEL351` and `2.0` for it.

The two fingerprint patterns do not agree even on lines that both accept, because
`[^=]+` in the key may run across quotes. For the line `"A=1","" "B=2","x"`:

- the telnet pattern matches at the first quote, with key `A` and value `1`;
- the pattern of `parse_output` cannot use the empty extra field, so it matches at the second quote of the line (the one that closes `"A=1"`), with key `,"" "B` (see `FingerprintFormat.PatternsDisagree`).

Three behaviours of the code that are easy to miss:

- A Modbus session whose `connect()` fails is not closed. The model's `closeCount` is 0 on that path.
- The coil probe is one write of `True` to coil `test_coil` (default 1). There are no register writes, no `WARN` level and no dry-run mode.
- The FID fallback for the version applies whenever `FW` is falsy, so an empty `FW` value falls back too, not only a missing key.

## Model

| member | source | states |
|---|---|---|
| Text.SplitLinesJoin | sel_fingerprint.py:36 | splitting a report joined with newlines gives back its lines, when no line holds a line break and the last is not empty |
| Text.SplitLines | sel_fingerprint.py:36 | `splitlines` gives no line for the empty text and at least one otherwise, and no line it produces holds a line-break character |
| Text.Join | sel_ics.py:15 | the joined text starts with the first line, followed by a newline when more lines come |
| Text.JoinAppend | sel_ics.py:15 | joining two non-empty line lists in sequence equals joining each and separating them by one newline |
| Text.Lower | sel_scanner.py:183 | the lower-cased text has the same length and no capital letter, and it differs from the input exactly at the input's capitals, each moved 32 code points on to its small letter |
| Text.LowerIdempotent | sel_scanner.py:183 | lower-casing an already lower-cased text changes nothing |
| FingerprintFormat.MatchPrefix | sel_fingerprint.py:34 | a match anchored at a position has a non-empty key without `=`, a non-empty value without `"`, and an extra without `"` that is non-empty for the `parse_output` pattern |
| FingerprintFormat.FirstMatch | sel_fingerprint.py:37 | the position found is the first attempt from the given one that matches, or the end when none does |
| FingerprintFormat.SearchPosition | sel_fingerprint.py:37 | a found match is the anchored match at some position of the line, and no earlier position matches |
| FingerprintFormat.Search | sel_fingerprint.py:37 | `search` finds nothing exactly when no start position of the line matches, and what it finds is well formed |
| FingerprintFormat.SearchIsLeftmost | sel_fingerprint.py:37 | the match `search` returns is the one at the leftmost matching position |
| FingerprintFormat.MatchPrefixComplete | sel_fingerprint.py:25-34 | every well-formed `"KEY=VALUE" , "EXTRA"` text with any white space around the comma is matched with exactly that key, value and extra |
| FingerprintFormat.MatchPrefixSound | sel_fingerprint.py:34 | every anchored match is the rendering of its own key, value and extra with white space around the comma, read from the front of the text |
| FingerprintFormat.SearchNone | sel_fingerprint.py:37-38 | a line with no matching position yields no match (a corollary of `Search`) |
| FingerprintFormat.ExactLine | sel_fingerprint.py:34-42 | a line that is exactly one well-formed entry yields that entry |
| FingerprintFormat.NoEqualsNoMatch | sel_fingerprint.py:34 | text without `=` never matches |
| FingerprintFormat.EmptyExtraRejected | sel_fingerprint.py:34 | `parse_output` finds nothing in a well-formed entry whose extra field is `""` |
| FingerprintFormat.EmptyExtraAccepted | sel_scanner.py:65 | the telnet pattern matches the same entry, with an empty extra |
| FingerprintFormat.StrictIsLenientWithExtra | sel_scanner.py:65 | at one position, the `parse_output` pattern matches exactly when the telnet pattern matches with a non-empty extra |
| FingerprintFormat.StrictAgreesWithLenient | sel_scanner.py:65 | when the telnet pattern's leftmost match has a non-empty extra, both patterns return the same match for the line |
| FingerprintFormat.PatternsDisagree | sel_scanner.py:65 | on `"A=1","" "B=2","x"` the telnet pattern yields key `A`, value `1`, and the `parse_output` pattern yields key `,"" "B`, value `2`, extra `x` |
| Fingerprint.Build | sel_fingerprint.py:38-42 | storing the search results of successive lines gives a dictionary with at most one entry per line |
| Fingerprint.ParseLines | sel_fingerprint.py:36-42 | the dictionary parsed from a list of lines has at most one entry per line |
| Fingerprint.ParseOutput | sel_fingerprint.py:23-44 | `parse_output` returns the dictionary built from the matches of the output's lines in order, each key mapped to its value and extra |
| Fingerprint.StoreLines | sel_fingerprint.py:36-42 | the loop over the lines stores each line's match in order, ending with the dictionary the lines parse to |
| Fingerprint.ParseLinesShape | sel_fingerprint.py:34-42 | every stored key is non-empty without `=`, every value non-empty without `"`, and an extra is present, non-empty and without `"` exactly for `parse_output` |
| Fingerprint.ParseLinesAppend | sel_fingerprint.py:36-42 | parsing two blocks of lines equals parsing the first and then overwriting with the second |
| Fingerprint.KeyOrigin | sel_fingerprint.py:36-42 | a key is in the result exactly when some line's match has that key |
| Fingerprint.NoMatchEmpty | sel_fingerprint.py:29-44 | when no line matches, the result is empty |
| Fingerprint.LastWins | sel_fingerprint.py:42 | the entry for a key is the one from the last line whose match has that key |
| Fingerprint.OneLine | sel_fingerprint.py:37-42 | one line contributes its match, or nothing |
| Fingerprint.OutputOfLines | sel_fingerprint.py:36 | parsing the newline-joined lines equals parsing the lines, for lines without breaks when the last is not empty |
| Fingerprint.ExactLineOutput | sel_fingerprint.py:23-44 | an output that is one well-formed entry gives a dictionary holding exactly that entry |
| Fingerprint.EmptyExtraOutput | sel_fingerprint.py:34-44 | an output that is one entry with an empty extra gives an empty dictionary |
| ScannerFingerprint.FakeFingerprint | sel_scanner.py:52-61 | the simulated record has exactly the keys MODEL, FW and FID, with the fixed values and no extra |
| ScannerFingerprint.TelnetFingerprint | sel_scanner.py:51-76 | test mode returns the simulated record, a failed exchange returns an empty record, and otherwise the `id` reply is parsed line by line with the telnet pattern, keeping only the value |
| ScannerFingerprint.TelnetKeepsValueOnly | sel_scanner.py:65-71 | every entry of the parsed reply has a non-empty value without `"` and never an extra |
| ScannerFingerprint.TelnetAcceptsEmptyExtra | sel_scanner.py:65-71 | a reply that is one entry with an empty extra still yields that entry's key and value |
| Identity.DigitRun | sel_scanner.py:219 | `\d+` consumes the longest run of digits at the front |
| Identity.VersionSearch | sel_scanner.py:219 | whatever `search` captures in the FID is a version token (`R`, digits, `-V`, digits) |
| Identity.VersionPrefixSound | sel_scanner.py:219 | an anchored version match is `R`, digits, `-V`, digits, read from the front and not followed by a further digit |
| Identity.VersionPrefixComplete | sel_scanner.py:219 | text that starts with a version token has an anchored version match |
| Identity.VersionFoundAt | sel_scanner.py:219-220 | a found version is the anchored match at some position of the FID, and no earlier position starts a version |
| Identity.VersionIsLeftmostToken | sel_scanner.py:219-220 | a found version is a maximal token occurring in the FID, and no token starts earlier |
| Identity.NoVersionToken | sel_scanner.py:219-220 | no version is found exactly when no substring of the FID is a version token |
| Identity.ModelPrefix | sel_scanner.py:222 | an anchored model match is a model token (`SEL-` and digits) at the start of the FID, not followed by a further digit |
| Identity.ModelPrefixNone | sel_scanner.py:222-223 | no model is found exactly when no prefix of the FID is a model token |
| Identity.Identify | sel_scanner.py:215-223 | a reported model or version that is not the record's own MODEL or FW value comes from a present FID: a model token at its start, or a version token |
| Identity.VersionChoice | sel_scanner.py:216-220 | a truthy FW is the version; otherwise the version is the FID search when FID is present, and FW's own value when it is not |
| Identity.ModelChoice | sel_scanner.py:215-223 | a truthy MODEL is the model; when MODEL and FW are both falsy and an FID is present, the model is the FID's leading `SEL-\d+` match (or nothing); in every other case it is MODEL's value |
| Identity.FidExample | sel_scanner.py:215-223 | a record holding only a FID of the form `SEL-<digits>-R<digits>-V<digits>…` identifies as `SEL-<digits>` and `R<digits>-V<digits>` |
| Identity.FakeFidShape | sel_scanner.py:56 | the simulated FID has that form |
| Identity.FakeExample | sel_scanner.py:52-61 | the simulated record identifies as `SEL351`, version `2.0` |
| Elevation.Initial | sel_scanner.py:97-98 | every role of the ladder starts pending |
| Elevation.FirstFailure | sel_scanner.py:114-138 | the index of the first role whose reply lacks the marker, or the ladder's length: every earlier reply has it |
| Elevation.CheckElevation | sel_scanner.py:96-145 | the status map has the three roles; test mode marks all of them success and writes nothing; live mode writes role and password up to the first failure, and each role is success, failed or skipped by its position relative to that failure |
| Elevation.RunLadder | sel_scanner.py:96-145 | the same for any ladder of distinct roles |
| Elevation.Climb | sel_scanner.py:114-138 | the live run writes the lines of every attempted role and leaves each role success, failed or skipped by its position relative to the first failure |
| Elevation.TryRoles | sel_scanner.py:114-138 | the loop stops at the first reply without the marker (or runs out of roles), having marked every earlier role success and written role and password of each role it tried, leaving every role from the stopping index on as it was |
| Elevation.AttemptRoles | sel_scanner.py:114-138 | the loop's result is the first failure index, the status map with the roles before it marked success, and the transcript of the roles it tried |
| Elevation.MarkedFrame | sel_scanner.py:131-132 | marking the roles before an index success keeps the map's keys, makes each of those roles success and leaves every later role unchanged, given distinct role names |
| Elevation.Send | sel_scanner.py:118-124 | trying one more role appends its lower-cased role line and then its password line |
| Elevation.MarkAllSuccess | sel_scanner.py:104-106 | every role becomes success and no other key is added |
| Elevation.SkipLater | sel_scanner.py:133-137 | the failing role becomes failed, earlier roles success and later roles skipped |
| Elevation.LadderDistinct | sel_scanner.py:97 | the three roles are distinct |
| Elevation.FirstFailureAt | sel_scanner.py:131-138 | the failure index is k when every reply before k has the marker and reply k does not |
| Elevation.StatusShape | sel_scanner.py:114-138 | no role stays pending, successes form a prefix, at most one role fails, and every role after a non-success is skipped |
| Elevation.SuccessIffMarker | sel_scanner.py:131-134 | an attempted role succeeds exactly when its reply contains `TRNSFRMR`, fails exactly when it does not, and a role that is not attempted is skipped |
| Elevation.TranscriptAt | sel_scanner.py:119-124 | the lines written alternate the lower-cased role and the password, each ended by CR LF, in ladder order |
| Elevation.StopsAtFailure | sel_scanner.py:124-138 | after a failure the last line written is the failing role's password |
| Elevation.AccOnly | sel_scanner.py:97-138 | ACC's reply with the marker and 2AC's without give success, failed, skipped, after writing `acc`, `OTTER`, `2ac`, `TAIL` |
| CveFilter.FindCves | sel_scanner.py:179-186 | the nested loop returns the database items whose descriptions mention the model, and nothing for a database without `CVE_Items` |
| CveFilter.Filter | sel_scanner.py:180-186 | every hit mentions the model in one of its descriptions, ignoring case, and there are no more hits than database items |
| CveFilter.FilterMembership | sel_scanner.py:181-185 | an item is reported exactly when it is in the database and one of its descriptions contains the model, ignoring case |
| CveFilter.FilterAppend | sel_scanner.py:180-186 | filtering keeps the database's order and distributes over concatenation |
| CveFilter.FilterMultiplicity | sel_scanner.py:182-185 | a matching item is reported as often as it occurs in the database, and a non-matching one never |
| CveFilter.NoDuplicates | sel_scanner.py:182-185 | when the database's items are pairwise distinct, so are the hits: the inner loop stops at the first matching description |
| CveFilter.CaseInsensitive | sel_scanner.py:183 | the result is the same for the model in any letter case |
| Ics.ModbusClient.constructor | sel_ics.py:18 | a new client is unconnected, has sent nothing and is not closed |
| Ics.ModbusClient.Connect | sel_ics.py:19 | connecting succeeds exactly when the relay is reachable |
| Ics.ModbusClient.ReadHoldingRegisters | sel_ics.py:27 | the read is logged and answered by the link's read reply |
| Ics.ModbusClient.WriteCoilRequest | sel_ics.py:44 | the write is logged and answered by the link's write reply |
| Ics.ModbusClient.Close | sel_ics.py:35 | closing drops the connection, counts one more close and leaves the request log as it was |
| Ics.Sel787Scanner.constructor | sel_ics.py:6-8 | a scanner starts with its address and an empty report |
| Ics.Sel787Scanner.ModbusDeviceId | sel_ics.py:17-35 | exactly one report line is appended; a reachable relay gets one read of register 0 and one close, and an unreachable one gets no request and no close |
| Ics.Sel787Scanner.ModbusWritableCoil | sel_ics.py:37-52 | exactly one report line is appended; a reachable relay gets one write of `True` to the test coil and one close, and an unreachable one gets neither |
| Ics.Sel787Scanner.Scan | sel_ics.py:10-15 | the device-id line then the coil line are appended, and the result is the whole report joined by newlines |
| Ics.DeviceIdLine | sel_ics.py:17-33 | the device-id line is always INFO or ERROR |
| Ics.CoilLine | sel_ics.py:37-52 | the coil line is always ERROR, PASS or CRITICAL |
| Ics.CoilVerdict | sel_ics.py:44-50 | the coil line is PASS exactly when the write returned an error result, CRITICAL exactly when it returned anything else, and ERROR exactly when the relay was unreachable or the write raised |
| Ics.DeviceIdVerdict | sel_ics.py:19-33 | the device-id line is INFO exactly when the read returned, ERROR exactly when the relay was unreachable or the read raised, and names the response when it is truthy |
| Ics.FixedLevels | sel_ics.py:20-48 | each fixed report line carries the level its text announces |
| Ics.ScanAccumulates | sel_ics.py:8-15 | a scan's two lines come after the earlier report, one newline apart |
| Ics.ScanSplits | sel_ics.py:15 | splitting the scan's text gives back the report lines, when each is free of line breaks and the last is non-empty |

## Left out

- The network is not modelled: `telnet_command`, `connect_and_run`, the telnetlib3 connection, the 4096- and 1024-byte reads and the `asyncio.sleep` pauses. What a relay sends is a parameter (`raw`, `responses`, `Link`).
- A telnet connection that cannot be opened in `check_elevation` raises out of the function. The model assumes the connection opens.
- A write, drain or read that raises part-way up the ladder (sel_scanner.py:119-128) also ends `check_elevation` with an exception. The model assumes every exchange completes.
- Console output is not modelled: the rich `Live` display, `build_boxes`, `console.print` and every `print`, including the listing of the simulated record.
- `load_cve_db`, `save_cves`, `ftp_check`, `sel_ftp.py`, `UI_Test.py`, and `main`'s argument handling, demo mode and printing of the first five hits are outside this model.
- CveFilter.FindCves: a database item without `cve`, `description` or `description_data` raises `KeyError` in the source. The model's items are always well formed.
- Text.Lower: `str.lower` is modelled for ASCII letters only. Python also lower-cases other Unicode letters.
- Identity.DigitRun: `\d` is modelled as the ASCII digits. Python's `\d` also accepts other Unicode decimal digits.
- Ics.ModbusClient: pymodbus internals are not modelled, only the replies a link gives. Neither is the text `str(result)` or `str(e)`, which is a parameter of each reply. An exception raised by `connect()`, `isError()` or the string conversion is not modelled.
- The DNP3 and IEC 61850 probes are commented out in the source and are not modelled.
- Elevation.RunLadder generalises `check_elevation` to any ladder and requires distinct role names. The source's ladder has them (`Elevation.LadderDistinct`).
