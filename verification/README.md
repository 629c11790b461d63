# EcoFlow power management: telemetry decoding and policy, in Dafny

This project models the core of the EcoFlow power-management services. The
services read the protobuf telemetry of EcoFlow River 3 Plus power stations
from MQTT, turn it into a battery state, filter that state, and decide when
the computers on a battery must be shut down and when such a shutdown must
be aborted.

The model covers:

- **Protobuf wire reading.** It is written once and shared: the base-128
  varint reader (`Varint`), one record of the wire format (`Wire`), a level of
  records (`WireLevel`) and the repeated field-1 extractor (`Field1Run`).
- **The decoders built on that reader:**
  - the River 3 Plus device decoder with its module validation and SOC latch
    (`River3Plus`);
  - the SOC bridge that walks tags with their depth, keeps a debounced grid
    flag and forges wake-up packets (`SocBridge`);
  - the cloud bridge's packet forger, device list and topic remapping
    (`CloudBridge`);
  - the raw tag-6 logger (`RawLogger`);
  - the archived frame splitter and wire dumper (`DecodeService`);
  - the archived field-1 bridge (`BridgeProto`).
- **The filters:** the SOC anomaly filter, with its plausibility check,
  confirmation window and median (`SocFilter`, with `Stats`), and the
  boolean confirmation filter (`StateFilter`).
- **The policy engine** (`PolicyEngine`).
- **The four diagnostic tools:**
  - the structure printer and fingerprinter (`DeepInspector`);
  - the snapshot differ (`DiffHunter`);
  - the field scanner (`ProtoScanner`);
  - the range-matching tag finder (`FindTags`).

  They share the recursive `d{depth}_t{field}` scan (`TagScan`, `TagKey`).
- **The `.env` loader** (`EnvLoader`).

**Representation choices:**

- Every operation is a pure function from the old state and the input to the
  new state and the outputs.
- Clock readings, command ids and the MQTT publish target are parameters.
- A byte is an integer in 0..255.
- Python floats are `real`.
- Python dictionaries built by assignments are `map`s, with `Assoc` stating
  the "last assignment wins" rule.
- Failures the source catches are modelled as the path the source takes
  after catching them, such as a `break` or a returned default.

Six readers have no shift ceiling: the River 3 Plus reader, the SOC bridge's
reader, and the readers of the four tools. Two readers have a ceiling: the archived
decode service gives up past a 70-bit shift, and the archived bridge past a
64-bit shift. All of them are `Varint.Read` with that ceiling as a parameter,
and `Varint.CeilingMonotone` relates them.

## Model

| member | source | states |
|---|---|---|
| Varint.Read | services/lib/ecoflow_river3plus.py:199-208 | a successful read consumes at least one byte and stays within the buffer; reading at or past the end is a truncation error |
| Varint.ReadSpec | archive/ecoflow_decode_service.py:11-24 | the read succeeds exactly when a byte without the continuation bit is found within the shift ceiling; the value is the little-endian base-128 sum of the 7-bit groups up to and including that byte; it is "truncated" exactly when the bytes run out first and "too large" otherwise |
| Varint.Encode | services/soc_bridge.py:42-51 | the encoding of any value has at least one byte |
| Varint.EncodeSpec | services/soc_bridge.py:42-51 | every byte but the last carries the continuation bit, the 7-bit groups add up to the value, and the encoding is a single byte exactly when the value is below 128 |
| Varint.EncodeValue | services/soc_bridge.py:42-51 | the base-128 value of the encoding is the encoded number |
| Varint.EncodeTerminated | services/soc_bridge.py:42-51 | the last encoded byte lacks the continuation bit and every earlier one has it |
| Varint.ReadEncoded | services/soc_bridge.py:82-91 | reading an encoding found anywhere in a buffer gives back the value and ends right after the encoding, under any ceiling the encoding fits |
| Varint.RoundTrip | services/soc_bridge.py:82-91 | `_read_varint(encode_varint(v), 0)` is `(v, len(encode_varint(v)))` |
| Varint.ReadAt | services/soc_bridge.py:82-91 | the ceiling-free reader reads back an encoded value at any offset |
| Varint.CeilingMonotone | archive/ecoflow-bridge-proto/bridge.py:26-39 | a read that succeeds under a lower ceiling gives the same result under a higher ceiling and with no ceiling at all |
| Varint.ReadLenient | utils/raw_data_logger.py:58-70 | the logger's inner loop stops after the first byte without the continuation bit, or at the end of the payload keeping the value gathered so far; its value is the base-128 sum of the bytes it consumed |
| Wire.StepVarint | tools/diff_hunter.py:47-56 | a tag with wire type 0 followed by a readable varint is one varint record of field `tag >> 3` |
| Wire.StepBlob | tools/diff_hunter.py:57-63 | a tag with wire type 2 and a readable length is one length-delimited record whose body is the clamped slice after the length |
| Wire.StepFixed64 | tools/diff_hunter.py:64-65 | a tag with wire type 1 is one fixed-64 record, and reading resumes 8 bytes after the tag |
| Wire.BlobReads | tools/diff_hunter.py:57-63 | an encoded tag, an encoded length and a body laid out in a row read back as that tag, that length and that body |
| Bytes.Slice | tools/deep_inspector.py:56 | Python's clamped `buf[i:j]`: the bytes from `i` up to `j`, clipped at the end of the buffer, empty when the bounds are crossed |
| Bytes.Hex | utils/raw_data_logger.py:98 | `bytes.hex()`: two lower-case hex digits per byte |
| Bytes.HexAppend | utils/raw_data_logger.py:98 | the hex text of a concatenation is the concatenation of the hex texts |
| Text.Split | archive/ecoflow_decode_service.py:166 | `str.split(sep)`: the segments contain no separator, and joining them with it gives back the string |
| Text.SplitJoin | archive/ecoflow_decode_service.py:166 | joining the segments of a split with the separator gives back the string |
| Text.JoinSplit | archive/ecoflow-bridge-proto/bridge.py:69 | splitting a join of separator-free segments gives back the segments |
| Text.SplitAppend | services/ecoflow_cloud_bridge.py:129 | splitting `a + sep + b` is the split of `a` followed by the split of `b` |
| Text.LastOfSplit | services/ecoflow_cloud_bridge.py:180-181 | `parts[-1]` is the text after the last separator, and the string ends with it |
| Text.Strip | utils/env_loader.py:34 | `str.strip()`: the result is a slice of the input with no white space at either end, and only white space was removed |
| Text.StripTrimmed | utils/env_loader.py:40-41 | stripping a string with no white space at either end leaves it as it is |
| Text.StripPadded | utils/env_loader.py:34 | stripping white space, then a string with no white space at either end (or nothing), then white space gives exactly that string |
| Text.StripStart | utils/env_loader.py:34-35 | after leading white space, the first non-space character is the first character of the strip |
| Text.ReplaceChar | archive/ecoflow-bridge-proto/bridge.py:77 | `str.replace(a, b)` for characters: same length, every `a` becomes `b`, every other character is kept |
| Text.NatToString | tools/diff_hunter.py:56 | `str(n)`: a non-empty string of decimal digits that starts with `0` exactly when n is 0, and is then `0` itself |
| Text.NatToStringValue | tools/diff_hunter.py:56 | the decimal digits read back as the number |
| Text.NatToStringInjective | tools/deep_inspector.py:101 | distinct numbers have distinct decimal texts |
| Text.Lower | tools/deep_inspector.py:121 | `str.lower()` on ASCII letters: same length, letters A-Z lowered, every other character kept |
| Assoc.ToMap | tools/diff_hunter.py:56 | a dictionary built by assignments `d[k] = v` holds exactly the keys assigned |
| Assoc.LastWins | tools/diff_hunter.py:56 | each key holds the value of its last assignment |
| Assoc.ToMapAppend | tools/diff_hunter.py:62 | `d.update(e)` after building `d` is the dictionary built by both runs of assignments in order |
| TagKey.LabelInjective | tools/diff_hunter.py:56 | distinct (depth, field) pairs have distinct `d{depth}_t{field}` labels, so the label-keyed dictionary is keyed by depth and field |
| TagKey.LabelSlices | tools/find_tags.py:53 | the depth and field can be read back out of a label |
| TagScan.ScanPayloadIsAssignments | tools/find_tags.py:41-69 | the recursive scan's dictionary is the one built by its assignments in walk order, with those of each non-empty nested body in its place |
| TagScan.ScanPayloadSpec | tools/diff_hunter.py:42-72 | every key lies at the scan's depth or deeper, every stored value passes the junk ceiling, every assigned key is present, and it holds its last assigned value |
| Field1Run.Extract | archive/ecoflow_decode_service.py:103-119 | every extracted body is non-empty and, with its `0x0A` and length, fits in the rest of the payload |
| Field1Run.ReadsRecords | archive/ecoflow_decode_service.py:103-119 | a run of `0A <len> <body>` records, followed by anything not starting with `0x0A`, extracts to exactly those bodies |
| Field1Run.RoundTrip | archive/ecoflow_decode_service.py:103-119 | extracting the field-1 records written for non-empty bodies gives back the bodies |
| Field1Run.CeilingPrefix | archive/ecoflow-bridge-proto/bridge.py:42-61 | the extractor whose reader has the lower shift ceiling returns a prefix of what the other returns |
| DecodeService.ReadVarint | archive/ecoflow_decode_service.py:11-24 | a successful read advances and stays within the buffer |
| DecodeService.ReadVarintLength | archive/ecoflow_decode_service.py:19-24 | the read succeeds exactly when the terminating byte is among the first eleven bytes, because a shift above 70 raises; it then agrees with the ceiling-free reader |
| DecodeService.Frames | archive/ecoflow_decode_service.py:27-39 | the frame list is never empty |
| DecodeService.FramesSpec | archive/ecoflow_decode_service.py:27-39 | the frames either are the whole payload as one frame or tile the payload as length-prefixed frames; any non-empty tiling is the one returned |
| DecodeService.FramesFromTiles | archive/ecoflow_decode_service.py:31-37 | the loop from an offset succeeds with some frames exactly when those frames, each with its length prefix, tile the payload from there |
| DecodeService.SplitFrames | archive/ecoflow_decode_service.py:27-39 | the imperative loop returns the frames: the whole payload on a bad length, the tiling otherwise, the payload alone when there is none |
| DecodeService.TilesFramed | archive/ecoflow_decode_service.py:31-37 | length-prefixed bodies written one after another tile what was written |
| DecodeService.FramesRoundTrip | archive/ecoflow_decode_service.py:27-39 | splitting the length-prefixed concatenation of a non-empty list of bodies gives back the bodies |
| DecodeService.DumpStep | archive/ecoflow_decode_service.py:47-98 | one round of the dump loop either records a decoded entry of wire type 0, 1, 2 or 5 and moves forward within the message, or stops with the unsupported entry, the entry that failed, or the trailing bytes |
| DecodeService.WireDump | archive/ecoflow_decode_service.py:42-100 | the dump records the message length; every entry but the last is decoded; an unsupported last entry has no trailing bytes and a failed one has them |
| DecodeService.DumpStepAgrees | archive/ecoflow_decode_service.py:58-81 | where the dump records an entry of any wire type (0, 1, 2 or 5), the reference record reader reads the same record and ends at the same offset |
| DecodeService.DumpVarintRecords | archive/ecoflow_decode_service.py:47-98 | a run of varint records dumps to its entries in order, with no trailing bytes |
| DecodeService.DumpRoundTrip | archive/ecoflow_decode_service.py:42-100 | dumping the encoding of a list of (field, value) varint records gives back exactly those records |
| DecodeService.Field1 | archive/ecoflow_decode_service.py:103-119 | every extracted body is non-empty and shorter than the payload by at least its two-byte header |
| DecodeService.Field1RoundTrip | archive/ecoflow_decode_service.py:103-119 | the field-1 records of non-empty bodies, followed by anything not starting with `0x0A`, extract back to the bodies |
| DecodeService.Chain | archive/ecoflow_decode_service.py:122-138 | the chain starts with the payload, has at most `max_depth + 1` levels, and each next level is the first field-1 body of the one before |
| DecodeService.ChainShrinks | archive/ecoflow_decode_service.py:122-138 | each level of the chain is at least two bytes shorter than the one before |
| DecodeService.SocCandidatesIff | archive/ecoflow_decode_service.py:141-156 | a candidate is reported exactly when its field holds that varint value and the value fits its scale: 0-100, a multiple of 10 up to 1000, or a multiple of 100 up to 10000 |
| DecodeService.SocCandidates | archive/ecoflow_decode_service.py:141-162 | at most three candidates per decoded entry |
| DecodeService.CandidatesOfIff | archive/ecoflow_decode_service.py:146-155 | one entry's candidates are exactly the scales its varint value fits |
| DecodeService.TripleCandidate | archive/ecoflow_decode_service.py:149-155 | the values 0 and 100 are reported three times, once per scale |
| DecodeService.DeviceLeafOf | archive/ecoflow_decode_service.py:165-169 | a topic `<prefix>/<device>/<leaf>`, with or without further segments, gives that device and leaf |
| DecodeService.DeviceLeaf | archive/ecoflow_decode_service.py:165-169 | neither the device nor the leaf contains `/` |
| DecodeService.DeviceLeafShort | archive/ecoflow_decode_service.py:165-169 | a topic of fewer than three segments gives `("unknown", "unknown")` |
| DecodeService.OnMessage | archive/ecoflow_decode_service.py:176-211 | a data, get_reply or set_reply leaf publishes one report per frame on `<prefix>/<device>/json/<leaf>/rawN`, numbered in order, each with the frame's length and 1 to 6 chain levels starting at the frame; any other leaf publishes nothing |
| BridgeProto.ReadVarint | archive/ecoflow-bridge-proto/bridge.py:26-39 | a successful read advances and stays within the buffer |
| BridgeProto.ReadVarintLength | archive/ecoflow-bridge-proto/bridge.py:34-39 | the read succeeds exactly when the terminating byte is among the first ten bytes, because a shift above 64 raises |
| BridgeProto.ReadVarintAgrees | archive/ecoflow-bridge-proto/bridge.py:26-39 | where this reader succeeds, the decode service's reader gives the same result |
| BridgeProto.Field1Messages | archive/ecoflow-bridge-proto/bridge.py:42-61 | every extracted message is non-empty and shorter than the payload by at least its header |
| BridgeProto.Field1RoundTrip | archive/ecoflow-bridge-proto/bridge.py:42-61 | the field-1 records of non-empty messages extract back to those messages |
| BridgeProto.Field1AgreesWithDecodeService | archive/ecoflow-bridge-proto/bridge.py:42-61 | this extractor returns a prefix of what the decode service's extractor returns on the same payload |
| BridgeProto.ParseTopicOf | archive/ecoflow-bridge-proto/bridge.py:64-71 | `bridge-ecoflow/<device>/<leaf...>` gives the device and the whole rest as the leaf, slashes included |
| BridgeProto.ParseTopicInverse | archive/ecoflow-bridge-proto/bridge.py:64-71 | the result is `("unknown", topic)`, or a slash-free device and a leaf that rebuild the topic |
| BridgeProto.BareLeafTopic | archive/ecoflow-bridge-proto/bridge.py:71 | a topic outside the root gives the whole topic as the leaf, so a bare `data` topic is processed |
| BridgeProto.PubTopicSegments | archive/ecoflow-bridge-proto/bridge.py:74-78 | the published topic has exactly five segments: root, device, `json`, the leaf with its slashes replaced by `_`, and the suffix; a slash-free leaf is kept |
| BridgeProto.OnMessage | archive/ecoflow-bridge-proto/bridge.py:126-168 | only data, get_reply and set_reply leaves publish; with no field-1 message a single diagnostic is published, otherwise one heartbeat or decode-error publication per message, in order, carrying its index and length |
| CloudBridge.EncodeVarint | services/ecoflow_cloud_bridge.py:97-107 | the loop emits the same bytes as the SOC bridge's encoder |
| CloudBridge.ForgePacket | services/ecoflow_cloud_bridge.py:110-118 | the forged packet is byte-for-byte the SOC bridge's packet for the same command and sequence number |
| CloudBridge.HeaderLengthPrefix | services/ecoflow_cloud_bridge.py:114-118 | the first record's length is the header length: five fixed bytes, the sequence number's encoding and the ten-byte suffix |
| CloudBridge.AndroidSuffixRecord | services/ecoflow_cloud_bridge.py:35 | the ten suffix bytes are one length-delimited record, field 23, holding `android` |
| CloudBridge.KeptMembers | services/ecoflow_cloud_bridge.py:129 | a name is in the device list exactly when it is the non-empty stripped form of some comma-separated part |
| CloudBridge.Kept | services/ecoflow_cloud_bridge.py:129 | no more names than parts, each one stripped |
| CloudBridge.DeviceList | services/ecoflow_cloud_bridge.py:129 | every listed device is non-empty, comma-free and stripped |
| CloudBridge.DeviceListAppend | services/ecoflow_cloud_bridge.py:129 | the list of `a,b` is the list of `a` followed by the list of `b` |
| CloudBridge.DeviceListJoin | services/ecoflow_cloud_bridge.py:129 | joining trimmed comma-free serial numbers with commas and parsing gives them back |
| CloudBridge.LastSegment | services/ecoflow_cloud_bridge.py:180-181 | the serial number is slash-free, ends the topic and is its last segment |
| CloudBridge.LocalTopic | services/ecoflow_cloud_bridge.py:182 | the local topic always has the form `bridge-ecoflow/.../data` |
| CloudBridge.RemapTopic | services/ecoflow_cloud_bridge.py:177-183 | `/app/device/property/<sn>` is forwarded to `bridge-ecoflow/<sn>/data` |
| SocBridge.VarintRoundTrip | services/soc_bridge.py:42-91 | the bridge's reader reads back what its encoder wrote |
| SocBridge.ReadVarint | services/soc_bridge.py:82-91 | a successful read ends inside the buffer after the start, and the only failure is running off the end |
| SocBridge.ForgePacket | services/soc_bridge.py:53-80 | the packet starts with the field-1 length-delimited tag `0x0A` |
| SocBridge.ForgedPacketTags | services/soc_bridge.py:53-117 | walking a forged packet to depth 4 yields exactly (2, 32), (3, 32), (14, seq) and (1, cmd), all at depth 1 |
| SocBridge.TwoBlobWalk | services/soc_bridge.py:93-117 | at any depth up to the maximum, a packet of two non-empty length-delimited records walks as the walk of the first body followed by that of the second, one level deeper |
| SocBridge.HeaderTags | services/soc_bridge.py:64-69 | the header walks to source 32, destination 32 and the sequence number; the Android suffix contributes nothing |
| SocBridge.AndroidHasNoFields | services/soc_bridge.py:31 | the `android` string inside the suffix yields no varint triples however deep it is walked |
| SocBridge.ExtractTagsWithDepth | services/soc_bridge.py:93-117 | past the maximum depth nothing is returned, and every triple's depth lies between the starting depth and the maximum |
| SocBridge.Walk | services/soc_bridge.py:93-117 | every triple found from an offset at a given depth has a depth between that depth and the maximum |
| SocBridge.WalkVarint | services/soc_bridge.py:104-105 | a varint record contributes its field, value and depth and the walk continues after it |
| SocBridge.WalkBlob | services/soc_bridge.py:106-111 | a non-empty body is walked one level deeper in its place |
| SocBridge.WalkFixed64 | services/soc_bridge.py:112-113 | a 64-bit record is skipped |
| SocBridge.ToSignedValue | services/soc_bridge.py:119-123 | values above 4294900000 and 65535 read as 0; values up to 32768 are tenths; every other value has 65536 subtracted and is then tenths |
| SocBridge.SignedMatchesInt16 | services/soc_bridge.py:119-123 | below 65536, except at 32768 and 65535, the value is the 16-bit signed reading divided by ten |
| SocBridge.SignedAt32768 | services/soc_bridge.py:122-123 | 32768 reads as +3276.8, where a 16-bit signed reading would be -3276.8 |
| SocBridge.NewDeviceState | services/soc_bridge.py:128-138 | a new device starts grid-connected, with the grid flag pending as connected and no debounce running |
| SocBridge.DebounceGrid | services/soc_bridge.py:144-157 | only the grid fields change; the confirmed flag flips exactly when the reading disagrees with it, equals the pending value, and the debounce timer is running and was started more than 5 seconds ago; a flip takes the reading and stops the timer; a reading equal to the confirmed flag stops the timer |
| SocBridge.GridDebounceRun | services/soc_bridge.py:144-157 | from a connected device, a first disconnected reading starts the timer without flipping; a second flips the flag exactly when it comes more than 5 seconds after the first |
| SocBridge.GridDebounceRestart | services/soc_bridge.py:144-157 | a reading back to the confirmed value cancels the timer, so the next disagreement starts it again |
| SocBridge.GhostIsNearDouble | services/soc_bridge.py:159-166 | a reading is ignored as a ghost exactly when both it and the current power exceed 10 W and it is strictly between 1.8 and 2.2 times the current power |
| SocBridge.UpdatePower | services/soc_bridge.py:140-168 | the temperature and power fields are updated as present, and a ghost power reading is ignored; after a grid reading the flag, the pending value and the debounce timer are exactly those the debounce leaves, and without one all three are kept; the update time is always set |
| SocBridge.ValidSocs | services/soc_bridge.py:171 | the kept readings are all at most 100; all are kept when all are in range; none are kept exactly when all are out of range |
| SocBridge.ValidSocsOne | services/soc_bridge.py:171 | a single reading is kept exactly when it is at most 100 |
| SocBridge.ValidSocsAppend | services/soc_bridge.py:171 | the filter of a concatenation is the concatenation of the filters, so with `ValidSocsOne` the result is exactly the in-range readings in input order |
| SocBridge.UpdateSoc | services/soc_bridge.py:170-174 | with no reading in range nothing changes; otherwise the module list is the in-range readings and the SOC lies between their minimum and maximum, within 0-100 |
| SocBridge.ToJson | services/soc_bridge.py:176-184 | the timestamp is the update time in whole milliseconds, truncated; the other fields are copied |
| SocBridge.ClassifyWatts | services/soc_bridge.py:222-224 | the power update is the signed reading of the last field-28 triple, if any |
| SocBridge.ClassifyGrid | services/soc_bridge.py:222-225 | the grid update is whether the last field-27 triple holds 0, if any |
| SocBridge.ClassifyTemp | services/soc_bridge.py:222-226 | the temperature update is the last depth-2 field-16 value in hundredths of a degree, if any |
| SocBridge.Classify | services/soc_bridge.py:215-226 | there are SOC readings exactly when some triple is field 6 at depth 2 or deeper, and no update exactly when no triple is field 28, field 27 or a depth-2 field 16 |
| SocBridge.ClassifyOneSoc | services/soc_bridge.py:220 | one triple contributes its value as a SOC reading exactly when it is field 6 at depth 2 or deeper |
| SocBridge.ClassifySocsAppend | services/soc_bridge.py:219-220 | the SOC readings of a concatenation are those of its parts in order, so they are the field-6 values at depth 2 or deeper, in input order |
| SocBridge.OnMessage | services/soc_bridge.py:207-234 | topics without exactly three parts change nothing; otherwise the device is registered, no other device changes, and its state is published on `<base>/<id>/json/state` exactly when a SOC or an update was found; the stored and published state has the SOC and module list of `update_soc` on the classified SOC readings, the last temperature if any, the debounced grid flag together with the pending value and timer the debounce leaves (all three kept without a grid reading), the new power unless it is a ghost, and the message time as update time when any update was found |
| River3Plus.ReadVarintTotal | services/lib/ecoflow_river3plus.py:199-208 | the ceiling-free reader fails only by running off the end |
| River3Plus.ReadVarint | services/lib/ecoflow_river3plus.py:199-208 | a successful read ends inside the buffer after the start, and the only failure is running off the end |
| River3Plus.ParseStructure | services/lib/ecoflow_river3plus.py:165-197 | the parse lists the dictionaries of the nested bodies in walk order, followed by the top-level dictionary if it is not empty |
| River3Plus.ParseNonEmpty | services/lib/ecoflow_river3plus.py:165-197 | no parsed dictionary is empty |
| River3Plus.ParseLoopItems | services/lib/ecoflow_river3plus.py:172-195 | the parse loop from an offset appends the nested dictionaries found from there and finishes the level's dictionary with the remaining varint fields |
| River3Plus.ModuleVerdict | services/lib/ecoflow_river3plus.py:66-90 | a module is accepted exactly when its SOC is at most 100, it has a temperature, and either the SOC is 0 with a non-zero temperature or the SOC is positive with a temperature of 0 or of at least 100; only a SOC of 0 is rejected as a ghost, and only an in-range positive SOC with a temperature strictly between 0 and 100 as an imposter |
| River3Plus.ScanWatts | services/lib/ecoflow_river3plus.py:53-56 | the power reading comes from the last dictionary holding field 28 |
| River3Plus.ScanMsgs | services/lib/ecoflow_river3plus.py:45-101 | the packet is valid exactly when some dictionary contributes; there is one temperature per accepted SOC; every accepted SOC is at most 100; there are none exactly when no dictionary holds an accepted module |
| River3Plus.ScanMsgsSnoc | services/lib/ecoflow_river3plus.py:66-101 | one more dictionary appends its SOC and its temperature (field 16 over 100) exactly when it passes the module check (an out-of-range SOC, a ghost, an imposter or a missing temperature adds nothing), so the lists hold the accepted modules' readings in input order |
| River3Plus.ScanMsgsOne | services/lib/ecoflow_river3plus.py:66-101 | a single dictionary yields its SOC and temperature iff it is an accepted module |
| River3Plus.ScanSocsAppend | services/lib/ecoflow_river3plus.py:45-101 | the accepted SOCs of a run of dictionaries are those of its first part followed by those of the rest |
| River3Plus.ScanTempsAppend | services/lib/ecoflow_river3plus.py:45-101 | the accepted temperatures of a run of dictionaries are those of its first part followed by those of the rest |
| River3Plus.ScanGrid | services/lib/ecoflow_river3plus.py:58-63 | the grid flag comes from the last dictionary holding field 27, and is connected when that value is at most 1 |
| River3Plus.ScanNothing | services/lib/ecoflow_river3plus.py:93-113 | a packet without valid data yields no power, no grid flag and no SOC |
| River3Plus.LatchIndex | services/lib/ecoflow_river3plus.py:146-148 | with a current SOC of 0 the latch takes the largest candidate; otherwise it takes the candidate nearest the current SOC, and the first one on a tie |
| River3Plus.SortDesc | services/lib/ecoflow_river3plus.py:151 | the module list is sorted from high to low and is a permutation of the candidates |
| River3Plus.InRange | services/lib/ecoflow_river3plus.py:140 | the candidates are the readings within 0-100, all of them when all are in range, none exactly when none is |
| River3Plus.InRangeOne | services/lib/ecoflow_river3plus.py:140 | a single reading is kept exactly when it is within 0-100 |
| River3Plus.InRangeAppend | services/lib/ecoflow_river3plus.py:140 | the filter of a concatenation is the concatenation of the filters, so with `InRangeOne` every in-range reading is kept, in input order |
| River3Plus.UpdateSocLatch | services/lib/ecoflow_river3plus.py:136-151 | with none in range nothing changes; otherwise the SOC becomes the in-range reading `LatchIndex` picks (the largest from 0.0, else the nearest, first on a tie) and the module list is the in-range readings sorted from high to low; only the SOC and modules change |
| River3Plus.ApplyUpdates | services/lib/ecoflow_river3plus.py:153-161 | only the fields present are updated and nothing else changes |
| River3Plus.Update | services/lib/ecoflow_river3plus.py:93-119 | the result reports valid data; without it the device is unchanged; with it the update time is set, grid and power come from the last dictionaries carrying them (else are kept), the temperature is the mean of `ScanMsgs`'s temperatures (else kept), and the SOC and module list are those of the latch on `ScanMsgs`'s SOCs; the SOC stays within 0-100. By `ScanMsgsSnoc` those lists are the accepted modules' readings in input order |
| River3Plus.UpdateFromProtobuf | services/lib/ecoflow_river3plus.py:29-119 | the packet counts as valid exactly when some parsed dictionary carries power, a grid flag or an accepted module; otherwise the device is unchanged |
| River3Plus.UpdateFromProtobufReadings | services/lib/ecoflow_river3plus.py:103-117 | on a valid packet the device holds the parsed packet's grid flag and power (else the old ones), the mean of `ScanMsgs`'s temperatures (else the old one), and the SOC and sorted module list the latch makes of `ScanMsgs`'s SOCs; by `ScanMsgsSnoc` those lists are the accepted modules' readings in input order |
| River3Plus.GhostAndPartialIgnored | tests/test_soc_decoder.py:116-135 | a valid module, a ghost module with SOC and temperature 0, and a module without a temperature give SOC 90 from the valid module alone |
| River3Plus.ExampleScan | tests/test_soc_decoder.py:116-135 | the scan of that packet keeps one SOC and its temperature and no power or grid reading |
| Stats.Min | utils/soc_filter.py:178 | the smallest reading occurs in the list and bounds every element from below |
| Stats.Max | utils/soc_filter.py:178 | the largest reading occurs in the list and bounds every element from above |
| Stats.Mean | services/soc_bridge.py:174 | the mean lies between the smallest and the largest reading |
| Stats.MeanConstant | services/soc_bridge.py:174 | the mean of equal readings is that reading |
| Stats.SortAsc | utils/soc_filter.py:178 | sorting gives an ascending permutation |
| Stats.Median | utils/soc_filter.py:178 | `statistics.median` lies between the minimum and the maximum and, for an odd count, is one of the readings |
| Stats.MedianPair | utils/soc_filter.py:178 | the median of two readings is their average |
| SocFilter.ChangeRate | utils/soc_filter.py:120-132 | the rate of change is never negative |
| SocFilter.PlausibleIff | utils/soc_filter.py:105-132 | a reading is plausible exactly when it is within 3 points of the last accepted one, or no time has passed, or it changes at most 10 points per minute |
| SocFilter.ResetConfirmation | utils/soc_filter.py:187-190 | the pending value and the count are cleared and nothing else changes |
| SocFilter.CheckConfirmation | utils/soc_filter.py:134-167 | only the pending value, the count and the confirmed value change |
| SocFilter.Push | utils/soc_filter.py:169-175 | the window keeps the last at most five readings, the new one included |
| SocFilter.Step | utils/soc_filter.py:42-103 | after any reading the filter is initialised |
| SocFilter.StepValid | utils/soc_filter.py:42-103 | the filter keeps its invariant: at most five readings in the window, a pending value exactly while the count is positive, a count below five, and the last accepted value is the median of the window |
| SocFilter.FirstReading | utils/soc_filter.py:57-60 | the first reading is returned as it is and becomes the confirmed and last accepted value |
| SocFilter.Rejection | utils/soc_filter.py:62-80 | a reading is rejected exactly when it is implausible; a rejection changes nothing but the gap reset of the confirmation window |
| SocFilter.SmallChangeConfirmed | utils/soc_filter.py:141-147 | a plausible reading within 5 points of the confirmed value is confirmed at once, joins the window, and the window's median is returned |
| SocFilter.LargeChangePending | utils/soc_filter.py:149-167 | a plausible reading more than 5 points from the confirmed value is counted toward confirmation, restarting on a new value more than 0.5 away; the confirmed value is returned until the fifth agreeing reading |
| SocFilter.RejectsDrop | tests/test_soc_filter.py:30-47 | 90 followed one second later by 9 is rejected |
| SocFilter.RapidToggle | utils/soc_filter.py:110-115 | toggling 90, 89, 90 passes with outputs 90, 89 and 89.5 |
| SocFilter.ConfirmedOnFifth | tests/test_soc_filter.py:49-65 | a large change, plausible in time, is held back four times and confirmed on the fifth reading |
| StateFilter.Reset | utils/state_filter.py:130-133 | the pending value and the count are cleared and nothing else changes |
| StateFilter.Step | utils/state_filter.py:45-123 | the reported value is always the confirmed value after the step, and the step's time is recorded |
| StateFilter.Run | utils/state_filter.py:45-123 | one reported value per reading |
| StateFilter.StepValid | utils/state_filter.py:45-123 | a pending value is always a change away from the confirmed value, and it is pending exactly while the count is positive |
| StateFilter.FirstReading | utils/state_filter.py:59-65 | the first reading is confirmed and returned |
| StateFilter.AgreeingReading | utils/state_filter.py:80-89 | a reading equal to the confirmed value clears any pending change |
| StateFilter.ChangeNeedsConfirmation | utils/state_filter.py:91-119 | the confirmed value changes exactly when the reading differs from it, matches the pending value, and completes the required count, with no gap longer than 300 seconds |
| StateFilter.GapForgetsPending | utils/state_filter.py:70-78 | after a gap longer than 300 seconds the step is the step from the reset filter |
| StateFilter.SteadyCounts | utils/state_filter.py:91-119 | a steady run of the other value, with no gap, counts up one per reading |
| StateFilter.SteadyFlips | utils/state_filter.py:91-119 | the required number of consecutive differing readings flips the confirmed value, and fewer do not; a requirement below two still takes two readings, because the first differing reading only starts the count |
| StateFilter.AlternatingNeverFlips | utils/state_filter.py:91-119 | readings that alternate, starting with the other value, never change the confirmed value |
| StateFilter.FiveFalses | tests/test_state_filter.py:61-80 | after `True`, four `False` readings report `True` and the fifth reports `False` |
| PolicyEngine.Evaluate | services/policy_engine.py:95-148 | every evaluation records the message time |
| PolicyEngine.DataGap | services/policy_engine.py:107-115 | more than 60 seconds of silence clears the timer and decides nothing |
| PolicyEngine.ShutdownIff | services/policy_engine.py:117-134 | a shutdown is sent exactly when there is no data gap, the grid is lost with the SOC at or below the minimum, the timer has run for longer than the debounce time, and the cooldown since the last shutdown has passed |
| PolicyEngine.TimerStart | services/policy_engine.py:121-125 | the first dangerous reading starts the timer and decides nothing |
| PolicyEngine.AbortIff | services/policy_engine.py:136-148 | a safe reading clears the timer, and sends an abort exactly when a shutdown was sent less than 120 seconds ago |
| PolicyEngine.DangerNeverAborts | services/policy_engine.py:118-148 | a dangerous reading never aborts; an abort is sent exactly on a safe reading without a data gap less than 120 seconds after a recorded shutdown |
| PolicyEngine.TimerWaits | services/policy_engine.py:120-134 | in danger, with the timer running but not yet past the debounce time or still within the cooldown, nothing is sent and only the message time changes |
| PolicyEngine.ShutdownsSpaced | services/policy_engine.py:126-134 | a shutdown after an earlier one comes at least the cooldown later |
| PolicyEngine.AbortsFollowShutdowns | services/policy_engine.py:95-148 | over any run of readings, the aborts sent plus one for a shutdown still outstanding at the end never exceed the shutdowns sent plus one for a shutdown outstanding at the start |
| PolicyEngine.AtMostOneAbortPerShutdown | services/policy_engine.py:143-148 | from a new device, no run sends more aborts than shutdowns |
| PolicyEngine.SendCommand | services/policy_engine.py:150-168 | one publish per mapped agent, in order, on `power-manager/<agent>/cmd`, each with the same command, a 60-second delay and a 300-second TTL |
| PolicyEngine.Fanout | services/policy_engine.py:165-169 | one publish per agent, in order, each on `power-manager/<agent>/cmd` with the same command |
| PolicyEngine.UnmappedDeviceSilent | services/policy_engine.py:151-153 | a device with no agents publishes nothing |
| PolicyEngine.EvaluatePolicy | services/policy_engine.py:95-148 | the device's state is created on its first message and becomes the state `Evaluate` decides; no other device's state changes; nothing is published without a decision, a shutdown sends the critical command and an abort the restored command to the mapped agents |
| PolicyEngine.PublishesFollowDecision | services/policy_engine.py:128-168 | one publish per mapped agent exactly when there is a decision, each on the agent's topic carrying the decided action, the command id and the matching reason |
| PolicyEngine.OnMessage | services/policy_engine.py:80-93 | a message missing the device, the SOC or the grid flag changes nothing; a complete one is exactly `evaluate_policy` of its device, SOC and grid flag |
| PolicyEngine.GuardedMessage | services/policy_engine.py:80-93 | the devices known grow exactly when a complete message names a new device |
| RawLogger.ScanFrom | utils/raw_data_logger.py:50-128 | every record lies at an offset inside the payload with tag 48 and field 6, in increasing offset order |
| RawLogger.ParseAllTag6 | utils/raw_data_logger.py:50-128 | every record found in the payload has tag 48 and field 6, lies inside the payload, and the records come in increasing offset order |
| RawLogger.StepAgrees | utils/raw_data_logger.py:55-123 | where the reference reader reads a complete record, the logger reads the same record and continues where the reference reader does; a varint field 6 is recorded with its value and raw bytes |
| RawLogger.LenientAgrees | utils/raw_data_logger.py:62-70 | where the strict reader succeeds, the lenient inner loop gives the same value and end |
| RawLogger.NestedNotSearched | utils/raw_data_logger.py:101-115 | a field 6 inside a length-delimited body is not reported |
| RawLogger.TopLevelReported | utils/raw_data_logger.py:92-99 | `30 5A` is reported as field 6 holding 90 at offset 0 with bytes `305a` |
| RawLogger.TruncatedValueReported | utils/raw_data_logger.py:81-89 | a value cut off by the end of the payload is still reported with the bits gathered |
| RawLogger.DisagreeIff | utils/raw_data_logger.py:171 | the warning fires exactly when two records hold different values |
| RawLogger.DisagreeTwo | utils/raw_data_logger.py:171 | the warning needs at least two records |
| RawLogger.NewLogger | utils/raw_data_logger.py:43-47 | a new logger has counted no messages |
| RawLogger.LogMessage | utils/raw_data_logger.py:130-173 | the message count goes up by one and numbers the entry; the entry lists the payload's tag-6 records, its raw length and hex; the warning fires exactly when they disagree |
| RawLogger.OnMessage | utils/raw_data_logger.py:184-201 | a topic of fewer than three segments is ignored; otherwise the second segment names the device, its logger is created on its first message, its count goes up by one, and no other device's logger changes |
| DeepInspector.Indent | tools/deep_inspector.py:48 | the indentation is two spaces per level |
| DeepInspector.BytesText | tools/deep_inspector.py:73 | bodies of at most ten bytes show in full hex; longer ones show the hex of their first ten bytes and `...` |
| DeepInspector.ItemLines | tools/deep_inspector.py:50-83 | a record gives its header line, and a container also gives the nested tree; every line is indented at least to its level |
| DeepInspector.Lines | tools/deep_inspector.py:38-90 | the tree of a level is empty exactly when its first record cannot be read, and every entry is indented to the level |
| DeepInspector.Tree | tools/deep_inspector.py:38-90 | the printed tree is empty exactly when the first record cannot be read, and otherwise starts with the level's indentation |
| DeepInspector.LinesAreFlat | tools/deep_inspector.py:63-66 | joining the nested output's lines gives the same text as flattening them first |
| DeepInspector.TreeLines | tools/deep_inspector.py:90 | splitting the printed tree on newlines gives back its lines, each one starting with its indentation |
| DeepInspector.HeadersAreRecords | tools/deep_inspector.py:42-88 | the top-level headers are those of the records the reference reader reads, in order |
| DeepInspector.FingerprintFollowsRecords | tools/deep_inspector.py:93-116 | the corrected fingerprint lists the fields of the records the reference reader reads, in order, plus at most the field of a last tag whose value is missing |
| DeepInspector.FingerprintInjective | tools/deep_inspector.py:116 | two field lists share a fingerprint only when they are equal |
| DeepInspector.FieldsAsWritten | tools/deep_inspector.py:93-116 | the as-written collection has at most one field per remaining byte |
| DeepInspector.AsWrittenStep | tools/deep_inspector.py:98-113 | at a blob or fixed-width record the as-written collection keeps the field and goes on where the reference reader does |
| DeepInspector.FingerprintFields | tools/deep_inspector.py:93-116 | the corrected collection has at most one field per remaining byte |
| DeepInspector.Fingerprint | tools/deep_inspector.py:116 | empty exactly for no fields; otherwise splitting it on `-` gives the fields' decimal numerals back |
| DeepInspector.AsWrittenResumesAtValue | tools/deep_inspector.py:98-104 | at any varint record the as-written walk continues at the value's first byte, while the corrected walk continues after the value |
| DeepInspector.VarintValueReadAsTag | tools/deep_inspector.py:103-104 | as written, `30 5A` fingerprints as `6-11` because the value 90 is read again as a tag; the corrected walk gives `6` |
| DeepInspector.OnMessage | tools/deep_inspector.py:120-138 | a study data topic prints its tree exactly when its as-written fingerprint is new, and remembers it; every other message prints nothing and remembers nothing |
| DeepInspector.PrintedOncePerStructure | tools/deep_inspector.py:120-138 | after a print, a second study data payload with an unseen fingerprint prints exactly when its as-written field list differs from the first one's |
| DeepInspector.SameStructurePrintedTwice | tools/deep_inspector.py:93-138 | on any study data topic, `30 5A` and then `30 0B` are both printed as written (fingerprints `6-11` and `6-1`), while the corrected handler prints only the first |
| DeepInspector.OnMessageCorrected | tools/deep_inspector.py:120-138 | the handler with the corrected fingerprint: a study data topic prints its tree exactly when that fingerprint is new |
| DeepInspector.CorrectedPrintedOncePerStructure | tools/deep_inspector.py:120-138 | with the corrected fingerprint, a second unseen payload prints exactly when its field list differs from the first one's |
| DiffHunter.ScanPayloadSpec | tools/diff_hunter.py:42-72 | every stored key is at the scan depth or deeper, every stored value is below 999999, and each key holds its last stored value |
| DiffHunter.ScanPayload | tools/diff_hunter.py:42-72 | every stored key lies at the scan depth or deeper and every stored value is below 999999 |
| DiffHunter.OnMessage | tools/diff_hunter.py:76-86 | only a `/data` topic naming the study device updates the latest state: its scanned values overwrite, and the other keys are kept |
| DiffHunter.OnMessageBelowCeiling | tools/diff_hunter.py:55-56 | the latest state never comes to hold a value of 999999 or more |
| DiffHunter.Compare | tools/diff_hunter.py:127-144 | a row is reported for exactly the keys of the first snapshot whose value moved by more than 5, with the second snapshot's value or, failing it, the first's; such a key is always present in the second snapshot; a row is flagged as voltage exactly when the value fell from above 2000 to below 100; there is at most one row per key |
| DiffHunter.Analyse | tools/diff_hunter.py:107-112 | an empty first snapshot ends the analysis; otherwise the rows are reported |
| ProtoScanner.TagNameInjective | tools/proto_scanner.py:82 | distinct fields have distinct `Tag_<field>` names |
| ProtoScanner.VarintValue | tools/proto_scanner.py:45-49 | values up to 2147483647 are kept as numbers; larger ones become the raw and signed text |
| ProtoScanner.ScanFieldsIsEntries | tools/proto_scanner.py:32-87 | the scan's dictionary is built by one assignment per record the reference reader reads, in order |
| ProtoScanner.ScanFieldsSpec | tools/proto_scanner.py:32-87 | every record's field is a key, every key is some record's field, and each holds the value of its last record: a number, a label, or the nested result of a body with fields |
| ProtoScanner.FixedPastEnd | tools/proto_scanner.py:51-53 | a 64-bit record is labelled even when fewer than 8 bytes follow |
| ProtoScanner.TruncatedNotRecorded | tools/proto_scanner.py:84-85 | a tag whose value cannot be read is not recorded |
| ProtoScanner.EmptyBlobLabel | tools/proto_scanner.py:73-74 | an empty body is labelled by its length |
| FindTags.ScanPayloadSpec | tools/find_tags.py:41-69 | every key lies at the scan's depth or deeper and holds the value of its last occurrence |
| FindTags.ScanPayload | tools/find_tags.py:41-69 | every stored key lies at the scan depth or deeper |
| FindTags.RealValue | tools/find_tags.py:83-84 | values above 4294900000 are read as negative 32-bit numbers |
| FindTags.RangeOf | tools/find_tags.py:16-21 | each label has its range in the target table |
| FindTags.NewKnown | tools/find_tags.py:72 | every label starts with no known tags |
| FindTags.OnMessage | tools/find_tags.py:74-90 | a `/data` message matches exactly the tags not yet known under a label whose value falls in that label's range, inclusive, and adds them; other topics change nothing |
| FindTags.ReportedOnce | tools/find_tags.py:88-90 | the same message a second time reports nothing |
| EnvLoader.Unquote | utils/env_loader.py:43-46 | one pair of matching surrounding quotes is removed, a lone quote character becomes empty, and anything else is kept |
| EnvLoader.ParseLine | utils/env_loader.py:34-46 | a line assigns nothing exactly when, stripped, it is empty, starts with `#` or holds no `=`; a key it assigns holds no `=` and has no white space around it |
| EnvLoader.ParseCore | utils/env_loader.py:34-46 | a line that is white space, then `x=u` with no `=` in `x`, no `#` in front and no white space at either end, then white space, assigns `x` stripped the value `u` stripped and unquoted |
| EnvLoader.ParseAssignment | utils/env_loader.py:34-46 | `KEY = value` with any white space around the key, the `=` and the value assigns exactly that key, and the value with one pair of matching surrounding quotes removed; key and value may each be empty |
| EnvLoader.LoadLines | utils/env_loader.py:31-52 | variables already set keep their values; every new variable has a key that is not empty and holds no NUL, a value holding no NUL, and comes from some line |
| EnvLoader.LoadStops | utils/env_loader.py:31-52 | the load ends with an error exactly when it reaches a line, assigning a key neither set before nor assigned by an earlier line, whose key is empty or holds a NUL or whose value holds a NUL |
| EnvLoader.FirstWins | utils/env_loader.py:48-50 | when every line's key and value can be set, a key not set before takes the value of its first assignment in the file, and is set exactly when some line assigns it |
| EnvLoader.KeptOnward | utils/env_loader.py:48-50 | when every line's key and value can be set, a variable already set keeps its value and the load completes |
| EnvLoader.EmptyKeyStops | utils/env_loader.py:49-52 | with the empty key unset, a line assigning the empty key always ends the load with an error |
| EnvLoader.FirstExisting | utils/env_loader.py:19-23 | the file loaded is the first candidate that exists |
| EnvLoader.LoadEnv | utils/env_loader.py:4-52 | with no file found the environment is unchanged; otherwise the first existing file's lines are loaded |
| EnvLoader.QuotedRoundTrip | utils/env_loader.py:39-46 | `KEY="value"` reads back as the key and the value |
| EnvLoader.EmptyValue | tests/test_env_loader.py:92-107 | `KEY=` sets the key to the empty string |
| EnvLoader.MismatchedQuotesKept | utils/env_loader.py:44-46 | `KEY='value"` keeps both quotes in the value |
| EnvLoader.UnclosedQuoteKept | utils/env_loader.py:33-46 | `KEY='value` with no closing quote on that line keeps the opening quote: the loader reads one line at a time |
| EnvLoader.CommentsSkipped | utils/env_loader.py:34-36 | a line that is white space, then `#`, then anything, assigns nothing |
| EnvLoader.NoAssignmentSkipped | utils/env_loader.py:38 | a line without `=` assigns nothing |

## Left out

- MQTT connection, subscription, publishing loops and logging in every
  service and tool. The handlers are modelled as functions that return what
  they would publish. The heartbeat loops of the SOC bridge and the cloud
  bridge, which publish forged packets every 10 or 300 seconds, are not
  modelled beyond `ForgePacket`.
- The cloud bridge's credential request and HMAC-SHA256 request signing
  (`EcoFlowSigner.get_headers`, `get_cloud_creds`): network and cryptography.
- `decode_inverter_heartbeat` in the archived bridge uses the generated
  protobuf classes. It is a decoder parameter of `BridgeProto.OnMessage`.
- JSON encoding and decoding, base64 previews, UTF-8 previews and the JSON
  parsing of `DEVICE_TO_AGENTS_JSON`. The policy engine's configuration is a
  `Config` value, and its state message is a `Message` with optional fields.
- Clock readings (`time.time()`), `uuid4` command ids and random client ids
  are parameters.
- SocBridge.UpdatePower: the source reads the clock twice, once for the
  debounce check and once for the update time. The model uses one reading for
  both.
- SocBridge.UpdateSoc: the SOC is the exact mean of the in-range readings.
  `round(…, 2)` is not modelled, so the contract states the bounds of the mean
  rather than its rounded value.
- Python floats are exact reals: no rounding of `/ 10.0`, `/ 100.0`, the
  change rate or the median.
- SocFilter.Step: `recent_readings` is kept only as the median window. The
  logging of rejected and pending readings is left out.
- StateFilter.Step: the `recent_readings` deque is written but never read in
  the source, so it is left out.
- `str.lower()` is modelled on ASCII letters only. The topics are ASCII.
- The tools' printing (`print_tree` in the scanner, the summary printed by
  the tag finder on exit, the deep inspector's banner and progress dots) is
  left out. The deep inspector's printed tree is modelled as a string.
- DiffHunter.Compare: the rows are a set. The source prints them in the
  first snapshot's key order.
- FindTags.OnMessage: the matches are a set. The source prints them in
  dictionary order.
- The `.env` file system is a map from existing paths to their lines. The
  three candidate paths come from `__file__` and are a parameter.
- EnvLoader.LoadEntries: the assignments that raise are those the POSIX
  `putenv` refuses, an empty key or a NUL in the key or the value. A file
  that is not valid text, which also ends the load through the same handler,
  is not modelled: the file is given as decoded lines.
- The cloud bridge's bare `except: pass` around topic remapping is dead
  code: `split` always yields at least one segment.
- Where the prose description of the system and the code differ, the model
  follows the code:
  - the River 3 Plus imposter check does not apply to a module whose SOC is 0;
  - the SOC filter's toggle example yields 90, 89 and then 89.5, the median
    of the window [89, 90];
  - the policy's danger condition is `soc <= minimum`, where the engine's
    own docstring says `SOC < Limit`;
  - the policy's timer must have run strictly longer than the debounce time
    before a shutdown is sent;
  - the loader reads the `.env` file one line at a time, so a quoted value
    spanning several lines is cut at the first line: `DEVICE_TO_AGENTS_JSON='{`
    sets `'{`. The test suite's own helper (tests/test_env_loader.py:112-139)
    joins such lines; `EnvLoader.UnclosedQuoteKept` states what the loader
    does.

## Findings

| source | as written | input that shows it | evidently intended | confidence | as-written member | corrected member |
|---|---|---|---|---|---|---|
| tools/deep_inspector.py:103-104 | for wire type 0 the value is read with `_read_varint(payload, i)`, but the returned offset is discarded, so the value's bytes are read again as the next tag | payload `30 5A` (field 6 = 90) fingerprints as `6-11` | skip the value as the other wire types do, giving `6` | not executed | DeepInspector.VarintValueReadAsTag | DeepInspector.FingerprintFollowsRecords |

The deep inspector's handler, `DeepInspector.OnMessage`, keeps the
fingerprint as written, because that is what the tool prints by;
`DeepInspector.SameStructurePrintedTwice` shows two payloads of one
structure that it prints twice. `DeepInspector.OnMessageCorrected` is the
handler with the corrected fingerprint.
