# F1 telemetry ingestion, modelled in Dafny

The F1 Neural Copilot dashboards listen for the UDP telemetry datagrams the
F1 game broadcasts and keep an in-memory picture of the race. Both the current
dashboard (`src/main.py`) and the earlier one (`legacy/dashboard_v1.py`) drop
datagrams shorter than the 24-byte header and dispatch on the packet-kind byte
at offset 5. They then pull fixed-offset little-endian fields out of the
per-car records:

- Motion (kind 0), in both: a 60-byte stride from offset 24.
- Lap Data (kind 2), in both: a 43-byte stride.
- Car Telemetry (kind 6), in both: a 60-byte stride.
- Participants (kind 4), in `src/main.py` only: a 56-byte stride from offset 25. The legacy dashboard only counts these packets.

The state the render loop reads is:
- a table of cars keyed by index;
- the player index and the player's telemetry;
- a liveness record per packet kind: the arrival time in the current dashboard, a counter in the legacy one;
- a track map that records the player's path with a bounding box that only widens.

The render loop projects the map into a screen rectangle. The legacy dashboard
ranks the started cars by distance. The current dashboard's standings loop
would label each car with its time gap to the car ahead, but as written it
raises NameError (see `Standings.GapLabels` under "## Left out"); the model
states the label it evidently means over an already sorted list.

The model has one module per concern:

| file | module | what it holds |
|---|---|---|
| `wire.dfy` | `Wire`, `Layout` | Byte reads with the faults Python raises; `<H`/`<I` decoding and encoding; packet offsets and strides |
| `ordered.dfy` | `Ordered` | The car table as an insertion-ordered dictionary, as a Python dict is |
| `packets.dfy` | `Packets` | Motion packet decoding, shared by both dashboards |
| `fleet.dfy` | `Fleet` | How a Motion packet places cars, and how Lap Data and Participants revise them |
| `trackmap.dfy` | `TrackMap` | `SmartTrackMap` and `TrackMap`: de-duplicated samples, bounding box, `to_screen` |
| `utf8.dfy` | `Utf8` | `bytes.decode('utf-8', errors='ignore')` and the matching encoder |
| `names.dfy` | `Names` | Driver abbreviations from Participants name fields, and the default `"CAR i"` |
| `standings.dfy` | `Standings` | The live classification: filter, stable sort, ranks, gap labels |
| `dashboard.dfy` | `Dashboard` | Ingestion in `src/main.py` |
| `dashboard_v1.dfy` | `DashboardV1` | Ingestion and the live grid in `legacy/dashboard_v1.py` |

Every read is modelled as a `Result`: the field, or the IndexError or struct.error Python would raise for that read. The ingestion loop catches only `BlockingIOError`, so such a fault ends the process. `Step` returns the fault instead of a state, and `Run` stops at the first one.

Each handler first decodes its packet and then applies it. No read depends on an update made earlier in the same packet, so this fails exactly when the source's interleaved loop raises.

Floats are read through a decoder parameter, `Wire.F32Decoder`. Everything proved holds for every decoder. The integer reads (`<H`, `<I` and single bytes) are modelled exactly.

## Model

| member | source | states |
|---|---|---|
| Wire.ByteAt | src/main.py:220 | Indexing a datagram succeeds exactly when the index is below its length and yields that byte; otherwise it is an IndexError |
| Wire.Clip | src/main.py:250 | Slicing `data[lo:hi]` never faults: it is the whole range when the datagram reaches `hi`, the part up to the end when the datagram ends inside the range, and empty when it ends at or before `lo` |
| Wire.Field | src/main.py:227 | `struct.unpack` gets a slice of the full width exactly when the field lies inside the datagram, and then the slice is those bytes; otherwise it is a struct.error |
| Wire.ReadU16 | src/main.py:265 | `<H` succeeds iff two bytes fit; the value is below 2^16, with the first byte as the low byte and the second as the high byte |
| Wire.ReadU32 | src/main.py:243 | `<I` succeeds iff four bytes fit; the value is below 2^32, with the first byte lowest and the fourth highest |
| Wire.U16RoundTrip | src/main.py:265 | Reading back a packed 16-bit value, wherever it sits in a datagram, yields that value |
| Wire.U16Bytes | src/main.py:265 | Packing a value read with `<H` yields the same two bytes, so `<H` is a bijection between byte pairs and 0..65535 |
| Wire.U32RoundTrip | src/main.py:243 | Reading back a packed 32-bit value, wherever it sits, yields that value |
| Wire.U32Bytes | src/main.py:243 | Packing a value read with `<I` yields the same four bytes |
| Ordered.Put | src/main.py:229-230 | Assigning a key already present keeps its place in iteration order; a new key goes last; the entry is set and nothing else changes |
| Ordered.Items | legacy/dashboard_v1.py:145 | `items()` yields every key once, in insertion order, with its record |
| Packets.MotionPositions | src/main.py:224-227 | The slot loop succeeds iff the last slot's twelve bytes fit, and then yields one position per remaining slot |
| Packets.MotionPositionsAt | src/main.py:224-227 | Element j of a successful loop is the x and z floats of slot j, at offsets 24 + 60j and 24 + 60j + 8 |
| Packets.DecodeMotion | legacy/dashboard_v1.py:95-99 | A Motion packet decodes iff all 22 records fit; the player index is byte 20 and the 22 positions are the records' x and z |
| Fleet.ArrivalsExactly | src/main.py:228-230 | The cars a Motion packet creates are exactly the slots with non-zero x not yet in the table, each once, in ascending index order |
| Fleet.ArrivalsAgree | src/main.py:228 | Which cars get created depends only on which indices the table holds |
| Fleet.Place | src/main.py:225-230 | Each slot with x = 0 leaves its car as it was (present or absent); any other slot creates the car if needed and then sets its x and z. Every other index is untouched |
| Fleet.PlaceOrder | src/main.py:225-230 | The iteration order after a Motion packet is the old order followed by the created cars, in index order |
| Fleet.PlaceKeepsCars | src/main.py:225-230 | A Motion packet never removes a car, and creates none outside its 22 slots |
| Fleet.PlaceTwice | src/main.py:225-230 | Placing the same positions twice is the same as placing them once, when moving a car to a position twice equals moving it once |
| Fleet.Revise | src/main.py:236-239 | The loop touches only cars already in the table: no car is created or removed and the order is kept. Each car with an index in the packet gets the revision, and every other car is unchanged |
| TrackMap.Widen | src/main.py:76-78 | The new box contains the point and the old box, and is the smallest box that does |
| TrackMap.AddPoint | src/main.py:74-78 | The first point is always kept. A later point is kept (appended, with the box widened) iff it moved more than the threshold along x or along z from the last kept point; otherwise the map is unchanged. The box never shrinks |
| TrackMap.AddPointPreservesValid | src/main.py:74-78 | After any number of additions every kept sample lies in the box, consecutive samples differ by more than the threshold on some axis, and the box contains the ±500 seed; samples are only ever appended |
| TrackMap.AddPointIdempotent | src/main.py:74-78 | Offering the same point twice stores it at most once |
| TrackMap.DistantPointsBothKept | legacy/dashboard_v1.py:36-42 | Two points further apart than the threshold on some axis are both stored, in order, and the box contains both |
| TrackMap.Span | src/main.py:81-82 | Each normalising denominator is at least 1 and at least the box's extent, and equals the extent once that reaches 1 |
| TrackMap.Trunc | src/main.py:91 | `int()` truncates toward zero: the result is the integer part, below or equal in magnitude and less than one away |
| TrackMap.TruncMonotone | src/main.py:91 | Truncation preserves order |
| TrackMap.ProjectInsideRect | src/main.py:80-90 | A point inside the box projects, before truncation, into the rectangle shrunk by the padding on every side |
| TrackMap.ProjectOrientation | src/main.py:89-90 | Larger x lands strictly further right, and larger z strictly higher (smaller screen y) |
| TrackMap.ScreenBounds | src/main.py:80-91 | Truncation keeps an in-box point's projection inside the padded rectangle, rounded to whole pixels |
| TrackMap.ToScreen | src/main.py:80-91 | `SmartTrackMap.to_screen` of an in-box point lies within the rectangle padded by 5% on each side, after truncation, for any rectangle of non-negative size |
| TrackMap.ToScreenFlipsVertical | src/main.py:90-91 | After truncation, larger z never lands lower on screen |
| TrackMap.ToScreenLegacy | legacy/dashboard_v1.py:44-52 | The legacy `to_screen` puts in-box points within [520, 1240] x [80, 680], its 760x640 rectangle at (500, 60) less 20 pixels on each side |
| TrackMap.ValidSpans | src/main.py:70-82 | Because the box starts at ±500 and never shrinks, neither denominator is ever clamped: both spans are the box's extent, at least 1000 |
| Utf8.HeadLength | src/main.py:253 | The well-formed sequence at the head of the bytes is at most four bytes long; an ASCII byte is a sequence of one |
| Utf8.HeadScalar | src/main.py:253 | A well-formed sequence decodes to a Unicode scalar value, never a surrogate |
| Utf8.HeadOfEncodeChar | src/main.py:253 | The encoding of a character is a well-formed sequence that decodes back to it, whatever bytes follow |
| Utf8.HeadIsEncoding | src/main.py:253 | Conversely, every sequence the decoder accepts is exactly the encoding of the character it yields, so no overlong form, surrogate or value past U+10FFFF gets through |
| Utf8.Decode | src/main.py:253 | `errors='ignore'` only drops bytes: the text never has more characters than the field has bytes |
| Utf8.DecodeEncodeAppend | src/main.py:253 | Decoding encoded text followed by any bytes yields the text followed by the decoding of those bytes |
| Utf8.DecodeEncode | src/main.py:253 | Decoding the encoding of any string yields that string |
| Utf8.DecodeAscii | src/main.py:253 | ASCII bytes decode one character per byte |
| Utf8.DecodeNeverLead | src/main.py:253 | Bytes that can never begin a well-formed sequence are all dropped |
| Names.SpaceSeparators | src/main.py:255 | `IsSpace` is the separator set of `str.split()`: among ASCII exactly tab, line feed, vertical tab, form feed, carriage return, the four separators 0x1C-0x1F and space; outside ASCII only characters up to U+3000, never the zero-width space or the byte-order mark |
| Names.BeforeNul | src/main.py:253 | `split('\x00')[0]` is the longest NUL-free prefix: it is followed by a NUL or is the whole text |
| Names.Word | src/main.py:255 | The first word is the longest whitespace-free prefix |
| Names.Split | src/main.py:255 | `str.split()` yields non-empty, whitespace-free words made of the text's characters |
| Names.SplitKeepsNonSpace | src/main.py:255 | The words, joined, are exactly the text's non-whitespace characters in order |
| Names.SplitAtSpace | src/main.py:255 | A whitespace character splits the words before it from those after it |
| Names.SplitOfWord | src/main.py:255 | A non-empty text without whitespace is a single word |
| Names.Upper | src/main.py:256 | Upper-casing keeps the length and maps each lower-case ASCII letter to its capital |
| Names.DisplayName | src/main.py:250-256 | The field decodes and is cut at its first NUL. A result of at most one character yields "UNK". Otherwise the name is one to three characters with no NUL and no lower-case ASCII letter; the lemmas below pin which characters |
| Names.SurnameAbbreviation | src/main.py:253-256 | A name field holding "given surname" then a NUL, with any padding after it, is shown as the first three letters of the surname, upper-cased |
| Names.LastWordAbbreviation | src/main.py:253-256 | With any whitespace character before the last word and only whitespace after it, the name is the last word's first three letters, upper-cased |
| Names.SingleWordAbbreviation | src/main.py:253-256 | A single word, possibly followed by whitespace, is shown as its first three letters upper-cased, unless the whole text is at most one character, which yields "UNK" |
| Names.AllSpaceAbbreviation | src/main.py:253-256 | A text of whitespace only has no words, so its first three characters are shown (upper-casing leaves them unchanged); one character or none yields "UNK" |
| Names.SplitAllSpace | src/main.py:255 | `str.split()` of whitespace only is the empty list |
| Names.WordThenSpace | src/main.py:255 | A word followed only by whitespace splits to that single word |
| Names.TextBeforeNul | src/main.py:253 | Cutting at the NUL recovers the encoded text, whatever padding follows |
| Names.HamiltonExample | src/main.py:250-256 | "Lewis Hamilton" is shown as "HAM" |
| Names.UndecodableIsUnknown | src/main.py:250-256 | A name field of bytes that never start a character yields "UNK" |
| Names.Decimal | src/main.py:230 | `str(i)` is a non-empty string of decimal digits |
| Names.DecimalRoundTrip | src/main.py:230 | Parsing `str(i)` gives back `i` |
| Names.DefaultName | src/main.py:230 | A new car's name is "CAR " followed by decimal digits, and is never "UNK" |
| Names.DefaultNameIdentifies | src/main.py:230 | The default name is "CAR " followed by the index, which can be read back from it, so distinct cars get distinct default names |
| Standings.Active | legacy/dashboard_v1.py:145 | The filter keeps only cars beyond 1 metre and never lengthens the list; `ActiveCounts` pins which entries and how often |
| Standings.ActiveCounts | legacy/dashboard_v1.py:145 | The filter keeps exactly the entries beyond 1 metre, with their multiplicities |
| Standings.Insert | legacy/dashboard_v1.py:146 | Insertion into a list sorted by distance, furthest first, keeps it sorted and one longer; the new head is the entry or the old head |
| Standings.InsertPermutes | legacy/dashboard_v1.py:146 | Insertion adds exactly the one entry and loses none |
| Standings.Sort | legacy/dashboard_v1.py:146 | The sorted list is in non-increasing distance order and as long as its input |
| Standings.SortPermutes | legacy/dashboard_v1.py:146 | The sorted list is a permutation of its input |
| Standings.InsertAtDistance | legacy/dashboard_v1.py:146 | At the inserted entry's distance, it comes ahead of the entries already there; other distances are unaffected |
| Standings.SortStable | legacy/dashboard_v1.py:146 | The sort is stable: at every distance, entries keep their input order |
| Standings.Entries | legacy/dashboard_v1.py:149 | The classification's entries, row by row |
| Standings.Classify | legacy/dashboard_v1.py:145-156 | The rows are ranked 1, 2, 3, ... in non-increasing distance order, and are a permutation of the started cars |
| Standings.ClassifyEntries | legacy/dashboard_v1.py:145-146 | The classification lists the started cars in sorted order |
| Standings.ClassifyMembers | legacy/dashboard_v1.py:145 | A car is classified iff it is in the table and beyond 1 metre |
| Standings.ClassifyKeepsTableOrder | legacy/dashboard_v1.py:145-146 | Cars level on distance are ranked in table order |
| Standings.ActiveWhenAllStarted | legacy/dashboard_v1.py:145 | When every car is beyond 1 metre, the filter drops none |
| Standings.SortOfDescending | legacy/dashboard_v1.py:146 | A list already furthest-first is left exactly as it is |
| Standings.TieExample | legacy/dashboard_v1.py:145-156 | Two cars level at the front and one behind are ranked A, B, C in table order |
| Standings.ThresholdExample | legacy/dashboard_v1.py:145 | A car at exactly 1 metre is left out |
| Standings.GapLabels | src/main.py:299-303 | There is one label per row, and exactly the first row is "Leader" |
| Standings.GapsNonNegative | src/main.py:299-303 | On a list sorted furthest first, no gap is negative |
| Standings.GapsAddUp | src/main.py:299-303 | The gaps down to any row sum to that row's distance behind the leader divided by the reference speed |
| Standings.ClassifiedGapsNonNegative | src/main.py:299-303 | Every gap over the legacy classification is non-negative, for any positive reference speed |
| Standings.GapExample | src/main.py:299-303 | At 50 km/h a car 50 metres behind the leader is shown 3.6 seconds behind |
| Dashboard.Init | src/main.py:52-72 | The copilot is on, the car table empty and the player index 0. Telemetry starts at speed, gear, throttle, lap time and sector 0, track id -1, both gaps 0 and position "P--". The health panel has time 0 for kinds 0, 2, 4 and 6 and nothing else. The track map is empty with the ±500 box. The state invariant holds |
| Dashboard.ApplyMotion | src/main.py:223-233 | The player index becomes byte 20. Cars are placed as `Fleet.Place` states, a new car starting with distance 0, team -1 and name "CAR i". Only the player's slot, if its x is non-zero, is offered to the track map, tagged with the current sector. Telemetry and health are unchanged, and the invariant is kept |
| Dashboard.RepeatedMotion | src/main.py:223-233 | Applying a Motion packet a second time changes nothing: no second car, no second track sample |
| Dashboard.LapDistances | src/main.py:236-238 | The distance loop succeeds iff the last slot's float fits, and then yields one distance per remaining slot |
| Dashboard.LapDistancesAt | src/main.py:236-238 | Element j of a successful loop is the float at offset 24 + 43j + 16 |
| Dashboard.DecodeLap | src/main.py:235-243 | A Lap Data packet decodes iff all distances fit and the player's sector byte lies inside the datagram. The sector is byte 24 + 43p + 28; the lap time is the `<I` at 24 + 43p + 4, below 2^32 |
| Dashboard.ApplyLap | src/main.py:235-243 | Only the distances of cars already in the table change, and no car is created. The player's sector and lap time are set, every other telemetry field is kept, and the invariant is kept |
| Dashboard.Records | src/main.py:247-250 | The record loop succeeds iff the last team byte lies inside the datagram (the clipped name slice never faults); element j is record j's team byte and name field |
| Dashboard.DecodeParticipants | src/main.py:245-250 | A Participants packet decodes iff byte 24 exists and, when it is non-zero, the team byte of record `data[24] - 1` does; it yields exactly `data[24]` records |
| Dashboard.Rename | src/main.py:259-261 | One record sets the car's team, replaces its name by the abbreviation unless that is "UNK", and changes nothing else; a known name never reverts to "UNK" |
| Dashboard.ApplyParticipants | src/main.py:259-261 | Only cars already in the table, among the first `data[24]` slots, change. Their team is overwritten and their name replaced by the abbreviation unless that is "UNK". Distance, position and the rest of the state are unchanged |
| Dashboard.DecodeSpeed | src/main.py:263-265 | The speed read succeeds iff two bytes fit at 24 + 60p; the speed is below 2^16 and packs back to those two bytes |
| Dashboard.HandleMotion | src/main.py:223-233 | A Motion datagram is applied iff all 22 records fit, and then every slot's car is placed at that slot's decoded position and no car of index 22 or more changes. The track map gets the player's slot, tagged with the current sector, when byte 20 names a slot whose x is non-zero, and is otherwise unchanged |
| Dashboard.HandleLap | src/main.py:235-243 | A Lap Data datagram is applied iff its reads fit. The sector is the player's byte 28, the lap time is the `<I` at the player's record + 4, and each existing car's distance is its slot's float |
| Dashboard.HandleParticipants | src/main.py:245-261 | A Participants datagram is applied iff its team bytes fit. Each existing car below `data[24]` gets its slot's team byte, and its name becomes the abbreviation of its slot's name field unless that is "UNK", in which case the name is kept; the other cars are unchanged |
| Dashboard.HandleTelemetry | src/main.py:263-265 | A Car Telemetry datagram is applied iff the speed fits. The speed becomes the `<H` at 24 + 60p, and nothing else changes |
| Dashboard.Dispatch | src/main.py:223-265 | The handler for the datagram's kind succeeds exactly when its reads fit. It keeps the switch, the health times, every existing car and its place in the order, and the invariant; an unwatched kind changes nothing |
| Dashboard.Step | src/main.py:218-265 | A datagram under 24 bytes changes nothing. Otherwise its kind's health time becomes the arrival time, and the step fails exactly when a read of its kind's handler runs past the end. An unwatched kind changes only the health. Cars are never removed or reordered, the copilot switch is kept, and so is the invariant |
| Dashboard.Run | src/main.py:216-267 | Over any sequence of datagrams, the order of first appearance only grows, and the invariant is kept |
| Dashboard.RunHealth | src/main.py:220-221 | After a run, each kind's health time is the arrival time of the last datagram of that kind; a kind that never arrived keeps its time |
| DashboardV1.Init | legacy/dashboard_v1.py:70-76 | The table and the track map are empty, the map's box is ±500, the player index, speed and throttle are 0, and the counts of kinds 0..11 are 0 |
| DashboardV1.ApplyMotion | legacy/dashboard_v1.py:95-103 | The player index becomes byte 20. Cars are placed as `Fleet.Place` states, a new car starting with distance 0 and position 0. Only the player's slot is offered to the map with the 1-unit threshold. Counts, speed and throttle are unchanged |
| DashboardV1.RepeatedMotion | legacy/dashboard_v1.py:95-103 | Applying a Motion packet a second time changes nothing |
| DashboardV1.LapRecords | legacy/dashboard_v1.py:106-110 | The slot loop succeeds iff the last slot's byte 33 fits, reading every slot whether or not its car exists, and then yields one record per remaining slot |
| DashboardV1.LapRecordsAt | legacy/dashboard_v1.py:106-110 | Element j of a successful loop is the distance float at 24 + 43j + 16 and the byte at 24 + 43j + 33 |
| DashboardV1.DecodeLap | legacy/dashboard_v1.py:106-110 | A Lap Data packet decodes iff all 22 records fit to byte 33, and then record j is slot j's distance and position byte |
| DashboardV1.ApplyLap | legacy/dashboard_v1.py:111-113 | Only cars already in the table change, getting distance and race position; positions and the rest of the state are unchanged |
| DashboardV1.DecodeTelemetry | legacy/dashboard_v1.py:116-119 | The read succeeds iff six bytes fit at 24 + 60p. The speed is the `<H` there, and the throttle is the float right after it |
| DashboardV1.HandleMotion | legacy/dashboard_v1.py:95-103 | A Motion datagram is applied iff all 22 records fit; every slot's car is placed at its decoded position and no car of index 22 or more changes. The track map gets the player's slot, with the 1-unit threshold, when byte 20 names a slot whose x is non-zero, and is otherwise unchanged |
| DashboardV1.HandleLap | legacy/dashboard_v1.py:106-113 | A Lap Data datagram is applied iff all 22 records fit to byte 33; each existing car gets its slot's distance and position byte and keeps its x and z |
| DashboardV1.HandleTelemetry | legacy/dashboard_v1.py:116-119 | A Car Telemetry datagram is applied iff its six bytes fit. The speed becomes the `<H` at 24 + 60p and the throttle the float after it; nothing else changes |
| DashboardV1.Dispatch | legacy/dashboard_v1.py:94-119 | The handler for the datagram's kind succeeds exactly when its reads fit. It keeps the counters, every existing car and its place in the order, and the invariant; Participants and other kinds change nothing |
| DashboardV1.Step | legacy/dashboard_v1.py:86-119 | A datagram under 24 bytes changes nothing. Otherwise its kind's counter goes up by exactly one and no other counter changes; Participants and other kinds change nothing else. The step fails exactly when a read runs past the end. The invariant is kept |
| DashboardV1.Run | legacy/dashboard_v1.py:84-121 | Over any sequence of datagrams the table's order only grows and the invariant is kept |
| DashboardV1.RunCounts | legacy/dashboard_v1.py:91-92 | After a run, each kind's counter has grown by exactly the number of datagrams of that kind with a header |
| DashboardV1.TableEntries | legacy/dashboard_v1.py:145 | `cars.items()` lists the cars in table order, position i holding the i-th car and its distance, so each car appears once |
| DashboardV1.DistinctBelow | legacy/dashboard_v1.py:157 | Distinct car indices below 22 number at most 22 |
| DashboardV1.Grid | legacy/dashboard_v1.py:145-157 | The live grid holds exactly the cars beyond 1 metre, with their distances, as a permutation of the filtered table, furthest first, ranked 1, 2, 3, ... It has at most 22 rows, so the `y > 700` cut-off after 25 rows never drops one |
| DashboardV1.GridDistinct | legacy/dashboard_v1.py:145-157 | No car is listed twice in the live grid |
| DashboardV1.GridTies | legacy/dashboard_v1.py:145-146 | Cars level on distance are listed in the order they entered the table, not by index |

## Left out

- Rendering is not modelled. This covers pygame drawing, fonts, window resizing, the copilot button, the packet-flow panel and the car dots on the map. The screen rectangle `RECT_MAP`, computed from the window size, is a parameter of `TrackMap.ToScreen`.
- Sockets are not modelled. `recvfrom(2048)` and the non-blocking receive loop are I/O: `Step` takes the datagram as received, already cut to at most 2048 bytes.
- `time.time()` becomes the `now` parameter of `Dashboard.Step` and the `times` sequence of `Dashboard.Run`.
- Floating-point rounding is not modelled. `to_screen` and the gap division are exact real arithmetic, so `TrackMap.ToScreen`, `TrackMap.ToScreenLegacy` and `Standings.GapsAddUp` hold for reals, not for doubles; a rounding error at the rectangle's edge is outside what they promise.
- IEEE-754 decoding of `<f` is the parameter `f32`. NaN, infinities and negative zero are therefore not represented: the model's `x != 0` is a comparison of reals.
- The formatting of lap time, gaps and distances (`:05.2f`, `:.2f`) is not modelled. Neither is the legacy throttle percentage.
- The state left behind by a packet that faults half-way is not modelled. Such a fault ends the process, so no later step sees that state.
- The race-engineer thread, `src/voice_core.py`, `src/ptt_controller.py` and `src/vision_sender.py` are not modelled. They are speech, LLM, audio, controller and screen-capture I/O.
- Names.Upper: maps only ASCII letters, not Python's full Unicode case mapping, because Unicode case tables are outside the model. For ASCII names the result is exact.
- Names.DisplayName: the `try`/`except` around the decode is not modelled, because nothing inside it can raise. `errors='ignore'` never fails, and the guarded code has no index error. Upper-casing is that of `Names.Upper`: non-ASCII letters are kept as they are, so a field holding "Sergio Pérez" yields "PéR" where Python gives "PÉR", and a name whose upper case is longer ("ß" becomes "SS") is not lengthened.
- Standings.GapLabels: in `src/main.py` the loop's `sorted_grid` and `spd_ms` are never defined, so that code raises NameError. The label is modelled over an already-sorted list and a positive reference speed. The filter and the sort come from `legacy/dashboard_v1.py:145-146`.
- Fleet.PlaceTwice: assumes moving a car twice to one position equals moving it once. Both dashboards' `MoveCar` satisfy this, and the `RepeatedMotion` lemmas discharge it for them.

## Behaviour of the code worth knowing

In each of these places the code does something a reader might not expect. The model follows the code:

- **Faults.** A slot that runs past the end of a short datagram is not skipped. The read raises IndexError or struct.error, the loop catches only `BlockingIOError`, and the process ends. The model returns that fault (`Err`).
- **Track-map de-duplication.** A sample is kept when it moved more than the threshold along x or along z (`abs(dx) > 2 or abs(dz) > 2`), not by Euclidean distance. `TrackMap.Apart` compares the axes the same way.
- **Ties in the standings.** Cars level on distance are not ordered by index. The stable sort keeps dictionary insertion order, the order in which Motion packets first showed the cars. `DashboardV1.GridTies` states this.
- **Name length.** The abbreviation cuts the decoded text to three characters (`[:3]`) before upper-casing it. When those three characters upper-case one to one, as ASCII letters do, the name has at most three characters; Python's `str.upper()` can lengthen others ("ß" becomes "SS"), which the model does not follow (see `Names.DisplayName` under "## Left out"). A car that never got a name keeps "CAR i".
- **Team overwrite.** Every Participants record assigns its team byte unconditionally, so a valid team id can be replaced by whatever a later packet carries; only the name is kept when the new one is "UNK". `Dashboard.Rename`, `Dashboard.ApplyParticipants` and `Dashboard.HandleParticipants` state this.
- **Active-car count.** The Participants active-car count (byte 24) is not capped at 22. With a larger count the loop reads further records, and a short datagram faults. Records beyond index 21 never match a car.
