# BLE_Interface core, modelled in Dafny

BLE_Interface is a Windows desktop client for TYME wearable sensors. This
project models its core in Dafny and proves properties of that model.

- **`BleService`.** This is the host's protocol engine. It:
  - scans for advertisements;
  - sends tagged commands on the control characteristic and matches each response to the command it answers;
  - decodes the data-stream records;
  - rebuilds the device's file table;
  - rebuilds the decoded text file from the download stream.
- **Packed structures.** `FileEntry` (12 bytes) and `HardwareInfo` (22 bytes), with their renderings.
- **Chart controls.** The ring buffers and visibility queries of both controls, the two-series chart's adaptive Y axis, and the time labels of the X axis.
- **Helpers:**
  - the capacity-bounded collection;
  - the UI batcher;
  - the chart throttler;
  - the run-once disposer.
- **Views:**
  - the log window's keyword filter;
  - the main view model's log panel and IMU down-sampling counter;
  - the scan test window's row table.

Each source file becomes one or more Dafny modules.

- **Pure code becomes functions with lemmas.** This covers the envelope layout, record decoding, struct layouts, renderings, the log filters and the axis arithmetic.
- **Code that updates state becomes classes.** `BleService`, the ring buffers, the bounded collection, the batcher, the throttler, the disposer, the view model and the scan window each have fields and `modifies` clauses, and the loops among their methods carry invariants. The methods are proved against specification functions.

How the outside world is represented:

- **Platform calls become inputs and outputs.**
  - A write to the control characteristic is appended to `outbox`.
  - A `TaskCompletionSource` is a command number. The `resolved` map holds each answered command's payload.
  - The decoded-file `StreamWriter` is the sequence of lines written to it.
  - The stretch file is the sequence of its lines.
  - Each `Log` call on a modelled path appends an `Event` to `log`, and `Message` renders it. The data-stream log lines are not modelled (see "## Left out").
- **These become parameters:**
  - the clock;
  - the file system's existing paths;
  - the battery-level read;
  - the check-box states;
  - whether an advertisement carries the TYME service.
- **Numbers:**
  - integers of fixed width are `U8`/`U16`/`U32`/`U64` subset types, and their wrap-around is written out where the source relies on it;
  - doubles are exact reals.

## Model

| member | source | states |
|---|---|---|
| Bytes.U16AtLE16 | Services/BleService.cs:536-537 | A little-endian `ushort` written at an offset is read back by `BitConverter.ToUInt16` at that offset |
| Bytes.U32AtLE32 | Services/BleService.cs:535 | A little-endian `uint` written at an offset is read back by `BitConverter.ToUInt32` |
| Bytes.I16AtLEI16 | Services/BleService.cs:545-550 | A two's-complement `short` written at an offset is read back by `BitConverter.ToInt16` |
| Bytes.LE16U16At | Models/FileEntry.cs:6-11 | Re-encoding the `ushort` read at an offset gives back exactly the two bytes there |
| Bytes.LE32U32At | Models/FileEntry.cs:6-11 | Re-encoding the `uint` read at an offset gives back exactly the four bytes there |
| Text.NatToStringValue | Models/FileEntry.cs:13-14 | The decimal text of a number reads back as that number |
| Text.NatToStringInjective | Models/FileEntry.cs:13 | Two numbers have the same decimal text exactly when they are equal |
| Text.Pad2Value | ViewModels/MainWindowViewModel.cs:479 | The two-digit format is all digits, reads back as the number, and is exactly two characters below 100 |
| Text.PadLeft | Services/BleService.cs:271 | `PadLeft` keeps the text as the suffix, fills the front with the pad character, and reaches the requested width |
| Text.PadLeftHex | Services/BleService.cs:271 | `ToString("X").PadLeft(w, '0')` is the `Xw` format of the number |
| Text.HexDigitsRValue | Services/BleService.cs:721 | Reading an `Xw` rendering as hexadecimal gives the number back |
| Text.HexDigitsRInjective | Services/BleService.cs:721 | Two numbers have the same `Xw` rendering exactly when they are equal |
| Text.HexLowDigits | Services/BleService.cs:272 | The last k digits of an `Xw` rendering are the `Xk` rendering of the value modulo 16^k |
| Text.Lower | Views/LogWindow.xaml.cs:51 | `ToLowerInvariant` keeps the length and leaves no upper-case letter: each letter `A`-`Z` becomes its lower-case counterpart and every other character is kept |
| Text.LowerIdempotent | Views/LogWindow.xaml.cs:51 | Lowering an already-lowered line changes nothing |
| Protocol.Envelope | Services/BleService.cs:709-716 | A command is 4 bytes without a parameter and 8 bytes with one |
| Protocol.ParseEnvelopeOfEnvelope | Services/BleService.cs:709-716 | The command written is opcode then tag as LE16, then the parameter as LE32 when present: reading the bytes back gives the command |
| Protocol.EnvelopeOfParseEnvelope | Services/BleService.cs:709-716 | Every 4- or 8-byte message is the envelope of exactly one command, so the layout wastes no bit |
| Protocol.ParseEnvelope | Services/BleService.cs:709-716 | An envelope is recognised exactly when it has 4 or 8 bytes |
| Protocol.NextTag | Services/BleService.cs:708 | `nextTagId++` on a `ushort`: the tag goes up by one, and 65535 is followed by 0 |
| Protocol.TagAfterValue | Services/BleService.cs:708 | After k sends the counter is its start plus k, modulo 65536 |
| Protocol.TagsProgress | Services/BleService.cs:708 | Two sends i < j use the same tag exactly when j - i is a multiple of 65536 |
| Protocol.CodeNameUnknown | Services/BleService.cs:225-231 | `UNKNOWN` is printed exactly for the response codes the table lacks |
| Protocol.CommandNameInjective | Services/BleService.cs:217-224 | Two opcodes print the same command name exactly when they are equal: the table names and the `0x` fallback never collide |
| Protocol.OpcodeNameInjective | Services/BleService.cs:217-224 | No two opcodes in the table share a name |
| Protocol.RoundMinutes | Services/BleService.cs:474 | The elapsed minutes are the nearest whole minute, with halves rounded away from zero, for either sign |
| Protocol.TruncMod | Services/BleService.cs:475 | C#'s `%` has the sign of the dividend and pairs with the truncating `/` |
| Protocol.ElapsedTextReadBack | Services/BleService.cs:475 | For non-negative minutes the text is hours, a colon and two digits of minutes, and the two fields read back to the minutes |
| Protocol.ElapsedTextNegative | Services/BleService.cs:470-475 | A clock set back gives negative elapsed minutes, printed as `00:-05` |
| Telemetry.Decode | Services/BleService.cs:525-637 | A notification is dropped exactly when it is empty or shorter than its type's minimum (0:85, 1:17, 2:13, 3:7, 4:11, 5:7). It is `Unknown` exactly when its type byte is outside 0-5 |
| Telemetry.DecodeIgnoresTrailing | Services/BleService.cs:533-630 | Bytes after a record's fixed layout do not change what is decoded |
| Telemetry.Encode | Services/BleService.cs:533-630 | The firmware's encoding of a record has exactly its type's minimum length |
| Telemetry.DecodeEncode | Services/BleService.cs:533-630 | Every field of every record type is read from the offset where it is written: decoding an encoded record gives it back |
| Telemetry.DecodeEncodeExtended | Services/BleService.cs:533-577 | The round trip for the extended record: counter, chest values, five IMU samples, five loads, pressure, temperature |
| Telemetry.DecodeEncodeBreathing | Services/BleService.cs:584-591 | The round trip for the breathing record's seven fields |
| Telemetry.DecodeEncodeImu | Services/BleService.cs:596-600 | The round trip for the IMU-processed record's four fields |
| Telemetry.DecodeEncodeStretch | Services/BleService.cs:605-607 | The round trip for the stretch record |
| Telemetry.DecodeEncodePressure | Services/BleService.cs:618-621 | The round trip for the pressure/temperature record |
| Telemetry.DecodeEncodeHeartRate | Services/BleService.cs:626-628 | The round trip for the heart-rate record |
| Telemetry.ExtendedLayout | Services/BleService.cs:535-566 | An encoded extended record is 85 bytes, with each part at the offset the decoder reads |
| Telemetry.ImuSamples | Services/BleService.cs:539-554 | The extended record carries exactly five IMU samples |
| Telemetry.PlayerLoads | Services/BleService.cs:558-563 | The extended record carries exactly five player loads |
| Telemetry.DecodeExtended | Services/BleService.cs:535-577 | The two `for` loops (samples 12 bytes apart from offset 9, then loads 2 bytes apart) build the record `Decode` specifies |
| Download.RecordLength | Services/BleService.cs:660 | A record type has a payload length exactly when it is 1, 2 or 5 |
| Download.FrameFrom | Services/BleService.cs:656-665 | The draining loop's framing stops within the buffer, and once it meets an unknown type it consumes all of it |
| Download.FramedWellFormed | Services/BleService.cs:659-665 | Every record cut from the buffer has a known type and that type's payload length |
| Download.FrameResidue | Services/BleService.cs:656-683 | After draining, the buffer is empty or holds the start of one incomplete record of type 1, 2 or 5 |
| Download.FrameTwice | Services/BleService.cs:654-683 | Framing two notifications one at a time finds the same records and leaves the same bytes as framing both at once |
| Download.TwoNotifications | Services/BleService.cs:654-683 | Two notifications write the same lines, set the same flags and leave the same buffer as one notification with both parts |
| Download.SplitRecord | Services/BleService.cs:662 | A record split across two notifications writes nothing for the first part and is decoded once its tail arrives |
| Download.LinesKeepCounted | Services/BleService.cs:667-681 | Writing any run of records after output where each header appears once exactly when its flag is set keeps that true |
| Download.RecordKeepsCounted | Services/BleService.cs:667-681 | One record's lines keep the header invariant |
| Download.DrainKeepsCounted | Services/BleService.cs:656-683 | Draining a buffer keeps the header invariant, whatever the buffer holds |
| Download.LinesHeaders | Services/BleService.cs:670-679 | Each section header is written exactly once, when the first record of its kind comes while its flag is clear, and never otherwise |
| Download.AfterWrote | Services/BleService.cs:670-679 | A header flag ends up set exactly when it was set or a record of its kind was written |
| Download.AfterMonotone | Services/BleService.cs:670-679 | A header flag once set stays set |
| Download.LinesAppend | Services/BleService.cs:667-681 | Writing two runs of records one after the other is writing their concatenation |
| Download.Fields | Services/BleService.cs:667-681 | A breathing line has 7 fields, an IMU line 4 and a heart-rate line 2 |
| Download.FieldsInjective | Services/BleService.cs:667-681 | A data line shows every payload byte: two records of one type print the same fields exactly when they are equal |
| Download.DataTextIsNotHeader | Services/BleService.cs:670-679 | A data line starts with a digit, so it is never mistaken for a header |
| Download.HeaderTextsDiffer | Services/BleService.cs:667-681 | The three header texts are different |
| Download.Drain | Services/BleService.cs:656-683 | Draining stops within the buffer, and a desynchronised stream consumes all of it |
| Download.CandidateInjective | Services/BleService.cs:743-745 | The candidate file names of one entry are pairwise different |
| Download.ChoosePath | Services/BleService.cs:742-745 | The path is the first candidate (`file_{ts}.txt`, then `file_{ts}_1.txt`, …) that the file system does not hold, and the loop ends |
| FileEntries.Encode | Models/FileEntry.cs:6-11 | The packed entry occupies 12 bytes |
| FileEntries.DecodeEncode | Models/FileEntry.cs:6-11 | Timestamp, start and end address are read at offsets 0, 4 and 8, where they are stored |
| FileEntries.EncodeDecode | Models/FileEntry.cs:6-11 | Only the first 12 bytes matter, and all of them matter |
| FileEntries.Entries | Services/BleService.cs:734-735 | The intended file table has one entry per complete 12-byte chunk |
| FileEntries.EntriesOfEncodeTable | Services/BleService.cs:732-735 | A table that is sent and then parsed comes back whole |
| FileEntries.EncodeTableOfEntries | Services/BleService.cs:732-735 | Re-encoding the parsed table gives back every complete chunk; only a trailing partial chunk is lost |
| FileEntries.Size | Models/FileEntry.cs:12 | `Size` is `endAddr - startAddr` modulo 2^32: the exact difference when start ≤ end, and a wrapped value above `endAddr` otherwise |
| FileEntries.GetFilename | Models/FileEntry.cs:13 | The name is `file_`, the decimal timestamp, then `.bin` |
| FileEntries.GetFilenameInjective | Models/FileEntry.cs:13 | Two entries share a file name exactly when they share a timestamp |
| FileEntries.ParseToString | Models/FileEntry.cs:14 | `ToString` is timestamp, ` — `, size, ` bytes`, and both numbers can be read back from it |
| HardwareInfos.Encode | Models/HardwareInfo.cs:7-18 | The packed struct occupies 22 bytes |
| HardwareInfos.ParseEncode | Models/HardwareInfo.cs:7-25 | The ten fields are laid out without padding in declaration order (u16, u8, u16, u16, u8, u16, u16, u32, u32, u16): parsing the image gives the struct back |
| HardwareInfos.EncodeParse | Models/HardwareInfo.cs:20-25 | `Parse` uses exactly the first 22 bytes |
| HardwareInfos.VersionTextLowByte | Models/HardwareInfo.cs:31 | The version is `0.` and two hex digits whose value is the low byte of `swVersion` |
| HardwareInfos.StatusLines | Models/HardwareInfo.cs:32-40 | The status is rendered as six lines |
| HardwareInfos.StatusLinesShowBits | Models/HardwareInfo.cs:32-40 | Two status bytes render the same lines exactly when they agree on bits 0, 1, 2, 4, 5 and 6: bits 3 and 7 are never shown, and each shown bit changes its line |
| HardwareInfos.ModeAndActivities | Models/HardwareInfo.cs:34-35 | The mode says `Extended` exactly when bit 0 is set, and activities say `Available` exactly when bit 6 is set |
| HardwareInfos.ToStringShownFields | Models/HardwareInfo.cs:27-52 | The rendering depends on `hwStatus` only through its shown bits, and does not depend on `userVtCalibration` at all |
| DeviceNames.AddressText | Services/BleService.cs:271 | The stored address text has at least twelve characters |
| DeviceNames.AddressTextDigits | Services/BleService.cs:271 | The address text is the address in `X12` format |
| DeviceNames.AdvertNameLowBits | Services/BleService.cs:271-273 | The service names a device `TYME-` plus four hex digits of the address's low 16 bits |
| DeviceNames.TymeNameLowBits | Views/ScanTestWindow.xaml.cs:82-86 | The scan window's name is `TYME-` plus `address & 0xFFFF` in `X4` format |
| DeviceNames.NamesAgree | Services/BleService.cs:271-273 | The service and the scan window give every address the same name |
| DeviceNames.TymeNameShared | Views/ScanTestWindow.xaml.cs:82-86 | The name has nine characters, and two addresses share a name exactly when their low 16 bits agree |
| BleServices.ChargeAsInt | Services/BleService.cs:480 | `(int)chargeValue` keeps charges below 2^31 and makes larger ones negative |
| BleServices.SentMessageDigits | Services/BleService.cs:721 | The send log line shows the opcode as four hex digits that read back as the opcode, then the tag in decimal |
| BleServices.Safe | Services/BleService.cs:767 | The sanitised device name has the same length and contains neither `:` nor a space: exactly those two characters become `_`, and every other character is kept |
| BleServices.ThirteenByteAnswerOverReads | Services/BleService.cs:734-735 | As written, a 13-byte answer marshals a 1-byte chunk as a 12-byte entry |
| BleServices.ListedChunksWhole | Services/BleService.cs:734-735 | As written, some chunk is shorter than an entry exactly when the answer's length is not a multiple of 12 |
| BleServices.RegisterKeeps | Services/BleService.cs:718-719 | Registering a new command under a tag keeps both tables consistent, even when the tag is reused |
| BleServices.ResolveKeeps | Services/BleService.cs:511-516 | Completing the command a tag waits for keeps both tables consistent |
| BleServices.AddKeeps | Services/BleService.cs:278-283 | A new address is added to the map and the rows, and still no address is listed twice |
| BleServices.UpdateKeeps | Services/BleService.cs:285-288 | Updating a known address's row changes no address |
| BleServices.BleService.DiscoveredDevices | Services/BleService.cs:278-283 | The visible rows are the map's devices in discovery order, one per address |
| BleServices.BleService.constructor | Services/BleService.cs:233-241 | A new service is not scanning: no devices, the tag counter at 1, empty tables, and no buffer, writer or file |
| BleServices.BleService.Connected | Services/BleService.cs:338-401 | A connection leaves a device, a control characteristic or none, a fresh battery time base, and scanning stopped |
| BleServices.BleService.StartScanning | Services/BleService.cs:243-252 | A scan not yet running starts with an empty map and no rows, and logs once; a running scan is left alone |
| BleServices.BleService.StopScanning | Services/BleService.cs:254-258 | Scanning stops and the stop is logged |
| BleServices.BleService.OnWatcherStopped | Services/BleService.cs:240 | The watcher's `Stopped` event ends the scan and logs `Scan stopped.` |
| BleServices.BleService.OnAdvertisement | Services/BleService.cs:265-290 | An advertisement without the TYME service changes nothing. A new address gets one row with its `X12` text and `TYME-` name, and is logged. A known address only has its RSSI updated |
| BleServices.BleService.SendControlCommand | Services/BleService.cs:703-723 | With no control characteristic the send fails with no change: no tag is used and no entry is added. Otherwise the current tag is registered in both tables, advanced as a `ushort`, and the envelope is written and logged |
| BleServices.BleService.Register | Services/BleService.cs:717-719 | The tag now maps to the new command and to its opcode in the two tables |
| BleServices.BleService.Resolve | Services/BleService.cs:511-516 | Both tables forget the tag, and the command it waited for is answered with the payload |
| BleServices.BleService.OnControlNotification | Services/BleService.cs:430-517 | A `0x4002` push never touches the tables. With 4 or more payload bytes it adds a CSV row of elapsed time, `(int)` charge and percentage; with fewer it only logs. Any other code logs the response and, when its tag is pending, removes it from both tables and resolves it with bytes 4 on; an unknown tag changes neither table |
| BleServices.BleService.OnDataStream | Services/BleService.cs:519-643 | A dropped notification fires nothing. Every other one, unknown types included, fires `DataStreamUpdated("Updated")`, and `updates` records the decoded record of each firing. A stretch record is appended to an open stretch file |
| BleServices.BleService.StartStretchStream | Services/BleService.cs:759-772 | Without a device and a control characteristic it only logs `Not connected`: the stretch file, the tag counter, both tag tables and the command count are unchanged. Otherwise it opens an empty file named after the sanitised device name and epoch, sends `START_STRETCH` under the current tag, registers that tag in both tables and advances the counter as a `ushort` |
| BleServices.BleService.StopStretchStream | Services/BleService.cs:774-780 | Without a control characteristic nothing changes, the tag counter and tables included. Otherwise it sends `STOP_STRETCH` under the current tag, registers that tag in both tables, advances the counter, and closes the stretch file |
| BleServices.BleService.ListFiles | Services/BleService.cs:729-731 | Not connected, it fails and changes nothing: tag counter, tables, command count, outbox and log. Otherwise it sends `LIST_FILES` under the current tag, registers that tag in both tables, advances the counter, and logs the send |
| BleServices.BleService.OnFileTable | Services/BleService.cs:732-736 | The file list is rebuilt from the answer's complete 12-byte chunks, and its count is logged |
| BleServices.BleService.OpenDownload | Services/BleService.cs:742-754 | The writer is opened on the first free candidate path, the buffer is emptied and all three header flags are cleared, so the header invariant holds for the new file |
| BleServices.BleService.DownloadFile | Services/BleService.cs:739-757 | Like `OpenDownload`, then `DATA_DUMP` is sent with the entry's timestamp under the current tag, which is registered in both tables while the counter advances. Not connected, the tag state is unchanged. The buffer invariant and the header invariant hold |
| BleServices.BleService.CompleteDownload | Services/BleService.cs:694-697 | The quiet-window completion logs and closes the writer |
| BleServices.BleService.WriteRecord | Services/BleService.cs:667-681 | One record writes its header the first time its kind appears, then its data line, and marks its flag |
| BleServices.BleService.DrainBuffer | Services/BleService.cs:656-683 | The draining loop writes the lines of the complete records, sets the same flags, and keeps only the bytes after the last one, as `Drain` specifies |
| BleServices.BleService.OnDownloadNotification | Services/BleService.cs:645-684 | With no open writer nothing changes. Otherwise the incoming bytes are appended and drained, and afterwards the buffer is empty or holds one incomplete record. The header invariant is kept: across all notifications of a download, each of `[Breathing]`, `[IMU]` and `[HR]` is in the file exactly once when its flag is set and not at all otherwise |
| Rings.SlotValue | Controls/SkiaChartControl.cs:433 | The slot of the i-th oldest point lies in the array: `head - count + i`, wrapped once |
| Rings.Advance | Controls/SkiaChartControl.cs:388 | `head` stays in range and moves one slot forward, wrapping to 0 at the end |
| Rings.NewestSlot | Controls/SkiaChartControl.cs:410 | The slot before `head` holds the newest point |
| Rings.Last | ViewModels/MainWindowViewModel.cs:485-486 | The newest n elements: the whole sequence when it is shorter |
| Rings.LastSnoc | Helpers/BoundedObservableCollection.cs:18-24 | Appending to a full window drops its oldest element; otherwise the window grows |
| Rings.Window | Controls/SkiaChartControl.cs:414-425 | The window is [0, window] while the newest X fits in it, then [newest X - window, newest X] |
| SkiaCharts.Visible | Controls/SkiaChartControl.cs:431-459 | There are never more visible points than stored ones |
| SkiaCharts.VisibleMembers | Controls/SkiaChartControl.cs:447-459 | A point is visible exactly when it is stored and its X is at least `minX` |
| SkiaCharts.LowY | Controls/SkiaChartControl.cs:439 | The smallest Y is at most every Y and is one of them |
| SkiaCharts.HighY | Controls/SkiaChartControl.cs:440 | The largest Y is at least every Y and is one of them |
| SkiaCharts.VisibleStep | Controls/SkiaChartControl.cs:431-442 | One more point grows the visible run exactly when it is visible |
| SkiaCharts.BoundsSnoc | Controls/SkiaChartControl.cs:428-441 | One more visible point moves each sentinel-started bound to it when it lies beyond |
| SkiaCharts.TruncDiv | Controls/SkiaChartControl.cs:331-332 | On whole numbers, the double cast of a quotient and the double `%` are integer division and remainder |
| SkiaCharts.WholeSeconds | Controls/SkiaChartControl.cs:321-342 | For whole seconds s the label is `{s}s` below 60, `m:ss` below 3600 and `h:mm:ss` otherwise |
| SkiaCharts.MinutesOfWhole | Controls/SkiaChartControl.cs:331-333 | `m:ss` shows the whole minutes and two digits of leftover seconds |
| SkiaCharts.HoursOfWhole | Controls/SkiaChartControl.cs:337-340 | `h:mm:ss` shows the hours, then two digits each of minutes and seconds |
| SkiaCharts.ClockFields | Controls/SkiaChartControl.cs:329-340 | The label's fields recombine to the seconds shown, minutes and seconds stay below 60, and `m:ss` has between 1 and 59 minutes |
| SkiaCharts.RingBuffer.constructor | Controls/SkiaChartControl.cs:378-381 | A new buffer has `capacity` slots and holds nothing |
| SkiaCharts.RingBuffer.Add | Controls/SkiaChartControl.cs:383-392 | `head` advances modulo the capacity and `count` grows only below capacity. The contents, oldest first, are the newest capacity points added, in order |
| SkiaCharts.RingBuffer.Clear | Controls/SkiaChartControl.cs:394-401 | `head` and `count` are 0 and the buffer holds nothing |
| SkiaCharts.RingBuffer.GetVisibleData | Controls/SkiaChartControl.cs:403-463 | An empty buffer gives no points and zero bounds. Otherwise the X window follows the newest X, the points are exactly those with X ≥ minX, oldest first, and minY/maxY are their smallest and largest Y (0 when none) |
| SkiaCharts.RingBuffer.CountVisible | Controls/SkiaChartControl.cs:427-442 | The first loop counts the visible points and accumulates their Y bounds |
| SkiaCharts.RingBuffer.CollectVisible | Controls/SkiaChartControl.cs:447-459 | The second loop collects the visible points in order |
| DualCharts.Visible | Controls/DualSeriesChartControl.cs:443-473 | There are never more visible points than stored ones |
| DualCharts.VisibleMembers | Controls/DualSeriesChartControl.cs:461-473 | A point is visible exactly when it is stored and its X is at least `minX` |
| DualCharts.LowY | Controls/DualSeriesChartControl.cs:451-454 | The low bound is at most every raw and every processed Y, and is one of them |
| DualCharts.HighY | Controls/DualSeriesChartControl.cs:451-454 | The high bound is at least every raw and every processed Y, and is one of them |
| DualCharts.VisibleStep | Controls/DualSeriesChartControl.cs:443-456 | One more point grows the visible run exactly when it is visible |
| DualCharts.BoundsSnoc | Controls/DualSeriesChartControl.cs:451-454 | One more visible point feeds its raw Y, then its processed Y, into both bounds |
| DualCharts.DualRingBuffer.constructor | Controls/DualSeriesChartControl.cs:392-395 | A new buffer has `capacity` slots and holds nothing |
| DualCharts.DualRingBuffer.Add | Controls/DualSeriesChartControl.cs:397-406 | `head` advances modulo the capacity and `count` grows only below capacity. Once full, the oldest point is overwritten, so the contents are the newest capacity points in order |
| DualCharts.DualRingBuffer.Clear | Controls/DualSeriesChartControl.cs:408-415 | `head` and `count` are 0 and the buffer holds nothing |
| DualCharts.DualRingBuffer.GetVisibleData | Controls/DualSeriesChartControl.cs:417-477 | The same points go out as raw and as processed data: exactly those with X ≥ minX, oldest first. minY/maxY bound both series. An empty buffer gives zero bounds |
| DualCharts.DualRingBuffer.CountVisible | Controls/DualSeriesChartControl.cs:439-456 | The first loop counts the visible points and accumulates the bounds of both series |
| DualCharts.DualRingBuffer.CollectVisible | Controls/DualSeriesChartControl.cs:461-473 | The second loop collects the visible points in order |
| DualCharts.DualSeriesChart.constructor | Controls/DualSeriesChartControl.cs:22-31 | Axis [0, 5000], no display range, no frames, increment 100, window 1500, the default increment table, and an empty buffer of 10000 points |
| DualCharts.DualSeriesChart.Clear | Controls/DualSeriesChartControl.cs:126-132 | The buffer is emptied, the frame counter and display sentinels reset, and the increment returns to the first entry of the chart's own `YAxisIncrements` table |
| DualCharts.DualSeriesChart.AdaptScale | Controls/DualSeriesChartControl.cs:157-200 | It rescales exactly when a rescale is due, and leaves the state `Adapted` specifies for the chart's own increment table |
| DualCharts.DualSeriesChart.Paint | Controls/DualSeriesChartControl.cs:150-206 | Nothing changes with fewer than two stored or two visible points. With a fixed axis only the increment is reset, to the first of the chart's table. Otherwise the axis adapts to the visible bounds of both series, with increments from that table |
| AxisScaling.FirstFit | Controls/DualSeriesChartControl.cs:179-189 | With positive increments the chosen one is positive |
| AxisScaling.FirstFitIsFirst | Controls/DualSeriesChartControl.cs:179-189 | The chosen increment is one of the table's. It spans the range in ten ticks unless it is the last, and every earlier one is too small |
| AxisScaling.FirstFitAt | Controls/DualSeriesChartControl.cs:182-189 | The first increment spanning the range in ten ticks, or the last when none does, is the one chosen |
| AxisScaling.SelectIncrement | Controls/DualSeriesChartControl.cs:179-189 | The `foreach`/`break` loop over any non-empty table selects `FirstFit` of that table |
| AxisScaling.ClampTicks | Controls/DualSeriesChartControl.cs:195-197 | The tick count lies in [5, 10], and is unchanged when already in range |
| AxisScaling.AxisFor | Controls/DualSeriesChartControl.cs:176-199 | A refit picks a positive increment from the chart's table, and 5 to 10 ticks |
| AxisScaling.AxisOf | Controls/DualSeriesChartControl.cs:176-199 | The refit axis uses the increment the chart's table gives for the range, with the range at least 1, and the clamped ticks |
| AxisScaling.DefaultIncrementsUsable | Controls/DualSeriesChartControl.cs:31 | The default table is non-empty with positive increments |
| AxisScaling.AxisFollowsTable | Controls/DualSeriesChartControl.cs:176-199 | Data from 0 to 80 gets eight ticks of 10 from the breathing-rate chart's table, but five ticks of 100 from the default one |
| AxisScaling.AxisCanEndBelowData | Controls/DualSeriesChartControl.cs:192-199 | Data from 50 to 1040 gives the axis [0, 1000], which ends below the data |
| AxisScaling.FramesStayBelowTen | Controls/DualSeriesChartControl.cs:166-171 | The frame counter stays in [0, 10) and is 0 after a paint exactly when a rescale was due |
| AxisScaling.NoRefitKeepsAxis | Controls/DualSeriesChartControl.cs:167-169 | Without a refit the data lies inside the axis, and the axis stays where it was |
| BoundedCollections.LastOfLast | Helpers/BoundedObservableCollection.cs:30-33 | Inserting into the newest n of a sequence leaves the newest n of the sequence plus the item |
| BoundedCollections.BoundedCollection.constructor | Helpers/BoundedObservableCollection.cs:13 | A new collection is empty with the given capacity |
| BoundedCollections.BoundedCollection.InsertItem | Helpers/BoundedObservableCollection.cs:15-25 | The requested index is ignored and the item goes last. With capacity ≤ 0 or room left nothing is removed; on overflow exactly the oldest element goes; a count within capacity stays within it |
| BoundedCollections.BoundedCollection.AddRange | Helpers/BoundedObservableCollection.cs:30-33 | From a count within a positive capacity, the result is the newest capacity elements of old contents plus batch, in order. Unbounded, it is both in full |
| Batching.FlattenSnoc | Helpers/UiBatcher.cs:31-32 | Flushing one more batch appends its items to everything flushed so far |
| Batching.UiBatcher.constructor | Helpers/UiBatcher.cs:19-35 | The timer starts with an empty queue and nothing flushed |
| Batching.UiBatcher.Post | Helpers/UiBatcher.cs:37 | The item joins the tail of the queue |
| Batching.UiBatcher.Tick | Helpers/UiBatcher.cs:28-33 | The queue is drained into one batch in posting order. The flush gets it only when non-empty. Afterwards everything posted has been flushed exactly once, in order |
| Batching.UiBatcher.Dispose | Helpers/UiBatcher.cs:39 | The timer is stopped |
| Throttling.SpacedSnoc | Helpers/ChartThrottler.cs:66-68 | A run a full interval after the last one keeps the runs spaced |
| Throttling.SpacedBetween | Helpers/ChartThrottler.cs:66-68 | Consecutive spacing puts any two runs at least an interval apart |
| Throttling.SpacedAfterStart | Helpers/ChartThrottler.cs:62-68 | Every run is at least an interval after construction |
| Throttling.SpacedPairwise | Helpers/ChartThrottler.cs:62-68 | All pairs of runs, and every run and the construction, are an interval apart |
| Throttling.ChartThrottler.constructor | Helpers/ChartThrottler.cs:24-32 | Nothing is pending, and the last execution is the construction time |
| Throttling.ChartThrottler.Invoke | Helpers/ChartThrottler.cs:37-50 | The request is marked pending. The action runs exactly when both clock readings are an interval past the last run. A run records the time and clears pending; otherwise the request stays pending |
| Throttling.ChartThrottler.TryExecute | Helpers/ChartThrottler.cs:57-85 | The action runs exactly when a request is pending and an interval has passed. A run records the time and clears pending. Otherwise nothing changes, so a pending flag stays set |
| Throttling.ChartThrottler.OnTimerTick | Helpers/ChartThrottler.cs:52-55 | A tick behaves as `TryExecute`; with nothing pending it does nothing |
| Throttling.RunsApart | Helpers/ChartThrottler.cs:57-85 | Any two executions, and the first execution and the construction, are at least `intervalMs` apart |
| Disposal.ActionDisposable.constructor | Helpers/ActionDisposable.cs:13 | A new disposer holds its action, which has not run |
| Disposal.ActionDisposable.Dispose | Helpers/ActionDisposable.cs:14-18 | The action runs on the first call only: the call reports whether it ran it, the action is no longer held, and it has run exactly once |
| LogFilter.ShouldShow | Views/LogWindow.xaml.cs:48-49 | A non-string item is never shown |
| LogFilter.KeywordsBoxes | Views/LogWindow.xaml.cs:53-61 | Each keyword flag says whether the line is in its box. `pressure` and `temp` share one box, and a line is General exactly when it has no keyword |
| LogFilter.ShownIffTickedBox | Views/LogWindow.xaml.cs:71-79 | A line is shown exactly when one of the boxes it is in is ticked |
| LogFilter.CaseInsensitive | Views/LogWindow.xaml.cs:51 | Lines equal up to case are shown alike |
| LogFilter.GeneralShownIffChecked | Views/LogWindow.xaml.cs:61-77 | A line with no keyword is shown exactly when General is ticked |
| LogFilter.OnlyGeneralHidesKeywords | Views/LogWindow.xaml.cs:61-79 | With only General ticked, exactly the lines without a keyword are shown |
| LogFilter.HrMatchesInsideWords | Views/LogWindow.xaml.cs:59 | `hr` matches inside words: `Thread started` is an HR line and is hidden when only General is ticked |
| MainWindow.ShouldShowLogIsGeneralFilter | ViewModels/MainWindowViewModel.cs:493-508 | The panel keeps a message exactly when it contains none of the keywords: the log window's filter with only General ticked |
| MainWindow.Stamped | ViewModels/MainWindowViewModel.cs:479 | The stamped line is `[hh:mm:ss] ` followed by the message |
| MainWindow.LastDropFirst | ViewModels/MainWindowViewModel.cs:485-486 | Dropping the oldest of more than n lines keeps the newest n |
| MainWindow.MainWindowViewModel.constructor | ViewModels/MainWindowViewModel.cs:21-26 | The panel starts empty with the counter at 0 |
| MainWindow.MainWindowViewModel.OnLogMessage | ViewModels/MainWindowViewModel.cs:473-491 | A rejected message never enters the list. An accepted one is stamped and appended, the list keeps its newest 100 lines, and the panel text is the list joined by newlines |
| MainWindow.MainWindowViewModel.ClearLogs | ViewModels/MainWindowViewModel.cs:511-515 | The list is empty and the panel text is `""` |
| MainWindow.MainWindowViewModel.OnExtendedDataReceived | ViewModels/MainWindowViewModel.cs:641-654 | The IMU charts get a point exactly on every fifth event that carries IMU samples, and the counter is then 0 |
| MainWindow.MainWindowViewModel.StartActivity | ViewModels/MainWindowViewModel.cs:767 | The IMU counter restarts at 0 |
| MainWindow.MainWindowViewModel.StartStretchStream | ViewModels/MainWindowViewModel.cs:821-836 | With a device selected the IMU counter restarts at 0; without one nothing changes |
| ScanTest.NewRow | Views/ScanTestWindow.xaml.cs:63-71 | A new row carries the address and the `TYME-` name of its low 16 bits |
| ScanTest.ParseBattery | Views/ScanTestWindow.xaml.cs:247-261 | The level is null exactly when there is no byte to read. Otherwise it lies in 0-100 and is the first byte, or 100 when that byte is larger |
| ScanTest.ParseBatteryReadsPercent | Views/ScanTestWindow.xaml.cs:253-257 | A true percentage reads as itself, whatever follows it |
| ScanTest.ParseBatteryCaps | Views/ScanTestWindow.xaml.cs:255 | Bytes above 100 read as 100 |
| ScanTest.AppendRowTabled | Views/ScanTestWindow.xaml.cs:73-74 | Adding a row for a new address keeps each grid row filed under its address, with no address shown twice |
| ScanTest.DropRowTabled | Views/ScanTestWindow.xaml.cs:78 | Evicting the oldest row keeps the grid consistent, and the table keeps the evicted address |
| ScanTest.NamedAdd | Views/ScanTestWindow.xaml.cs:63-73 | Every table row stays named after its address |
| ScanTest.ScanTestWindow.constructor | Views/ScanTestWindow.xaml.cs:20-34 | The grid and both tables start empty |
| ScanTest.ScanTestWindow.OnDeviceFound | Views/ScanTestWindow.xaml.cs:49-80 | A result at or below -120 dBm changes nothing. Otherwise the latest reading is overwritten, and a row is created only for an address without one. The grid stays within 500 rows, dropping the oldest on overflow |
| ScanTest.ScanTestWindow.EnsureRow | Views/ScanTestWindow.xaml.cs:59-79 | A known address changes nothing. A new one is filed in the table, and the grid becomes the newest 500 of the old rows followed by the new one |
| ScanTest.ScanTestWindow.StartScan | Views/ScanTestWindow.xaml.cs:113-119 | The grid, the row table and the latest readings are all emptied |

## Left out

- **Connection lifecycle.** `ConnectToDeviceAsync`, `FetchCharAsync`, `EnableNotifyAsync`, `Disconnect` and `Dispose` of `BleService` are GATT calls with delays and retries. `Connected` only records their outcome: a device, and a control characteristic or none.
- **Timing and concurrency:**
  - `StartInactivityMonitor` and its cancellation are reduced to `CompleteDownload`, the quiet-window completion.
  - The UI batcher's timer and its 512-item list are left out.
  - The throttler's timer and its `Dispose` are left out.
  - Every `Dispatcher.BeginInvoke` callback is taken to run at once, in order.
  - `Interlocked` and `ConcurrentQueue` are taken to be sequential.
- **Awaited answers.** Where a handler awaits a command's answer, the continuation is modelled as its own step:
  - `ListFilesAsync` is `ListFiles` followed by `OnFileTable` on the answer;
  - `StartStretchStreamAsync` and `StopStretchStreamAsync` finish without waiting for the answer;
  - `DownloadFileAsync`'s wait for the writer to close is not modelled.
- **The battery GATT session and the battery CSV file.** The percentage read is a parameter. A CSV row is a `BatteryRow` value; the file, its name and its header line are not modelled.
- **Data-stream log lines.** The log text of each record type, and the exception path of the data-stream handler, are not modelled. The records themselves are.
- **ControlCharacteristic_ValueChanged on fewer than 4 bytes.** The reader throws inside an `async void` handler. The model changes nothing.
- **`Log.Info` file logging** in `OnLogMessage`, and the view model's other properties, are not modelled.
- **Floating point:**
  - chart doubles are exact reals, and the `double.MaxValue`/`MinValue` sentinels are `None`;
  - `MapValue`, `CalculateAltitude`, the IMU averages fed to the charts, and the RSSI moving average of the scan window are left out;
  - `CounterToTimeString` on infinite or NaN values is left out.
- AxisScaling.AxisFor: states the increment and the tick clamp, not that the floor/ceiling bounds cover the data; `AxisCanEndBelowData` shows that ten ticks may end below it.
- DualCharts.DualSeriesChart.Clear: requires a non-empty `YAxisIncrements` table. Indexing the first entry of an empty table throws, after the buffer and the counters have already been reset.
- DualCharts.DualSeriesChart.Paint: requires a non-empty table, and positive increments when the axis scales itself. An empty table throws. A zero increment makes the floor and ceiling divisions give infinities or NaN, which exact reals cannot express. A negative one gives an axis that runs downwards, which no chart of the program configures.
- DualCharts.DualSeriesChart.AdaptScale: requires a non-empty table of positive increments, for the same reason as `Paint`.
- AxisScaling.SelectIncrement: requires a non-empty table, because the loop starts from its first entry.
- SkiaCharts.RingBuffer.Add: requires a non-empty array. With capacity 0 the source throws, and both controls create 10000 slots.
- DualCharts.DualRingBuffer.Add: requires a non-empty array, for the same reason.
- SkiaCharts.RingBuffer.GetVisibleData: returns a sequence rather than a freshly allocated array.
- DualCharts.DualRingBuffer.GetVisibleData: returns a sequence, the same one for both series, which matches the source returning the same array twice.
- BoundedCollections.BoundedCollection.AddRange: states nothing when `Capacity` was lowered below the current count before the call. The source then removes only one element per insert.
- Throttling.ChartThrottler.Invoke: `TotalMilliseconds` is compared exactly on whole ticks (10000 per millisecond). The rounding of a double is not modelled.
- MainWindow.MainWindowViewModel.OnExtendedDataReceived: models only the down-sampling counter. The latest-value properties and the chart points are not modelled.
- MainWindow.MainWindowViewModel.StartActivity: models only the counter reset. The chart clears, data logging and the command are not modelled.
- **Text:**
  - `ToLowerInvariant` is modelled on ASCII letters only;
  - `DateTime` text in `HardwareInfo.ToString` is passed in;
  - the clock fields of the log stamp are parameters.
- **Null checks.** The constructors' `ArgumentNullException` checks in the UI batcher, throttler and disposer cannot arise: the model has no null actions.
- **ScanTestWindow.** `RefreshRowsFromLatest` (the RSSI smoothing timer), `StopScan_Click`, and the battery connection and notifications are left out. `ParseBattery` is modelled; the connection around it is not.
- HardwareInfos.Parse: requires at least 22 bytes. `GetHardwareInfo` passes the device's answer to `Parse` unchecked, and `Marshal.PtrToStructure` then reads past a shorter array (Models/HardwareInfo.cs:20-25). What it reads there is whatever memory follows, which a value model cannot express. `GetHardwareInfo` itself is not part of this model.
- **Not part of this model:** `MadgwickAHRS`, `PerformanceMonitor`, `BleScanner`, the loggers, and the UI glue.

## Findings

| source | as written | input that shows it | evidently intended | confidence | as-written member | corrected member |
|---|---|---|---|---|---|---|
| Services/BleService.cs:734-735 | `ListFilesAsync` hands `data.Skip(j).Take(12)` to `Marshal.PtrToStructure` for every j below the length, so a trailing chunk of fewer than 12 bytes is read as a whole entry, past the end of its array | a 13-byte answer: the second chunk has 1 byte | one entry per complete 12-byte chunk, any trailing partial chunk ignored | medium, not executed | BleServices.ThirteenByteAnswerOverReads | BleServices.BleService.OnFileTable |

- **As written.** `BleServices.ListedChunks` models the loop as written. `BleServices.ListedChunksWhole` proves that it over-reads exactly when the answer's length is not a multiple of 12.
- **Corrected.** `BleServices.BleService.OnFileTable` builds `FileEntries.Entries`, which takes only complete chunks. `FileEntries.EntriesOfEncodeTable` and `FileEntries.EncodeTableOfEntries` prove its round trip.
