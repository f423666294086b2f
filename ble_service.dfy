/**
 * The stateful protocol engine `BleService`: scanning for advertisements,
 * sending tagged commands on the control characteristic and matching the
 * responses, the data-stream notifications, the file table, and the
 * file-download stream written to a decoded text file.
 *
 * Platform calls become inputs and outputs: a write to the control
 * characteristic is appended to `outbox`; a `TaskCompletionSource` is a
 * command number that `resolved` maps to its response payload once the
 * response arrives; the decoded-file writer is the sequence of its lines;
 * the clock, the file system and the battery-level read are parameters.
 */
module BleServices {
  import opened Bytes
  import opened Text
  import opened Wrappers
  import opened Protocol
  import opened FileEntries
  import opened DeviceNames
  import Telemetry
  import opened Download

  /** A row of `DiscoveredDevices`: the address text, the name and the last signal strength. */
  datatype Device = Device(address: string, name: string, rssi: int)

  /** One row of the battery CSV: elapsed `hh:mm`, the charge as an `int`, the battery percentage. */
  datatype BatteryRow = BatteryRow(elapsed: string, charge: int, percent: Option<U8>)

  /** `(int)chargeValue`: an unchecked `uint` to `int` conversion, negative from 2^31 on. */
  function ChargeAsInt(c: U32): (r: int)
    ensures -0x8000_0000 <= r < 0x8000_0000
    ensures c < 0x8000_0000 ==> r == c
    ensures c >= 0x8000_0000 ==> r == c - 0x1_0000_0000 && r < 0
  {
    if c < 0x8000_0000 then c else c - 0x1_0000_0000
  }

  /**
   * What `Log` is called with. Most lines carry values; `Message` renders
   * each one as the handler formats it.
   */
  datatype Event =
    | Sent(opcode: U16, tag: U16)
    | Response(code: U16, sentOpcode: Option<U16>)
    | Battery(charge: U32, percent: Option<U8>)
    | ShortBattery(length: nat)
    | Discovered(name: string, rssi: int)
    | DownloadingFile(timestamp: U32)
    | FileCount(count: nat)
    | StretchTo(fileName: string)
    | Note(text: string)

  function Message(e: Event): string
  {
    match e
    case Sent(op, tag) => "Sent 0x" + PadLeft(HexString(op), 4, '0') + " tag " + NatToString(tag)
    case Response(code, sent) => ResponseLogLine(code, sent)
    case Battery(charge, percent) =>
      "🔋 Battery Status → Charge: " + NatToString(charge) + ", Battery: "
      + (match percent case Some(p) => NatToString(p) case None => "—") + "%"
    case ShortBattery(length) => "⚠️ Battery Status received but payload too short (length=" + NatToString(length) + ")"
    case Discovered(name, rssi) => "Discovered device: " + name + " (RSSI " + IntToString(rssi) + ")"
    case DownloadingFile(ts) => "Downloading file [" + NatToString(ts) + "]"
    case FileCount(n) => "File list: " + NatToString(n)
    case StretchTo(fn) => "Streaming stretch to " + fn
    case Note(text) => text
  }

  /** The opcode of a sent command appears as exactly four upper-case hexadecimal digits. */
  lemma SentMessageDigits(op: U16, tag: U16)
    ensures Message(Sent(op, tag)) == "Sent 0x" + HexDigitsR(op, 4) + " tag " + NatToString(tag)
    ensures HexValue(HexDigitsR(op, 4)) == op
  {
    PadLeftHex(op, 4);
    HexDigitsRValue(op, 4);
    Pow16Four();
  }

  /** The line written to the stretch file for a stretch record. */
  function StretchLine(counter: U32, value: U16): string
  {
    NatToString(counter) + "," + NatToString(value) + "\n"
  }

  /** The stretch file name: the device name with `:` and ` ` replaced by `_`, the epoch, `_raw.txt`. */
  function StretchFileName(deviceName: string, epoch: U32): (fn: string)
  {
    Safe(deviceName) + "_" + NatToString(epoch) + "_raw.txt"
  }

  function Safe(s: string): (r: string)
    ensures |r| == |s|
    ensures forall i :: 0 <= i < |r| ==> r[i] != ':' && r[i] != ' '
    ensures forall i :: 0 <= i < |s| ==> if s[i] == ':' || s[i] == ' ' then r[i] == '_' else r[i] == s[i]
  {
    seq(|s|, i requires 0 <= i < |s| => if s[i] == ':' || s[i] == ' ' then '_' else s[i])
  }

  /**
   * The chunks `ListFilesAsync` hands to `Marshal.PtrToStructure`, as
   * written: `data.Skip(j).Take(12)` for `j = 0, 12, 24, …` below the
   * length, so the last chunk is shorter than an entry when the length is
   * not a multiple of 12.
   */
  function ListedChunks(data: seq<byte>): (cs: seq<seq<byte>>)
    decreases |data|
  {
    if |data| == 0 then []
    else if |data| <= EntrySize then [data]
    else [data[..EntrySize]] + ListedChunks(data[EntrySize..])
  }

  /** A chunk shorter than the 12 bytes the struct occupies: reading the entry runs past the array. */
  predicate OverReads(chunks: seq<seq<byte>>)
  {
    exists k :: 0 <= k < |chunks| && |chunks[k]| < EntrySize
  }

  /** A 13-byte answer makes the as-written loop marshal a 1-byte chunk as a 12-byte entry. */
  lemma ThirteenByteAnswerOverReads(data: seq<byte>)
    requires |data| == 13
    ensures |ListedChunks(data)| == 2 && |ListedChunks(data)[1]| == 1
    ensures OverReads(ListedChunks(data))
  {
    assert ListedChunks(data[EntrySize..]) == [data[EntrySize..]];
  }

  /** Every chunk is a whole entry exactly when the answer's length is a multiple of 12. */
  lemma {:induction false} ListedChunksWhole(data: seq<byte>)
    ensures OverReads(ListedChunks(data)) <==> |data| % EntrySize != 0
    decreases |data|
  {
    var cs := ListedChunks(data);
    if |data| == 0 {
    } else if |data| <= EntrySize {
      assert cs[0] == data;
      if |data| < EntrySize {
        DivUnique(|data|, EntrySize, 0, |data|);
      } else {
        DivUnique(|data|, EntrySize, 1, 0);
      }
    } else {
      var rest := data[EntrySize..];
      ListedChunksWhole(rest);
      DivUnique(|data|, EntrySize, |rest| / EntrySize + 1, |rest| % EntrySize);
      assert cs == [data[..EntrySize]] + ListedChunks(rest);
      if OverReads(ListedChunks(rest)) {
        var k :| 0 <= k < |ListedChunks(rest)| && |ListedChunks(rest)[k]| < EntrySize;
        assert cs[k + 1] == ListedChunks(rest)[k];
      }
      if OverReads(cs) {
        var k :| 0 <= k < |cs| && |cs[k]| < EntrySize;
        assert k > 0 && cs[k] == ListedChunks(rest)[k - 1];
      }
    }
  }

  /** Moving the next element from the part still to do to the part done. */
  lemma AppendAssoc<T>(done: seq<T>, x: T, rest: seq<T>)
    ensures (done + [x]) + rest == done + ([x] + rest)
  {
  }

  predicate Distinct(s: seq<U64>)
  {
    forall i, j :: 0 <= i < j < |s| ==> s[i] != s[j]
  }

  /**
   * The response tables: `pendingResponses` and `tagToOpcode` have the same
   * tags, each pending tag waits for its own command, and no waiting
   * command has been answered yet.
   */
  predicate TagsInv(pending: map<U16, nat>, opcodes: map<U16, U16>, count: nat, resolved: map<nat, seq<byte>>)
  {
    pending.Keys == opcodes.Keys
    && (forall t :: t in pending ==> pending[t] < count && pending[t] !in resolved)
    && (forall t, u :: t in pending && u in pending && t != u ==> pending[t] != pending[u])
    && (forall id :: id in resolved ==> id < count)
  }

  /** Registering a new command under a tag keeps the tables consistent, even when the tag is reused. */
  lemma RegisterKeeps(pending: map<U16, nat>, opcodes: map<U16, U16>, count: nat, resolved: map<nat, seq<byte>>, tag: U16, op: U16)
    requires TagsInv(pending, opcodes, count, resolved)
    ensures TagsInv(pending[tag := count], opcodes[tag := op], count + 1, resolved)
  {
  }

  /** Answering the command a tag waits for keeps the tables consistent. */
  lemma ResolveKeeps(pending: map<U16, nat>, opcodes: map<U16, U16>, count: nat, resolved: map<nat, seq<byte>>, tag: U16, payload: seq<byte>)
    requires TagsInv(pending, opcodes, count, resolved) && tag in pending
    ensures TagsInv(pending - {tag}, opcodes - {tag}, count, resolved[pending[tag] := payload])
  {
  }

  /** A new address is appended to the rows and added to the map. */
  lemma AddKeeps(m: map<U64, Device>, d: seq<U64>, a: U64, dev: Device)
    requires DevicesInv(m, d) && a !in m
    ensures DevicesInv(m[a := dev], d + [a])
  {
  }

  /** Updating the row of a known address changes no address. */
  lemma UpdateKeeps(m: map<U64, Device>, d: seq<U64>, a: U64, dev: Device)
    requires DevicesInv(m, d) && a in m
    ensures DevicesInv(m[a := dev], d)
  {
  }

  /**
   * The device rows in the order they were found, and the map from address
   * to row: they hold the same addresses, and no address is listed twice.
   */
  predicate DevicesInv(m: map<U64, Device>, d: seq<U64>)
  {
    (forall a :: a in m ==> a in d) && (forall i :: 0 <= i < |d| ==> d[i] in m) && Distinct(d)
  }

  class BleService {
    // Scanning.
    var scanning: bool
    var deviceMap: map<U64, Device>
    var discovered: seq<U64>

    // The connection, as far as this model sees it.
    var hasDevice: bool
    var hasControl: bool

    // Command and response tracking.
    var nextTagId: U16
    var pendingResponses: map<U16, nat>
    var tagToOpcode: map<U16, U16>
    var commandCount: nat
    var resolved: map<nat, seq<byte>>
    var outbox: seq<seq<byte>>
    var log: seq<Event>

    // Battery.
    var batteryStart: Option<int>
    var batteryRows: seq<BatteryRow>

    // Data stream.
    /** One entry per `DataStreamUpdated("Updated")` firing: the record decoded from that notification. */
    var updates: seq<Telemetry.Record>
    var stretchOpen: bool
    var stretchFile: string
    var stretchLines: seq<string>

    // File table and download.
    var fileList: seq<FileEntry>
    var streamingBuffer: seq<byte>
    var writerOpen: bool
    var downloadPath: string
    var written: seq<Line>
    var headers: Headers

    /** The tag tables and the command numbers keep `TagsInv`. */
    predicate TagsValid()
      reads this`pendingResponses, this`tagToOpcode, this`commandCount, this`resolved
    {
      TagsInv(pendingResponses, tagToOpcode, commandCount, resolved)
    }

    /** The device rows and the address map hold the same addresses, each once. */
    predicate DevicesValid()
      reads this`deviceMap, this`discovered
    {
      DevicesInv(deviceMap, discovered)
    }

    /** Between notifications the download buffer holds at most the start of one record. */
    predicate BufferValid()
      reads this`streamingBuffer
    {
      Residue(streamingBuffer)
    }

    /** Each section header is in the decoded file once its flag is set, and never before. */
    predicate HeadersValid()
      reads this`written, this`headers
    {
      HeadersCounted(written, headers)
    }

    /**
     * What every handler keeps. Each part reads only its own fields, so a
     * handler states the parts over the fields it changes and keeps the
     * others by not touching them.
     */
    predicate Valid()
      reads this`pendingResponses, this`tagToOpcode, this`commandCount, this`resolved
      reads this`deviceMap, this`discovered, this`streamingBuffer
    {
      TagsValid() && DevicesValid() && BufferValid()
    }

    /** `DiscoveredDevices`: the rows share their objects with `_deviceMap`, so an update shows in both. */
    function DiscoveredDevices(): (ds: seq<Device>)
      requires DevicesValid()
      reads this`deviceMap, this`discovered
      ensures |ds| == |discovered|
      ensures forall i :: 0 <= i < |ds| ==> ds[i] == deviceMap[discovered[i]]
    {
      var m, d := deviceMap, discovered;
      seq(|d|, i requires 0 <= i < |d| && d[i] in m => m[d[i]])
    }

    constructor ()
      ensures Valid() && HeadersValid()
      ensures !scanning && deviceMap == map[] && discovered == []
      ensures !hasDevice && !hasControl
      ensures nextTagId == 1 && pendingResponses == map[] && tagToOpcode == map[]
      ensures commandCount == 0 && resolved == map[] && outbox == [] && log == []
      ensures batteryStart.None? && batteryRows == []
      ensures updates == [] && !stretchOpen && stretchLines == []
      ensures fileList == [] && streamingBuffer == [] && !writerOpen && written == [] && headers == NoHeaders
    {
      scanning, deviceMap, discovered := false, map[], [];
      hasDevice, hasControl := false, false;
      nextTagId, pendingResponses, tagToOpcode := 1, map[], map[];
      commandCount, resolved, outbox, log := 0, map[], [], [];
      batteryStart, batteryRows := None, [];
      updates, stretchOpen, stretchFile, stretchLines := [], false, "", [];
      fileList, streamingBuffer, writerOpen, downloadPath, written, headers := [], [], false, "", [], NoHeaders;
    }

    /**
     * What `ConnectToDeviceAsync` leaves behind for this model: a device,
     * a control characteristic or none, and a fresh battery time base.
     */
    method Connected(control: bool)
      modifies this`hasDevice, this`hasControl, this`batteryStart, this`scanning
      ensures hasDevice && hasControl == control && batteryStart.None? && !scanning
    {
      scanning := false;
      hasDevice, hasControl := true, control;
      batteryStart := None;
    }

    /** `StartScanning()`: a scan that is not running starts with an empty device list. */
    method StartScanning()
      requires DevicesValid()
      modifies this`scanning, this`deviceMap, this`discovered, this`log
      ensures DevicesValid()
      ensures old(scanning) ==> deviceMap == old(deviceMap) && discovered == old(discovered) && log == old(log) && scanning
      ensures !old(scanning) ==> deviceMap == map[] && discovered == [] && scanning && log == old(log) + [Note("🔍 BLE scan started")]
    {
      if !scanning {
        deviceMap, discovered := map[], [];
        scanning := true;
        log := log + [Note("🔍 BLE scan started")];
      }
    }

    method StopScanning()
      modifies this`scanning, this`log
      ensures !scanning && log == old(log) + [Note("Stopped scanning for BLE devices.")]
    {
      scanning := false;
      log := log + [Note("Stopped scanning for BLE devices.")];
    }

    /**
     * The watcher's `Stopped` event, raised after `Stop` and also when the
     * watcher stops on its own: the scan is over and the stop is logged.
     */
    method OnWatcherStopped()
      modifies this`scanning, this`log
      ensures !scanning && log == old(log) + [Note("Scan stopped.")]
    {
      scanning := false;
      log := log + [Note("Scan stopped.")];
    }

    /**
     * `OnAdvertisementReceived`: advertisements without the TYME service are
     * ignored; a new address gets one row named after its address, a known
     * address only has its signal strength updated.
     */
    method OnAdvertisement(hasService: bool, address: U64, rssi: int)
      requires DevicesValid()
      modifies this`deviceMap, this`discovered, this`log
      ensures DevicesValid()
      ensures !hasService ==> deviceMap == old(deviceMap) && discovered == old(discovered) && log == old(log)
      ensures hasService && address !in old(deviceMap) ==>
        deviceMap == old(deviceMap)[address := Device(AddressText(address), AdvertName(address), rssi)]
        && discovered == old(discovered) + [address]
        && log == old(log) + [Discovered(AdvertName(address), rssi)]
      ensures hasService && address in old(deviceMap) ==>
        deviceMap == old(deviceMap)[address := old(deviceMap)[address].(rssi := rssi)]
        && discovered == old(discovered) && log == old(log)
    {
      if !hasService {
        return;
      }
      var name := AdvertName(address);
      if address !in deviceMap {
        AddKeeps(deviceMap, discovered, address, Device(AddressText(address), name, rssi));
        deviceMap := deviceMap[address := Device(AddressText(address), name, rssi)];
        discovered := discovered + [address];
        log := log + [Discovered(name, rssi)];
      } else {
        UpdateKeeps(deviceMap, discovered, address, deviceMap[address].(rssi := rssi));
        deviceMap := deviceMap[address := deviceMap[address].(rssi := rssi)];
      }
    }

    /**
     * `SendControlCommandAsync`: without a control characteristic it fails
     * and changes nothing. Otherwise it takes the current tag, advances the
     * counter, registers the tag in both tables and writes the envelope. The
     * result is the number of the command whose answer `resolved` will hold.
     */
    method SendControlCommand(opcode: U16, param: Option<U32>) returns (r: Option<nat>)
      requires TagsValid()
      modifies this`nextTagId, this`pendingResponses, this`tagToOpcode, this`commandCount, this`outbox, this`log
      ensures TagsValid()
      ensures !hasControl ==>
        (r.None? && nextTagId == old(nextTagId) && pendingResponses == old(pendingResponses)
        && tagToOpcode == old(tagToOpcode) && commandCount == old(commandCount) && outbox == old(outbox) && log == old(log))
      ensures hasControl ==> var tag := old(nextTagId);
        r == Some(old(commandCount)) && nextTagId == NextTag(tag)
        && pendingResponses == old(pendingResponses)[tag := old(commandCount)]
        && tagToOpcode == old(tagToOpcode)[tag := opcode]
        && commandCount == old(commandCount) + 1
        && outbox == old(outbox) + [Envelope(Command(opcode, tag, param))]
        && log == old(log) + [Sent(opcode, tag)]
    {
      if !hasControl {
        return None;
      }
      var tag := nextTagId;
      nextTagId := NextTag(nextTagId);
      var cmd := Envelope(Command(opcode, tag, param));
      var id := Register(tag, opcode);
      outbox := outbox + [cmd];
      log := log + [Sent(opcode, tag)];
      r := Some(id);
    }

    /** `pendingResponses[tag] = tcs; tagToOpcode[tag] = opcode;` for a new completion source numbered `id`. */
    method Register(tag: U16, opcode: U16) returns (id: nat)
      requires TagsValid()
      modifies this`pendingResponses, this`tagToOpcode, this`commandCount
      ensures TagsValid()
      ensures id == old(commandCount) && commandCount == id + 1
      ensures pendingResponses == old(pendingResponses)[tag := id] && tagToOpcode == old(tagToOpcode)[tag := opcode]
    {
      id := commandCount;
      RegisterKeeps(pendingResponses, tagToOpcode, commandCount, resolved, tag, opcode);
      commandCount := commandCount + 1;
      pendingResponses := pendingResponses[tag := id];
      tagToOpcode := tagToOpcode[tag := opcode];
    }

    /** Completing the source a pending tag waits for: both tables forget the tag. */
    method Resolve(tag: U16, payload: seq<byte>)
      requires TagsValid() && tag in pendingResponses
      modifies this`pendingResponses, this`tagToOpcode, this`resolved
      ensures TagsValid()
      ensures pendingResponses == old(pendingResponses) - {tag} && tagToOpcode == old(tagToOpcode) - {tag}
      ensures resolved == old(resolved)[old(pendingResponses)[tag] := payload]
    {
      var id := pendingResponses[tag];
      ResolveKeeps(pendingResponses, tagToOpcode, commandCount, resolved, tag, payload);
      pendingResponses := pendingResponses - {tag};
      tagToOpcode := tagToOpcode - {tag};
      resolved := resolved[id := payload];
    }

    /**
     * `ControlCharacteristic_ValueChanged`. A notification shorter than its
     * 4-byte header makes the reader throw and changes nothing. A `0x4002`
     * battery-status push only logs and appends a battery row; any other
     * code logs the response and resolves the pending command of its tag.
     * `now` is the clock in `TimeSpan` ticks and `percent` the result of
     * the battery-level read.
     */
    method OnControlNotification(value: seq<byte>, now: int, percent: Option<U8>)
      requires TagsValid()
      modifies this`pendingResponses, this`tagToOpcode, this`resolved, this`log, this`batteryStart, this`batteryRows
      ensures TagsValid()
      ensures |value| < 4 ==>
        (pendingResponses == old(pendingResponses) && tagToOpcode == old(tagToOpcode)
        && resolved == old(resolved) && log == old(log) && batteryStart == old(batteryStart) && batteryRows == old(batteryRows))
      ensures |value| >= 4 && U16At(value, 0) == BatteryStatusCode ==>
        pendingResponses == old(pendingResponses) && tagToOpcode == old(tagToOpcode) && resolved == old(resolved)
      ensures |value| >= 4 && U16At(value, 0) == BatteryStatusCode && |value| < 8 ==>
        batteryStart == old(batteryStart) && batteryRows == old(batteryRows) && log == old(log) + [ShortBattery(|value| - 4)]
      ensures |value| >= 8 && U16At(value, 0) == BatteryStatusCode ==>
        var start := if old(batteryStart).Some? then old(batteryStart).value else now;
        var charge := U32At(value[4..], 0);
        batteryStart == Some(start)
        && batteryRows == old(batteryRows) + [BatteryRow(ElapsedText(RoundMinutes(now - start)), ChargeAsInt(charge), percent)]
        && log == old(log) + [Battery(charge, percent)]
      ensures |value| >= 4 && U16At(value, 0) != BatteryStatusCode ==>
        var code, tag := U16At(value, 0), U16At(value, 2);
        batteryStart == old(batteryStart) && batteryRows == old(batteryRows)
        && log == old(log) + [Response(code, if tag in old(tagToOpcode) then Some(old(tagToOpcode)[tag]) else None)]
        && (tag in old(pendingResponses) ==>
              pendingResponses == old(pendingResponses) - {tag} && tagToOpcode == old(tagToOpcode) - {tag}
              && resolved == old(resolved)[old(pendingResponses)[tag] := value[4..]])
        && (tag !in old(pendingResponses) ==>
              pendingResponses == old(pendingResponses) && tagToOpcode == old(tagToOpcode) && resolved == old(resolved))
    {
      if |value| < 4 {
        return;
      }
      var respCode := U16At(value, 0);
      var tagOrCounter := U16At(value, 2);
      var payload := value[4..];
      if respCode == BatteryStatusCode {
        if |payload| >= 4 {
          var chargeValue := U32At(payload, 0);
          if batteryStart.None? {
            batteryStart := Some(now);
          }
          var elapsed := now - batteryStart.value;
          var hhmm := ElapsedText(RoundMinutes(elapsed));
          batteryRows := batteryRows + [BatteryRow(hhmm, ChargeAsInt(chargeValue), percent)];
          log := log + [Battery(chargeValue, percent)];
        } else {
          log := log + [ShortBattery(|payload|)];
        }
        return;
      }
      var sent := if tagOrCounter in tagToOpcode then Some(tagToOpcode[tagOrCounter]) else None;
      log := log + [Response(respCode, sent)];
      if tagOrCounter in pendingResponses {
        Resolve(tagOrCounter, payload);
      }
    }

    /**
     * `DataStreamCharacteristic_ValueChanged`: a dropped notification changes
     * nothing; any other fires `DataStreamUpdated("Updated")`, whose decoded
     * record `updates` records, and a stretch record is also written to the
     * stretch file when one is open.
     */
    method OnDataStream(raw: seq<byte>)
      modifies this`updates, this`stretchLines
      ensures Telemetry.Decode(raw).Dropped? ==> updates == old(updates) && stretchLines == old(stretchLines)
      ensures Telemetry.Decode(raw).Decoded? ==> var r := Telemetry.Decode(raw).record;
        updates == old(updates) + [r]
        && stretchLines == old(stretchLines) + (if r.Stretch? && stretchOpen then [StretchLine(r.counter, r.value)] else [])
    {
      var o := Telemetry.Decode(raw);
      if o.Dropped? {
        return;
      }
      var r := o.record;
      if r.Stretch? && stretchOpen {
        stretchLines := stretchLines + [StretchLine(r.counter, r.value)];
      }
      updates := updates + [r];
    }

    /** `StartStretchStreamAsync`: needs a device and a control characteristic; opens an empty stretch file. */
    method StartStretchStream(deviceName: string, epoch: U32) returns (r: Option<nat>)
      requires TagsValid()
      modifies this`stretchOpen, this`stretchFile, this`stretchLines
      modifies this`nextTagId, this`pendingResponses, this`tagToOpcode, this`commandCount, this`outbox, this`log
      ensures TagsValid()
      ensures !(hasDevice && hasControl) ==>
        (r.None? && stretchOpen == old(stretchOpen) && stretchFile == old(stretchFile) && stretchLines == old(stretchLines)
        && nextTagId == old(nextTagId) && pendingResponses == old(pendingResponses)
        && tagToOpcode == old(tagToOpcode) && commandCount == old(commandCount)
        && outbox == old(outbox) && log == old(log) + [Note("Not connected")])
      ensures hasDevice && hasControl ==> var fn := StretchFileName(deviceName, epoch);
        stretchOpen && stretchFile == fn && stretchLines == []
        && r == Some(old(commandCount)) && nextTagId == NextTag(old(nextTagId)) && commandCount == old(commandCount) + 1
        && pendingResponses == old(pendingResponses)[old(nextTagId) := old(commandCount)]
        && tagToOpcode == old(tagToOpcode)[old(nextTagId) := StartStretch]
        && outbox == old(outbox) + [Envelope(Command(StartStretch, old(nextTagId), None))]
        && log == old(log) + [Sent(StartStretch, old(nextTagId))] + [StretchTo(fn)]
    {
      if !hasDevice || !hasControl {
        log := log + [Note("Not connected")];
        return None;
      }
      var fn := StretchFileName(deviceName, epoch);
      stretchOpen, stretchFile, stretchLines := true, fn, [];
      r := SendControlCommand(StartStretch, None);
      log := log + [StretchTo(fn)];
    }

    /** `StopStretchStreamAsync`: without a control characteristic nothing happens; otherwise the file is closed. */
    method StopStretchStream() returns (r: Option<nat>)
      requires TagsValid()
      modifies this`stretchOpen
      modifies this`nextTagId, this`pendingResponses, this`tagToOpcode, this`commandCount, this`outbox, this`log
      ensures TagsValid()
      ensures !hasControl ==>
        (r.None? && stretchOpen == old(stretchOpen)
        && nextTagId == old(nextTagId) && pendingResponses == old(pendingResponses)
        && tagToOpcode == old(tagToOpcode) && commandCount == old(commandCount)
        && outbox == old(outbox) && log == old(log))
      ensures hasControl ==>
        (!stretchOpen && r == Some(old(commandCount))
        && nextTagId == NextTag(old(nextTagId)) && commandCount == old(commandCount) + 1
        && pendingResponses == old(pendingResponses)[old(nextTagId) := old(commandCount)]
        && tagToOpcode == old(tagToOpcode)[old(nextTagId) := StopStretch]
        && outbox == old(outbox) + [Envelope(Command(StopStretch, old(nextTagId), None))]
        && log == old(log) + [Sent(StopStretch, old(nextTagId))] + [Note("Stopped stretch stream.")])
    {
      if !hasControl {
        return None;
      }
      r := SendControlCommand(StopStretch, None);
      stretchOpen := false;
      log := log + [Note("Stopped stretch stream.")];
    }

    /** `ListFilesAsync`, first half: ask for the file table. */
    method ListFiles() returns (r: Option<nat>)
      requires TagsValid()
      modifies this`nextTagId, this`pendingResponses, this`tagToOpcode, this`commandCount, this`outbox, this`log
      ensures TagsValid()
      ensures !hasControl ==>
        (r.None? && nextTagId == old(nextTagId) && pendingResponses == old(pendingResponses)
        && tagToOpcode == old(tagToOpcode) && commandCount == old(commandCount)
        && outbox == old(outbox) && log == old(log))
      ensures hasControl ==>
        (r == Some(old(commandCount))
        && nextTagId == NextTag(old(nextTagId)) && commandCount == old(commandCount) + 1
        && pendingResponses == old(pendingResponses)[old(nextTagId) := old(commandCount)]
        && tagToOpcode == old(tagToOpcode)[old(nextTagId) := Protocol.ListFiles]
        && outbox == old(outbox) + [Envelope(Command(Protocol.ListFiles, old(nextTagId), None))]
        && log == old(log) + [Sent(Protocol.ListFiles, old(nextTagId))])
    {
      r := SendControlCommand(Protocol.ListFiles, None);
    }

    /**
     * `ListFilesAsync`, second half, on the answer's payload: the table is
     * rebuilt from the complete 12-byte chunks. (The source also marshals a
     * trailing partial chunk, reading past the array.)
     */
    method OnFileTable(data: seq<byte>)
      modifies this`fileList, this`log
      ensures fileList == Entries(data)
      ensures log == old(log) + [FileCount(|data| / EntrySize)]
    {
      fileList := [];
      var j := 0;
      while j + EntrySize <= |data|
        invariant j <= |data|
        invariant fileList + Entries(data[j..]) == Entries(data)
        invariant log == old(log)
        decreases |data| - j
      {
        var chunk := data[j..j + EntrySize];
        EntriesAt(data, j);
        AppendAssoc(fileList, Decode(chunk), Entries(data[j + EntrySize..]));
        fileList := fileList + [Decode(chunk)];
        j := j + EntrySize;
      }
      assert Entries(data[j..]) == [];
      assert fileList == Entries(data);
      log := log + [FileCount(|fileList|)];
    }

    /**
     * `DownloadFileAsync`: opens the first free file name, empties the
     * stream buffer, clears the three header flags and asks for the file.
     * `existing` is the set of paths the file system holds.
     */
    method DownloadFile(file: FileEntry, existing: set<string>) returns (path: string, r: Option<nat>)
      requires TagsValid() && BufferValid()
      modifies this`writerOpen, this`downloadPath, this`written, this`streamingBuffer, this`headers
      modifies this`nextTagId, this`pendingResponses, this`tagToOpcode, this`commandCount, this`outbox, this`log
      ensures TagsValid() && BufferValid() && HeadersValid()
      ensures path !in existing && (exists c: nat :: path == Candidate(file.timestamp, c) && forall i :: 0 <= i < c ==> Candidate(file.timestamp, i) in existing)
      ensures writerOpen && downloadPath == path && written == [] && streamingBuffer == [] && headers == NoHeaders
      ensures !hasControl ==>
        (r.None? && nextTagId == old(nextTagId) && pendingResponses == old(pendingResponses)
        && tagToOpcode == old(tagToOpcode) && commandCount == old(commandCount)
        && outbox == old(outbox) && log == old(log) + [DownloadingFile(file.timestamp)])
      ensures hasControl ==>
        (r == Some(old(commandCount))
        && nextTagId == NextTag(old(nextTagId)) && commandCount == old(commandCount) + 1
        && pendingResponses == old(pendingResponses)[old(nextTagId) := old(commandCount)]
        && tagToOpcode == old(tagToOpcode)[old(nextTagId) := DataDump]
        && outbox == old(outbox) + [Envelope(Command(DataDump, old(nextTagId), Some(file.timestamp)))]
        && log == old(log) + [DownloadingFile(file.timestamp)] + [Sent(DataDump, old(nextTagId))])
    {
      path := OpenDownload(file, existing);
      r := SendControlCommand(DataDump, Some(file.timestamp));
    }

    /** The part of `DownloadFileAsync` before the request: the writer, the buffer, the flags and the log line. */
    method OpenDownload(file: FileEntry, existing: set<string>) returns (path: string)
      modifies this`writerOpen, this`downloadPath, this`written, this`streamingBuffer, this`headers, this`log
      ensures HeadersValid()
      ensures path !in existing && (exists c: nat :: path == Candidate(file.timestamp, c) && forall i :: 0 <= i < c ==> Candidate(file.timestamp, i) in existing)
      ensures writerOpen && downloadPath == path && written == [] && streamingBuffer == [] && headers == NoHeaders
      ensures log == old(log) + [DownloadingFile(file.timestamp)]
    {
      var c;
      path, c := ChoosePath(file.timestamp, existing);
      assert path == Candidate(file.timestamp, c);
      writerOpen, downloadPath, written := true, path, [];
      streamingBuffer := [];
      headers := NoHeaders;
      log := log + [DownloadingFile(file.timestamp)];
    }

    /** The quiet second after the last download notification: the writer is closed. */
    method CompleteDownload()
      modifies this`writerOpen, this`log
      ensures !writerOpen && log == old(log) + [Note("✅ File download complete.")]
    {
      log := log + [Note("✅ File download complete.")];
      writerOpen := false;
    }

    /** The `switch (t)` of the download loop: the header line the first time a type appears, then the data line. */
    method WriteRecord(t: byte, pl: seq<byte>)
      requires t == 1 || t == 2 || t == 5
      modifies this`written, this`headers
      ensures written == old(written) + RecordLines(Record(t, pl), old(headers))
      ensures headers == Mark(old(headers), t)
    {
      if t == 1 {
        if !headers.breathing {
          written := written + [Header(1)];
          headers := headers.(breathing := true);
        }
        written := written + [Data(Record(1, pl))];
      } else if t == 2 {
        if !headers.imu {
          written := written + [Header(2)];
          headers := headers.(imu := true);
        }
        written := written + [Data(Record(2, pl))];
      } else {
        if !headers.hr {
          written := written + [Header(5)];
          headers := headers.(hr := true);
        }
        written := written + [Data(Record(5, pl))];
      }
    }

    /**
     * `DownloadCharacteristic_ValueChanged`: without an open writer nothing
     * happens. Otherwise the bytes are appended to the buffer, which is
     * drained record by record: the lines of the complete records are
     * written, the buffer keeps only what follows them, and an unknown type
     * byte clears it.
     */
    method OnDownloadNotification(incoming: seq<byte>)
      requires BufferValid() && HeadersValid()
      modifies this`streamingBuffer, this`written, this`headers
      ensures BufferValid() && HeadersValid()
      ensures !writerOpen ==> streamingBuffer == old(streamingBuffer) && written == old(written) && headers == old(headers)
      ensures writerOpen ==> var buf := old(streamingBuffer) + incoming;
        var d := Drain(buf, old(headers));
        written == old(written) + d.lines && headers == d.headers && streamingBuffer == buf[d.stop..]
    {
      if !writerOpen {
        return;
      }
      streamingBuffer := streamingBuffer + incoming;
      DrainBuffer();
      FrameResidue(old(streamingBuffer) + incoming, 0);
      DrainKeepsCounted(old(written), old(streamingBuffer) + incoming, old(headers));
    }

    /** The `while (idx < _streamingBuffer.Count)` loop and the removal of the consumed bytes. */
    method DrainBuffer()
      modifies this`streamingBuffer, this`written, this`headers
      ensures var d := Drain(old(streamingBuffer), old(headers));
        written == old(written) + d.lines && headers == d.headers && streamingBuffer == old(streamingBuffer)[d.stop..]
    {
      var buf := streamingBuffer;
      ghost var h0, w0 := headers, written;
      ghost var whole := FrameFrom(buf, 0);
      ghost var cur := whole;
      assert Drain(buf, h0) == Drained(Lines(whole.records, h0), whole.stop, After(whole.records, h0), whole.desync);
      var idx := 0;
      while idx < |buf|
        invariant idx <= |buf| && cur == FrameFrom(buf, idx)
        invariant cur.stop == whole.stop && cur.desync == whole.desync
        invariant w0 + Lines(whole.records, h0) == written + Lines(cur.records, headers)
        invariant After(whole.records, h0) == After(cur.records, headers)
        invariant streamingBuffer == buf
        decreases |buf| - idx
      {
        var t := buf[idx];
        var len := if t == 1 then 16 else if t == 2 then 12 else if t == 5 then 6 else -1;
        if len < 0 {
          streamingBuffer := [];
          LinesNone(written, headers);
          return;
        }
        assert RecordLength(t) == Some(len);
        if idx + 1 + len > |buf| {
          break;
        }
        var pl := buf[idx + 1..idx + 1 + len];
        ghost var next := FrameFrom(buf, idx + 1 + len);
        FrameStep(buf, idx);
        LinesCons(written, Record(t, pl), next.records, headers);
        idx := idx + 1 + len;
        WriteRecord(t, pl);
        cur := next;
      }
      assert cur == Framed([], idx, false);
      LinesNone(written, headers);
      if idx > 0 {
        streamingBuffer := buf[idx..];
      }
    }
  }
}
