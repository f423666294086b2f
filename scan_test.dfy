/**
 * The scan test window: a grid with one row per advertising address, the
 * latest reading of each address, and the battery level read from a
 * connected device.
 */
module ScanTest {
  import opened Bytes
  import opened Wrappers
  import opened Rings
  import opened DeviceNames

  /** Readings at or below this RSSI are the adapter's bogus sentinel values. */
  const RssiFloor := -120
  /** The grid keeps at most this many rows. */
  const GridCapacity := 500

  /** A scanner result; the timestamp is a clock reading. */
  datatype ScanResult = ScanResult(address: U64, rssi: int, timestamp: int)

  datatype Telemetry = Telemetry(rssi: int, lastSeen: int)

  /** A grid row as it is created; the smoothed RSSI refresh is not modelled. */
  datatype Row = Row(address: U64, name: string, rssi: int, lastSeen: int)

  function NewRow(r: ScanResult): (row: Row)
    ensures row.address == r.address && row.name == TymeName(r.address)
  {
    Row(r.address, TymeName(r.address), r.rssi, r.timestamp)
  }

  /** `ParseBattery`: the first byte capped at 100, or `null` when there is no byte to read. */
  function ParseBattery(buffer: seq<byte>): (percent: Option<int>)
    ensures percent.None? <==> |buffer| == 0
    ensures percent.Some? ==> 0 <= percent.value <= 100
    ensures percent.Some? ==> percent.value == buffer[0] as int || (buffer[0] > 100 && percent.value == 100)
  {
    if |buffer| == 0 then None
    else
      var val := buffer[0] as int;
      Some(if val > 100 then 100 else val)
  }

  /** Any true percentage reads back as itself, whatever follows it. */
  lemma ParseBatteryReadsPercent(p: byte, rest: seq<byte>)
    requires p <= 100
    ensures ParseBattery([p] + rest) == Some(p as int)
  {
  }

  /** Levels above 100 read as full. */
  lemma ParseBatteryCaps(p: byte, rest: seq<byte>)
    requires p > 100
    ensures ParseBattery([p] + rest) == Some(100)
  {
  }

  /** Each row shown is the table's row for its address, and no address is shown twice. */
  ghost predicate Tabled(items: seq<Row>, rows: map<U64, Row>)
  {
    (forall k :: 0 <= k < |items| ==> items[k].address in rows && rows[items[k].address] == items[k]) &&
    (forall i, j :: 0 <= i < j < |items| ==> items[i].address != items[j].address)
  }

  /** Every row of the table is filed under its address and named after it. */
  ghost predicate Named(rows: map<U64, Row>)
  {
    forall a :: a in rows ==> rows[a].address == a && rows[a].name == TymeName(a)
  }

  /** A row for an address not yet in the table can be appended. */
  lemma AppendRowTabled(items: seq<Row>, rows: map<U64, Row>, r: ScanResult)
    requires Tabled(items, rows) && r.address !in rows
    ensures Tabled(items + [NewRow(r)], rows[r.address := NewRow(r)])
  {
    var full := items + [NewRow(r)];
    var rows' := rows[r.address := NewRow(r)];
    forall k | 0 <= k < |full|
      ensures full[k].address in rows' && rows'[full[k].address] == full[k]
    {
      if k < |items| {
        assert full[k] == items[k];
      }
    }
    forall i, j | 0 <= i < j < |full|
      ensures full[i].address != full[j].address
    {
      assert full[i] == items[i];
      if j < |items| {
        assert full[j] == items[j];
      }
    }
  }

  /** Removing the oldest row keeps the rest consistent. */
  lemma DropRowTabled(items: seq<Row>, rows: map<U64, Row>)
    requires Tabled(items, rows) && |items| > 0
    ensures Tabled(items[1..], rows)
  {
    var rest := items[1..];
    assert forall k :: 0 <= k < |rest| ==> rest[k] == items[k + 1];
  }

  lemma NamedAdd(rows: map<U64, Row>, r: ScanResult)
    requires Named(rows)
    ensures Named(rows[r.address := NewRow(r)])
  {
  }

  class ScanTestWindow {
    /** `_latest`: the newest reading per address. */
    var latest: map<U64, Telemetry>
    /** `_rows`: every address that has had a row since the scan started. */
    var rows: map<U64, Row>
    /** `Items`: the grid, oldest row first. */
    var items: seq<Row>

    /** The grid holds at most 500 consistent rows, and the table names each row after its address. */
    ghost predicate Valid()
      reads this
    {
      |items| <= GridCapacity && Tabled(items, rows) && Named(rows)
    }

    constructor ()
      ensures Valid() && latest == map[] && rows == map[] && items == []
    {
      latest := map[];
      rows := map[];
      items := [];
    }

    /** `OnDeviceFound`: a sentinel RSSI is dropped; otherwise the reading is kept and a row ensured. */
    method OnDeviceFound(r: ScanResult)
      requires Valid()
      modifies this`latest, this`rows, this`items
      ensures Valid()
      ensures r.rssi <= RssiFloor ==> latest == old(latest) && rows == old(rows) && items == old(items)
      ensures r.rssi > RssiFloor ==> latest == old(latest)[r.address := Telemetry(r.rssi, r.timestamp)]
      ensures r.rssi > RssiFloor && r.address in old(rows) ==> rows == old(rows) && items == old(items)
      ensures r.rssi > RssiFloor && r.address !in old(rows) ==>
        rows == old(rows)[r.address := NewRow(r)] && items == Last(old(items) + [NewRow(r)], GridCapacity)
    {
      if r.rssi <= RssiFloor {
        return;
      }
      latest := latest[r.address := Telemetry(r.rssi, r.timestamp)];
      EnsureRow(r);
    }

    /**
     * The part of `OnDeviceFound` the dispatcher runs afterwards, taken to
     * run at once: a first result for an address adds its row, and the
     * oldest row leaves a full grid.
     */
    method EnsureRow(r: ScanResult)
      requires Valid()
      modifies this`rows, this`items
      ensures Valid()
      ensures r.address in old(rows) ==> rows == old(rows) && items == old(items)
      ensures r.address !in old(rows) ==>
        rows == old(rows)[r.address := NewRow(r)] && items == Last(old(items) + [NewRow(r)], GridCapacity)
    {
      if r.address in rows {
        return;
      }
      var row := NewRow(r);
      ghost var before := items;
      AppendRowTabled(items, rows, r);
      NamedAdd(rows, r);
      rows := rows[r.address := row];
      items := items + [row];
      if |items| > GridCapacity {
        DropRowTabled(items, rows);
        items := items[1..];
      }
      LastSnoc(before, row, GridCapacity);
      assert Last(before, GridCapacity) == before;
    }

    /** `StartScan_Click` empties the grid and both tables before the scanner starts. */
    method StartScan()
      modifies this`latest, this`rows, this`items
      ensures Valid() && items == [] && rows == map[] && latest == map[]
    {
      items := [];
      rows := map[];
      latest := map[];
    }
  }
}
