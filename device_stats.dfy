/**
 * `btrfs device stats <mount>`: one row per device, the device name and its
 * five error counters; each row becomes one `btrfs_device_errors` point.
 */
module DeviceStats {
  import opened Wrappers
  import opened Strconv
  import opened Points

  /** Columns of a device-stats row: device, then the five counters. */
  const Columns := 6

  const Measurement := "btrfs_device_errors"

  /** Field names of the counters in columns 1 to 5, in column order. */
  const CounterNames: seq<string> :=
    ["write_io_errors", "read_io_errors", "flush_io_errors",
     "corruption_io_errors", "generation_io_errors"]

  const CounterFields: set<string> := set k | 0 <= k < |CounterNames| :: CounterNames[k]

  /** Columns 1 to `n` parsed as integers in column order; the first failure ends it. */
  function ConvertCounters(row: Row, n: nat): (r: Option<seq<int>>)
    requires n < Columns <= |row|
    ensures r.Some? <==> forall k | 1 <= k <= n :: Atoi(row[k]).Some?
    ensures r.Some? ==> |r.value| == n && forall k | 0 <= k < n :: r.value[k] == Atoi(row[k + 1]).value
  {
    if n == 0 then Some([])
    else
      var init :- ConvertCounters(row, n - 1);
      var counter :- Atoi(row[n]);
      Some(init + [counter])
  }

  /**
   * The point of one device: tagged with exactly the mount and the device,
   * holding exactly the five counters `c` under their names, in order.
   */
  function DeviceErrorsPoint(mount: string, device: string, c: seq<int>, ts: int): (p: Point)
    requires |c| == 5
    ensures p.measurement == Measurement && p.time == ts && p.precision == "ns"
    ensures p.tags.Keys == {"mount", "device"} && p.tags["mount"] == mount && p.tags["device"] == device
    ensures p.fields.Keys == CounterFields
    ensures forall k | 0 <= k < 5 :: p.fields[CounterNames[k]] == IntV(c[k])
  {
    var fields := map[CounterNames[0] := IntV(c[0]), CounterNames[1] := IntV(c[1]),
                      CounterNames[2] := IntV(c[2]), CounterNames[3] := IntV(c[3]),
                      CounterNames[4] := IntV(c[4])];
    assert fields.Keys == CounterFields by {
      assert forall x | x in CounterFields :: exists k | 0 <= k < 5 :: x == CounterNames[k];
    }
    Point(Measurement, map["mount" := mount, "device" := device], fields, ts, "ns")
  }

  /** One device-stats row: the five counters must all parse. */
  function DecodeDeviceStats(mount: string, row: Row, ts: int): (r: Option<Point>)
    requires |row| >= Columns
    ensures r.Some? ==> r.value.time == ts && r.value.measurement == Measurement
  {
    var counters :- ConvertCounters(row, 5);
    Some(DeviceErrorsPoint(mount, row[0], counters, ts))
  }

  /**
   * A device-stats row yields a point exactly when all five counters parse;
   * the point is tagged with exactly the mount and the device and holds
   * exactly the five counters, in column order.
   */
  lemma DecodeDeviceStatsSpec(mount: string, row: Row, ts: int)
    requires |row| >= Columns
    ensures var r := DecodeDeviceStats(mount, row, ts);
      && (r.Some? <==> forall k | 1 <= k < Columns :: Atoi(row[k]).Some?)
      && (r.Some? ==>
        && r.value.measurement == Measurement
        && r.value.tags.Keys == {"mount", "device"}
        && r.value.tags["mount"] == mount && r.value.tags["device"] == row[0]
        && r.value.fields.Keys == CounterFields
        && (forall k | 0 <= k < 5 :: r.value.fields[CounterNames[k]] == IntV(Atoi(row[k + 1]).value))
        && r.value.time == ts && r.value.precision == "ns")
  {
  }

  /**
   * The row decoder of one call, with its mount and timestamp fixed. Rows
   * narrower than the template do not occur (`RowsReadable`); the decoder
   * drops them only so that it is a total function.
   */
  function Decoder(mount: string, ts: int): Row -> Option<Point> {
    row => if |row| >= Columns then DecodeDeviceStats(mount, row, ts) else None
  }

  predicate RowsReadable(rows: seq<Row>) {
    forall i | 0 <= i < |rows| :: |rows[i]| >= Columns
  }

  /**
   * `ParseBtrfsDeviceStats`: drains the row stream and emits one point per
   * row that decodes. `stream` is `None` when the template engine could not
   * be set up, the only case in which the call reports an error.
   */
  method ParseDeviceStats(mount: string, stream: Option<seq<Row>>, ts: int)
    returns (points: seq<Point>, ok: bool)
    requires stream.Some? ==> RowsReadable(stream.value)
    ensures ok <==> stream.Some?
    ensures !ok ==> points == []
    ensures ok ==> points == Emitted(stream.value, Decoder(mount, ts))
  {
    if stream.None? {
      return [], false;
    }
    var rows, decode := stream.value, Decoder(mount, ts);
    points := [];
    var i := 0;
    while i < |rows|
      invariant 0 <= i <= |rows|
      invariant points == Emitted(rows[..i], decode)
    {
      var point := decode(rows[i]);
      if point.Some? {
        points := points + [point.value];
      }
      EmittedStep(rows, i, decode);
      i := i + 1;
    }
    assert rows[..i] == rows;
    ok := true;
  }

  /**
   * Every point of one call is a `btrfs_device_errors` point for this mount,
   * carries the call's single timestamp, and comes from a row of the stream
   * all of whose counters parsed.
   */
  lemma DeviceStatsPoints(mount: string, rows: seq<Row>, ts: int, p: Point)
    requires RowsReadable(rows)
    requires p in Emitted(rows, Decoder(mount, ts))
    ensures p.measurement == Measurement && p.time == ts
    ensures p.tags.Keys == {"mount", "device"} && p.tags["mount"] == mount
    ensures exists i | 0 <= i < |rows| ::
      && DecodeDeviceStats(mount, rows[i], ts) == Some(p)
      && p.tags["device"] == rows[i][0]
      && forall k | 1 <= k < Columns :: Atoi(rows[i][k]).Some?
  {
    EmittedMember(rows, Decoder(mount, ts), p);
    var i :| 0 <= i < |rows| && Decoder(mount, ts)(rows[i]) == Some(p);
    DecodeDeviceStatsSpec(mount, rows[i], ts);
  }

  /** The row a device with counters `c` renders to. */
  function RenderRow(device: string, c: seq<int>): (row: Row)
    requires |c| == 5
    ensures |row| == Columns && row[0] == device
    ensures forall k | 0 <= k < 5 :: row[k + 1] == Itoa(c[k])
  {
    [device, Itoa(c[0]), Itoa(c[1]), Itoa(c[2]), Itoa(c[3]), Itoa(c[4])]
  }

  /** Round trip: a rendered row decodes to a point holding exactly those counters. */
  lemma DeviceStatsRoundTrip(mount: string, device: string, c: seq<int>, ts: int)
    requires |c| == 5 && forall k | 0 <= k < 5 :: InInt64(c[k])
    ensures var r := DecodeDeviceStats(mount, RenderRow(device, c), ts);
      r.Some? && r.value.tags["device"] == device &&
      forall k | 0 <= k < 5 :: r.value.fields[CounterNames[k]] == IntV(c[k])
  {
    var row := RenderRow(device, c);
    forall k | 0 <= k < 5
      ensures Atoi(row[k + 1]) == Some(c[k])
    {
      AtoiItoa(c[k]);
    }
    CountersOfRow(row, c);
  }

  /** Counters that each parse to `c` convert to exactly `c`. */
  lemma CountersOfRow(row: Row, c: seq<int>)
    requires |row| >= Columns && |c| == 5
    requires forall k | 0 <= k < 5 :: Atoi(row[k + 1]) == Some(c[k])
    ensures ConvertCounters(row, 5) == Some(c)
  {
    assert forall k | 1 <= k < Columns :: Atoi(row[k]) == Some(c[k - 1]);
    assert ConvertCounters(row, 5).value == c;
  }

  /** A healthy disk's row for mount "/data": one point, every counter zero. */
  lemma HealthyDeviceExample(ts: int)
    ensures var r := DecodeDeviceStats("/data", ["sda", "0", "0", "0", "0", "0"], ts);
      && r.Some?
      && r.value.tags == map["mount" := "/data", "device" := "sda"]
      && forall k | 0 <= k < 5 :: r.value.fields[CounterNames[k]] == IntV(0)
  {
    DeviceStatsRoundTrip("/data", "sda", [0, 0, 0, 0, 0], ts);
    assert RenderRow("sda", [0, 0, 0, 0, 0]) == ["sda", "0", "0", "0", "0", "0"];
  }
}
