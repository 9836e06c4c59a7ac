/**
 * `btrfs filesystem usage --raw <mount>`: the template yields rows of three
 * kinds, told apart by which anchor column is filled in: the "Overall"
 * summary (column 0, the device size), the summary line of one aspect such as
 * Data or Metadata (column 12, its profile type) and one device line within
 * an aspect (column 16, the device name). Each becomes a
 * `btrfs_filesystem` point.
 */
module FilesystemUsage {
  import opened Wrappers
  import opened Strconv
  import opened Points

  /** Columns of a filesystem-usage row (the number of template values). */
  const Columns := 18

  const Measurement := "btrfs_filesystem"

  /** The three record kinds, and the rows that are none of them. */
  datatype Variant = Overall | AspectSummary | AspectDevice | Unclassified

  /** Anchor tests in the source's order: column 0, then 12, then 16. */
  function Classify(row: Row): (v: Variant)
    requires |row| >= Columns
    ensures v == Overall <==> row[0] != ""
    ensures v == AspectSummary <==> row[0] == "" && row[12] != ""
    ensures v == AspectDevice <==> row[0] == "" && row[12] == "" && row[16] != ""
    ensures v == Unclassified <==> row[0] == "" && row[12] == "" && row[16] == ""
  {
    if row[0] != "" then Overall
    else if row[12] != "" then AspectSummary
    else if row[16] != "" then AspectDevice
    else Unclassified
  }

  /** Field names of the Overall point, indexed by the column each comes from. */
  const OverallNames: seq<string> :=
    ["filesystem_size", "filesystem_allocated", "filesystem_unallocated",
     "filesystem_missing", "filesystem_used", "filesystem_free_estimated",
     "filesystem_free_estimated_min", "filesystem_data_ratio",
     "filesystem_metadata_ratio", "filesystem_global_reserve",
     "filesystem_global_reserve_used"]

  const OverallFields: set<string> := set k | 0 <= k < |OverallNames| :: OverallNames[k]

  /** Columns 7 and 8 (data and metadata ratio) are floats; columns 0 to 10 otherwise integers. */
  predicate IsRatioColumn(k: nat) {
    k == 7 || k == 8
  }

  /** How column `k` of an Overall row converts. */
  function OverallValue(k: nat, s: string, codecs: Codecs): Option<FieldValue> {
    if IsRatioColumn(k) then
      match codecs.parseFloat(s)
      case Some(x) => Some(FloatV(x))
      case None => None
    else
      match Atoi(s)
      case Some(n) => Some(IntV(n))
      case None => None
  }

  /**
   * Columns 0 to `n` - 1 of an Overall row converted in column order, the
   * first failure ending the conversion.
   */
  function ConvertColumns(row: Row, n: nat, codecs: Codecs): (r: Option<seq<FieldValue>>)
    requires n <= |row|
    ensures r.Some? <==> forall k | 0 <= k < n :: OverallValue(k, row[k], codecs).Some?
    ensures r.Some? ==>
      |r.value| == n && forall k | 0 <= k < n :: r.value[k] == OverallValue(k, row[k], codecs).value
  {
    if n == 0 then Some([])
    else
      var init :- ConvertColumns(row, n - 1, codecs);
      var v :- OverallValue(n - 1, row[n - 1], codecs);
      Some(init + [v])
  }

  /**
   * The Overall point: tagged with exactly the mount and aspect "Overall",
   * holding exactly the eleven values `v` under the names of their columns.
   */
  function OverallPoint(mount: string, v: seq<FieldValue>, ts: int): (p: Point)
    requires |v| == 11
    ensures p.measurement == Measurement && p.time == ts && p.precision == "ns"
    ensures p.tags == map["mount" := mount, "aspect" := "Overall"]
    ensures p.fields.Keys == OverallFields
    ensures forall k | 0 <= k < 11 :: p.fields[OverallNames[k]] == v[k]
  {
    var fields := map[OverallNames[0] := v[0],
                      OverallNames[1] := v[1],
                      OverallNames[2] := v[2],
                      OverallNames[3] := v[3],
                      OverallNames[4] := v[4],
                      OverallNames[5] := v[5],
                      OverallNames[6] := v[6],
                      OverallNames[7] := v[7],
                      OverallNames[8] := v[8],
                      OverallNames[9] := v[9],
                      OverallNames[10] := v[10]];
    assert fields.Keys == OverallFields by {
      assert forall x | x in OverallFields :: exists k | 0 <= k < 11 :: x == OverallNames[k];
    }
    Point(Measurement, map["mount" := mount, "aspect" := "Overall"], fields, ts, "ns")
  }

  /** The Overall row: eleven conversions, any failure drops the row. */
  function DecodeOverall(mount: string, row: Row, ts: int, codecs: Codecs): (r: Option<Point>)
    requires |row| >= Columns
    ensures r.Some? ==> r.value.time == ts && r.value.measurement == Measurement
    ensures r.Some? ==> r.value.tags == map["mount" := mount, "aspect" := "Overall"]
  {
    var values :- ConvertColumns(row, 11, codecs);
    Some(OverallPoint(mount, values, ts))
  }

  /**
   * An Overall row yields a point exactly when columns 0 to 10 all convert.
   * The point is tagged with exactly the mount and aspect "Overall", and its
   * eleven fields hold those columns converted, under the names of the
   * columns.
   */
  lemma DecodeOverallSpec(mount: string, row: Row, ts: int, codecs: Codecs)
    requires |row| >= Columns
    ensures var r := DecodeOverall(mount, row, ts, codecs);
      && (r.Some? <==> forall k | 0 <= k < 11 :: OverallValue(k, row[k], codecs).Some?)
      && (r.Some? ==>
        && r.value.tags == map["mount" := mount, "aspect" := "Overall"]
        && r.value.fields.Keys == OverallFields
        && r.value.precision == "ns"
        && forall k | 0 <= k < 11 :: r.value.fields[OverallNames[k]] == OverallValue(k, row[k], codecs).value)
  {
  }

  /** The point of one aspect's summary line. */
  function AspectSummaryPoint(mount: string, aspect: string, profile: string,
                              size: int, used: int, usedPercent: real, ts: int): (p: Point)
    ensures p.measurement == Measurement && p.time == ts && p.precision == "ns"
    ensures p.tags.Keys == {"mount", "aspect", "type"}
    ensures p.tags["mount"] == mount && p.tags["aspect"] == aspect && p.tags["type"] == profile
    ensures p.fields.Keys == {"filesystem_size", "filesystem_used", "filesystem_used_percent"}
    ensures p.fields["filesystem_size"] == IntV(size) && p.fields["filesystem_used"] == IntV(used)
    ensures p.fields["filesystem_used_percent"] == FloatV(usedPercent)
  {
    Point(
      Measurement,
      map["mount" := mount, "aspect" := aspect, "type" := profile],
      map["filesystem_size" := IntV(size),
          "filesystem_used" := IntV(used),
          "filesystem_used_percent" := FloatV(usedPercent)],
      ts, "ns")
  }

  /** An aspect summary row: tags mount, aspect (column 11) and type (column 12). */
  function DecodeAspectSummary(mount: string, row: Row, ts: int, codecs: Codecs): (r: Option<Point>)
    requires |row| >= Columns
    ensures r.Some? ==> r.value.time == ts && r.value.measurement == Measurement
    ensures r.Some? ==> r.value.tags == map["mount" := mount, "aspect" := row[11], "type" := row[12]]
  {
    var size :- Atoi(row[13]);
    var used :- Atoi(row[14]);
    var usedPercent :- codecs.parseFloat(row[15]);
    Some(AspectSummaryPoint(mount, row[11], row[12], size, used, usedPercent, ts))
  }

  /**
   * An aspect summary row yields a point exactly when columns 13, 14 (integers)
   * and 15 (float) convert; its tags are exactly mount, aspect and type, and
   * its fields exactly size, used and used_percent from those columns.
   */
  lemma DecodeAspectSummarySpec(mount: string, row: Row, ts: int, codecs: Codecs)
    requires |row| >= Columns
    ensures var r := DecodeAspectSummary(mount, row, ts, codecs);
      && (r.Some? <==> Atoi(row[13]).Some? && Atoi(row[14]).Some? && codecs.parseFloat(row[15]).Some?)
      && (r.Some? ==>
        && r.value.tags.Keys == {"mount", "aspect", "type"}
        && r.value.tags["mount"] == mount
        && r.value.tags["aspect"] == row[11] && r.value.tags["type"] == row[12]
        && r.value.fields.Keys == {"filesystem_size", "filesystem_used", "filesystem_used_percent"}
        && r.value.fields["filesystem_size"] == IntV(Atoi(row[13]).value)
        && r.value.fields["filesystem_used"] == IntV(Atoi(row[14]).value)
        && r.value.fields["filesystem_used_percent"] == FloatV(codecs.parseFloat(row[15]).value))
  {
  }

  /** The point of one device line within an aspect. */
  function AspectDevicePoint(mount: string, aspect: string, device: string, size: int, ts: int): (p: Point)
    ensures p.measurement == Measurement && p.time == ts && p.precision == "ns"
    ensures p.tags.Keys == {"mount", "aspect", "device"}
    ensures p.tags["mount"] == mount && p.tags["aspect"] == aspect && p.tags["device"] == device
    ensures p.fields == map["device_size" := IntV(size)]
  {
    Point(
      Measurement,
      map["mount" := mount, "aspect" := aspect, "device" := device],
      map["device_size" := IntV(size)],
      ts, "ns")
  }

  /** A device line of an aspect: tags mount, aspect (column 11) and device (column 16). */
  function DecodeAspectDevice(mount: string, row: Row, ts: int): (r: Option<Point>)
    requires |row| >= Columns
    ensures r.Some? ==> r.value.time == ts && r.value.measurement == Measurement
    ensures r.Some? ==> r.value.tags == map["mount" := mount, "aspect" := row[11], "device" := row[16]]
  {
    var size :- Atoi(row[17]);
    Some(AspectDevicePoint(mount, row[11], row[16], size, ts))
  }

  /**
   * An aspect device row yields a point exactly when column 17 parses; its
   * tags are exactly mount, aspect and device, its one field `device_size`.
   */
  lemma DecodeAspectDeviceSpec(mount: string, row: Row, ts: int)
    requires |row| >= Columns
    ensures var r := DecodeAspectDevice(mount, row, ts);
      && (r.Some? <==> Atoi(row[17]).Some?)
      && (r.Some? ==>
        && r.value.tags.Keys == {"mount", "aspect", "device"}
        && r.value.tags["mount"] == mount
        && r.value.tags["aspect"] == row[11] && r.value.tags["device"] == row[16]
        && r.value.fields == map["device_size" := IntV(Atoi(row[17]).value)])
  {
  }

  /** One filesystem-usage row: classify, then decode as that variant. */
  function DecodeUsage(mount: string, row: Row, ts: int, codecs: Codecs): (r: Option<Point>)
    requires |row| >= Columns
    ensures r.Some? ==> r.value.time == ts && r.value.measurement == Measurement
    ensures r.Some? ==> "mount" in r.value.tags && r.value.tags["mount"] == mount
  {
    match Classify(row)
    case Overall => DecodeOverall(mount, row, ts, codecs)
    case AspectSummary => DecodeAspectSummary(mount, row, ts, codecs)
    case AspectDevice => DecodeAspectDevice(mount, row, ts)
    case Unclassified => None
  }

  /**
   * The tag set of a usage point tells which variant its row was: a `type`
   * tag only on an aspect summary, a `device` tag only on an aspect device
   * line, neither on the Overall point; a row with all three anchors empty
   * emits nothing.
   */
  lemma UsageVariantOfPoint(mount: string, row: Row, ts: int, codecs: Codecs)
    requires |row| >= Columns
    ensures var r := DecodeUsage(mount, row, ts, codecs);
      && (Classify(row) == Unclassified ==> r.None?)
      && (r.Some? ==>
        && (Classify(row) == AspectSummary <==> "type" in r.value.tags)
        && (Classify(row) == AspectDevice <==> "device" in r.value.tags)
        && (Classify(row) == Overall <==> "type" !in r.value.tags && "device" !in r.value.tags)
        && (Classify(row) == Overall ==> r.value.tags.Keys == {"mount", "aspect"}))
  {
    var r := DecodeUsage(mount, row, ts, codecs);
    if r.Some? {
      match Classify(row)
      case Overall => assert r == DecodeOverall(mount, row, ts, codecs);
      case AspectSummary => assert r == DecodeAspectSummary(mount, row, ts, codecs);
      case AspectDevice => assert r == DecodeAspectDevice(mount, row, ts);
    }
  }

  /**
   * The row decoder of one call, with its mount, timestamp and converters
   * fixed. Unreadable rows do not occur (`RowsReadable`); the decoder drops
   * them only so that it is a total function.
   */
  function Decoder(mount: string, ts: int, codecs: Codecs): Row -> Option<Point> {
    row => if |row| >= Columns then DecodeUsage(mount, row, ts, codecs) else None
  }

  predicate RowsReadable(rows: seq<Row>) {
    forall i | 0 <= i < |rows| :: |rows[i]| >= Columns
  }

  /**
   * `ParseBtrfsFilesystemUsage`: drains the row stream and emits one point
   * per row that classifies and decodes. `stream` is `None` when the
   * template engine could not be set up.
   */
  method ParseFilesystemUsage(mount: string, stream: Option<seq<Row>>, ts: int, codecs: Codecs)
    returns (points: seq<Point>, ok: bool)
    requires stream.Some? ==> RowsReadable(stream.value)
    ensures ok <==> stream.Some?
    ensures !ok ==> points == []
    ensures ok ==> points == Emitted(stream.value, Decoder(mount, ts, codecs))
  {
    if stream.None? {
      return [], false;
    }
    var rows, decode := stream.value, Decoder(mount, ts, codecs);
    points := [];
    var i := 0;
    while i < |rows|
      invariant 0 <= i <= |rows|
      invariant points == Emitted(rows[..i], decode)
    {
      var point := decode(rows[i]);
      if point.Some? {
        points := points + [point.value];
      }
      EmittedStep(rows, i, decode);
      i := i + 1;
    }
    assert rows[..i] == rows;
    ok := true;
  }

  /**
   * Every point of one call is a `btrfs_filesystem` point for this mount at
   * the call's single timestamp, decoded from a row of the stream that is
   * not unclassified.
   */
  lemma FilesystemUsagePoints(mount: string, rows: seq<Row>, ts: int, codecs: Codecs, p: Point)
    requires RowsReadable(rows)
    requires p in Emitted(rows, Decoder(mount, ts, codecs))
    ensures p.measurement == Measurement && p.time == ts
    ensures "mount" in p.tags && p.tags["mount"] == mount
    ensures exists i | 0 <= i < |rows| ::
      Classify(rows[i]) != Unclassified && DecodeUsage(mount, rows[i], ts, codecs) == Some(p)
  {
    EmittedMember(rows, Decoder(mount, ts, codecs), p);
    var i :| 0 <= i < |rows| && Decoder(mount, ts, codecs)(rows[i]) == Some(p);
    assert DecodeUsage(mount, rows[i], ts, codecs) == Some(p);
  }
}
