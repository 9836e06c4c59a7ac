/**
 * `btrfs scrub status -d <mount>`: one row per device with the scrub's start
 * time, status word, elapsed time, bytes scrubbed, rate and, when the tool
 * prints them, the error counters; each row becomes one `btrfs_scrub` point.
 */
module ScrubStatus {
  import opened Wrappers
  import opened Strconv
  import opened Strings
  import opened Points

  /** Columns of a scrub-status row (the number of template values). */
  const Columns := 11

  const Measurement := "btrfs_scrub"

  /** Go's duration units, in nanoseconds. */
  const NanosPerSecond := 1_000_000_000
  const Millisecond := 1_000_000
  const Minute := 60 * NanosPerSecond
  const Hour := 3600 * NanosPerSecond

  /** The count of seconds `h`, `m`, `s` hours, minutes and seconds make. */
  function Seconds(h: nat, m: nat, s: nat): nat {
    h * 3600 + m * 60 + s
  }

  predicate Numeral(s: string) {
    s != [] && AllDigits(s)
  }

  /**
   * `time.ParseDuration` of the reshaped string "<h>h<m>m<s>s", in
   * nanoseconds, for components made of decimal digits. Three numerals are
   * hours, minutes and seconds. An empty third component leaves "<m>ms", so
   * the minutes component is read as milliseconds. Every other shape fails,
   * and so does a duration beyond Go's 64-bit nanosecond count.
   */
  function DurationNanos(h: string, m: string, s: string): (r: Option<nat>)
    ensures r.Some? ==> r.value <= MaxInt64 && Numeral(h) && Numeral(m)
  {
    if !(Numeral(h) && Numeral(m)) then None
    else
      var nanos :-
        if s == [] then Some(DigitsValue(h) * Hour + DigitsValue(m) * Millisecond)
        else if Numeral(s) then
          Some(DigitsValue(h) * Hour + DigitsValue(m) * Minute + DigitsValue(s) * NanosPerSecond)
        else None;
      if nanos <= MaxInt64 then Some(nanos) else None
  }

  /** The parsed duration in whole seconds, as `int(d.Seconds())` truncates it. */
  function ParseHMS(h: string, m: string, s: string): (r: Option<nat>)
    ensures r.Some? ==> r.value * NanosPerSecond <= MaxInt64
  {
    var nanos :- DurationNanos(h, m, s);
    Some(nanos / NanosPerSecond)
  }

  /** The elapsed-time column "H:M:S", reshaped to a Go duration and parsed. */
  function ScrubDuration(raw: string): Option<nat>
    requires |Split(raw, ':')| >= 3
  {
    var parts := Split(raw, ':');
    ParseHMS(parts[0], parts[1], parts[2])
  }

  predicate NoColon(s: string) {
    forall i | 0 <= i < |s| :: s[i] != ':'
  }

  /** The column "h:m:s" of colon-free parts is parsed component by component. */
  lemma ScrubDurationParts(h: string, m: string, s: string)
    requires NoColon(h) && NoColon(m) && NoColon(s)
    ensures |Split(h + ":" + m + ":" + s, ':')| >= 3
    ensures ScrubDuration(h + ":" + m + ":" + s) == ParseHMS(h, m, s)
  {
    assert [h, m, s][..2] == [h, m];
    assert [h, m][..1] == [h];
    assert Join([h, m], ':') == h + [':'] + m;
    assert Join([h, m, s], ':') == h + [':'] + m + [':'] + s;
    assert h + [':'] + m + [':'] + s == h + ":" + m + ":" + s;
    SplitJoin([h, m, s], ':');
  }

  lemma NumeralNoColon(s: string)
    requires Numeral(s)
    ensures NoColon(s)
  {
    forall i | 0 <= i < |s|
      ensures s[i] != ':'
    {
      assert IsDigit(s[i]);
    }
  }

  /** Hours, minutes and seconds in nanoseconds are the seconds they make, in nanoseconds. */
  lemma HMSNanos(a: nat, b: nat, c: nat)
    ensures a * Hour + b * Minute + c * NanosPerSecond == Seconds(a, b, c) * NanosPerSecond
  {
  }

  /** Hours plus milliseconds, truncated to whole seconds. */
  lemma MillisSeconds(a: nat, b: nat)
    ensures (a * Hour + b * Millisecond) / NanosPerSecond == a * 3600 + b / 1000
  {
    var q, r := a * 3600 + b / 1000, (b % 1000) * Millisecond;
    assert b == (b / 1000) * 1000 + b % 1000;
    assert a * Hour + b * Millisecond == q * NanosPerSecond + r;
    assert 0 <= r < NanosPerSecond;
  }

  /**
   * "H:M:S" with decimal parts is H*3600 + M*60 + S seconds, and parses
   * exactly when that many seconds fit Go's 64-bit nanosecond count.
   */
  lemma ScrubDurationSeconds(h: string, m: string, s: string)
    requires Numeral(h) && Numeral(m) && Numeral(s)
    ensures |Split(h + ":" + m + ":" + s, ':')| >= 3
    ensures var r := ScrubDuration(h + ":" + m + ":" + s);
      var seconds := Seconds(DigitsValue(h), DigitsValue(m), DigitsValue(s));
      && (r.Some? <==> seconds * NanosPerSecond <= MaxInt64)
      && (r.Some? ==> r.value == seconds)
  {
    NumeralNoColon(h);
    NumeralNoColon(m);
    NumeralNoColon(s);
    ScrubDurationParts(h, m, s);
    HMSNanos(DigitsValue(h), DigitsValue(m), DigitsValue(s));
  }

  /**
   * "H:M:" with decimal parts reshapes to "<H>h<M>ms": H hours plus M
   * milliseconds, of which whole seconds are kept.
   */
  lemma ScrubDurationMillis(h: string, m: string)
    requires Numeral(h) && Numeral(m)
    ensures |Split(h + ":" + m + ":", ':')| >= 3
    ensures var r := ScrubDuration(h + ":" + m + ":");
      var nanos := DigitsValue(h) * Hour + DigitsValue(m) * Millisecond;
      && (r.Some? <==> nanos <= MaxInt64)
      && (r.Some? ==> r.value == DigitsValue(h) * 3600 + DigitsValue(m) / 1000)
  {
    NumeralNoColon(h);
    NumeralNoColon(m);
    ScrubDurationParts(h, m, "");
    assert h + ":" + m + ":" + "" == h + ":" + m + ":";
    MillisSeconds(DigitsValue(h), DigitsValue(m));
  }

  /** An empty hours or minutes part leaves a unit without a number: the row is dropped. */
  lemma ScrubDurationEmptyPart(h: string, m: string, s: string)
    requires NoColon(h) && NoColon(m) && NoColon(s)
    requires h == "" || m == ""
    ensures |Split(h + ":" + m + ":" + s, ':')| >= 3
    ensures ScrubDuration(h + ":" + m + ":" + s) == None
  {
    ScrubDurationParts(h, m, s);
  }

  /** A sample column: "0:12:34" is 754 seconds. */
  lemma ClockDurationExample()
    ensures |Split("0:12:34", ':')| >= 3 && ScrubDuration("0:12:34") == Some(754)
  {
    var h, m, s := "0", "12", "34";
    assert DigitsValue(h) == 0 && Numeral(h);
    assert DigitsValue(m) == 12 && Numeral(m) by { assert m[..1] == "1"; }
    assert DigitsValue(s) == 34 && Numeral(s) by { assert s[..1] == "3"; }
    ScrubDurationSeconds(h, m, s);
    assert Seconds(0, 12, 34) == 754;
    assert h + ":" + m + ":" + s == "0:12:34";
  }

  /** A sample column with an empty seconds part: "5:3:" is five hours and 3 ms. */
  lemma MillisDurationExample()
    ensures |Split("5:3:", ':')| >= 3 && ScrubDuration("5:3:") == Some(18000)
  {
    var h, m := "5", "3";
    assert h + ":" + m + ":" == "5:3:";
    ScrubDurationMillis(h, m);
  }

  /** Two-digit rendering of a clock component below 100, as the tool prints it. */
  function Pad2(n: nat): (s: string)
    ensures Numeral(s) && ':' !in s && DigitsValue(s) == n
  {
    NatDigitsValue(n);
    NatDigitsNoColon(n);
    if n < 10 then
      LeadingZeroValue(NatDigits(n));
      "0" + NatDigits(n)
    else NatDigits(n)
  }

  lemma NatDigitsNoColon(n: nat)
    ensures ':' !in NatDigits(n)
  {
  }

  lemma {:induction false} LeadingZeroValue(s: string)
    requires AllDigits(s)
    ensures AllDigits("0" + s) && DigitsValue("0" + s) == DigitsValue(s)
  {
    var t := "0" + s;
    assert AllDigits(t) by {
      assert forall i | 0 < i < |t| :: t[i] == s[i - 1];
    }
    if s != [] {
      LeadingZeroValue(s[..|s| - 1]);
      assert t[..|t| - 1] == "0" + s[..|s| - 1];
    }
  }

  /** "HH:MM:SS" as the scrub report prints an elapsed time. */
  function FormatHMS(h: nat, m: nat, s: nat): string {
    Join([Pad2(h), Pad2(m), Pad2(s)], ':')
  }

  /**
   * Round trip: an elapsed time printed as "HH:MM:SS", for every reading
   * whose parts are below 100, each printed with two digits, parses back to
   * the same number of seconds.
   */
  lemma DurationRoundTrip(h: nat, m: nat, s: nat)
    requires h < 100 && m < 100 && s < 100
    ensures |Split(FormatHMS(h, m, s), ':')| >= 3
    ensures ScrubDuration(FormatHMS(h, m, s)) == Some(Seconds(h, m, s))
  {
    var parts := [Pad2(h), Pad2(m), Pad2(s)];
    SplitJoin(parts, ':');
    HMSNanos(h, m, s);
  }

  /** The rate column with one trailing "/s" removed, then byte-parsed. */
  function ScrubRate(raw: string, codecs: Codecs): Option<nat> {
    codecs.toBytes(TrimSuffix(raw, "/s"))
  }

  /** Only one "/s" is removed, and a rate without it is parsed unchanged. */
  lemma ScrubRateSuffix(x: string, codecs: Codecs)
    ensures ScrubRate(x + "/s", codecs) == codecs.toBytes(x)
    ensures !HasSuffix(x, "/s") ==> ScrubRate(x, codecs) == codecs.toBytes(x)
  {
    TrimSuffixAppended(x, "/s");
  }

  /**
   * The four error counters: all zero when the checksum column is empty,
   * whatever the other three hold; otherwise all four must parse.
   */
  function ScrubCounters(checksum: string, corrected: string, uncorrectable: string, unverified: string)
    : (r: Option<seq<int>>)
    ensures checksum == "" ==> r == Some([0, 0, 0, 0])
    ensures checksum != "" ==>
      (r.Some? <==> Atoi(checksum).Some? && Atoi(corrected).Some? &&
                    Atoi(uncorrectable).Some? && Atoi(unverified).Some?)
    ensures r.Some? ==> |r.value| == 4
    ensures checksum != "" && r.Some? ==>
      r.value == [Atoi(checksum).value, Atoi(corrected).value,
                  Atoi(uncorrectable).value, Atoi(unverified).value]
  {
    if checksum == "" then Some([0, 0, 0, 0])
    else
      var c :- Atoi(checksum);
      var k :- Atoi(corrected);
      var u :- Atoi(uncorrectable);
      var v :- Atoi(unverified);
      Some([c, k, u, v])
  }

  /**
   * What a row must hold for the source not to fail on it: all columns, and
   * an elapsed time with at least two colons whenever the start time parsed
   * (the source splits it only after that).
   */
  predicate RowReadable(row: Row, codecs: Codecs) {
    |row| >= Columns &&
    (codecs.parseStartTime(row[2]).Some? ==> |Split(row[4], ':')| >= 3)
  }

  /** Field names of the four error counters, in column order (columns 7 to 10). */
  const CounterNames: seq<string> :=
    ["checksum_errors", "corrected_errors", "uncorrectable_errors", "unverified_errors"]

  const ScrubFields: set<string> :=
    {"start", "status", "duration", "total", "rate"} + set k | 0 <= k < |CounterNames| :: CounterNames[k]

  /**
   * The point of one scrubbed device: tagged with exactly the mount, the
   * device and the device id; the status word copied through; the converted
   * values under their names, the counters `c` in column order.
   */
  function ScrubPoint(mount: string, device: string, deviceId: string, status: string,
                      start: int, duration: nat, total: nat, rate: nat, c: seq<int>, ts: int): (p: Point)
    requires |c| == 4
    ensures p.measurement == Measurement && p.time == ts && p.precision == "ns"
    ensures p.tags == map["mount" := mount, "device" := device, "device_id" := deviceId]
    ensures p.fields.Keys == ScrubFields
    ensures p.fields["status"] == StrV(status) && p.fields["start"] == IntV(start)
    ensures p.fields["duration"] == IntV(duration) && p.fields["total"] == IntV(total)
    ensures p.fields["rate"] == IntV(rate)
    ensures forall k | 0 <= k < 4 :: p.fields[CounterNames[k]] == IntV(c[k])
  {
    Point(
      Measurement,
      map["mount" := mount, "device" := device, "device_id" := deviceId],
      map["start" := IntV(start),
          "status" := StrV(status),
          "duration" := IntV(duration),
          "total" := IntV(total),
          "rate" := IntV(rate),
          CounterNames[0] := IntV(c[0]),
          CounterNames[1] := IntV(c[1]),
          CounterNames[2] := IntV(c[2]),
          CounterNames[3] := IntV(c[3])],
      ts, "ns")
  }

  /** One scrub-status row, converted column by column; any failure drops the row. */
  function DecodeScrub(mount: string, row: Row, ts: int, codecs: Codecs): (r: Option<Point>)
    requires RowReadable(row, codecs)
    ensures r.Some? ==> r.value.time == ts && r.value.measurement == Measurement
    ensures r.Some? ==> r.value.tags == map["mount" := mount, "device" := row[0], "device_id" := row[1]]
  {
    var start :- codecs.parseStartTime(row[2]);
    var duration :- ScrubDuration(row[4]);
    var total :- codecs.toBytes(row[5]);
    var rate :- ScrubRate(row[6], codecs);
    var counters :- ScrubCounters(row[7], row[8], row[9], row[10]);
    Some(ScrubPoint(mount, row[0], row[1], row[3], start, duration, total, rate, counters, ts))
  }

  /** A scrub row yields a point exactly when every conversion it needs succeeds. */
  lemma DecodeScrubSucceeds(mount: string, row: Row, ts: int, codecs: Codecs)
    requires RowReadable(row, codecs)
    ensures DecodeScrub(mount, row, ts, codecs).Some? <==>
      && codecs.parseStartTime(row[2]).Some?
      && ScrubDuration(row[4]).Some?
      && codecs.toBytes(row[5]).Some?
      && ScrubRate(row[6], codecs).Some?
      && ScrubCounters(row[7], row[8], row[9], row[10]).Some?
  {
  }

  /**
   * A scrub point is tagged with exactly mount, device and device id; the
   * status word is copied through unchanged and every other field is the
   * conversion of its column.
   */
  lemma DecodeScrubFields(mount: string, row: Row, ts: int, codecs: Codecs)
    requires RowReadable(row, codecs)
    requires DecodeScrub(mount, row, ts, codecs).Some?
    ensures var p := DecodeScrub(mount, row, ts, codecs).value;
      && p.tags == map["mount" := mount, "device" := row[0], "device_id" := row[1]]
      && p.fields.Keys == ScrubFields
      && p.fields["status"] == StrV(row[3])
      && p.fields["start"] == IntV(codecs.parseStartTime(row[2]).value)
      && p.fields["duration"] == IntV(ScrubDuration(row[4]).value)
      && p.fields["total"] == IntV(codecs.toBytes(row[5]).value)
      && p.fields["rate"] == IntV(ScrubRate(row[6], codecs).value)
      && var c := ScrubCounters(row[7], row[8], row[9], row[10]).value;
         forall k | 0 <= k < 4 :: p.fields[CounterNames[k]] == IntV(c[k])
  {
  }

  /**
   * With an empty checksum column the three columns after it are never
   * read: changing them changes nothing, and all four counters are zero.
   */
  lemma EmptyCountersIgnored(mount: string, row: Row, ts: int, codecs: Codecs, x: string, y: string, z: string)
    requires RowReadable(row, codecs) && row[7] == ""
    ensures RowReadable(row[8 := x][9 := y][10 := z], codecs)
    ensures DecodeScrub(mount, row, ts, codecs) == DecodeScrub(mount, row[8 := x][9 := y][10 := z], ts, codecs)
    ensures DecodeScrub(mount, row, ts, codecs).Some? ==>
      var p := DecodeScrub(mount, row, ts, codecs).value;
      forall k | 0 <= k < 4 :: p.fields[CounterNames[k]] == IntV(0)
  {
    var row' := row[8 := x][9 := y][10 := z];
    assert forall k | 0 <= k < 8 :: row'[k] == row[k];
  }

  /**
   * The row decoder of one call, with its mount, timestamp and converters
   * fixed. Unreadable rows do not occur (`RowsReadable`); the decoder drops
   * them only so that it is a total function.
   */
  function Decoder(mount: string, ts: int, codecs: Codecs): Row -> Option<Point> {
    row => if RowReadable(row, codecs) then DecodeScrub(mount, row, ts, codecs) else None
  }

  predicate RowsReadable(rows: seq<Row>, codecs: Codecs) {
    forall i | 0 <= i < |rows| :: RowReadable(rows[i], codecs)
  }

  /**
   * `ParseBtrfsScrubStatus`: drains the row stream and emits one point per
   * row that decodes. `stream` is `None` when the template engine could not
   * be set up.
   */
  method ParseScrubStatus(mount: string, stream: Option<seq<Row>>, ts: int, codecs: Codecs)
    returns (points: seq<Point>, ok: bool)
    requires stream.Some? ==> RowsReadable(stream.value, codecs)
    ensures ok <==> stream.Some?
    ensures !ok ==> points == []
    ensures ok ==> points == Emitted(stream.value, Decoder(mount, ts, codecs))
  {
    if stream.None? {
      return [], false;
    }
    var rows, decode := stream.value, Decoder(mount, ts, codecs);
    points := [];
    var i := 0;
    while i < |rows|
      invariant 0 <= i <= |rows|
      invariant points == Emitted(rows[..i], decode)
    {
      var point := decode(rows[i]);
      if point.Some? {
        points := points + [point.value];
      }
      EmittedStep(rows, i, decode);
      i := i + 1;
    }
    assert rows[..i] == rows;
    ok := true;
  }

  /**
   * Every point of one call is a `btrfs_scrub` point for this mount at the
   * call's single timestamp, and is the decoding of a row of the stream all
   * of whose conversions succeeded; it carries that row's device and status.
   */
  lemma ScrubStatusPoints(mount: string, rows: seq<Row>, ts: int, codecs: Codecs, p: Point)
    requires RowsReadable(rows, codecs)
    requires p in Emitted(rows, Decoder(mount, ts, codecs))
    ensures p.measurement == Measurement && p.time == ts
    ensures "mount" in p.tags && p.tags["mount"] == mount
    ensures exists i | 0 <= i < |rows| :: ConvertedRowPoint(mount, rows[i], ts, codecs, p)
  {
    EmittedMember(rows, Decoder(mount, ts, codecs), p);
    var i :| 0 <= i < |rows| && Decoder(mount, ts, codecs)(rows[i]) == Some(p);
    DecodedRowPoint(mount, rows[i], ts, codecs, p);
  }

  /**
   * `p` is the decoding of `row`: every conversion of the row succeeded, and
   * the device tag and the status field are the row's.
   */
  predicate ConvertedRowPoint(mount: string, row: Row, ts: int, codecs: Codecs, p: Point) {
    && RowReadable(row, codecs)
    && DecodeScrub(mount, row, ts, codecs) == Some(p)
    && codecs.parseStartTime(row[2]).Some?
    && ScrubDuration(row[4]).Some?
    && codecs.toBytes(row[5]).Some?
    && ScrubRate(row[6], codecs).Some?
    && ScrubCounters(row[7], row[8], row[9], row[10]).Some?
    && "device" in p.tags && p.tags["device"] == row[0]
    && "status" in p.fields && p.fields["status"] == StrV(row[3])
  }

  /** A point the decoder makes from one row is that row's full conversion, with the call's mount and timestamp. */
  lemma DecodedRowPoint(mount: string, row: Row, ts: int, codecs: Codecs, p: Point)
    requires Decoder(mount, ts, codecs)(row) == Some(p)
    ensures p.measurement == Measurement && p.time == ts
    ensures "mount" in p.tags && p.tags["mount"] == mount
    ensures ConvertedRowPoint(mount, row, ts, codecs, p)
  {
    assert RowReadable(row, codecs);
    DecodeScrubSucceeds(mount, row, ts, codecs);
    DecodeScrubFields(mount, row, ts, codecs);
  }
}
