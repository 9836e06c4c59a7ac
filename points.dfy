/**
 * Metric points and the per-row emission policy shared by the three
 * decoding loops: each row is decoded on its own, a row whose decoding fails
 * contributes nothing, and the rows after it are still decoded.
 */
module Points {
  import opened Wrappers

  /** One tokenized row: the string value of each template column, in order. */
  type Row = seq<string>

  /** A field value: Go `int`/`uint64`, a float from `strconv.ParseFloat`, or a string. */
  datatype FieldValue = IntV(i: int) | FloatV(f: real) | StrV(s: string)

  /** An InfluxDB point: measurement, tag set, field set, timestamp and precision. */
  datatype Point = Point(
    measurement: string,
    tags: map<string, string>,
    fields: map<string, FieldValue>,
    time: int,
    precision: string)

  /**
   * Conversions done by libraries outside this model, each a partial
   * function (`None` is the library's error return):
   * `parseFloat` is `strconv.ParseFloat(s, 32)`, `toBytes` is
   * `bytefmt.ToBytes`, and `parseStartTime` is `time.ParseInLocation` with
   * layout "Mon Jan 2 15:04:05 2006" in local time followed by `Unix()`.
   */
  datatype Codecs = Codecs(
    parseFloat: string -> Option<real>,
    toBytes: string -> Option<nat>,
    parseStartTime: string -> Option<int>)

  /** The values a loop emits: the successful decodings, in row order. */
  function Emitted<A, B>(xs: seq<A>, decode: A -> Option<B>): (out: seq<B>)
    ensures |out| <= |xs|
  {
    if xs == [] then []
    else
      var init := Emitted(xs[..|xs| - 1], decode);
      match decode(xs[|xs| - 1])
      case Some(p) => init + [p]
      case None => init
  }

  /** One more row: its decoding, when there is one, goes after what the earlier rows emit. */
  lemma EmittedStep<A, B>(xs: seq<A>, i: nat, decode: A -> Option<B>)
    requires i < |xs|
    ensures Emitted(xs[..i + 1], decode) ==
      match decode(xs[i])
      case Some(p) => Emitted(xs[..i], decode) + [p]
      case None => Emitted(xs[..i], decode)
  {
    assert xs[..i + 1][..i] == xs[..i];
  }

  /** Emission over a concatenation is the emission of each part. */
  lemma {:induction false} EmittedAppend<A, B>(xs: seq<A>, ys: seq<A>, decode: A -> Option<B>)
    ensures Emitted(xs + ys, decode) == Emitted(xs, decode) + Emitted(ys, decode)
  {
    var zs := xs + ys;
    assert forall i | 0 <= i < |zs| :: zs[i] == if i < |xs| then xs[i] else ys[i - |xs|];
    if ys != [] {
      var init := ys[..|ys| - 1];
      EmittedAppend(xs, init, decode);
      assert zs[..|zs| - 1] == xs + init;
    } else {
      assert zs == xs;
    }
  }

  /**
   * Skip on error: a row that fails to decode is dropped and the loop goes
   * on, so the output is what the rows before and after it emit.
   */
  lemma EmittedSkip<A, B>(xs: seq<A>, k: nat, decode: A -> Option<B>)
    requires k < |xs| && decode(xs[k]).None?
    ensures Emitted(xs, decode) == Emitted(xs[..k], decode) + Emitted(xs[k + 1..], decode)
  {
    var before, after := xs[..k], xs[k + 1..];
    assert xs == xs[..k + 1] + xs[k + 1..];
    assert forall i | 0 <= i < |after| :: after[i] == xs[k + 1 + i];
    EmittedAppend(xs[..k + 1], after, decode);
    assert Emitted(xs[..k + 1], decode) == Emitted(before, decode) by {
      assert xs[..k + 1][..k] == before;
    }
  }

  /** Every emitted value is the successful decoding of some row, and conversely. */
  lemma {:induction false} EmittedMember<A, B>(xs: seq<A>, decode: A -> Option<B>, p: B)
    ensures p in Emitted(xs, decode) <==> exists i | 0 <= i < |xs| :: decode(xs[i]) == Some(p)
  {
    if xs != [] {
      var init := xs[..|xs| - 1];
      EmittedMember(init, decode, p);
      if exists i | 0 <= i < |init| :: decode(init[i]) == Some(p) {
        var i :| 0 <= i < |init| && decode(init[i]) == Some(p);
        assert decode(xs[i]) == Some(p);
      }
      if exists i | 0 <= i < |xs| :: decode(xs[i]) == Some(p) {
        var i :| 0 <= i < |xs| && decode(xs[i]) == Some(p);
        if i < |init| {
          assert decode(init[i]) == Some(p);
        }
      }
    }
  }

  /** When every row decodes, one value is emitted per row, in row order. */
  lemma {:induction false} EmittedAllDecoded<A, B>(xs: seq<A>, decode: A -> Option<B>)
    requires forall i | 0 <= i < |xs| :: decode(xs[i]).Some?
    ensures |Emitted(xs, decode)| == |xs|
    ensures forall i | 0 <= i < |xs| :: Emitted(xs, decode)[i] == decode(xs[i]).value
  {
    if xs != [] {
      EmittedAllDecoded(xs[..|xs| - 1], decode);
    }
  }
}
