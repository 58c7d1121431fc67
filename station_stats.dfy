/**
 * Per-station statistics: the record `StationData` of src/main.rs with its
 * three operations `new`, `update` and `aggregate`, and an independent
 * reference definition (`Summary`) of what a record built from a sequence of
 * readings must hold.
 *
 * A reading is a temperature in tenths of a degree held in a Rust `i8`.
 * `min_temp` and `max_temp` only ever take the value of some reading or of a
 * sentinel, so they keep the type `I8`; `total_temp` and `count` are
 * unbounded integers here (their `i8` wrap-around is the subject of the
 * Overflow module).
 */
module StationStats {

  /** The values of Rust's `i8`. */
  type I8 = x: int | -128 <= x <= 127

  const I8Min: I8 := -128
  const I8Max: I8 := 127

  function Min(a: int, b: int): (r: int)
    ensures r <= a && r <= b && (r == a || r == b)
  {
    if a <= b then a else b
  }

  function Max(a: int, b: int): (r: int)
    ensures r >= a && r >= b && (r == a || r == b)
  {
    if a <= b then b else a
  }

  /**
   * The statistics of one station. The source mutates a record in place
   * through `&mut self`; a record is a plain value owned by its map entry,
   * so each mutation is modelled as a function returning the new value.
   */
  datatype StationData = StationData(minTemp: I8, maxTemp: I8, totalTemp: int, count: int)
  {
    /** `StationData::new`: sentinel extremes, nothing accumulated. */
    static function New(): (r: StationData)
      ensures r.totalTemp == 0 && r.count == 0
      ensures forall t: I8 :: Min(r.minTemp, t) == t && Max(r.maxTemp, t) == t
    {
      StationData(I8Max, I8Min, 0, 0)
    }

    /** `StationData::update`: fold in one reading. */
    function Update(t: I8): (r: StationData)
      ensures r.minTemp <= t <= r.maxTemp
      ensures r.minTemp <= minTemp && (r.minTemp == minTemp || r.minTemp == t)
      ensures r.maxTemp >= maxTemp && (r.maxTemp == maxTemp || r.maxTemp == t)
      ensures r.totalTemp == totalTemp + t
      ensures r.count == count + 1
    {
      StationData(Min(minTemp, t), Max(maxTemp, t), totalTemp + t, count + 1)
    }

    /** `StationData::aggregate`: combine with another record of the same station. */
    function Aggregate(other: StationData): (r: StationData)
      ensures r.minTemp <= minTemp && r.minTemp <= other.minTemp
      ensures r.minTemp == minTemp || r.minTemp == other.minTemp
      ensures r.maxTemp >= maxTemp && r.maxTemp >= other.maxTemp
      ensures r.maxTemp == maxTemp || r.maxTemp == other.maxTemp
      ensures r.totalTemp == totalTemp + other.totalTemp
      ensures r.count == count + other.count
    {
      StationData(Min(minTemp, other.minTemp), Max(maxTemp, other.maxTemp),
                  totalTemp + other.totalTemp, count + other.count)
    }
  }

  /** The insert branch of `process_line`: a fresh record updated once holds exactly that reading. */
  lemma FirstReading(t: I8)
    ensures StationData.New().Update(t) == StationData(t, t, t, 1)
  {
  }

  /** `new()` is a two-sided identity of `aggregate`. */
  lemma AggregateIdentity(x: StationData)
    ensures x.Aggregate(StationData.New()) == x
    ensures StationData.New().Aggregate(x) == x
  {
  }

  lemma AggregateCommutative(x: StationData, y: StationData)
    ensures x.Aggregate(y) == y.Aggregate(x)
  {
  }

  lemma AggregateAssociative(x: StationData, y: StationData, z: StationData)
    ensures x.Aggregate(y).Aggregate(z) == x.Aggregate(y.Aggregate(z))
  {
  }

  /** Updating is aggregating with the single-reading record. */
  lemma UpdateIsAggregate(x: StationData, t: I8)
    ensures x.Update(t) == x.Aggregate(StationData(t, t, t, 1))
  {
  }

  // ---------------------------------------------------------------------
  // Reference definition: the statistics of a sequence of readings.
  // ---------------------------------------------------------------------

  function MinOf(rs: seq<I8>): I8
    requires |rs| > 0
  {
    if |rs| == 1 then rs[0] else Min(MinOf(rs[..|rs| - 1]), rs[|rs| - 1])
  }

  function MaxOf(rs: seq<I8>): I8
    requires |rs| > 0
  {
    if |rs| == 1 then rs[0] else Max(MaxOf(rs[..|rs| - 1]), rs[|rs| - 1])
  }

  function SumOf(rs: seq<I8>): int
  {
    if rs == [] then 0 else SumOf(rs[..|rs| - 1]) + rs[|rs| - 1]
  }

  /** What a record built from the non-empty readings `rs` must hold. */
  function Summary(rs: seq<I8>): StationData
    requires |rs| > 0
  {
    StationData(MinOf(rs), MaxOf(rs), SumOf(rs), |rs|)
  }

  /** The extremes are observed readings and bound every reading; the exact sum lies between count times each. */
  lemma {:induction false} SummaryBounds(rs: seq<I8>)
    requires |rs| > 0
    ensures MinOf(rs) in rs && MaxOf(rs) in rs
    ensures forall i :: 0 <= i < |rs| ==> MinOf(rs) <= rs[i] <= MaxOf(rs)
    ensures MinOf(rs) * |rs| <= SumOf(rs) <= MaxOf(rs) * |rs|
  {
    if |rs| > 1 {
      var init, t := rs[..|rs| - 1], rs[|rs| - 1];
      SummaryBounds(init);
      assert rs == init + [t];
      ExtremesStep(rs, init, t);
      SumBoundsStep(MinOf(init), MaxOf(init), MinOf(rs), MaxOf(rs), SumOf(init), t, |init|);
    }
  }

  lemma ExtremesStep(rs: seq<I8>, init: seq<I8>, t: I8)
    requires |init| > 0 && rs == init + [t]
    requires MinOf(init) in init && MaxOf(init) in init
    requires forall i :: 0 <= i < |init| ==> MinOf(init) <= init[i] <= MaxOf(init)
    ensures MinOf(rs) == Min(MinOf(init), t) && MaxOf(rs) == Max(MaxOf(init), t)
    ensures MinOf(rs) in rs && MaxOf(rs) in rs
    ensures forall i :: 0 <= i < |rs| ==> MinOf(rs) <= rs[i] <= MaxOf(rs)
  {
    assert rs[..|rs| - 1] == init;
    forall i | 0 <= i < |rs| ensures MinOf(rs) <= rs[i] <= MaxOf(rs) {
      if i < |init| { assert rs[i] == init[i]; }
    }
  }

  /** The arithmetic of one step of SummaryBounds, kept apart from the sequences. */
  lemma SumBoundsStep(lo: int, hi: int, lo': int, hi': int, sum: int, t: int, n: nat)
    requires lo * n <= sum <= hi * n
    requires lo' == Min(lo, t) && hi' == Max(hi, t)
    ensures lo' * (n + 1) <= sum + t <= hi' * (n + 1)
  {
    MulMonotone(lo', lo, n);
    MulMonotone(hi, hi', n);
  }

  lemma MulMonotone(a: int, b: int, n: nat)
    requires a <= b
    ensures a * n <= b * n
  {
  }

  /** A fresh record updated with a non-empty sequence of readings, in order, equals their summary. */
  lemma {:induction false} SummarySnoc(rs: seq<I8>, t: I8)
    ensures Summary(rs + [t]) == (if rs == [] then StationData.New() else Summary(rs)).Update(t)
  {
    var s := rs + [t];
    assert s[..|s| - 1] == rs;
    assert s[|s| - 1] == t;
    if rs == [] {
      assert s == [t];
      assert MinOf(s) == t && MaxOf(s) == t;
      assert SumOf(s) == SumOf([]) + t;
    } else {
      assert MinOf(s) == Min(MinOf(rs), t);
      assert MaxOf(s) == Max(MaxOf(rs), t);
      assert SumOf(s) == SumOf(rs) + t;
    }
  }

  /** Aggregating two summaries gives the summary of the concatenated readings. */
  lemma {:induction false} SummaryConcat(a: seq<I8>, b: seq<I8>)
    requires |a| > 0 && |b| > 0
    ensures Summary(a).Aggregate(Summary(b)) == Summary(a + b)
  {
    if |b| == 1 {
      SummarySnoc(a, b[0]);
      UpdateIsAggregate(Summary(a), b[0]);
      assert b == [b[0]] && b[..0] == [];
      assert MinOf(b) == b[0] && MaxOf(b) == b[0];
      assert SumOf(b) == SumOf(b[..0]) + b[0];
      assert Summary(b) == StationData(b[0], b[0], b[0], 1);
    } else {
      var init := b[..|b| - 1];
      var t := b[|b| - 1];
      SummaryConcat(a, init);
      SummarySnoc(init, t);
      SummarySnoc(a + init, t);
      assert b == init + [t];
      assert a + b == (a + init) + [t];
      calc {
        Summary(a).Aggregate(Summary(b));
        Summary(a).Aggregate(Summary(init).Update(t));
        Summary(a).Aggregate(Summary(init)).Update(t);
        Summary(a + init).Update(t);
        Summary(a + b);
      }
    }
  }
}
