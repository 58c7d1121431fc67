/**
 * `StationData` as src/main.rs declares it: all four fields are `i8`. In a
 * release build `+=` on `i8` wraps around modulo 256 (a debug build stops
 * with a panic instead). `total_temp` and `count` therefore go wrong as soon
 * as a station's sum of tenths leaves -128..127 or it has more than 127
 * readings. The rest of the model uses `StationStats.StationData`, whose
 * `total_temp` and `count` are unbounded.
 */
module Overflow {
  import opened StationStats

  /** Two's-complement wrap-around into the range of `i8`. */
  function Wrap8(x: int): (r: I8)
    ensures (r - x) % 256 == 0
    ensures -128 <= x <= 127 ==> r == x
  {
    (x + 128) % 256 - 128
  }

  /** The record with the field widths of the source. */
  datatype StationDataI8 = StationDataI8(minTemp: I8, maxTemp: I8, totalTemp: I8, count: I8)

  /** `StationData::new` with the source's field widths. */
  function NewI8(): (r: StationDataI8)
    ensures Widen(r) == StationData.New()
  {
    StationDataI8(I8Max, I8Min, 0, 0)
  }

  /** `update` as written, with release-build `i8` arithmetic. */
  function UpdateAsWritten(d: StationDataI8, t: I8): (r: StationDataI8)
    ensures r.minTemp == Min(d.minTemp, t) && r.maxTemp == Max(d.maxTemp, t)
    ensures (r.totalTemp - (d.totalTemp + t)) % 256 == 0
    ensures (r.count - (d.count + 1)) % 256 == 0
  {
    StationDataI8(Min(d.minTemp, t), Max(d.maxTemp, t), Wrap8(d.totalTemp + t), Wrap8(d.count + 1))
  }

  /** The same record with its fields read as unbounded integers. */
  function Widen(d: StationDataI8): StationData
  {
    StationData(d.minTemp, d.maxTemp, d.totalTemp, d.count)
  }

  /** While the sum and the count stay in range, the source's record agrees with the model's. */
  lemma AsWrittenAgreesInRange(d: StationDataI8, t: I8)
    requires -128 <= d.totalTemp + t <= 127 && d.count < 127
    ensures Widen(UpdateAsWritten(d, t)) == Widen(d).Update(t)
  {
  }

  /**
   * Two readings of 10.0 (100 tenths each) already overflow the total: the
   * source records -56 where the model records 200; and the 128th reading
   * of a station turns its count to -128.
   */
  lemma AsWrittenWraps(d: StationDataI8)
    requires d.count == 127
    ensures UpdateAsWritten(UpdateAsWritten(NewI8(), 100), 100).totalTemp == -56
    ensures StationData.New().Update(100).Update(100).totalTemp == 200
    ensures UpdateAsWritten(d, 0).count == -128
    ensures Widen(d).Update(0).count == 128
  {
    WrapValues();
    var once := UpdateAsWritten(StationDataI8(I8Max, I8Min, 0, 0), 100);
    assert once.totalTemp == 100;
    assert UpdateAsWritten(once, 100).totalTemp == -56;
    FirstReading(100);
    assert UpdateAsWritten(d, 0).count == -128;
  }

  lemma WrapValues()
    ensures Wrap8(100) == 100 && Wrap8(1) == 1 && Wrap8(200) == -56 && Wrap8(128) == -128
  {
  }
}
