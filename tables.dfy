/**
 * The aggregation tables of src/main.rs: `process_line` folding one line
 * into a table, the sequential fold over a worker's lines, the reduce
 * closure merging one table into another, and the laws that make the
 * parallel fold/reduce equal to one pass over all the lines.
 *
 * A `HashMap<String, StationData>` is a Dafny `map`; the source mutates a
 * table it owns exclusively, so each mutation is a new `map` value. The
 * laws are stated over the parsed lines (station and reading), which is all
 * of a line that reaches the table.
 */
module Tables {
  import opened StationStats
  import opened Records
  import opened Temperature

  type Table = map<string, StationData>

  /** The byte `process_line` splits on. */
  const Delimiter: char := ';'

  function KeyOf(line: string): string
  {
    SplitOnce(line, Delimiter).0
  }

  function TokenOf(line: string): string
  {
    SplitOnce(line, Delimiter).1
  }

  /** The line's value token fits the parser's `i8` accumulator. */
  predicate LineFits(line: string)
  {
    Fits(TokenOf(line))
  }

  predicate AllFit(lines: seq<string>)
  {
    forall i :: 0 <= i < |lines| ==> LineFits(lines[i])
  }

  /** What `process_line` takes from a line: the station name and the parsed reading. */
  datatype Measurement = Measurement(station: string, temp: I8)

  function ParseLine(line: string): Measurement
    requires LineFits(line)
  {
    Measurement(KeyOf(line), Reading(TokenOf(line)))
  }

  function ParseLines(lines: seq<string>): (ms: seq<Measurement>)
    requires AllFit(lines)
    ensures |ms| == |lines|
  {
    if lines == [] then []
    else ParseLines(lines[..|lines| - 1]) + [ParseLine(lines[|lines| - 1])]
  }

  /** The stations named by some measurement. */
  function Stations(ms: seq<Measurement>): set<string>
  {
    set i | 0 <= i < |ms| :: ms[i].station
  }

  /** Every record holds at least one reading, and its minimum is at most its maximum. */
  predicate WellFormed(t: Table)
  {
    forall k :: k in t ==> t[k].count >= 1 && t[k].minTemp <= t[k].maxTemp
  }

  /**
   * The table after one measurement: its station's record updated, or
   * created from this single reading; no other station changes.
   */
  function Step(acc: Table, m: Measurement): (r: Table)
    ensures r.Keys == acc.Keys + {m.station}
    ensures forall k :: k in acc && k != m.station ==> r[k] == acc[k]
    ensures r[m.station].count == (if m.station in acc then acc[m.station].count else 0) + 1
    ensures r[m.station].minTemp <= m.temp <= r[m.station].maxTemp
    ensures WellFormed(acc) ==> WellFormed(r)
  {
    acc[m.station := if m.station in acc then acc[m.station].Update(m.temp) else StationData.New().Update(m.temp)]
  }

  /** The table after the measurements, in order, starting from `acc`. */
  function Fold(acc: Table, ms: seq<Measurement>): (r: Table)
    ensures r.Keys == acc.Keys + Stations(ms)
    ensures WellFormed(acc) ==> WellFormed(r)
  {
    if ms == [] then acc
    else
      var init := ms[..|ms| - 1];
      assert Stations(ms) == Stations(init) + {ms[|ms| - 1].station} by {
        forall k ensures k in Stations(ms) <==> k in Stations(init) + {ms[|ms| - 1].station} {
          if k in Stations(ms) {
            var i :| 0 <= i < |ms| && ms[i].station == k;
            if i < |ms| - 1 { assert init[i] == ms[i]; }
          }
          if k in Stations(init) {
            var i :| 0 <= i < |init| && init[i].station == k;
            assert ms[i] == init[i];
          }
        }
      }
      Step(Fold(acc, init), ms[|ms| - 1])
  }

  /**
   * The reduce closure's result: keys of either table; a shared key gets
   * the aggregate of both records, any other key keeps its record.
   */
  function Merge(a: Table, b: Table): (r: Table)
    ensures r.Keys == a.Keys + b.Keys
    ensures WellFormed(a) && WellFormed(b) ==> WellFormed(r)
  {
    map k | k in a.Keys + b.Keys ::
      if k in a && k in b then a[k].Aggregate(b[k]) else if k in a then a[k] else b[k]
  }

  // ---------------------------------------------------------------------
  // The operations of the source.
  // ---------------------------------------------------------------------

  /** `process_line`. */
  method ProcessLine(acc: Table, line: string) returns (r: Table)
    requires LineFits(line)
    ensures r == Step(acc, ParseLine(line))
    ensures KeyOf(line) in r
    ensures r[KeyOf(line)] ==
      (if KeyOf(line) in acc then acc[KeyOf(line)] else StationData.New()).Update(Reading(TokenOf(line)))
    ensures forall k :: k != KeyOf(line) ==> (k in r <==> k in acc)
    ensures forall k :: k in acc && k != KeyOf(line) ==> r[k] == acc[k]
  {
    var (station, tempStr) := SplitOnce(line, Delimiter);
    var temp := ParseTemperature(tempStr);
    if station in acc {
      r := acc[station := acc[station].Update(temp)];
    } else {
      var data := StationData.New();
      data := data.Update(temp);
      r := acc[station := data];
    }
  }

  lemma ParseLinesSnoc(lines: seq<string>, i: nat)
    requires AllFit(lines) && i < |lines|
    ensures AllFit(lines[..i]) && AllFit(lines[..i + 1])
    ensures ParseLines(lines[..i + 1]) == ParseLines(lines[..i]) + [ParseLine(lines[i])]
  {
    assert lines[..i + 1][..i] == lines[..i];
  }

  /** One worker's fold: `process_line` over its lines, from an empty table. */
  method FoldLines(lines: seq<string>) returns (acc: Table)
    requires AllFit(lines)
    ensures acc == Fold(map[], ParseLines(lines))
  {
    acc := map[];
    for i := 0 to |lines|
      invariant AllFit(lines[..i])
      invariant acc == Fold(map[], ParseLines(lines[..i]))
    {
      ParseLinesSnoc(lines, i);
      FoldSnoc(map[], ParseLines(lines[..i]), ParseLine(lines[i]));
      acc := ProcessLine(acc, lines[i]);
    }
    assert lines[..|lines|] == lines;
  }

  /** The records of `h` whose keys lie in `done`. */
  function Restrict(h: Table, done: set<string>): Table
  {
    map k | k in h.Keys * done :: h[k]
  }

  /** The reduce closure: every entry of `h` moved into `acc`. */
  method MergeInto(acc: Table, h: Table) returns (r: Table)
    ensures r == Merge(acc, h)
    ensures r.Keys == acc.Keys + h.Keys
    ensures forall k :: k in acc && k in h ==> r[k] == acc[k].Aggregate(h[k])
    ensures forall k :: k in acc && k !in h ==> r[k] == acc[k]
    ensures forall k :: k !in acc && k in h ==> r[k] == h[k]
  {
    r := acc;
    var rest := h.Keys;
    assert Restrict(h, {}) == map[];
    MergeIdentity(acc);
    while rest != {}
      invariant rest <= h.Keys
      invariant r == Merge(acc, Restrict(h, h.Keys - rest))
      decreases rest
    {
      var station :| station in rest;
      var data := h[station];
      ghost var done := h.Keys - rest;
      MergeOneMore(acc, h, done, station);
      if station in r {
        r := r[station := r[station].Aggregate(data)];
      } else {
        r := r[station := data];
      }
      rest := rest - {station};
      assert h.Keys - rest == done + {station};
    }
    assert Restrict(h, h.Keys) == h;
  }

  /** Moving one more entry of `h` into a partial merge. */
  lemma MergeOneMore(acc: Table, h: Table, done: set<string>, k: string)
    requires k in h && k !in done
    ensures k in Merge(acc, Restrict(h, done)) <==> k in acc
    ensures k in acc ==> Merge(acc, Restrict(h, done))[k] == acc[k]
    ensures Merge(acc, Restrict(h, done + {k})) ==
      Merge(acc, Restrict(h, done))[k := if k in acc then acc[k].Aggregate(h[k]) else h[k]]
  {
    var before := Restrict(h, done);
    assert k !in before;
    assert Restrict(h, done + {k}) == before[k := h[k]];
  }

  // ---------------------------------------------------------------------
  // Laws of the merge.
  // ---------------------------------------------------------------------

  /** The empty table (`HashMap::new`, the reduce identity) is a two-sided identity. */
  lemma MergeIdentity(a: Table)
    ensures Merge(a, map[]) == a
    ensures Merge(map[], a) == a
  {
  }

  lemma MergeCommutative(a: Table, b: Table)
    ensures Merge(a, b) == Merge(b, a)
  {
    forall k | k in a && k in b ensures a[k].Aggregate(b[k]) == b[k].Aggregate(a[k]) {
      AggregateCommutative(a[k], b[k]);
    }
  }

  lemma MergeAssociative(a: Table, b: Table, c: Table)
    ensures Merge(Merge(a, b), c) == Merge(a, Merge(b, c))
  {
    var l, r := Merge(Merge(a, b), c), Merge(a, Merge(b, c));
    forall k | k in l ensures l[k] == r[k] {
      if k in a && k in b && k in c {
        AggregateAssociative(a[k], b[k], c[k]);
      }
    }
  }

  // ---------------------------------------------------------------------
  // The fold/reduce contract.
  // ---------------------------------------------------------------------

  /** Processing a line is merging in the table of that one line. */
  lemma StepIsMerge(a: Table, m: Measurement)
    ensures Step(a, m) == Merge(a, Step(map[], m))
  {
    FirstReading(m.temp);
    if m.station in a {
      UpdateIsAggregate(a[m.station], m.temp);
    }
  }

  /** One more line at the end is one more `process_line`. */
  lemma FoldSnoc(acc: Table, ms: seq<Measurement>, m: Measurement)
    ensures Fold(acc, ms + [m]) == Step(Fold(acc, ms), m)
  {
    var l := ms + [m];
    assert l[..|l| - 1] == ms;
  }

  lemma SnocSplit<T>(a: seq<T>, b: seq<T>)
    requires b != []
    ensures b == b[..|b| - 1] + [b[|b| - 1]]
    ensures a + b == (a + b[..|b| - 1]) + [b[|b| - 1]]
  {
  }

  /** Folding a concatenation is folding the second part onto the fold of the first. */
  lemma {:induction false} FoldConcat(acc: Table, m1: seq<Measurement>, m2: seq<Measurement>)
    ensures Fold(acc, m1 + m2) == Fold(Fold(acc, m1), m2)
  {
    if m2 == [] {
      assert m1 + m2 == m1;
    } else {
      var n := |m2| - 1;
      var init, x := m2[..n], m2[n];
      FoldConcat(acc, m1, init);
      SnocSplit(m1, m2);
      calc {
        Fold(acc, m1 + m2);
        { FoldSnoc(acc, m1 + init, x); }
        Step(Fold(acc, m1 + init), x);
        Step(Fold(Fold(acc, m1), init), x);
        { FoldSnoc(Fold(acc, m1), init, x); }
        Fold(Fold(acc, m1), m2);
      }
    }
  }

  /** Folding from any table is merging that table with the fold from the empty one. */
  lemma {:induction false} FoldIsMerge(acc: Table, ms: seq<Measurement>)
    ensures Fold(acc, ms) == Merge(acc, Fold(map[], ms))
  {
    if ms == [] {
      MergeIdentity(acc);
    } else {
      var n := |ms| - 1;
      var init, last := ms[..n], ms[n];
      FoldIsMerge(acc, init);
      var f := Fold(map[], init);
      var one := Step(map[], last);
      calc {
        Fold(acc, ms);
        Step(Fold(acc, init), last);
        Step(Merge(acc, f), last);
        { StepIsMerge(Merge(acc, f), last); }
        Merge(Merge(acc, f), one);
        { MergeAssociative(acc, f, one); }
        Merge(acc, Merge(f, one));
        { StepIsMerge(f, last); }
        Merge(acc, Step(f, last));
        Merge(acc, Fold(map[], ms));
      }
    }
  }

  /**
   * The fold/reduce contract: the table of `l1 ++ l2` is the merge of the
   * tables of `l1` and of `l2`, whichever worker computed each.
   */
  lemma SplitMerge(m1: seq<Measurement>, m2: seq<Measurement>)
    ensures Fold(map[], m1 + m2) == Merge(Fold(map[], m1), Fold(map[], m2))
  {
    FoldConcat(map[], m1, m2);
    FoldIsMerge(Fold(map[], m1), m2);
  }

  // ---------------------------------------------------------------------
  // Per-station meaning of a fold.
  // ---------------------------------------------------------------------

  /** The readings of station `k`, in order. */
  function ReadingsOf(k: string, ms: seq<Measurement>): seq<I8>
  {
    if ms == [] then []
    else
      var last := ms[|ms| - 1];
      ReadingsOf(k, ms[..|ms| - 1]) + (if last.station == k then [last.temp] else [])
  }

  /**
   * A station is in the table exactly when some line names it, and its
   * record is the summary (minimum, maximum, exact sum, count) of its
   * readings.
   */
  lemma {:induction false} FoldIsSummary(ms: seq<Measurement>, k: string)
    ensures k in Fold(map[], ms) <==> |ReadingsOf(k, ms)| > 0
    ensures k in Fold(map[], ms) ==> Fold(map[], ms)[k] == Summary(ReadingsOf(k, ms))
  {
    if ms != [] {
      var n := |ms| - 1;
      var last := ms[n];
      FoldIsSummary(ms[..n], k);
      var before, rs := Fold(map[], ms[..n]), ReadingsOf(k, ms[..n]);
      assert Fold(map[], ms) == Step(before, last);
      if last.station == k {
        assert ReadingsOf(k, ms) == rs + [last.temp];
        SummarySnoc(rs, last.temp);
      } else {
        assert ReadingsOf(k, ms) == rs;
      }
    }
  }

  /** Every record of a fold has a reading, ordered extremes, and a mean between them. */
  lemma TableInvariant(ms: seq<Measurement>, k: string)
    requires k in Fold(map[], ms)
    ensures var d := Fold(map[], ms)[k];
      d.count >= 1 && d.minTemp <= d.maxTemp &&
      d.minTemp * d.count <= d.totalTemp <= d.maxTemp * d.count
  {
    FoldIsSummary(ms, k);
    SummaryBounds(ReadingsOf(k, ms));
  }

  /** A well-formed line `key;token` has that key and that token. */
  lemma LineParts(key: string, token: string)
    requires Delimiter !in key
    ensures KeyOf(key + [Delimiter] + token) == key
    ensures TokenOf(key + [Delimiter] + token) == token
  {
    SplitOnceJoin(key, token, Delimiter);
  }

  /** Two readings of one station: `X;-3.5` then `X;12.0` give minimum -35, maximum 120, sum 85, count 2. */
  lemma TwoReadingsExample()
    ensures var lines := ["X" + [Delimiter] + "-3.5", "X" + [Delimiter] + "12.0"];
      AllFit(lines) && Fold(map[], ParseLines(lines)) == map["X" := StationData(-35, 120, 85, 2)]
  {
    ExampleParse();
    ExampleFold();
  }

  /** The readings -35 then 120 of station `X`, folded from an empty table. */
  lemma ExampleFold()
    ensures Fold(map[], [Measurement("X", -35), Measurement("X", 120)]) == map["X" := StationData(-35, 120, 85, 2)]
  {
    var m1, m2 := Measurement("X", -35), Measurement("X", 120);
    var ms := [m1, m2];
    assert ms[..1] == [m1];
    FoldSnoc(map[], [], m1);
    assert [] + [m1] == [m1];
    FirstReading(-35);
    var t1 := Fold(map[], [m1]);
    assert t1 == Step(map[], m1);
    assert t1 == map["X" := StationData(-35, -35, -35, 1)];
    assert Fold(map[], ms) == Step(t1, m2);
  }

  /** The lines `X;-3.5` and `X;12.0` parse to station `X` with readings -35 and 120. */
  lemma ExampleParse()
    ensures var lines := ["X" + [Delimiter] + "-3.5", "X" + [Delimiter] + "12.0"];
      AllFit(lines) && ParseLines(lines) == [Measurement("X", -35), Measurement("X", 120)]
  {
    var lines := ["X" + [Delimiter] + "-3.5", "X" + [Delimiter] + "12.0"];
    LineParts("X", "-3.5");
    LineParts("X", "12.0");
    ReadingExamples();
    assert LineFits(lines[0]) && LineFits(lines[1]);
    assert lines[..1] == [lines[0]] && lines[..1][..0] == [];
  }

  // ---------------------------------------------------------------------
  // The whole parallel fold/reduce, for any way of splitting the lines.
  // ---------------------------------------------------------------------

  lemma AllFitConcat(l1: seq<string>, l2: seq<string>)
    requires AllFit(l1) && AllFit(l2)
    ensures AllFit(l1 + l2)
  {
    var l := l1 + l2;
    forall i | 0 <= i < |l| ensures LineFits(l[i]) {
      if i < |l1| { assert l[i] == l1[i]; } else { assert l[i] == l2[i - |l1|]; }
    }
  }

  /** Parsing distributes over concatenation. */
  lemma {:induction false} ParseLinesConcat(l1: seq<string>, l2: seq<string>)
    requires AllFit(l1) && AllFit(l2)
    ensures AllFit(l1 + l2)
    ensures ParseLines(l1 + l2) == ParseLines(l1) + ParseLines(l2)
  {
    AllFitConcat(l1, l2);
    if l2 == [] {
      assert l1 + l2 == l1;
    } else {
      var n := |l2| - 1;
      var init, last := l2[..n], l2[n];
      assert AllFit(init);
      ParseLinesConcat(l1, init);
      var l := l1 + l2;
      assert l[..|l| - 1] == l1 + init;
      assert l[|l| - 1] == last;
      assert ParseLines(l) == ParseLines(l1 + init) + [ParseLine(last)];
      assert ParseLines(l2) == ParseLines(init) + [ParseLine(last)];
    }
  }

  /** How the lines were split among workers: a binary tree of contiguous pieces. */
  datatype SplitTree = Piece(lines: seq<string>) | Join(left: SplitTree, right: SplitTree)

  function LinesOf(t: SplitTree): seq<string>
  {
    match t
    case Piece(lines) => lines
    case Join(l, r) => LinesOf(l) + LinesOf(r)
  }

  predicate TreeFits(t: SplitTree)
  {
    match t
    case Piece(lines) => AllFit(lines)
    case Join(l, r) => TreeFits(l) && TreeFits(r)
  }

  /** Each piece folded from an empty table, the results combined by the reduce closure. */
  function ReduceTree(t: SplitTree): (r: Table)
    requires TreeFits(t)
    ensures WellFormed(r)
  {
    match t
    case Piece(lines) => Fold(map[], ParseLines(lines))
    case Join(l, r) => Merge(ReduceTree(l), ReduceTree(r))
  }

  /** However the lines are split and the partial tables combined, the result is one pass over all lines. */
  lemma {:induction false} ReduceTreeIsFold(t: SplitTree)
    requires TreeFits(t)
    ensures AllFit(LinesOf(t))
    ensures ReduceTree(t) == Fold(map[], ParseLines(LinesOf(t)))
  {
    match t
    case Piece(_) =>
    case Join(l, r) =>
      ReduceTreeIsFold(l);
      ReduceTreeIsFold(r);
      ParseLinesConcat(LinesOf(l), LinesOf(r));
      SplitMerge(ParseLines(LinesOf(l)), ParseLines(LinesOf(r)));
  }

  function Flatten(parts: seq<seq<string>>): seq<string>
  {
    if parts == [] then [] else Flatten(parts[..|parts| - 1]) + parts[|parts| - 1]
  }

  predicate PartsFit(parts: seq<seq<string>>)
  {
    forall i :: 0 <= i < |parts| ==> AllFit(parts[i])
  }

  lemma FlattenSnoc(parts: seq<seq<string>>, i: nat)
    requires PartsFit(parts) && i < |parts| && AllFit(Flatten(parts[..i]))
    ensures AllFit(Flatten(parts[..i + 1]))
    ensures ParseLines(Flatten(parts[..i + 1])) == ParseLines(Flatten(parts[..i])) + ParseLines(parts[i])
  {
    assert parts[..i + 1][..i] == parts[..i];
    ParseLinesConcat(Flatten(parts[..i]), parts[i]);
  }

  /**
   * Lines 56-69 run sequentially: every worker's lines folded from an empty
   * table, each partial table merged into the accumulator started from
   * `HashMap::new`. The result is the single-pass table of all lines.
   */
  method AggregateParts(parts: seq<seq<string>>) returns (table: Table)
    requires PartsFit(parts)
    ensures AllFit(Flatten(parts))
    ensures table == Fold(map[], ParseLines(Flatten(parts)))
  {
    table := map[];
    for i := 0 to |parts|
      invariant AllFit(Flatten(parts[..i]))
      invariant table == Fold(map[], ParseLines(Flatten(parts[..i])))
    {
      var local := FoldLines(parts[i]);
      FlattenSnoc(parts, i);
      SplitMerge(ParseLines(Flatten(parts[..i])), ParseLines(parts[i]));
      table := MergeInto(table, local);
    }
    assert parts[..|parts|] == parts;
  }
}
