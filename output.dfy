/**
 * The output assembly of src/main.rs: the table's entries are collected as
 * (station, numbers) pairs, sorted by station name, and written as
 * `{name=numbers, name=numbers, ...}` followed by a newline.
 *
 * The numbers of an entry (`min/mean/max`, each an `f32` printed with one
 * decimal) come from floating-point formatting, which is not modelled:
 * `render` stands for it and the model treats its text as opaque.
 */
module Output {
  import opened StationStats
  import opened Tables

  /**
   * Rust's ordering of `String`: lexicographic over the bytes, a proper
   * prefix first. On UTF-8 text this is the lexicographic order of the code
   * points, which is what is compared here.
   */
  function LexLess(a: string, b: string): (r: bool)
    ensures |a| < |b| && a == b[..|a|] ==> r
    ensures |b| <= |a| && b == a[..|b|] ==> !r
  {
    if a == [] then b != []
    else if b == [] then false
    else if a[0] != b[0] then a[0] < b[0]
    else
      assert |a| <= |b| && a == b[..|a|] ==> a[1..] == b[1..][..|a| - 1];
      assert |b| <= |a| && b == a[..|b|] ==> b[1..] == a[1..][..|b| - 1];
      LexLess(a[1..], b[1..])
  }

  lemma {:induction false} LexIrreflexive(a: string)
    ensures !LexLess(a, a)
  {
    if a != [] { LexIrreflexive(a[1..]); }
  }

  lemma {:induction false} LexTransitive(a: string, b: string, c: string)
    requires LexLess(a, b) && LexLess(b, c)
    ensures LexLess(a, c)
  {
    if a != [] && b != [] && c != [] && a[0] == b[0] && b[0] == c[0] {
      LexTransitive(a[1..], b[1..], c[1..]);
    }
  }

  lemma {:induction false} LexTotal(a: string, b: string)
    requires a != b
    ensures LexLess(a, b) || LexLess(b, a)
  {
    if a != [] && b != [] && a[0] == b[0] {
      assert a == [a[0]] + a[1..] && b == [b[0]] + b[1..];
      LexTotal(a[1..], b[1..]);
    }
  }

  lemma LexAsymmetric(a: string, b: string)
    requires LexLess(a, b)
    ensures !LexLess(b, a)
  {
    if LexLess(b, a) {
      LexTransitive(a, b, a);
      LexIrreflexive(a);
    }
  }

  /** One element of `formatted_results`: a station name and its rendered numbers. */
  type Entry = (string, string)

  /** Strictly ascending by station name: hence also no name twice. */
  predicate StrictlySorted(es: seq<Entry>)
  {
    forall i, j :: 0 <= i < j < |es| ==> LexLess(es[i].0, es[j].0)
  }

  predicate DistinctNames(es: seq<Entry>)
  {
    forall i, j :: 0 <= i < j < |es| ==> es[i].0 != es[j].0
  }

  /** Insertion into a sorted vector: adds exactly the one entry. */
  function Insert(e: Entry, es: seq<Entry>): (r: seq<Entry>)
    ensures multiset(r) == multiset(es) + multiset{e}
  {
    if es == [] then [e]
    else if LexLess(es[0].0, e.0) then
      assert es == [es[0]] + es[1..];
      [es[0]] + Insert(e, es[1..])
    else [e] + es
  }

  /** `sort_unstable_by` on the station names: a permutation of its input. */
  function Sort(es: seq<Entry>): (r: seq<Entry>)
    ensures multiset(r) == multiset(es)
  {
    if es == [] then []
    else
      assert es == [es[0]] + es[1..];
      Insert(es[0], Sort(es[1..]))
  }

  lemma InsertElements(e: Entry, es: seq<Entry>, x: Entry)
    requires x in Insert(e, es)
    ensures x == e || x in es
  {
    assert x in multiset(Insert(e, es));
  }

  lemma {:induction false} InsertSorted(e: Entry, es: seq<Entry>)
    requires StrictlySorted(es)
    requires forall i :: 0 <= i < |es| ==> es[i].0 != e.0
    ensures StrictlySorted(Insert(e, es))
  {
    if es == [] {
    } else if LexLess(es[0].0, e.0) {
      var tail := es[1..];
      InsertSorted(e, tail);
      var r := Insert(e, es);
      assert r == [es[0]] + Insert(e, tail);
      forall j | 0 < j < |r| ensures LexLess(es[0].0, r[j].0) {
        var x := r[j];
        assert x == Insert(e, tail)[j - 1];
        InsertElements(e, tail, x);
        if x != e {
          var m :| 0 <= m < |tail| && tail[m] == x;
          assert es[m + 1] == x;
        }
      }
    } else {
      var r := [e] + es;
      LexTotal(e.0, es[0].0);
      forall j | 0 < j < |r| ensures LexLess(e.0, r[j].0) {
        if j > 1 { LexTransitive(e.0, es[0].0, r[j].0); }
      }
    }
  }

  /** With distinct station names, the sort leaves them strictly ascending. */
  lemma {:induction false} SortSorted(es: seq<Entry>)
    requires DistinctNames(es)
    ensures StrictlySorted(Sort(es))
  {
    if es != [] {
      var tail := es[1..];
      assert DistinctNames(tail);
      SortSorted(tail);
      var st := Sort(tail);
      forall i | 0 <= i < |st| ensures st[i].0 != es[0].0 {
        assert st[i] in multiset(tail);
        var m :| 0 <= m < |tail| && tail[m] == st[i];
        assert es[m + 1] == st[i];
      }
      InsertSorted(es[0], st);
    }
  }

  /**
   * A strictly sorted sequence is determined by its elements: whatever order
   * the hash map yields its entries in, the sorted vector is the same.
   */
  lemma {:induction false} SortedUnique(a: seq<Entry>, b: seq<Entry>)
    requires StrictlySorted(a) && StrictlySorted(b)
    requires forall e :: e in a <==> e in b
    ensures a == b
  {
    assert a != [] ==> a[0] in b;
    assert b != [] ==> b[0] in a;
    if a != [] && b != [] {
      if a[0] != b[0] {
        assert a[0] in b;
        assert b[0] in a;
        var i :| 0 <= i < |b| && b[i] == a[0];
        var j :| 0 <= j < |a| && a[j] == b[0];
        LexAsymmetric(b[0].0, a[0].0);
        assert false;
      }
      forall e ensures e in a[1..] <==> e in b[1..] {
        if e in a[1..] {
          var i :| 1 <= i < |a| && a[i] == e;
          LexIrreflexive(a[0].0);
          assert e != a[0];
          assert e in b;
        }
        if e in b[1..] {
          var i :| 1 <= i < |b| && b[i] == e;
          LexIrreflexive(b[0].0);
          assert e != b[0];
          assert e in a;
        }
      }
      SortedUnique(a[1..], b[1..]);
      assert a == [a[0]] + a[1..] && b == [b[0]] + b[1..];
    }
  }

  /** The text between the braces: `name=numbers` pieces, `", "` only between pieces. */
  function Joined(es: seq<Entry>): (r: string)
    ensures r == "" <==> es == []
    ensures es != [] ==> |es[0].0| < |r| && r[..|es[0].0| + 1] == es[0].0 + "="
  {
    if es == [] then ""
    else
      var init, last := es[..|es| - 1], es[|es| - 1];
      var r := Joined(init) + (if |es| > 1 then ", " else "") + last.0 + "=" + last.1;
      assert |es| > 1 ==> init[0] == es[0] && r[..|es[0].0| + 1] == Joined(init)[..|es[0].0| + 1];
      assert |es| == 1 ==> r == last.0 + "=" + last.1 && last == es[0];
      r
  }

  lemma JoinedSnoc(es: seq<Entry>, i: nat)
    requires i < |es|
    ensures Joined(es[..i + 1]) == Joined(es[..i]) + ((if i > 0 then ", " else "") + es[i].0 + "=" + es[i].1)
  {
    assert es[..i + 1][..i] == es[..i];
  }

  /** The entries of the table as `.into_iter().map(..).collect()` yields them, in arbitrary order. */
  method Collect(table: Table, render: StationData -> string) returns (es: seq<Entry>)
    ensures |es| == |table|
    ensures DistinctNames(es)
    ensures forall e :: e in es <==> e.0 in table && e.1 == render(table[e.0])
  {
    es := [];
    var rest := table.Keys;
    while rest != {}
      invariant rest <= table.Keys
      invariant |es| + |rest| == |table|
      invariant DistinctNames(es)
      invariant forall i :: 0 <= i < |es| ==> es[i].0 !in rest
      invariant forall e :: e in es <==> e.0 in table.Keys - rest && e.1 == render(table[e.0])
      decreases rest
    {
      var name :| name in rest;
      es := es + [(name, render(table[name]))];
      rest := rest - {name};
    }
  }

  /** Lines 72-97: collect, sort by name, and write the braces-enclosed, comma-separated text. */
  method Format(table: Table, render: StationData -> string) returns (out: string, ghost sorted: seq<Entry>)
    ensures StrictlySorted(sorted)
    ensures forall e :: e in sorted <==> e.0 in table && e.1 == render(table[e.0])
    ensures out == "{" + Joined(sorted) + "}\n"
    ensures out[0] == '{' && out[|out| - 2..] == "}\n"
    ensures table == map[] ==> out == "{}\n"
  {
    var formatted := Collect(table, render);
    var s := Sort(formatted);
    sorted := s;
    SortedPermutation(formatted);
    out := Write(s);
    if table == map[] {
      assert sorted == [];
    }
  }

  /** Lines 89-97: `{`, each entry as `name=numbers` with `", "` before all but the first, `}` and a newline. */
  method Write(sorted: seq<Entry>) returns (out: string)
    ensures out == "{" + Joined(sorted) + "}\n"
    ensures out[0] == '{' && out[|out| - 2..] == "}\n"
  {
    out := "{";
    for i := 0 to |sorted|
      invariant out == "{" + Joined(sorted[..i])
    {
      var separator := if i > 0 then ", " else "";
      var piece := separator + sorted[i].0 + "=" + sorted[i].1;
      JoinedSnoc(sorted, i);
      out := out + piece;
    }
    assert sorted[..|sorted|] == sorted;
    out := out + "}";
    out := out + "\n";
    assert out == "{" + Joined(sorted) + "}\n";
  }

  /** The sorted vector holds exactly the collected entries, in strictly ascending order. */
  lemma SortedPermutation(es: seq<Entry>)
    requires DistinctNames(es)
    ensures StrictlySorted(Sort(es))
    ensures forall e :: e in Sort(es) <==> e in es
  {
    SortSorted(es);
    forall e ensures e in Sort(es) <==> e in es {
      assert e in Sort(es) <==> e in multiset(Sort(es));
    }
  }
}
