/**
  The map stage (`map_worker`, a Counter built from one slice) and the reduce
  stage (`reduce_counters`, which adds every partial Counter into an empty
  one with `update`, in list order). A Counter is a map from token to count;
  a missing token counts 0, as Counter's lookup does.
*/
module Counting {
  import opened Seqs
  import opened Tokenizer

  /** A frequency table, Python's Counter. */
  type Table = map<Token, nat>

  /** counter[w]: the stored count, or 0 for a token the table lacks. */
  function CountOf(t: Table, w: Token): nat
  {
    if w in t then t[w] else 0
  }

  /** Two tables with the same keys and the same counts are equal. */
  lemma TablesEqual(l: Table, r: Table)
    requires forall w :: w in l <==> w in r
    requires forall w :: CountOf(l, w) == CountOf(r, w)
    ensures l == r
  {
    assert l.Keys == r.Keys;
    forall w | w in l ensures l[w] == r[w] {
      assert CountOf(l, w) == CountOf(r, w);
    }
  }

  /** One step of Counter(iterable): counter[w] += 1. */
  function Increment(t: Table, w: Token): (r: Table)
    ensures r.Keys == t.Keys + {w}
    ensures CountOf(r, w) == CountOf(t, w) + 1
    ensures forall v :: v != w ==> CountOf(r, v) == CountOf(t, v)
  {
    t[w := CountOf(t, w) + 1]
  }

  /** map_worker(words_slice) == Counter(words_slice). */
  function Count(words: seq<Token>): (t: Table)
    ensures forall w :: w in t <==> w in words
    ensures forall w :: CountOf(t, w) == multiset(words)[w]
  {
    if words == [] then map[]
    else
      var init, last := words[..|words| - 1], words[|words| - 1];
      assert words == init + [last];
      Increment(Count(init), last)
  }

  /** total.update(c) for a mapping c: every count of c is added to total's. */
  function Merge(total: Table, c: Table): (r: Table)
    ensures r.Keys == total.Keys + c.Keys
    ensures forall w :: CountOf(r, w) == CountOf(total, w) + CountOf(c, w)
  {
    map w | w in total.Keys + c.Keys :: CountOf(total, w) + CountOf(c, w)
  }

  /** The value reduce_counters computes: the tables merged into an empty one, first to last. */
  function Total(cs: seq<Table>): Table
  {
    if cs == [] then map[] else Merge(Total(cs[..|cs| - 1]), cs[|cs| - 1])
  }

  /** Reference definition: the sum of w's counts over all tables of cs. */
  function SumAt(cs: seq<Table>, w: Token): nat
  {
    if cs == [] then 0 else SumAt(cs[..|cs| - 1], w) + CountOf(cs[|cs| - 1], w)
  }

  /** pool.map(map_worker, slices): one table per slice, in slice order. */
  function MapStage(slices: seq<seq<Token>>): (tables: seq<Table>)
    ensures |tables| == |slices|
    ensures forall i :: 0 <= i < |slices| ==> tables[i] == Count(slices[i])
  {
    seq(|slices|, i requires 0 <= i < |slices| => Count(slices[i]))
  }

  // ---------------------------------------------------------------------
  // The reduce stage.

  /** The total holds, for every word, the sum of its counts; its keys are the words of any table. */
  lemma {:induction false} TotalIsPointwiseSum(cs: seq<Table>)
    ensures forall w :: CountOf(Total(cs), w) == SumAt(cs, w)
    ensures forall w :: w in Total(cs) <==> exists c :: c in cs && w in c
  {
    if cs != [] {
      var init, last := cs[..|cs| - 1], cs[|cs| - 1];
      TotalIsPointwiseSum(init);
      assert cs == init + [last];
      forall w ensures w in Total(cs) <==> exists c :: c in cs && w in c {
        if w in last {
          assert last in cs;
        }
        if exists c :: c in cs && w in c {
          var c :| c in cs && w in c;
          if c != last {
            assert c in init;
          }
        }
      }
    }
  }

  /** reduce_counters(counters). */
  method ReduceCounters(counters: seq<Table>) returns (total: Table)
    ensures total == Total(counters)
    ensures forall w :: CountOf(total, w) == SumAt(counters, w)
    ensures forall w :: w in total <==> exists c :: c in counters && w in c
    ensures counters == [] ==> total == map[]
  {
    total := map[];
    for k := 0 to |counters|
      invariant total == Total(counters[..k])
    {
      assert counters[..k + 1][..k] == counters[..k];
      total := Merge(total, counters[k]);
    }
    assert counters[..|counters|] == counters;
    TotalIsPointwiseSum(counters);
  }

  lemma {:induction false} SumAtConcat(a: seq<Table>, b: seq<Table>, w: Token)
    ensures SumAt(a + b, w) == SumAt(a, w) + SumAt(b, w)
    decreases |b|
  {
    if b == [] {
      assert a + b == a;
    } else {
      var init := b[..|b| - 1];
      assert (a + b)[..|a + b| - 1] == a + init;
      SumAtConcat(a, init, w);
    }
  }

  /** Taking table j out of a list takes its counts out of the sum. */
  lemma SumAtRemove(ds: seq<Table>, j: nat, w: Token)
    requires j < |ds|
    ensures SumAt(ds, w) == SumAt(ds[..j] + ds[j + 1..], w) + CountOf(ds[j], w)
  {
    var one: seq<Table> := [ds[j]];
    assert ds == ds[..j] + one + ds[j + 1..];
    SumAtConcat(ds[..j] + one, ds[j + 1..], w);
    SumAtConcat(ds[..j], one, w);
    SumAtConcat(ds[..j], ds[j + 1..], w);
    assert one[..0] == [];
  }

  lemma MultisetRemove(cs: seq<Table>, ds: seq<Table>, j: nat)
    requires multiset(cs) == multiset(ds) && |cs| > 0
    requires j < |ds| && ds[j] == cs[|cs| - 1]
    ensures multiset(cs[..|cs| - 1]) == multiset(ds[..j] + ds[j + 1..])
  {
    var init, last, rest := cs[..|cs| - 1], cs[|cs| - 1], ds[..j] + ds[j + 1..];
    assert cs == init + [last];
    assert ds == ds[..j] + [ds[j]] + ds[j + 1..];
    assert multiset(ds) == multiset(ds[..j]) + multiset{last} + multiset(ds[j + 1..]);
    assert multiset(cs) == multiset(init) + multiset{last};
    assert multiset(rest) == multiset(ds[..j]) + multiset(ds[j + 1..]);
    forall t ensures multiset(init)[t] == multiset(rest)[t] {
      assert multiset(cs)[t] == multiset(ds)[t];
    }
  }

  lemma {:induction false} SumAtPermutation(cs: seq<Table>, ds: seq<Table>, w: Token)
    requires multiset(cs) == multiset(ds)
    ensures SumAt(cs, w) == SumAt(ds, w)
    decreases |cs|
  {
    if cs == [] {
      assert |ds| == |multiset(ds)| == 0;
    } else {
      var init, last := cs[..|cs| - 1], cs[|cs| - 1];
      assert last in multiset(ds) by {
        assert cs == init + [last];
      }
      var j :| 0 <= j < |ds| && ds[j] == last;
      MultisetRemove(cs, ds, j);
      SumAtPermutation(init, ds[..j] + ds[j + 1..], w);
      SumAtRemove(ds, j, w);
    }
  }

  /** Merge order does not matter: tables in any order reduce to the same total. */
  lemma ReduceOrderIndependent(cs: seq<Table>, ds: seq<Table>)
    requires multiset(cs) == multiset(ds)
    ensures Total(cs) == Total(ds)
  {
    TotalIsPointwiseSum(cs);
    TotalIsPointwiseSum(ds);
    forall w ensures CountOf(Total(cs), w) == CountOf(Total(ds), w) {
      SumAtPermutation(cs, ds, w);
    }
    forall c ensures c in cs <==> c in ds {
      assert c in cs <==> c in multiset(cs);
      assert c in ds <==> c in multiset(ds);
    }
    TablesEqual(Total(cs), Total(ds));
  }

  // ---------------------------------------------------------------------
  // Map and reduce together.

  /** Merging the counts of two word lists counts their concatenation. */
  lemma MergeCounts(a: seq<Token>, b: seq<Token>)
    ensures Merge(Count(a), Count(b)) == Count(a + b)
  {
    var ab := a + b;
    var l, r := Merge(Count(a), Count(b)), Count(ab);
    forall w ensures (w in l <==> w in r) && CountOf(l, w) == CountOf(r, w) {
      assert w in ab <==> w in a || w in b;
      assert multiset(ab)[w] == multiset(a)[w] + multiset(b)[w];
    }
    TablesEqual(l, r);
  }

  /** Reducing the partial counts of a list of slices counts the slices joined. */
  lemma MapStageSnoc(parts: seq<seq<Token>>)
    requires parts != []
    ensures Total(MapStage(parts)) == Merge(Total(MapStage(parts[..|parts| - 1])), Count(parts[|parts| - 1]))
  {
    var tables := MapStage(parts);
    assert tables[..|tables| - 1] == MapStage(parts[..|parts| - 1]);
  }

  lemma {:induction false} ReduceOfCounts(parts: seq<seq<Token>>)
    ensures Total(MapStage(parts)) == Count(Flatten(parts))
  {
    if parts != [] {
      var init, last := parts[..|parts| - 1], parts[|parts| - 1];
      MapStageSnoc(parts);
      ReduceOfCounts(init);
      MergeCounts(Flatten(init), last);
      FlattenLast(parts);
    }
  }
}
