/**
  The ranker, `counts.most_common(top_n)`: the top_n (word, count) pairs with
  the largest counts, largest first. Counter breaks ties by insertion order;
  this model leaves the order among equal counts open.
*/
module Ranker {
  import opened Seqs
  import opened Tokenizer
  import opened Counting

  /** One (word, count) pair of the ranking. */
  type Entry = (Token, nat)

  function Words(top: seq<Entry>): set<Token>
  {
    set i | 0 <= i < |top| :: top[i].0
  }

  /** Each entry is a word of the table with its count, no word twice, counts non-increasing. */
  ghost predicate Ranked(counts: Table, top: seq<Entry>)
  {
    && (forall i :: 0 <= i < |top| ==> top[i].0 in counts && top[i].1 == counts[top[i].0])
    && (forall i, j :: 0 <= i < j < |top| ==> top[i].0 != top[j].0)
    && (forall i, j :: 0 <= i < j < |top| ==> top[i].1 >= top[j].1)
  }

  /**
    `top` is an answer of counts.most_common(n): min(n, distinct words) ranked
    pairs (none for n <= 0), and no word left out has a larger count than one
    taken.
  */
  ghost predicate IsMostCommon(counts: Table, n: int, top: seq<Entry>)
  {
    && |top| == Min(Max(n, 0), |counts|)
    && Ranked(counts, top)
    && (forall i, w :: 0 <= i < |top| && w in counts && w !in Words(top) ==> counts[w] <= top[i].1)
  }

  /** A word of a non-empty table whose count no other word exceeds. */
  lemma {:induction false} MaxKey(m: Table) returns (w: Token)
    requires |m| > 0
    ensures w in m
    ensures forall v :: v in m ==> m[v] <= m[w]
    decreases |m|
  {
    var k :| k in m;
    var rest := m - {k};
    assert rest.Keys == m.Keys - {k};
    if |rest| == 0 {
      w := k;
      assert m.Keys == {k};
    } else {
      var r := MaxKey(rest);
      w := if m[k] <= m[r] then r else k;
      forall v | v in m ensures m[v] <= m[w] {
        if v != k {
          assert v in rest && rest[v] == m[v];
        }
      }
    }
  }

  /** The selection loop's invariant: `top` is ranked and `rest` holds the words not yet taken, none above a taken one. */
  ghost predicate Selecting(counts: Table, n: int, top: seq<Entry>, rest: Table)
  {
    && rest == counts - Words(top)
    && |top| + |rest| == |counts|
    && |top| <= Max(n, 0)
    && Ranked(counts, top)
    && (forall i, w :: 0 <= i < |top| && w in rest ==> rest[w] <= top[i].1)
  }

  /** Appending an untaken word whose count no entry is below keeps a ranking. */
  lemma Extend(counts: Table, top: seq<Entry>, w: Token)
    requires Ranked(counts, top) && w in counts && w !in Words(top)
    requires forall i :: 0 <= i < |top| ==> counts[w] <= top[i].1
    ensures Ranked(counts, top + [(w, counts[w])])
  {
  }

  lemma SelectOne(counts: Table, n: int, top: seq<Entry>, rest: Table, w: Token)
    requires Selecting(counts, n, top, rest) && |top| < n
    requires w in rest && forall v :: v in rest ==> rest[v] <= rest[w]
    ensures Selecting(counts, n, top + [(w, rest[w])], rest - {w})
  {
    var next, rest' := top + [(w, rest[w])], rest - {w};
    TakeWord(counts, top, rest, w);
    assert w in counts && rest[w] == counts[w] && w !in Words(top);
    Extend(counts, top, w);
    forall i, v | 0 <= i < |next| && v in rest' ensures rest'[v] <= next[i].1 {
      if i < |top| {
        assert next[i] == top[i];
      }
    }
  }

  lemma WordsSnoc(top: seq<Entry>, e: Entry)
    ensures Words(top + [e]) == Words(top) + {e.0}
  {
    var next := top + [e];
    assert forall i :: 0 <= i < |top| ==> next[i] == top[i];
    assert next[|top|] == e;
  }

  /** Taking w out of the remaining words matches appending it to the taken ones. */
  lemma TakeWord(counts: Table, top: seq<Entry>, rest: Table, w: Token)
    requires rest == counts - Words(top) && w in rest
    ensures rest - {w} == counts - Words(top + [(w, rest[w])])
    ensures |rest - {w}| == |rest| - 1
  {
    WordsSnoc(top, (w, rest[w]));
    var l, r := rest - {w}, counts - (Words(top) + {w});
    forall v ensures (v in l <==> v in r) && CountOf(l, v) == CountOf(r, v) {
    }
    TablesEqual(l, r);
    assert l.Keys == rest.Keys - {w};
  }

  lemma SelectDone(counts: Table, n: int, top: seq<Entry>, rest: Table)
    requires Selecting(counts, n, top, rest) && (|top| >= n || |rest| == 0)
    ensures IsMostCommon(counts, n, top)
  {
    forall w | w in counts && w !in Words(top) ensures w in rest {
    }
  }

  /** counts.most_common(n), by repeated selection of a largest remaining count. */
  method MostCommon(counts: Table, n: int) returns (top: seq<Entry>)
    ensures IsMostCommon(counts, n, top)
  {
    top := [];
    var rest := counts;
    assert Words(top) == {};
    while |top| < n && |rest| > 0
      invariant Selecting(counts, n, top, rest)
      decreases |rest|
    {
      ghost var largest := MaxKey(rest);
      var w :| w in rest && forall v :: v in rest ==> rest[v] <= rest[w];
      SelectOne(counts, n, top, rest, w);
      top, rest := top + [(w, rest[w])], rest - {w};
    }
    SelectDone(counts, n, top, rest);
  }

  /** The words of the first k entries. */
  function PrefixWords(top: seq<Entry>, k: nat): set<Token>
    requires k <= |top|
  {
    set j | 0 <= j < k :: top[j].0
  }

  lemma {:induction false} PrefixWordsCard(top: seq<Entry>, k: nat)
    requires k <= |top|
    ensures |PrefixWords(top, k)| <= k
    ensures (forall i, j :: 0 <= i < j < |top| ==> top[i].0 != top[j].0) ==> |PrefixWords(top, k)| == k
  {
    if k > 0 {
      PrefixWordsCard(top, k - 1);
      assert PrefixWords(top, k) == PrefixWords(top, k - 1) + {top[k - 1].0};
    }
  }

  /** A larger set has an element the smaller one lacks. */
  lemma Missing<T>(big: set<T>, small: set<T>) returns (u: T)
    requires |big| > |small|
    ensures u in big && u !in small
  {
    assert big == (big * small) + (big - small);
    assert small == (big * small) + (small - big);
    assert |big - small| > 0;
    u :| u in big - small;
  }

  /** A word outside b's first i entries has a count no larger than b's i-th. */
  lemma OutsidePrefixBound(counts: Table, n: int, b: seq<Entry>, i: nat, u: Token)
    requires IsMostCommon(counts, n, b)
    requires i < |b| && u in counts && u !in PrefixWords(b, i)
    ensures counts[u] <= b[i].1
  {
  }

  /** The i-th count of one answer never exceeds the i-th count of another. */
  lemma CountAtMost(counts: Table, n: int, a: seq<Entry>, b: seq<Entry>, i: nat)
    requires IsMostCommon(counts, n, a) && IsMostCommon(counts, n, b)
    requires i < |a|
    ensures a[i].1 <= b[i].1
  {
    var big, small := PrefixWords(a, i + 1), PrefixWords(b, i);
    PrefixWordsCard(a, i + 1);
    PrefixWordsCard(b, i);
    var u := Missing(big, small);
    var j :| 0 <= j < i + 1 && a[j].0 == u;
    assert counts[u] == a[j].1 >= a[i].1;
    OutsidePrefixBound(counts, n, b, i, u);
  }

  /**
    Two answers of most_common(n) on one table carry the same counts in the
    same positions: only the order among words with equal counts is open.
  */
  lemma MostCommonCountsAgree(counts: Table, n: int, a: seq<Entry>, b: seq<Entry>)
    requires IsMostCommon(counts, n, a) && IsMostCommon(counts, n, b)
    ensures |a| == |b|
    ensures forall i :: 0 <= i < |a| ==> a[i].1 == b[i].1
  {
    forall i | 0 <= i < |a| ensures a[i].1 == b[i].1 {
      CountAtMost(counts, n, a, b, i);
      CountAtMost(counts, n, b, a, i);
    }
  }
}
