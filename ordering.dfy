/** The final ordering of the ranking table: its entries, in the table's insertion order,
    sorted by descending score with ties kept in their original relative order. */
module Ordering {
  import opened Tallies

  /** One item of the ranking table: an agent's name and its tally. */
  datatype Entry = Entry(agent: string, tally: Tally)

  /** The table's items in insertion order, which is the order of the discovered agents. */
  function Entries(agents: seq<string>, t: Table): (es: seq<Entry>)
    requires forall a :: a in agents ==> a in t
    ensures |es| == |agents|
    ensures forall k :: 0 <= k < |es| ==> es[k].agent == agents[k] && es[k].tally == t[agents[k]]
  {
    seq(|agents|, k requires 0 <= k < |agents| => Entry(agents[k], t[agents[k]]))
  }

  lemma {:induction false} EntriesCount(agents: seq<string>, t: Table, a: string)
    requires forall x :: x in agents ==> x in t
    requires Distinct(agents) && a in t
    ensures multiset(Entries(agents, t))[Entry(a, t[a])] == if a in agents then 1 else 0
    decreases |agents|
  {
    if agents != [] {
      var n := |agents| - 1;
      var init, last := agents[..n], agents[n];
      var x := Entry(a, t[a]);
      assert forall y :: y in init ==> y in agents;
      var before := Entries(init, t);
      assert Entries(agents, t) == before + [Entry(last, t[last])];
      assert multiset(before)[x] == if a in init then 1 else 0 by {
        EntriesCount(init, t, a);
      }
      assert a in agents <==> a in init || a == last by {
        assert agents == init + [last];
      }
      if a == last {
        assert a !in init;
      }
    }
  }

  /** With distinct agents and a table keyed by exactly them, `.items()` lists every key of
      the table exactly once, with its own tally, and nothing else. */
  lemma EntriesItems(agents: seq<string>, t: Table)
    requires Distinct(agents) && t.Keys == set a | a in agents
    ensures forall e :: e in Entries(agents, t) ==> e.agent in t && e.tally == t[e.agent]
    ensures forall a :: a in t ==> multiset(Entries(agents, t))[Entry(a, t[a])] == 1
  {
    forall a | a in t
      ensures multiset(Entries(agents, t))[Entry(a, t[a])] == 1
    {
      EntriesCount(agents, t, a);
    }
  }

  ghost predicate NonIncreasing(es: seq<Entry>) {
    forall p, q :: 0 <= p < q < |es| ==> es[p].tally.score >= es[q].tally.score
  }

  /** Place `e` in front of the first entry whose score does not exceed its own. */
  function Insert(e: Entry, sorted: seq<Entry>): (r: seq<Entry>)
    ensures |r| == |sorted| + 1
  {
    if sorted == [] then [e]
    else if sorted[0].tally.score <= e.tally.score then [e] + sorted
    else [sorted[0]] + Insert(e, sorted[1..])
  }

  lemma {:induction false} InsertMultiset(e: Entry, s: seq<Entry>)
    ensures multiset(Insert(e, s)) == multiset(s) + multiset{e}
  {
    if s != [] && s[0].tally.score > e.tally.score {
      var head, tail := s[0], s[1..];
      var rest := Insert(e, tail);
      assert Insert(e, s) == [head] + rest;
      assert s == [head] + tail;
      InsertMultiset(e, tail);
      assert multiset(Insert(e, s)) == multiset([head]) + multiset(rest);
      assert multiset(s) == multiset([head]) + multiset(tail);
    }
  }

  /** Every score in `es` is at most `b`. */
  ghost predicate AtMost(es: seq<Entry>, b: int) {
    forall k :: 0 <= k < |es| ==> es[k].tally.score <= b
  }

  lemma {:induction false} InsertAtMost(e: Entry, s: seq<Entry>, b: int)
    requires AtMost(s, b) && e.tally.score <= b
    ensures AtMost(Insert(e, s), b)
  {
    if s != [] && s[0].tally.score > e.tally.score {
      var rest := Insert(e, s[1..]);
      assert AtMost(s[1..], b);
      InsertAtMost(e, s[1..], b);
      var r := [s[0]] + rest;
      assert Insert(e, s) == r;
      forall k | 0 <= k < |r|
        ensures r[k].tally.score <= b
      {
        if k > 0 {
          assert r[k] == rest[k - 1];
        }
      }
    }
  }

  lemma {:induction false} InsertSorted(e: Entry, s: seq<Entry>)
    requires NonIncreasing(s)
    ensures NonIncreasing(Insert(e, s))
  {
    if s != [] && s[0].tally.score > e.tally.score {
      var head, rest := s[0], Insert(e, s[1..]);
      assert NonIncreasing(rest) by {
        assert NonIncreasing(s[1..]);
        InsertSorted(e, s[1..]);
      }
      assert AtMost(rest, head.tally.score) by {
        assert AtMost(s[1..], head.tally.score);
        InsertAtMost(e, s[1..], head.tally.score);
      }
      var r := [head] + rest;
      assert Insert(e, s) == r;
      forall p, q | 0 <= p < q < |r|
        ensures r[p].tally.score >= r[q].tally.score
      {
        assert r[q] == rest[q - 1];
        if p > 0 {
          assert r[p] == rest[p - 1];
        }
      }
    }
  }

  /** sorted(items, key=score, reverse=True): a stable sort by descending score. */
  function SortByScore(es: seq<Entry>): (r: seq<Entry>)
    ensures |r| == |es|
  {
    if es == [] then [] else Insert(es[0], SortByScore(es[1..]))
  }

  /** The sort neither loses nor duplicates an entry. */
  lemma {:induction false} SortMultiset(es: seq<Entry>)
    ensures multiset(SortByScore(es)) == multiset(es)
  {
    if es != [] {
      SortMultiset(es[1..]);
      InsertMultiset(es[0], SortByScore(es[1..]));
      assert es == [es[0]] + es[1..];
    }
  }

  lemma {:induction false} SortSorted(es: seq<Entry>)
    ensures NonIncreasing(SortByScore(es))
  {
    if es != [] {
      SortSorted(es[1..]);
      InsertSorted(es[0], SortByScore(es[1..]));
    }
  }

  /** The final ranking written to the output file. */
  function Ranking(agents: seq<string>, t: Table): seq<Entry>
    requires forall a :: a in agents ==> a in t
  {
    SortByScore(Entries(agents, t))
  }

  /** The entries with score `v`, in their order in `es`. */
  function WithScore(es: seq<Entry>, v: int): seq<Entry> {
    if es == [] then []
    else (if es[0].tally.score == v then [es[0]] else []) + WithScore(es[1..], v)
  }

  lemma {:induction false} WithScoreAppend(a: seq<Entry>, b: seq<Entry>, v: int)
    ensures WithScore(a + b, v) == WithScore(a, v) + WithScore(b, v)
  {
    if a == [] {
      assert a + b == b;
    } else {
      var head := if a[0].tally.score == v then [a[0]] else [];
      assert (a + b)[0] == a[0] && (a + b)[1..] == a[1..] + b;
      WithScoreAppend(a[1..], b, v);
      calc {
        WithScore(a + b, v);
        head + WithScore(a[1..] + b, v);
        head + (WithScore(a[1..], v) + WithScore(b, v));
        (head + WithScore(a[1..], v)) + WithScore(b, v);
        WithScore(a, v) + WithScore(b, v);
      }
    }
  }

  lemma WithScoreSingle(x: Entry, v: int)
    ensures WithScore([x], v) == if x.tally.score == v then [x] else []
  {
    assert [x][1..] == [];
  }

  /** Insertion puts `e` ahead of every entry with its own score. */
  lemma {:induction false} InsertStable(e: Entry, s: seq<Entry>, v: int)
    ensures WithScore(Insert(e, s), v) == WithScore([e] + s, v)
  {
    if s == [] {
      assert [e] + s == [e];
    } else if s[0].tally.score > e.tally.score {
      var head, tail := s[0], s[1..];
      var rest := Insert(e, tail);
      var hs, he, ht := WithScore([head], v), WithScore([e], v), WithScore(tail, v);
      assert WithScore(Insert(e, s), v) == hs + WithScore(rest, v) by {
        assert Insert(e, s) == [head] + rest;
        WithScoreAppend([head], rest, v);
      }
      assert WithScore(rest, v) == he + ht by {
        InsertStable(e, tail, v);
        WithScoreAppend([e], tail, v);
      }
      assert WithScore([e] + s, v) == he + (hs + ht) by {
        assert s == [head] + tail;
        WithScoreAppend([e], s, v);
        WithScoreAppend([head], tail, v);
      }
      assert hs == [] || he == [] by {
        WithScoreSingle(head, v);
        WithScoreSingle(e, v);
      }
      assert hs + (he + ht) == he + (hs + ht);
    }
  }

  /** Stability: for every score, the entries with that score keep their relative order. */
  lemma {:induction false} SortStable(es: seq<Entry>, v: int)
    ensures WithScore(SortByScore(es), v) == WithScore(es, v)
  {
    if es != [] {
      var rest := SortByScore(es[1..]);
      SortStable(es[1..], v);
      InsertStable(es[0], rest, v);
      WithScoreAppend([es[0]], rest, v);
      WithScoreAppend([es[0]], es[1..], v);
      assert [es[0]] + es[1..] == es;
    }
  }

  /** The ranking lists every agent once, in non-increasing score order, with agents of
      equal score in discovery order. */
  lemma RankingCorrect(agents: seq<string>, t: Table)
    requires forall a :: a in agents ==> a in t
    ensures multiset(Ranking(agents, t)) == multiset(Entries(agents, t))
    ensures NonIncreasing(Ranking(agents, t))
    ensures forall v :: WithScore(Ranking(agents, t), v) == WithScore(Entries(agents, t), v)
  {
    SortMultiset(Entries(agents, t));
    SortSorted(Entries(agents, t));
    forall v
      ensures WithScore(Ranking(agents, t), v) == WithScore(Entries(agents, t), v)
    {
      SortStable(Entries(agents, t), v);
    }
  }

  /** The written ranking lists every agent of the table exactly once, with its own tally,
      and nothing else. */
  lemma RankingListsAgents(agents: seq<string>, t: Table)
    requires Distinct(agents) && t.Keys == set a | a in agents
    ensures forall e :: e in Ranking(agents, t) ==> e.agent in t && e.tally == t[e.agent]
    ensures forall a :: a in t ==> multiset(Ranking(agents, t))[Entry(a, t[a])] == 1
  {
    var es := Entries(agents, t);
    SortMultiset(es);
    EntriesItems(agents, t);
    forall e | e in Ranking(agents, t)
      ensures e.agent in t && e.tally == t[e.agent]
    {
      assert e in multiset(Ranking(agents, t));
      assert e in es;
    }
  }
}
