/** The dominant-colour count of the page script (script.js): a Map from keys
    to counts filled in insertion order, its entries sorted by count with a
    stable sort, and the first n keys of the result. Generic in the key. */
module Ranking {
  import opened JsBuiltins

  // ===========================================================================
  // Counting keys in a Map, in insertion order

  /** A Map from keys to counts: its keys in insertion order, and the count of each. */
  datatype Tally<K> = Tally(order: seq<K>, counts: map<K, nat>)

  /** The map's keys are exactly the listed ones, each listed once. */
  ghost predicate WellFormed<K(!new)>(t: Tally<K>) {
    Distinct(t.order) && forall k :: k in t.counts <==> k in t.order
  }

  /** `map.set(key, (map.get(key) || 0) + 1)`: a key already present keeps its
      place and counts one more; a new key goes last with count 1. */
  function Add<K(==)>(t: Tally<K>, key: K): Tally<K> {
    if key in t.counts then Tally(t.order, t.counts[key := t.counts[key] + 1])
    else Tally(t.order + [key], t.counts[key := 1])
  }

  /** `map.set(key, (map.get(key) || 0) + 1)` on a Map held as its key order and
      its counts: the update the extraction loop performs, proved against `Add`,
      the function that specifies it and that the lemmas about counting use. */
  method Count<K(==)>(order: seq<K>, counts: map<K, nat>, key: K) returns (order': seq<K>, counts': map<K, nat>)
    ensures Tally(order', counts') == Add(Tally(order, counts), key)
  {
    if key in counts {
      order', counts' := order, counts[key := counts[key] + 1];
    } else {
      order', counts' := order + [key], counts[key := 1];
    }
  }

  /** The map after counting `keys` one by one, starting empty. */
  function TallyOf<K(==)>(keys: seq<K>): Tally<K> {
    if keys == [] then Tally([], map[]) else Add(TallyOf(keys[..|keys| - 1]), keys[|keys| - 1])
  }

  lemma TallyOfSnoc<K(!new)>(keys: seq<K>, key: K)
    ensures TallyOf(keys + [key]) == Add(TallyOf(keys), key)
  {
    assert (keys + [key])[..|keys|] == keys;
  }

  /** How often `key` occurs in `keys`. */
  ghost function Occurrences<K>(keys: seq<K>, key: K): nat {
    multiset(keys)[key]
  }

  /** The position where `key` first occurs in `keys`. */
  ghost function FirstIndex<K>(keys: seq<K>, key: K): (i: nat)
    requires key in keys
    ensures i < |keys| && keys[i] == key
    ensures forall j :: 0 <= j < i ==> keys[j] != key
  {
    var front := keys[..|keys| - 1];
    if key in front then FirstIndex(front, key) else |keys| - 1
  }

  /** Keys already seen keep their first position when one more key follows. */
  lemma FirstIndexSnoc<K>(keys: seq<K>, key: K, k: K)
    requires k in keys
    ensures FirstIndex(keys + [key], k) == FirstIndex(keys, k)
  {
    assert (keys + [key])[..|keys|] == keys;
  }

  /** The tally lists every key that occurs, once each. */
  lemma {:induction false} TallyShape<K(!new)>(keys: seq<K>)
    ensures WellFormed(TallyOf(keys))
    ensures forall k :: k in TallyOf(keys).counts <==> k in keys
  {
    if keys != [] {
      var front, key := keys[..|keys| - 1], keys[|keys| - 1];
      assert keys == front + [key];
      TallyShape(front);
      var t := TallyOf(front);
      if key !in t.counts {
        forall i, j | 0 <= i < j < |t.order + [key]|
          ensures (t.order + [key])[i] != (t.order + [key])[j]
        {
          if j == |t.order| {
            assert (t.order + [key])[i] == t.order[i];
          }
        }
      }
    }
  }

  /** The tally counts each key's occurrences. */
  lemma {:induction false} TallyCounts<K(!new)>(keys: seq<K>)
    ensures forall k :: k in TallyOf(keys).counts ==> TallyOf(keys).counts[k] == Occurrences(keys, k)
  {
    if keys != [] {
      var front, key := keys[..|keys| - 1], keys[|keys| - 1];
      assert keys == front + [key];
      TallyCounts(front);
      TallyShape(front);
    }
  }

  /** `order` lists keys of `keys` by the position where each first occurs. */
  ghost predicate FirstSeen<K>(keys: seq<K>, order: seq<K>) {
    (forall k :: k in order ==> k in keys) &&
    forall i, j :: 0 <= i < j < |order| ==> FirstIndex(keys, order[i]) < FirstIndex(keys, order[j])
  }

  lemma FirstSeenSnoc<K>(keys: seq<K>, key: K, order: seq<K>)
    requires FirstSeen(keys, order)
    ensures FirstSeen(keys + [key], order)
  {
    forall i, j | 0 <= i < j < |order|
      ensures FirstIndex(keys + [key], order[i]) < FirstIndex(keys + [key], order[j])
    {
      FirstIndexSnoc(keys, key, order[i]);
      FirstIndexSnoc(keys, key, order[j]);
    }
  }

  lemma FirstSeenNew<K>(keys: seq<K>, key: K, order: seq<K>)
    requires FirstSeen(keys, order) && key !in keys
    ensures FirstSeen(keys + [key], order + [key])
  {
    FirstSeenSnoc(keys, key, order);
    var keys', order' := keys + [key], order + [key];
    assert FirstIndex(keys', key) == |keys|;
    forall i | 0 <= i < |order|
      ensures FirstIndex(keys', order'[i]) < FirstIndex(keys', key)
    {
      assert order'[i] == order[i];
    }
  }

  /** The tally lists keys in the order they were first seen. */
  lemma {:induction false} TallyFirstSeen<K(!new)>(keys: seq<K>)
    ensures FirstSeen(keys, TallyOf(keys).order)
  {
    if keys != [] {
      var front, key := keys[..|keys| - 1], keys[|keys| - 1];
      assert keys == front + [key];
      TallyFirstSeen(front);
      TallyShape(front);
      var t := TallyOf(front);
      if key in t.counts {
        FirstSeenSnoc(front, key, t.order);
      } else {
        FirstSeenNew(front, key, t.order);
      }
    }
  }

  /** The sum of the counts of the listed keys. */
  ghost function Total<K>(order: seq<K>, counts: map<K, nat>): nat
    requires forall k :: k in order ==> k in counts
  {
    if order == [] then 0 else Total(order[..|order| - 1], counts) + counts[order[|order| - 1]]
  }

  lemma {:induction false} TotalFrame<K(!new)>(order: seq<K>, c: map<K, nat>, c': map<K, nat>)
    requires forall k :: k in order ==> k in c && k in c' && c[k] == c'[k]
    ensures Total(order, c) == Total(order, c')
  {
    if order != [] {
      TotalFrame(order[..|order| - 1], c, c');
    }
  }

  lemma {:induction false} TotalBump<K(!new)>(order: seq<K>, counts: map<K, nat>, key: K)
    requires Distinct(order) && key in order && forall k :: k in order ==> k in counts
    ensures Total(order, counts[key := counts[key] + 1]) == Total(order, counts) + 1
  {
    var front, last := order[..|order| - 1], order[|order| - 1];
    if last == key {
      assert key !in front;
      TotalFrame(front, counts, counts[key := counts[key] + 1]);
    } else {
      assert key in front by {
        var i :| 0 <= i < |order| && order[i] == key;
        assert i < |front| && front[i] == key;
      }
      TotalBump(front, counts, key);
    }
  }

  /** The counts add up to the number of keys counted. */
  lemma {:induction false} TallyTotal<K(!new)>(keys: seq<K>)
    ensures forall k :: k in TallyOf(keys).order ==> k in TallyOf(keys).counts
    ensures Total(TallyOf(keys).order, TallyOf(keys).counts) == |keys|
  {
    TallyShape(keys);
    if keys != [] {
      var front, key := keys[..|keys| - 1], keys[|keys| - 1];
      assert keys == front + [key];
      TallyTotal(front);
      TallyShape(front);
      var t := TallyOf(front);
      if key in t.counts {
        TotalBump(t.order, t.counts, key);
      } else {
        var counts' := t.counts[key := 1];
        assert (t.order + [key])[..|t.order|] == t.order;
        TotalFrame(t.order, t.counts, counts');
      }
    }
  }

  // ===========================================================================
  // Sorting the entries by count, most frequent first

  /** `Array.from(map.entries())`: each listed key with its count. */
  function Entries<K>(t: Tally<K>): (e: seq<(K, nat)>)
    requires forall k :: k in t.order ==> k in t.counts
  {
    seq(|t.order|, i requires 0 <= i < |t.order| => (t.order[i], t.counts[t.order[i]]))
  }

  /** The keys of a list of entries, in the same order. */
  function KeysOf<K>(s: seq<(K, nat)>): seq<K> {
    seq(|s|, i requires 0 <= i < |s| => s[i].0)
  }

  ghost predicate NonIncreasing<K>(s: seq<(K, nat)>) {
    forall i, j :: 0 <= i < j < |s| ==> s[i].1 >= s[j].1
  }

  /** Puts `e` after every entry whose count is at least its own: the step of a
      stable sort under the comparator `(a, b) => b[1] - a[1]`. */
  function Insert<K>(e: (K, nat), s: seq<(K, nat)>): seq<(K, nat)> {
    if s == [] || s[|s| - 1].1 >= e.1 then s + [e]
    else Insert(e, s[..|s| - 1]) + [s[|s| - 1]]
  }

  /** `entries.sort((a, b) => b[1] - a[1])`, which keeps equal counts in their
      original order. */
  function SortByCount<K>(s: seq<(K, nat)>): seq<(K, nat)> {
    if s == [] then [] else Insert(s[|s| - 1], SortByCount(s[..|s| - 1]))
  }

  lemma {:induction false} InsertPerm<K>(e: (K, nat), s: seq<(K, nat)>)
    ensures multiset(Insert(e, s)) == multiset(s) + multiset{e}
  {
    if s != [] && s[|s| - 1].1 < e.1 {
      var front := s[..|s| - 1];
      assert s == front + [s[|s| - 1]];
      InsertPerm(e, front);
    }
  }

  /** Sorting only reorders the entries. */
  lemma {:induction false} SortPerm<K>(s: seq<(K, nat)>)
    ensures multiset(SortByCount(s)) == multiset(s)
  {
    if s != [] {
      var front := s[..|s| - 1];
      assert s == front + [s[|s| - 1]];
      SortPerm(front);
      InsertPerm(s[|s| - 1], SortByCount(front));
    }
  }

  /** Inserting adds `e` and nothing else. */
  lemma {:induction false} InsertElems<K>(e: (K, nat), s: seq<(K, nat)>)
    ensures forall x :: x in Insert(e, s) ==> x == e || x in s
  {
    if s != [] && s[|s| - 1].1 < e.1 {
      var front := s[..|s| - 1];
      assert s == front + [s[|s| - 1]];
      InsertElems(e, front);
    }
  }

  /** In a non-increasing list no entry counts less than the last one. */
  lemma LastIsLeast<K>(s: seq<(K, nat)>)
    requires NonIncreasing(s) && s != []
    ensures forall x :: x in s ==> x.1 >= s[|s| - 1].1
  {
    forall x | x in s ensures x.1 >= s[|s| - 1].1 {
      var i :| 0 <= i < |s| && s[i] == x;
    }
  }

  lemma {:induction false} InsertSorted<K>(e: (K, nat), s: seq<(K, nat)>)
    requires NonIncreasing(s)
    ensures NonIncreasing(Insert(e, s))
  {
    if s == [] || s[|s| - 1].1 >= e.1 {
      if s != [] {
        LastIsLeast(s);
      }
      var r := s + [e];
      forall i, j | 0 <= i < j < |r| ensures r[i].1 >= r[j].1 {
        if j == |s| {
          assert r[i] in s;
        }
      }
    } else {
      var front, last := s[..|s| - 1], s[|s| - 1];
      assert s == front + [last];
      InsertSorted(e, front);
      InsertElems(e, front);
      LastIsLeast(s);
      var r := Insert(e, front);
      forall i, j | 0 <= i < j < |r + [last]| ensures (r + [last])[i].1 >= (r + [last])[j].1 {
        if j == |r| {
          assert (r + [last])[i] in r;
        }
      }
    }
  }

  lemma {:induction false} SortElems<K>(s: seq<(K, nat)>)
    ensures forall x :: x in SortByCount(s) ==> x in s
  {
    if s != [] {
      var front := s[..|s| - 1];
      assert s == front + [s[|s| - 1]];
      SortElems(front);
      InsertElems(s[|s| - 1], SortByCount(front));
    }
  }

  /** Sorting puts the counts in non-increasing order. */
  lemma {:induction false} SortSorted<K>(s: seq<(K, nat)>)
    ensures NonIncreasing(SortByCount(s))
  {
    if s != [] {
      SortSorted(s[..|s| - 1]);
      InsertSorted(s[|s| - 1], SortByCount(s[..|s| - 1]));
    }
  }

  /** The position of the first occurrence of `k` in `keys`, or `|keys|`. */
  ghost function Rank<K>(keys: seq<K>, k: K): nat {
    if k in keys then FirstIndex(keys, k) else |keys|
  }

  /** Entries with the same count appear in order of first occurrence. */
  ghost predicate TiesByRank<K>(keys: seq<K>, s: seq<(K, nat)>) {
    forall i, j :: 0 <= i < j < |s| && s[i].1 == s[j].1 ==> Rank(keys, s[i].0) < Rank(keys, s[j].0)
  }

  lemma {:induction false} InsertTies<K>(keys: seq<K>, e: (K, nat), s: seq<(K, nat)>)
    requires TiesByRank(keys, s)
    requires forall x :: x in s ==> Rank(keys, x.0) < Rank(keys, e.0)
    ensures TiesByRank(keys, Insert(e, s))
  {
    if s == [] || s[|s| - 1].1 >= e.1 {
      var r := s + [e];
      forall i, j | 0 <= i < j < |r| && r[i].1 == r[j].1
        ensures Rank(keys, r[i].0) < Rank(keys, r[j].0)
      {
        if j == |s| {
          assert r[i] in s;
        }
      }
    } else {
      var front, last := s[..|s| - 1], s[|s| - 1];
      assert s == front + [last];
      InsertTies(keys, e, front);
      InsertElems(e, front);
      var r := Insert(e, front);
      forall i, j | 0 <= i < j < |r + [last]| && (r + [last])[i].1 == (r + [last])[j].1
        ensures Rank(keys, (r + [last])[i].0) < Rank(keys, (r + [last])[j].0)
      {
        if j == |r| {
          TieWithLast(keys, s, r[i]);
        }
      }
    }
  }

  /** An earlier entry with the last entry's count ranks before it. */
  lemma TieWithLast<K>(keys: seq<K>, s: seq<(K, nat)>, x: (K, nat))
    requires TiesByRank(keys, s) && s != []
    requires x in s[..|s| - 1] && x.1 == s[|s| - 1].1
    ensures Rank(keys, x.0) < Rank(keys, s[|s| - 1].0)
  {
    var p :| 0 <= p < |s| - 1 && s[..|s| - 1][p] == x;
    assert s[p] == x;
  }

  /** Entries whose keys occur in order of first occurrence. */
  ghost predicate RankIncreasing<K>(keys: seq<K>, s: seq<(K, nat)>) {
    forall i, j :: 0 <= i < j < |s| ==> Rank(keys, s[i].0) < Rank(keys, s[j].0)
  }

  /** The sort is stable: equal counts keep their order of first occurrence. */
  lemma {:induction false} SortTies<K>(keys: seq<K>, s: seq<(K, nat)>)
    requires RankIncreasing(keys, s)
    ensures TiesByRank(keys, SortByCount(s))
  {
    if s != [] {
      var front, last := s[..|s| - 1], s[|s| - 1];
      SortTies(keys, front);
      SortElems(front);
      forall x | x in SortByCount(front) ensures Rank(keys, x.0) < Rank(keys, last.0) {
        var p :| 0 <= p < |front| && front[p] == x;
        assert s[p] == x;
      }
      InsertTies(keys, last, SortByCount(front));
    }
  }

  // ===========================================================================
  // The most frequent keys

  /** `.slice(0, n).map(entry => entry[0])`. */
  function Top<K>(s: seq<(K, nat)>, n: nat): seq<K> {
    KeysOf(s[..Min(n, |s|)])
  }

  /** The first `n` keys, or all of them when there are fewer. */
  lemma TopIndex<K>(s: seq<(K, nat)>, n: nat)
    ensures |Top(s, n)| == Min(n, |s|)
    ensures forall i :: 0 <= i < |Top(s, n)| ==> Top(s, n)[i] == s[i].0
  {
  }

  /** The `n` most frequent keys, ties broken by first occurrence. */
  function RankingOf<K(==,!new)>(keys: seq<K>, n: nat): seq<K> {
    TallyShape(keys);
    Top(SortByCount(Entries(TallyOf(keys))), n)
  }

  /** `a` comes before `b` in the ranking: it occurs more often, or as often and earlier. */
  ghost predicate Beats<K>(keys: seq<K>, a: K, b: K) {
    Occurrences(keys, a) > Occurrences(keys, b) ||
    (Occurrences(keys, a) == Occurrences(keys, b) && Rank(keys, a) < Rank(keys, b))
  }

  /** Each entry pairs a key that occurs with its number of occurrences. */
  ghost predicate Counted<K>(keys: seq<K>, s: seq<(K, nat)>) {
    forall x :: x in s ==> x.0 in keys && x.1 == Occurrences(keys, x.0)
  }

  /** The entries of a tally, in its order, each with its count. */
  lemma EntriesIndex<K>(t: Tally<K>)
    requires forall k :: k in t.order ==> k in t.counts
    ensures |Entries(t)| == |t.order|
    ensures forall i :: 0 <= i < |t.order| ==> Entries(t)[i] == (t.order[i], t.counts[t.order[i]])
  {
  }

  /** The entries of the tally: every key once, with its count, in order of first occurrence. */
  lemma EntriesSpec<K(!new)>(keys: seq<K>)
    ensures forall k :: k in TallyOf(keys).order ==> k in TallyOf(keys).counts
    ensures Counted(keys, Entries(TallyOf(keys)))
    ensures forall k :: k in keys ==> (k, Occurrences(keys, k)) in Entries(TallyOf(keys))
    ensures RankIncreasing(keys, Entries(TallyOf(keys)))
  {
    TallyShape(keys);
    TallyCounts(keys);
    TallyFirstSeen(keys);
    var t := TallyOf(keys);
    var e := Entries(t);
    EntriesIndex(t);
    forall x | x in e ensures x.0 in keys && x.1 == Occurrences(keys, x.0) {
      var i :| 0 <= i < |e| && e[i] == x;
    }
    forall k | k in keys ensures (k, Occurrences(keys, k)) in e {
      var i :| 0 <= i < |t.order| && t.order[i] == k;
      assert e[i] == (k, Occurrences(keys, k));
    }
  }

  /** The sorted entries list every key once, each beating all later ones. */
  lemma SortedEntriesSpec<K(!new)>(keys: seq<K>, e: seq<(K, nat)>)
    requires Counted(keys, e) && RankIncreasing(keys, e)
    requires forall k :: k in keys ==> (k, Occurrences(keys, k)) in e
    ensures Counted(keys, SortByCount(e))
    ensures forall k :: k in keys ==> (k, Occurrences(keys, k)) in SortByCount(e)
    ensures forall i, j :: 0 <= i < j < |SortByCount(e)| ==>
      Beats(keys, SortByCount(e)[i].0, SortByCount(e)[j].0)
  {
    var s := SortByCount(e);
    SortElems(e);
    SortPerm(e);
    SortSorted(e);
    SortTies(keys, e);
    forall k | k in keys ensures (k, Occurrences(keys, k)) in s {
      assert (k, Occurrences(keys, k)) in multiset(e);
    }
    forall i, j | 0 <= i < j < |s| ensures Beats(keys, s[i].0, s[j].0) {
      assert s[i] in s && s[j] in s;
    }
  }

  /** The first `n` keys of a list that holds every key once, each beating
      all later ones, beat every key after them. */
  lemma TopSpec<K>(keys: seq<K>, s: seq<(K, nat)>, n: nat)
    requires Counted(keys, s)
    requires forall k :: k in keys ==> (k, Occurrences(keys, k)) in s
    requires forall i, j :: 0 <= i < j < |s| ==> Beats(keys, s[i].0, s[j].0)
    ensures |Top(s, n)| <= n
    ensures forall k :: k in Top(s, n) ==> k in keys
    ensures |Top(s, n)| < n ==> forall k :: k in keys ==> k in Top(s, n)
    ensures forall i, j :: 0 <= i < j < |Top(s, n)| ==> Beats(keys, Top(s, n)[i], Top(s, n)[j])
    ensures forall k, i :: k in keys && k !in Top(s, n) && 0 <= i < |Top(s, n)| ==>
      Beats(keys, Top(s, n)[i], k)
  {
    var r := Top(s, n);
    TopIndex(s, n);
    forall k | k in r ensures k in keys {
      var i :| 0 <= i < |r| && r[i] == k;
      assert s[i] in s;
    }
    forall k | k in keys ensures k in r || forall i :: 0 <= i < |r| ==> Beats(keys, r[i], k) {
      var p :| 0 <= p < |s| && s[p] == (k, Occurrences(keys, k));
      if p < |r| {
        assert r[p] == k;
      }
    }
  }

  /** What the ranking returns: at most `n` keys that occur, all of them when
      fewer than `n` distinct keys occur, each beating every later one and
      every key left out. */
  lemma RankingSpec<K(!new)>(keys: seq<K>, n: nat)
    ensures |RankingOf(keys, n)| <= n
    ensures forall k :: k in RankingOf(keys, n) ==> k in keys
    ensures |RankingOf(keys, n)| < n ==> forall k :: k in keys ==> k in RankingOf(keys, n)
    ensures forall i, j :: 0 <= i < j < |RankingOf(keys, n)| ==>
      Beats(keys, RankingOf(keys, n)[i], RankingOf(keys, n)[j])
    ensures forall k, i :: k in keys && k !in RankingOf(keys, n) && 0 <= i < |RankingOf(keys, n)| ==>
      Beats(keys, RankingOf(keys, n)[i], k)
  {
    EntriesSpec(keys);
    var e := Entries(TallyOf(keys));
    SortedEntriesSpec(keys, e);
    TopSpec(keys, SortByCount(e), n);
  }

  /** The ranking lists each key at most once. */
  lemma RankingDistinct<K(!new)>(keys: seq<K>, n: nat)
    ensures Distinct(RankingOf(keys, n))
  {
    RankingSpec(keys, n);
  }
}
