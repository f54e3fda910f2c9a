/** Python's `collections.Counter` as the hashtag counter uses it: counting
    an iterable (`Counter(iterable)`), ranking the counts (`most_common()`)
    and turning the ranked pairs back into an insertion-ordered `dict`.

    A Python dict keeps its keys in insertion order, so a counter or dict is
    modelled as a sequence of entries with pairwise distinct keys. */
module Counting {

  /** One `(key, count)` item of a counter or of a ranked dict. */
  datatype Entry<T> = Entry(key: T, count: nat)

  /** The keys of a dict, in its order. */
  function Keys<T>(es: seq<Entry<T>>): (ks: seq<T>)
    ensures |ks| == |es|
    ensures forall i :: 0 <= i < |es| ==> ks[i] == es[i].key
  {
    if |es| == 0 then [] else [es[0].key] + Keys(es[1..])
  }

  /** No key occurs twice: the shape of every Python dict. */
  predicate DistinctKeys<T(==,!new)>(es: seq<Entry<T>>) {
    forall i, j :: 0 <= i < j < |es| ==> es[i].key != es[j].key
  }

  /** The sum of all counts. */
  function Total<T>(es: seq<Entry<T>>): nat {
    if |es| == 0 then 0 else es[0].count + Total(es[1..])
  }

  /** Counts never increase from left to right. */
  predicate NonIncreasing<T>(es: seq<Entry<T>>) {
    forall i, j :: 0 <= i < j < |es| ==> es[i].count >= es[j].count
  }

  /** `a` comes before `b` when ordered by descending count, and by
      ascending `rank` of the keys among equal counts. */
  predicate RanksBefore<T>(a: Entry<T>, b: Entry<T>, rank: T -> int) {
    a.count > b.count || (a.count == b.count && rank(a.key) < rank(b.key))
  }

  /** Entries are ordered by descending count, and entries with equal counts
      by ascending `rank` of their keys. */
  predicate RankedBy<T>(es: seq<Entry<T>>, rank: T -> int) {
    forall i, j :: 0 <= i < j < |es| ==> RanksBefore(es[i], es[j], rank)
  }

  /** An entry that ranks before every entry of a ranked sequence can be put
      in front of it. */
  lemma ConsRanked<T>(h: Entry<T>, t: seq<Entry<T>>, rank: T -> int)
    requires RankedBy(t, rank)
    requires forall k :: 0 <= k < |t| ==> RanksBefore(h, t[k], rank)
    ensures RankedBy([h] + t, rank)
  {
    var s := [h] + t;
    forall i, j | 0 <= i < j < |s|
      ensures RanksBefore(s[i], s[j], rank)
    {
      assert s[j] == t[j - 1];
      if i > 0 {
        assert s[i] == t[i - 1];
      }
    }
  }

  /** The index of the first occurrence of `t` in `ts`. */
  function FirstIndex<T(==,!new)>(ts: seq<T>, t: T): (i: nat)
    requires t in ts
    ensures i < |ts| && ts[i] == t
    ensures forall j :: 0 <= j < i ==> ts[j] != t
  {
    if ts[0] == t then 0 else 1 + FirstIndex(ts[1..], t)
  }

  /** A dict is its first entry followed by a dict without that key. */
  lemma DistinctKeysCons<T(!new)>(h: Entry<T>, t: seq<Entry<T>>)
    ensures DistinctKeys([h] + t) <==> h.key !in Keys(t) && DistinctKeys(t)
  {
    if h.key !in Keys(t) && DistinctKeys(t) {
      DistinctKeysConsIntro(h, t);
    }
    if DistinctKeys([h] + t) {
      DistinctKeysConsElim(h, t);
    }
  }

  /** A new key in front of a dict gives a dict. */
  lemma DistinctKeysConsIntro<T(!new)>(h: Entry<T>, t: seq<Entry<T>>)
    requires h.key !in Keys(t) && DistinctKeys(t)
    ensures DistinctKeys([h] + t)
  {
    var s := [h] + t;
    forall i, j | 0 <= i < j < |s|
      ensures s[i].key != s[j].key
    {
      assert s[j] == t[j - 1] && Keys(t)[j - 1] == t[j - 1].key;
      if i > 0 {
        assert s[i] == t[i - 1];
      }
    }
  }

  /** The tail of a dict is a dict without the first key. */
  lemma DistinctKeysConsElim<T(!new)>(h: Entry<T>, t: seq<Entry<T>>)
    requires DistinctKeys([h] + t)
    ensures h.key !in Keys(t) && DistinctKeys(t)
  {
    var s := [h] + t;
    forall k | 0 <= k < |t|
      ensures Keys(t)[k] != h.key
    {
      assert s[0] == h && s[k + 1] == t[k];
    }
    forall i, j | 0 <= i < j < |t|
      ensures t[i].key != t[j].key
    {
      assert s[i + 1] == t[i] && s[j + 1] == t[j];
    }
  }

  /** A non-empty sequence is its prefix followed by its last element. */
  lemma SplitLast<T>(s: seq<T>)
    requires |s| > 0
    ensures s == s[..|s| - 1] + [s[|s| - 1]]
  {
  }

  // ---------------------------------------------------------------------
  // Counter(iterable): one pass over the tokens, in order
  // ---------------------------------------------------------------------

  /** `counter[t] += 1`: the entry for `t` is incremented in place, or, when
      `t` is new, appended with count 1 (a dict keeps insertion order). Its
      behaviour is stated by `BumpAppends` and `BumpUpdates`. */
  function Bump<T(==,!new)>(es: seq<Entry<T>>, t: T): seq<Entry<T>> {
    if |es| == 0 then
      [Entry(t, 1)]
    else if es[0].key == t then
      [Entry(t, es[0].count + 1)] + es[1..]
    else
      [es[0]] + Bump(es[1..], t)
  }

  /** Counting a token not yet in the dict appends it with count 1. */
  lemma {:induction false} BumpAppends<T(!new)>(es: seq<Entry<T>>, t: T)
    requires t !in Keys(es)
    ensures Bump(es, t) == es + [Entry(t, 1)]
  {
    if |es| > 0 {
      AbsentKeyTail(es, t);
      BumpAppends(es[1..], t);
      ConsAppend(es, Entry(t, 1));
    }
  }

  /** A key absent from a non-empty dict is neither its first key nor a key
      of its tail. */
  lemma AbsentKeyTail<T>(es: seq<Entry<T>>, t: T)
    requires |es| > 0 && t !in Keys(es)
    ensures es[0].key != t && t !in Keys(es[1..])
  {
    assert Keys(es)[0] == es[0].key;
    forall k | 0 <= k < |es| - 1
      ensures Keys(es[1..])[k] != t
    {
      assert Keys(es)[k + 1] == es[k + 1].key;
    }
  }

  /** Appending to a non-empty sequence appends to its tail. */
  lemma ConsAppend<X>(s: seq<X>, x: X)
    requires |s| > 0
    ensures s + [x] == [s[0]] + (s[1..] + [x])
  {
  }

  /** Counting a token already in the dict increments its entry in place and
      changes nothing else. */
  lemma {:induction false} BumpUpdates<T(!new)>(es: seq<Entry<T>>, t: T, i: nat)
    requires DistinctKeys(es)
    requires i < |es| && es[i].key == t
    ensures Bump(es, t) == es[i := Entry(t, es[i].count + 1)]
  {
    var e := Entry(t, es[i].count + 1);
    if i == 0 {
      UpdateHead(es, e);
    } else {
      assert es[0].key != es[i].key;
      DistinctTail(es);
      BumpUpdates(es[1..], t, i - 1);
      UpdateCons(es, e, i);
    }
  }

  /** The tail of a dict is a dict. */
  lemma DistinctTail<T(!new)>(es: seq<Entry<T>>)
    requires |es| > 0 && DistinctKeys(es)
    ensures DistinctKeys(es[1..])
  {
    forall i, j | 0 <= i < j < |es| - 1
      ensures es[1..][i].key != es[1..][j].key
    {
      assert es[1..][i] == es[i + 1] && es[1..][j] == es[j + 1];
    }
  }

  /** Updating the head of a sequence replaces its first element. */
  lemma UpdateHead<X>(s: seq<X>, x: X)
    requires |s| > 0
    ensures s[0 := x] == [x] + s[1..]
  {
  }

  /** Updating past the head updates the tail. */
  lemma UpdateCons<X>(s: seq<X>, x: X, i: nat)
    requires 0 < i < |s|
    ensures s[i := x] == [s[0]] + s[1..][i - 1 := x]
  {
  }

  /** Counting a token adds one to the total. */
  lemma {:induction false} BumpTotal<T(!new)>(es: seq<Entry<T>>, t: T)
    ensures Total(Bump(es, t)) == Total(es) + 1
  {
    if |es| > 0 {
      BumpTotal(es[1..], t);
      var r := Bump(es, t);
      if es[0].key == t {
        assert r[1..] == es[1..];
      } else {
        assert r[1..] == Bump(es[1..], t);
      }
    }
  }

  /** Overwriting the count of one entry leaves the keys as they were. */
  lemma UpdateKeepsKeys<T(!new)>(es: seq<Entry<T>>, i: nat, c: nat)
    requires i < |es|
    ensures Keys(es[i := Entry(es[i].key, c)]) == Keys(es)
    ensures DistinctKeys(es) ==> DistinctKeys(es[i := Entry(es[i].key, c)])
  {
    var r := es[i := Entry(es[i].key, c)];
    assert forall k :: 0 <= k < |r| ==> r[k].key == es[k].key;
  }

  /** Appending an entry appends its key; a new key keeps the keys
      distinct. */
  lemma AppendKeys<T(!new)>(es: seq<Entry<T>>, e: Entry<T>)
    ensures Keys(es + [e]) == Keys(es) + [e.key]
    ensures DistinctKeys(es) && e.key !in Keys(es) ==> DistinctKeys(es + [e])
  {
    var r := es + [e];
    assert forall k :: 0 <= k < |es| ==> r[k] == es[k] && Keys(es)[k] == es[k].key;
  }

  /** Counting a token keeps a dict a dict: its key is added at the end when
      it is new, and the keys stay as they were otherwise. */
  lemma BumpKeys<T(!new)>(es: seq<Entry<T>>, t: T)
    requires DistinctKeys(es)
    ensures DistinctKeys(Bump(es, t))
    ensures Keys(Bump(es, t)) == if t in Keys(es) then Keys(es) else Keys(es) + [t]
  {
    if t in Keys(es) {
      var i :| 0 <= i < |Keys(es)| && Keys(es)[i] == t;
      BumpUpdates(es, t, i);
      UpdateKeepsKeys(es, i, es[i].count + 1);
    } else {
      BumpAppends(es, t);
      AppendKeys(es, Entry(t, 1));
    }
  }

  /** `Counter(ts)`: the distinct tokens of `ts` in order of first
      occurrence; the counts are stated by `TallyCounts`. */
  function Tally<T(==,!new)>(ts: seq<T>): (es: seq<Entry<T>>)
    ensures DistinctKeys(es)
    ensures forall t :: t in ts <==> t in Keys(es)
    decreases |ts|
  {
    if |ts| == 0 then
      []
    else
      var p, t := ts[..|ts| - 1], ts[|ts| - 1];
      SplitLast(ts);
      var prior := Tally(p);
      BumpKeys(prior, t);
      Bump(prior, t)
  }

  /** Counting one more token bumps the count of the tokens before it. */
  lemma TallySnoc<T(!new)>(p: seq<T>, t: T)
    ensures Tally(p + [t]) == Bump(Tally(p), t)
  {
    assert (p + [t])[..|p|] == p;
  }

  /** Every count in `Counter(ts)` is the number of occurrences of its key. */
  lemma {:induction false} TallyCounts<T(!new)>(ts: seq<T>)
    ensures forall i :: 0 <= i < |Tally(ts)| ==>
      Tally(ts)[i].count == multiset(ts)[Tally(ts)[i].key]
  {
    if |ts| > 0 {
      var p, t := ts[..|ts| - 1], ts[|ts| - 1];
      SplitLast(ts);
      TallySnoc(p, t);
      TallyCounts(p);
      TallyStepCounts(p, t);
    }
  }

  /** The inductive step of `TallyCounts`: counting `t` once more keeps every
      count equal to its number of occurrences. */
  lemma TallyStepCounts<T(!new)>(p: seq<T>, t: T)
    requires forall i :: 0 <= i < |Tally(p)| ==> Tally(p)[i].count == multiset(p)[Tally(p)[i].key]
    ensures forall i :: 0 <= i < |Bump(Tally(p), t)| ==>
      Bump(Tally(p), t)[i].count == multiset(p + [t])[Bump(Tally(p), t)[i].key]
  {
    var prior := Tally(p);
    assert multiset(p + [t]) == multiset(p) + multiset{t};
    if t in Keys(prior) {
      var m :| 0 <= m < |Keys(prior)| && Keys(prior)[m] == t;
      BumpUpdates(prior, t, m);
      SeenCounts(p, t, prior, m);
    } else {
      BumpAppends(prior, t);
      NewCounts(p, t, prior);
    }
  }

  /** `TallyStepCounts` when `t` is already counted at position `m`. */
  lemma SeenCounts<T(!new)>(p: seq<T>, t: T, prior: seq<Entry<T>>, m: nat)
    requires DistinctKeys(prior) && m < |prior| && prior[m].key == t
    requires forall i :: 0 <= i < |prior| ==> prior[i].count == multiset(p)[prior[i].key]
    ensures var es := prior[m := Entry(t, prior[m].count + 1)];
      forall i :: 0 <= i < |es| ==> es[i].count == (multiset(p) + multiset{t})[es[i].key]
  {
  }

  /** `TallyStepCounts` when `t` is new. */
  lemma NewCounts<T(!new)>(p: seq<T>, t: T, prior: seq<Entry<T>>)
    requires t !in p && (forall i :: 0 <= i < |prior| ==> prior[i].key in p)
    requires forall i :: 0 <= i < |prior| ==> prior[i].count == multiset(p)[prior[i].key]
    ensures var es := prior + [Entry(t, 1)];
      forall i :: 0 <= i < |es| ==> es[i].count == (multiset(p) + multiset{t})[es[i].key]
  {
  }

  /** The counts of `Counter(ts)` add up to the number of tokens. */
  lemma {:induction false} TallyTotal<T(!new)>(ts: seq<T>)
    ensures Total(Tally(ts)) == |ts|
  {
    if |ts| > 0 {
      var p, t := ts[..|ts| - 1], ts[|ts| - 1];
      SplitLast(ts);
      TallySnoc(p, t);
      TallyTotal(p);
      BumpTotal(Tally(p), t);
    }
  }

  /** The first occurrence of a token in a prefix is its first occurrence in
      any extension of that prefix. */
  lemma FirstIndexOfPrefix<T(!new)>(p: seq<T>, x: T, k: T)
    requires k in p
    ensures k in p + [x]
    ensures FirstIndex(p + [x], k) == FirstIndex(p, k)
  {
    var a := FirstIndex(p, k);
    assert (p + [x])[a] == k;
    var b := FirstIndex(p + [x], k);
    assert b <= a;
    assert p[b] == (p + [x])[b];
  }

  /** A token appended to a prefix that lacks it first occurs at the end. */
  lemma FirstIndexOfNew<T(!new)>(p: seq<T>, t: T)
    requires t !in p
    ensures FirstIndex(p + [t], t) == |p|
  {
    var q := p + [t];
    assert forall k :: 0 <= k < |p| ==> q[k] == p[k] != t;
  }

  /** Counter keeps its keys in the order of each token's first occurrence. */
  lemma TallyFirstSeenOrder<T(!new)>(ts: seq<T>)
    ensures forall i :: 0 <= i < |Tally(ts)| ==> Tally(ts)[i].key in ts
    ensures forall i, j :: 0 <= i < j < |Tally(ts)| ==>
      FirstIndex(ts, Tally(ts)[i].key) < FirstIndex(ts, Tally(ts)[j].key)
  {
    var es := Tally(ts);
    forall i | 0 <= i < |es|
      ensures es[i].key in ts
    {
      assert Keys(es)[i] == es[i].key;
    }
    forall i, j | 0 <= i < j < |es|
      ensures FirstIndex(ts, es[i].key) < FirstIndex(ts, es[j].key)
    {
      TallyOrderPair(ts, i, j);
    }
  }

  /** `TallyFirstSeenOrder` for one pair of entries, by induction on the
      tokens: keys already counted keep their first positions, and a new key
      opens the last entry at the last position. */
  lemma {:induction false} TallyOrderPair<T(!new)>(ts: seq<T>, i: nat, j: nat)
    requires i < j < |Tally(ts)|
    ensures Tally(ts)[i].key in ts && Tally(ts)[j].key in ts
    ensures FirstIndex(ts, Tally(ts)[i].key) < FirstIndex(ts, Tally(ts)[j].key)
    decreases |ts|
  {
    var es := Tally(ts);
    assert Keys(es)[i] == es[i].key && Keys(es)[j] == es[j].key;
    var p, t := ts[..|ts| - 1], ts[|ts| - 1];
    SplitLast(ts);
    TallySnoc(p, t);
    var prior := Tally(p);
    BumpKeys(prior, t);
    var ki := prior[i].key;
    assert Keys(prior)[i] == ki && es[i].key == ki;
    FirstIndexOfPrefix(p, t, ki);
    var fi := FirstIndex(p, ki);
    assert FirstIndex(ts, es[i].key) == fi;
    if j < |prior| {
      TallyOrderPair(p, i, j);
      var kj := prior[j].key;
      assert Keys(prior)[j] == kj && es[j].key == kj;
      FirstIndexOfPrefix(p, t, kj);
      assert FirstIndex(ts, es[j].key) == FirstIndex(p, kj);
    } else {
      assert es[j].key == t && t !in p;
      FirstIndexOfNew(p, t);
      assert FirstIndex(ts, es[j].key) == |p|;
    }
  }

  // ---------------------------------------------------------------------
  // most_common(): a stable sort by descending count
  // ---------------------------------------------------------------------

  /** Places `x` in front of the first entry whose count does not exceed its
      own, so that `x` stays ahead of the equal-count entries that followed
      it in the input. */
  function InsertDesc<T(==,!new)>(x: Entry<T>, r: seq<Entry<T>>): (s: seq<Entry<T>>)
    ensures |s| == |r| + 1
    ensures multiset(s) == multiset(r) + multiset{x}
    ensures forall k :: 0 <= k < |s| ==> s[k] == x || s[k] in r
    ensures Total(s) == Total(r) + x.count
  {
    if |r| == 0 || x.count >= r[0].count then
      [x] + r
    else
      assert r == [r[0]] + r[1..];
      [r[0]] + InsertDesc(x, r[1..])
  }

  /** An entry counted at least as high as every entry of a sorted sequence
      can be put in front of it. */
  lemma ConsSorted<T>(h: Entry<T>, t: seq<Entry<T>>)
    requires NonIncreasing(t)
    requires forall k :: 0 <= k < |t| ==> h.count >= t[k].count
    ensures NonIncreasing([h] + t)
  {
    var s := [h] + t;
    forall i, j | 0 <= i < j < |s|
      ensures s[i].count >= s[j].count
    {
      assert s[j] == t[j - 1];
      if i > 0 {
        assert s[i] == t[i - 1];
      }
    }
  }

  /** Inserting into a sequence sorted by descending count keeps it sorted. */
  lemma {:induction false} InsertDescSorted<T(!new)>(x: Entry<T>, r: seq<Entry<T>>)
    requires NonIncreasing(r)
    ensures NonIncreasing(InsertDesc(x, r))
  {
    if |r| == 0 || x.count >= r[0].count {
      ConsSorted(x, r);
    } else {
      var rest := InsertDesc(x, r[1..]);
      InsertDescSorted(x, r[1..]);
      forall k | 0 <= k < |rest|
        ensures r[0].count >= rest[k].count
      {
        if rest[k] != x {
          var m :| 0 <= m < |r[1..]| && r[1..][m] == rest[k];
          assert r[m + 1] == rest[k];
        }
      }
      ConsSorted(r[0], rest);
    }
  }

  /** `most_common()`: the entries sorted by descending count; the sort is
      stable, so entries with equal counts keep their relative order. */
  function MostCommon<T(==,!new)>(es: seq<Entry<T>>): (r: seq<Entry<T>>)
    ensures |r| == |es|
    ensures multiset(r) == multiset(es)
    ensures forall k :: 0 <= k < |r| ==> r[k] in es
    ensures Total(r) == Total(es)
    ensures NonIncreasing(r)
    decreases |es|
  {
    if |es| == 0 then
      []
    else
      assert es == [es[0]] + es[1..];
      var rest := MostCommon(es[1..]);
      InsertDescSorted(es[0], rest);
      InsertDesc(es[0], rest)
  }

  /** Inserting an entry whose key ranks before every key already present
      keeps the sequence ordered by count, then rank. */
  lemma {:induction false} InsertDescRanked<T(!new)>(x: Entry<T>, r: seq<Entry<T>>, rank: T -> int)
    requires RankedBy(r, rank)
    requires forall k :: 0 <= k < |r| ==> rank(x.key) < rank(r[k].key)
    ensures RankedBy(InsertDesc(x, r), rank)
  {
    if |r| == 0 || x.count >= r[0].count {
      forall k | 0 <= k < |r|
        ensures RanksBefore(x, r[k], rank)
      {
        if k > 0 {
          assert RanksBefore(r[0], r[k], rank);
        }
      }
      ConsRanked(x, r, rank);
    } else {
      var rest := InsertDesc(x, r[1..]);
      InsertDescRanked(x, r[1..], rank);
      forall k | 0 <= k < |rest|
        ensures RanksBefore(r[0], rest[k], rank)
      {
        if rest[k] != x {
          var m :| 0 <= m < |r[1..]| && r[1..][m] == rest[k];
          assert r[m + 1] == rest[k];
          assert RanksBefore(r[0], r[m + 1], rank);
        }
      }
      ConsRanked(r[0], rest, rank);
    }
  }

  /** The stability of `most_common()`: if the input lists its keys in
      ascending rank, entries with equal counts come out in that order. */
  lemma {:induction false} MostCommonStable<T(!new)>(es: seq<Entry<T>>, rank: T -> int)
    requires forall i, j :: 0 <= i < j < |es| ==> rank(es[i].key) < rank(es[j].key)
    ensures RankedBy(MostCommon(es), rank)
    decreases |es|
  {
    if |es| > 0 {
      var rest := MostCommon(es[1..]);
      MostCommonStable(es[1..], rank);
      forall k | 0 <= k < |rest|
        ensures rank(es[0].key) < rank(rest[k].key)
      {
        var m :| 0 <= m < |es[1..]| && es[1..][m] == rest[k];
        assert es[m + 1] == rest[k];
      }
      InsertDescRanked(es[0], rest, rank);
    }
  }

  /** No entry ranks before another that ranks before it. */
  lemma RanksBeforeAsymmetric<T>(a: Entry<T>, b: Entry<T>, rank: T -> int)
    ensures !(RanksBefore(a, b, rank) && RanksBefore(b, a, rank))
  {
  }

  /** Two orderings by count, then rank, of the same entries start with
      the same entry: the one that ranks before all others. */
  lemma RankedHeads<T(!new)>(a: seq<Entry<T>>, b: seq<Entry<T>>, rank: T -> int)
    requires multiset(a) == multiset(b) && |a| > 0
    requires RankedBy(a, rank) && RankedBy(b, rank)
    ensures |b| > 0 && a[0] == b[0]
  {
    assert a[0] in multiset(b) && |b| > 0 && b[0] in multiset(a);
    var m :| 0 <= m < |b| && b[m] == a[0];
    var n :| 0 <= n < |a| && a[n] == b[0];
    assert m == 0 || RanksBefore(b[0], a[0], rank);
    assert n == 0 || RanksBefore(a[0], b[0], rank);
    RanksBeforeAsymmetric(a[0], b[0], rank);
  }

  /** Sequences with the same elements and the same head have tails with
      the same elements. */
  lemma TailMultisets<X>(a: seq<X>, b: seq<X>)
    requires |a| > 0 && |b| > 0 && a[0] == b[0]
    requires multiset(a) == multiset(b)
    ensures multiset(a[1..]) == multiset(b[1..])
  {
    assert a == [a[0]] + a[1..] && b == [b[0]] + b[1..];
    assert multiset(a) == multiset{a[0]} + multiset(a[1..]);
    assert multiset(b) == multiset{b[0]} + multiset(b[1..]);
    assert multiset(a[1..]) == multiset(a) - multiset{a[0]};
    assert multiset(b[1..]) == multiset(b) - multiset{b[0]};
  }

  /** The tail of a ranked sequence is ranked. */
  lemma RankedTail<T>(s: seq<Entry<T>>, rank: T -> int)
    requires |s| > 0 && RankedBy(s, rank)
    ensures RankedBy(s[1..], rank)
  {
    forall i, j | 0 <= i < j < |s| - 1
      ensures RanksBefore(s[1..][i], s[1..][j], rank)
    {
      assert s[1..][i] == s[i + 1] && s[1..][j] == s[j + 1];
    }
  }

  /** A sequence ordered by count, then rank, is determined by its
      elements: two such orderings of the same entries are equal. */
  lemma {:induction false} RankedUnique<T(!new)>(a: seq<Entry<T>>, b: seq<Entry<T>>, rank: T -> int)
    requires multiset(a) == multiset(b)
    requires RankedBy(a, rank) && RankedBy(b, rank)
    ensures a == b
    decreases |a|
  {
    assert |a| == |multiset(a)| == |multiset(b)| == |b|;
    if |a| > 0 {
      RankedHeads(a, b, rank);
      TailMultisets(a, b);
      RankedTail(a, rank);
      RankedTail(b, rank);
      RankedUnique(a[1..], b[1..], rank);
      assert a == [a[0]] + a[1..] && b == [b[0]] + b[1..];
    }
  }

  /** `most_common()` is the only stable sort by descending count: any
      rearrangement of the entries that orders equal counts as the input
      did is exactly `MostCommon(es)`. So the result does not depend on the
      sorting algorithm, only on its stability. */
  lemma StableSortIsMostCommon<T(!new)>(es: seq<Entry<T>>, rank: T -> int, r: seq<Entry<T>>)
    requires forall i, j :: 0 <= i < j < |es| ==> rank(es[i].key) < rank(es[j].key)
    requires multiset(r) == multiset(es) && RankedBy(r, rank)
    ensures r == MostCommon(es)
  {
    MostCommonStable(es, rank);
    RankedUnique(r, MostCommon(es), rank);
  }

  /** The keys of an entry followed by more entries. */
  lemma KeysCons<T>(h: Entry<T>, t: seq<Entry<T>>)
    ensures Keys([h] + t) == [h.key] + Keys(t)
  {
  }

  /** Inserting a new key into a dict gives a dict with one more key. */
  lemma {:induction false} InsertDescKeys<T(!new)>(x: Entry<T>, r: seq<Entry<T>>)
    ensures forall u :: u in Keys(InsertDesc(x, r)) <==> u in Keys(r) || u == x.key
    ensures DistinctKeys(r) && x.key !in Keys(r) ==> DistinctKeys(InsertDesc(x, r))
  {
    if |r| == 0 || x.count >= r[0].count {
      KeysCons(x, r);
      DistinctKeysCons(x, r);
    } else {
      var rest := InsertDesc(x, r[1..]);
      InsertDescKeys(x, r[1..]);
      KeysCons(r[0], rest);
      assert r == [r[0]] + r[1..];
      KeysCons(r[0], r[1..]);
      DistinctKeysCons(r[0], r[1..]);
      DistinctKeysCons(r[0], rest);
    }
  }

  /** `most_common()` of a dict is again a dict, with the same keys. */
  lemma {:induction false} MostCommonKeys<T(!new)>(es: seq<Entry<T>>)
    ensures forall u :: u in Keys(MostCommon(es)) <==> u in Keys(es)
    ensures DistinctKeys(es) ==> DistinctKeys(MostCommon(es))
    decreases |es|
  {
    if |es| > 0 {
      var rest := MostCommon(es[1..]);
      assert es == [es[0]] + es[1..];
      KeysCons(es[0], es[1..]);
      MostCommonKeys(es[1..]);
      InsertDescKeys(es[0], rest);
      DistinctKeysCons(es[0], es[1..]);
    }
  }

  // ---------------------------------------------------------------------
  // dict(pairs)
  // ---------------------------------------------------------------------

  /** `d[e.key] = e.count`: an existing key keeps its place and takes the
      new count; a new key goes to the end. */
  function Put<T(==,!new)>(d: seq<Entry<T>>, e: Entry<T>): (r: seq<Entry<T>>)
    ensures e.key !in Keys(d) ==> r == d + [e]
    ensures Keys(r) == if e.key in Keys(d) then Keys(d) else Keys(d) + [e.key]
  {
    if e.key in Keys(d) then
      var i := FirstIndex(Keys(d), e.key);
      UpdateKeepsKeys(d, i, e.count);
      assert Entry(d[i].key, e.count) == e;
      d[i := e]
    else
      AppendKeys(d, e);
      d + [e]
  }

  /** Assigning to a key already present replaces its first entry with the
      new pair, in place, and changes no other entry. */
  lemma PutExisting<T(!new)>(d: seq<Entry<T>>, e: Entry<T>, i: nat)
    requires i < |d| && d[i].key == e.key
    requires forall j :: 0 <= j < i ==> d[j].key != e.key
    ensures Put(d, e) == d[i := e]
  {
    assert Keys(d)[i] == e.key;
    var f := FirstIndex(Keys(d), e.key);
    assert Keys(d)[f] == d[f].key;
  }

  /** Assigning into a dict keeps its keys distinct. */
  lemma PutDistinct<T(!new)>(d: seq<Entry<T>>, e: Entry<T>)
    requires DistinctKeys(d)
    ensures DistinctKeys(Put(d, e))
  {
    if e.key in Keys(d) {
      var i := FirstIndex(Keys(d), e.key);
      UpdateKeepsKeys(d, i, e.count);
      assert Entry(d[i].key, e.count) == e;
    } else {
      AppendKeys(d, e);
    }
  }

  /** A dict with one more pair at the end: its prefix is a dict without the
      last key. */
  lemma DistinctKeysSnoc<T(!new)>(p: seq<Entry<T>>, e: Entry<T>)
    requires DistinctKeys(p + [e])
    ensures DistinctKeys(p) && e.key !in Keys(p)
  {
    var s := p + [e];
    forall k | 0 <= k < |p|
      ensures Keys(p)[k] != e.key
    {
      assert s[k] == p[k] && s[|p|] == e;
    }
    forall i, j | 0 <= i < j < |p|
      ensures p[i].key != p[j].key
    {
      assert s[i] == p[i] && s[j] == p[j];
    }
  }

  /** `dict(pairs)`: later pairs overwrite the counts of earlier equal keys,
      which keep their first position (`DictOfLastWins`, `DictOfKeyOrder`). */
  function DictOf<T(==,!new)>(pairs: seq<Entry<T>>): (d: seq<Entry<T>>)
    ensures DistinctKeys(d)
    ensures forall u :: u in Keys(d) <==> u in Keys(pairs)
    ensures DistinctKeys(pairs) ==> d == pairs
    decreases |pairs|
  {
    if |pairs| == 0 then
      []
    else
      var p, e := pairs[..|pairs| - 1], pairs[|pairs| - 1];
      SplitLast(pairs);
      assert Keys(pairs) == Keys(p) + [e.key];
      var prior := DictOf(p);
      PutDistinct(prior, e);
      assert DistinctKeys(pairs) ==> DistinctKeys(p) && e.key !in Keys(p) by {
        if DistinctKeys(pairs) {
          DistinctKeysSnoc(p, e);
        }
      }
      Put(prior, e)
  }

  /** `x` is the last pair of `pairs` with its key. */
  ghost predicate IsLastPair<T>(pairs: seq<Entry<T>>, x: Entry<T>) {
    exists j :: 0 <= j < |pairs| && pairs[j] == x && forall k :: j < k < |pairs| ==> pairs[k].key != x.key
  }

  /** The appended pair is the last of its key. */
  lemma LastPairEnd<T>(p: seq<Entry<T>>, e: Entry<T>)
    ensures IsLastPair(p + [e], e)
  {
    assert (p + [e])[|p|] == e;
  }

  /** A pair that was the last of its key stays so when a pair with another
      key is appended. */
  lemma LastPairSnoc<T>(p: seq<Entry<T>>, e: Entry<T>, x: Entry<T>)
    requires IsLastPair(p, x) && x.key != e.key
    ensures IsLastPair(p + [e], x)
  {
    var j :| 0 <= j < |p| && p[j] == x && forall k :: j < k < |p| ==> p[k].key != x.key;
    var q := p + [e];
    assert q[j] == x;
    assert forall k :: j < k < |q| ==> q[k].key != x.key by {
      forall k | j < k < |q|
        ensures q[k].key != x.key
      {
        if k < |p| {
          assert q[k] == p[k];
        }
      }
    }
  }

  /** Each entry of `dict(pairs)` is the last pair with its key: the count
      of a repeated key is the one assigned last. */
  lemma {:induction false} DictOfLastWins<T(!new)>(pairs: seq<Entry<T>>)
    ensures forall i :: 0 <= i < |DictOf(pairs)| ==> IsLastPair(pairs, DictOf(pairs)[i])
    decreases |pairs|
  {
    if |pairs| > 0 {
      var p, e := pairs[..|pairs| - 1], pairs[|pairs| - 1];
      SplitLast(pairs);
      DictOfLastWins(p);
      assert DictOf(pairs) == Put(DictOf(p), e);
      PutLastPairs(p, e, DictOf(p));
    }
  }

  /** The induction step of `DictOfLastWins`: assigning one more pair into
      a dict built from `p` gives a dict built from `p + [e]`. */
  lemma PutLastPairs<T(!new)>(p: seq<Entry<T>>, e: Entry<T>, d: seq<Entry<T>>)
    requires DistinctKeys(d)
    requires forall i :: 0 <= i < |d| ==> IsLastPair(p, d[i])
    ensures forall i :: 0 <= i < |Put(d, e)| ==> IsLastPair(p + [e], Put(d, e)[i])
  {
    LastPairEnd(p, e);
    if e.key in Keys(d) {
      var i0 := FirstIndex(Keys(d), e.key);
      PutExisting(d, e, i0);
      forall i | 0 <= i < |d| && i != i0
        ensures IsLastPair(p + [e], d[i])
      {
        assert Keys(d)[i0] == d[i0].key;
        LastPairSnoc(p, e, d[i]);
      }
    } else {
      forall i | 0 <= i < |d|
        ensures IsLastPair(p + [e], d[i])
      {
        assert Keys(d)[i] == d[i].key;
        LastPairSnoc(p, e, d[i]);
      }
    }
  }

  /** `dict(pairs)` lists each key at its first occurrence: its keys come in
      the order `Counter` gives the key sequence, that of first occurrence
      (`TallyFirstSeenOrder`). */
  lemma {:induction false} DictOfKeyOrder<T(!new)>(pairs: seq<Entry<T>>)
    ensures Keys(DictOf(pairs)) == Keys(Tally(Keys(pairs)))
    decreases |pairs|
  {
    if |pairs| > 0 {
      var p, e := pairs[..|pairs| - 1], pairs[|pairs| - 1];
      SplitLast(pairs);
      assert Keys(pairs) == Keys(p) + [e.key];
      DictOfKeyOrder(p);
      TallySnoc(Keys(p), e.key);
      BumpKeys(Tally(Keys(p)), e.key);
      assert DictOf(pairs) == Put(DictOf(p), e);
    }
  }

  // ---------------------------------------------------------------------
  // dict(Counter(tokens).most_common())
  // ---------------------------------------------------------------------

  /** The ranked count of `tokens`, as the hashtag counter computes it. */
  function Rank<T(==,!new)>(tokens: seq<T>): seq<Entry<T>> {
    DictOf(MostCommon(Tally(tokens)))
  }

  /** Counting then ranking a list gives a dict whose keys are exactly the
      distinct tokens; the dict conversion changes nothing. */
  lemma RankKeys<T(!new)>(tokens: seq<T>)
    ensures Rank(tokens) == MostCommon(Tally(tokens))
    ensures DistinctKeys(Rank(tokens))
    ensures forall t :: t in tokens <==> t in Keys(Rank(tokens))
  {
    MostCommonKeys(Tally(tokens));
  }

  /** Counts that agree with the occurrences in `tokens` still agree after
      the entries are rearranged. */
  lemma CountsCarry<T(!new)>(es: seq<Entry<T>>, r: seq<Entry<T>>, tokens: seq<T>)
    requires forall k :: 0 <= k < |r| ==> r[k] in es
    requires forall i :: 0 <= i < |es| ==> es[i].count == multiset(tokens)[es[i].key]
    ensures forall k :: 0 <= k < |r| ==> r[k].count == multiset(tokens)[r[k].key]
  {
    forall k | 0 <= k < |r|
      ensures r[k].count == multiset(tokens)[r[k].key]
    {
      var m :| 0 <= m < |es| && es[m] == r[k];
    }
  }

  /** The ranked counts add up to the number of tokens: nothing is dropped
      or counted twice. */
  lemma RankTotal<T(!new)>(tokens: seq<T>)
    ensures Total(Rank(tokens)) == |tokens|
  {
    RankKeys(tokens);
    TallyTotal(tokens);
  }

  /** Each ranked count is the number of occurrences of its token, and the
      counts add up to the number of tokens. */
  lemma RankCounts<T(!new)>(tokens: seq<T>)
    ensures forall i :: 0 <= i < |Rank(tokens)| ==>
      Rank(tokens)[i].count == multiset(tokens)[Rank(tokens)[i].key]
    ensures Total(Rank(tokens)) == |tokens|
  {
    RankKeys(tokens);
    TallyCounts(tokens);
    CountsCarry(Tally(tokens), Rank(tokens), tokens);
    RankTotal(tokens);
  }

  /** The position of the first occurrence of `t`, or past the end when
      `t` does not occur. */
  function FirstPos<T(==,!new)>(ts: seq<T>, t: T): nat {
    if t in ts then FirstIndex(ts, t) else |ts|
  }

  /** Ranks each key by the position of its first occurrence in `ts`. */
  function FirstSeenRank<T(==,!new)>(ts: seq<T>): T -> int {
    t => FirstPos(ts, t)
  }

  /** The counter lists its keys in ascending first-seen rank. */
  lemma TallyFirstSeenRank<T(!new)>(tokens: seq<T>)
    ensures forall i, j :: 0 <= i < j < |Tally(tokens)| ==>
      FirstSeenRank(tokens)(Tally(tokens)[i].key) < FirstSeenRank(tokens)(Tally(tokens)[j].key)
  {
    var es := Tally(tokens);
    TallyFirstSeenOrder(tokens);
    forall i, j | 0 <= i < j < |es|
      ensures FirstSeenRank(tokens)(es[i].key) < FirstSeenRank(tokens)(es[j].key)
    {
      assert es[i].key in tokens && es[j].key in tokens;
    }
  }

  /** The ranked dict is ordered by count, then by first occurrence. */
  lemma RankStable<T(!new)>(tokens: seq<T>)
    ensures RankedBy(Rank(tokens), FirstSeenRank(tokens))
  {
    RankKeys(tokens);
    TallyFirstSeenRank(tokens);
    MostCommonStable(Tally(tokens), FirstSeenRank(tokens));
  }

  /** The ranking is by descending count and, among equal counts, by the
      position of each token's first occurrence. */
  lemma RankOrder<T(!new)>(tokens: seq<T>)
    ensures NonIncreasing(Rank(tokens))
    ensures forall i :: 0 <= i < |Rank(tokens)| ==> Rank(tokens)[i].key in tokens
    ensures forall i, j :: 0 <= i < j < |Rank(tokens)| && Rank(tokens)[i].count == Rank(tokens)[j].count ==>
      FirstIndex(tokens, Rank(tokens)[i].key) < FirstIndex(tokens, Rank(tokens)[j].key)
  {
    RankKeys(tokens);
    RankStable(tokens);
    var r := Rank(tokens);
    forall i | 0 <= i < |r|
      ensures r[i].key in tokens
    {
      assert Keys(r)[i] == r[i].key;
    }
    forall i, j | 0 <= i < j < |r| && r[i].count == r[j].count
      ensures FirstIndex(tokens, r[i].key) < FirstIndex(tokens, r[j].key)
    {
      assert RanksBefore(r[i], r[j], FirstSeenRank(tokens));
    }
  }

  /** One more token that is new to the counter. */
  lemma TallyStepNew<T(!new)>(p: seq<T>, t: T, prior: seq<Entry<T>>)
    requires Tally(p) == prior && t !in Keys(prior)
    ensures Tally(p + [t]) == prior + [Entry(t, 1)]
  {
    TallySnoc(p, t);
    BumpAppends(prior, t);
  }

  /** One more token that the counter already holds at position `i`. */
  lemma TallyStepSeen<T(!new)>(p: seq<T>, t: T, prior: seq<Entry<T>>, i: nat)
    requires Tally(p) == prior && i < |prior| && prior[i].key == t
    ensures Tally(p + [t]) == prior[i := Entry(t, prior[i].count + 1)]
  {
    TallySnoc(p, t);
    BumpUpdates(prior, t, i);
  }

  /** The counter of a, a. */
  lemma TallyAA()
    ensures Tally(['a', 'a']) == [Entry('a', 2)]
  {
    TallyStepNew([], 'a', []);
    assert [] + ['a'] == ['a'];
    TallyStepSeen(['a'], 'a', [Entry('a', 1)], 0);
    assert ['a'] + ['a'] == ['a', 'a'];
  }

  /** The counter of a, a, b. */
  lemma TallyAAB()
    ensures Tally(['a', 'a', 'b']) == [Entry('a', 2), Entry('b', 1)]
  {
    TallyAA();
    TallyStepNew(['a', 'a'], 'b', [Entry('a', 2)]);
    assert ['a', 'a'] + ['b'] == ['a', 'a', 'b'];
  }

  /** A more frequent token ranks first. */
  lemma RankByFrequency()
    ensures Rank(['a', 'a', 'b']) == [Entry('a', 2), Entry('b', 1)]
  {
    TallyAAB();
    assert MostCommon([Entry('b', 1)]) == [Entry('b', 1)];
    RankKeys(['a', 'a', 'b']);
  }

  /** The counter of x, y. */
  lemma TallyXY()
    ensures Tally(['x', 'y']) == [Entry('x', 1), Entry('y', 1)]
  {
    TallyStepNew([], 'x', []);
    assert [] + ['x'] == ['x'];
    TallyStepNew(['x'], 'y', [Entry('x', 1)]);
    assert ['x'] + ['y'] == ['x', 'y'];
  }

  /** The counter of x, y, y, x. */
  lemma TallyXYYX()
    ensures Tally(['x', 'y', 'y', 'x']) == [Entry('x', 2), Entry('y', 2)]
  {
    TallyXY();
    TallyStepSeen(['x', 'y'], 'y', [Entry('x', 1), Entry('y', 1)], 1);
    assert ['x', 'y'] + ['y'] == ['x', 'y', 'y'];
    TallyStepSeen(['x', 'y', 'y'], 'x', [Entry('x', 1), Entry('y', 2)], 0);
    assert ['x', 'y', 'y'] + ['x'] == ['x', 'y', 'y', 'x'];
  }

  /** Equal counts keep the order of first occurrence, whatever order the
      later occurrences come in. */
  lemma RankTiesByFirstOccurrence()
    ensures Rank(['x', 'y', 'y', 'x']) == [Entry('x', 2), Entry('y', 2)]
  {
    TallyXYYX();
    assert MostCommon([Entry('y', 2)]) == [Entry('y', 2)];
    RankKeys(['x', 'y', 'y', 'x']);
  }
}
