/** Python's `collections.Counter` as far as the parser uses it: building a
    counter from a list of keys, and `most_common(n)`.

    A counter is a dictionary, so it remembers the order in which keys were
    first inserted; `most_common` relies on that order to break ties. */
module Counters {

  import opened ByteStrings
  import opened Seqs

  /** The parser counts byte strings. */
  type Key = bytes

  /** `keys` in insertion order, `counts` the tally of each. */
  datatype Counter = Counter(keys: seq<Key>, counts: map<Key, nat>)

  /** A counter's keys are distinct, they are exactly the map's domain, and
      every stored count is positive. */
  ghost predicate Valid(c: Counter)
  {
    && (forall i, j :: 0 <= i < j < |c.keys| ==> c.keys[i] != c.keys[j])
    && (forall k :: k in c.counts <==> k in c.keys)
    && (forall k :: k in c.counts ==> c.counts[k] >= 1)
  }

  /** `c[k]`: a counter answers 0 for a key it has never seen. */
  function Count(c: Counter, k: Key): nat
  {
    if k in c.counts then c.counts[k] else 0
  }

  /** Position of the first occurrence of `x` in `s`, or `|s|` when absent. */
  function IndexOf(s: seq<Key>, x: Key): (i: nat)
    ensures i <= |s|
    ensures i < |s| ==> s[i] == x
    ensures forall j :: 0 <= j < i ==> s[j] != x
  {
    if |s| == 0 then 0
    else if s[0] == x then 0
    else 1 + IndexOf(s[1..], x)
  }

  /** `c[x] += 1`; a key seen for the first time goes to the end of the order. */
  function Add(c: Counter, x: Key): (r: Counter)
    ensures Count(r, x) == Count(c, x) + 1
    ensures forall k :: k != x ==> Count(r, k) == Count(c, k)
    ensures r.keys == if x in c.counts then c.keys else c.keys + [x]
    ensures Valid(c) ==> Valid(r)
  {
    if x in c.counts then Counter(c.keys, c.counts[x := c.counts[x] + 1])
    else Counter(c.keys + [x], c.counts[x := 1])
  }

  /** `Counter(xs)`: the counter obtained by adding the keys of `xs` in order. */
  function Tally(xs: seq<Key>): Counter
  {
    if |xs| == 0 then Counter([], map[])
    else Add(Tally(xs[..|xs| - 1]), xs[|xs| - 1])
  }

  /** Counting one more key is one more `c[x] += 1`. */
  lemma TallySnoc(xs: seq<Key>, x: Key)
    ensures Tally(xs + [x]) == Add(Tally(xs), x)
  {
    assert (xs + [x])[..|xs|] == xs;
  }

  /** `Counter(xs)` is a well-formed counter. */
  lemma {:induction false} TallyValid(xs: seq<Key>)
    ensures Valid(Tally(xs))
  {
    if |xs| > 0 {
      TallyValid(xs[..|xs| - 1]);
    }
  }

  /** `Counter(xs)[k]` is the number of occurrences of `k` in `xs`. */
  lemma {:induction false} TallyCounts(xs: seq<Key>)
    ensures forall k :: Count(Tally(xs), k) == multiset(xs)[k]
  {
    if |xs| > 0 {
      var init, x := xs[..|xs| - 1], xs[|xs| - 1];
      assert xs == init + [x];
      TallyCounts(init);
    }
  }

  /** The keys of `Counter(xs)` are exactly the elements of `xs`. */
  lemma TallyKeys(xs: seq<Key>)
    ensures forall k :: k in Tally(xs).counts <==> k in xs
  {
    TallyValid(xs);
    TallyCounts(xs);
    forall k ensures k in Tally(xs).counts <==> k in xs {
      assert k in xs <==> multiset(xs)[k] > 0;
    }
  }

  /** The keys of `Counter(xs)` are in order of their first occurrence in `xs`. */
  lemma {:induction false} TallyOrder(xs: seq<Key>)
    ensures forall i, j :: 0 <= i < j < |Tally(xs).keys| ==>
              IndexOf(xs, Tally(xs).keys[i]) < IndexOf(xs, Tally(xs).keys[j])
  {
    if |xs| > 0 {
      var init, x := xs[..|xs| - 1], xs[|xs| - 1];
      assert xs == init + [x];
      TallyOrder(init);
      TallyKeys(init);
      TallyValid(init);
      var c := Tally(init);
      var r := Tally(xs);
      assert r == Add(c, x);
      forall i, j | 0 <= i < j < |r.keys|
        ensures IndexOf(xs, r.keys[i]) < IndexOf(xs, r.keys[j])
      {
        assert r.keys[i] == c.keys[i];
        assert c.keys[i] in init;
        IndexOfAppend(init, x, c.keys[i]);
        if j < |c.keys| {
          assert r.keys[j] == c.keys[j];
          assert c.keys[j] in init;
          IndexOfAppend(init, x, c.keys[j]);
        } else {
          assert r.keys[j] == x && x !in init;
          IndexOfAppend(init, x, x);
        }
      }
    }
  }

  /** The counts, though not the order of the keys, depend only on the
      multiset of keys counted. */
  lemma TallyPermutation(xs1: seq<Key>, xs2: seq<Key>)
    requires multiset(xs1) == multiset(xs2)
    ensures Tally(xs1).counts == Tally(xs2).counts
  {
    TallyKeys(xs1); TallyKeys(xs2);
    TallyCounts(xs1); TallyCounts(xs2);
    var m1, m2 := Tally(xs1).counts, Tally(xs2).counts;
    forall k | k in m1 ensures k in m2 && m1[k] == m2[k] {
      assert k in multiset(xs1);
      assert Count(Tally(xs1), k) == Count(Tally(xs2), k);
    }
    forall k | k in m2 ensures k in m1 {
      assert k in multiset(xs2);
    }
  }

  /** What `Counter(xs)` holds: every key of `xs` and no other, each with the
      number of its occurrences, the keys ordered by first occurrence. */
  lemma TallySpec(xs: seq<Key>)
    ensures Valid(Tally(xs))
    ensures forall k :: k in Tally(xs).counts <==> k in xs
    ensures forall k :: Count(Tally(xs), k) == multiset(xs)[k]
    ensures forall i, j :: 0 <= i < j < |Tally(xs).keys| ==>
              IndexOf(xs, Tally(xs).keys[i]) < IndexOf(xs, Tally(xs).keys[j])
  {
    TallyValid(xs);
    TallyKeys(xs);
    TallyCounts(xs);
    TallyOrder(xs);
  }

  /** `Counter(xs)` as the library builds it: one pass over `xs`, bumping the
      count of each key in a dictionary, inserting new keys at the end. */
  method CountElements(xs: seq<Key>) returns (c: Counter)
    ensures c == Tally(xs)
    ensures Valid(c)
    ensures forall k :: Count(c, k) == multiset(xs)[k]
  {
    var keys: seq<Key> := [];
    var counts: map<Key, nat> := map[];
    for i := 0 to |xs|
      invariant Counter(keys, counts) == Tally(xs[..i])
    {
      var x := xs[i];
      assert xs[..i + 1][..i] == xs[..i] && xs[..i + 1][i] == x;
      assert Tally(xs[..i + 1]) == Add(Counter(keys, counts), x);
      if x in counts {
        counts := counts[x := counts[x] + 1];
      } else {
        keys := keys + [x];
        counts := counts[x := 1];
      }
    }
    assert xs[..|xs|] == xs;
    c := Counter(keys, counts);
    TallyValid(xs);
    TallyCounts(xs);
  }

  lemma IndexOfAppend(s: seq<Key>, x: Key, k: Key)
    ensures k in s ==> IndexOf(s + [x], k) == IndexOf(s, k)
    ensures k !in s && k == x ==> IndexOf(s + [x], k) == |s|
  {
    var i := IndexOf(s + [x], k);
    if k in s {
      var j := IndexOf(s, k);
      assert (s + [x])[j] == k;
      assert i <= j;
      if i < j { assert false; }
    } else if k == x {
      assert (s + [x])[|s|] == k;
      if i < |s| { assert false; }
    }
  }

  // ---------------------------------------------------------------------------
  // Items and their total

  /** `c.items()`: (key, count) pairs in insertion order. */
  function Items(c: Counter): (r: seq<(Key, nat)>)
    ensures |r| == |c.keys|
    ensures forall i :: 0 <= i < |r| ==> r[i] == (c.keys[i], Count(c, c.keys[i]))
  {
    seq(|c.keys|, i requires 0 <= i < |c.keys| => (c.keys[i], Count(c, c.keys[i])))
  }

  /** Sum of the counts of a list of (key, count) pairs. */
  function SumCounts(s: seq<(Key, nat)>): nat
  {
    if |s| == 0 then 0 else SumCounts(s[..|s| - 1]) + s[|s| - 1].1
  }

  lemma {:induction false} SumCountsUpdate(s: seq<(Key, nat)>, j: nat, p: (Key, nat))
    requires j < |s|
    ensures SumCounts(s[j := p]) + s[j].1 == SumCounts(s) + p.1
    decreases |s|
  {
    var t := s[j := p];
    if j < |s| - 1 {
      assert t[..|t| - 1] == s[..|s| - 1][j := p];
      SumCountsUpdate(s[..|s| - 1], j, p);
    } else {
      assert t[..|t| - 1] == s[..|s| - 1];
    }
  }

  lemma {:induction false} SumCountsCons(p: (Key, nat), s: seq<(Key, nat)>)
    ensures SumCounts([p] + s) == p.1 + SumCounts(s)
    decreases |s|
  {
    if |s| > 0 {
      assert ([p] + s)[..|s|] == [p] + s[..|s| - 1];
      SumCountsCons(p, s[..|s| - 1]);
    }
  }

  lemma ItemsAddPresent(c: Counter, x: Key)
    requires Valid(c) && x in c.counts
    ensures IndexOf(c.keys, x) < |c.keys|
    ensures Items(Add(c, x)) == Items(c)[IndexOf(c.keys, x) := (x, Count(c, x) + 1)]
  {
  }

  lemma ItemsAddAbsent(c: Counter, x: Key)
    requires Valid(c) && x !in c.counts
    ensures Items(Add(c, x)) == Items(c) + [(x, 1)]
  {
  }

  /** The counts of `Counter(xs)` add up to the length of `xs`. */
  lemma {:induction false} TallyTotal(xs: seq<Key>)
    ensures SumCounts(Items(Tally(xs))) == |xs|
  {
    if |xs| > 0 {
      var init, x := xs[..|xs| - 1], xs[|xs| - 1];
      TallyTotal(init);
      TallyValid(init);
      var c := Tally(init);
      assert Tally(xs) == Add(c, x);
      if x in c.counts {
        ItemsAddPresent(c, x);
        SumCountsUpdate(Items(c), IndexOf(c.keys, x), (x, Count(c, x) + 1));
      } else {
        ItemsAddAbsent(c, x);
        var t := Items(c) + [(x, 1)];
        assert t[..|t| - 1] == Items(c);
      }
    }
  }

  // ---------------------------------------------------------------------------
  // Stable sort by count, descending

  /** Inserts `x` before the first entry whose count does not exceed its own:
      `x` comes before every entry it ties with. */
  function Insert(x: (Key, nat), s: seq<(Key, nat)>): seq<(Key, nat)>
  {
    if |s| == 0 || s[0].1 <= x.1 then [x] + s else [s[0]] + Insert(x, s[1..])
  }

  /** `sorted(s, key=count, reverse=True)`, which Python guarantees stable. */
  function SortByCount(s: seq<(Key, nat)>): seq<(Key, nat)>
  {
    if |s| == 0 then [] else Insert(s[0], SortByCount(s[1..]))
  }

  ghost predicate SortedDesc(s: seq<(Key, nat)>)
  {
    forall i, j :: 0 <= i < j < |s| ==> s[i].1 >= s[j].1
  }

  /** No key occurs twice. */
  ghost predicate DistinctKeys(s: seq<(Key, nat)>)
  {
    forall i, j :: 0 <= i < j < |s| ==> s[i].0 != s[j].0
  }

  /** The entries of `s` whose count is `v`, in their order in `s`. */
  function WithCount(s: seq<(Key, nat)>, v: nat): (r: seq<(Key, nat)>)
    ensures forall i :: 0 <= i < |r| ==> r[i].1 == v
  {
    if |s| == 0 then []
    else (if s[0].1 == v then [s[0]] else []) + WithCount(s[1..], v)
  }

  lemma {:induction false} WithCountConcat(a: seq<(Key, nat)>, b: seq<(Key, nat)>, v: nat)
    ensures WithCount(a + b, v) == WithCount(a, v) + WithCount(b, v)
  {
    if |a| > 0 {
      assert (a + b)[1..] == a[1..] + b;
      WithCountConcat(a[1..], b, v);
    } else {
      assert a + b == b;
    }
  }

  lemma {:induction false} InsertMultiset(x: (Key, nat), s: seq<(Key, nat)>)
    ensures multiset(Insert(x, s)) == multiset{x} + multiset(s)
    ensures |Insert(x, s)| == |s| + 1
  {
    if |s| > 0 && s[0].1 > x.1 {
      InsertMultiset(x, s[1..]);
      assert s == [s[0]] + s[1..];
    }
  }

  lemma {:induction false} InsertSum(x: (Key, nat), s: seq<(Key, nat)>)
    ensures SumCounts(Insert(x, s)) == x.1 + SumCounts(s)
  {
    SumCountsCons(x, s);
    if |s| > 0 && s[0].1 > x.1 {
      InsertSum(x, s[1..]);
      assert s == [s[0]] + s[1..];
      SumCountsCons(s[0], Insert(x, s[1..]));
      SumCountsCons(s[0], s[1..]);
    }
  }

  /** Inserting `x` puts it in front of every entry with its own count. */
  lemma {:induction false} InsertWithCount(x: (Key, nat), s: seq<(Key, nat)>, v: nat)
    ensures WithCount(Insert(x, s), v) == WithCount([x], v) + WithCount(s, v)
  {
    assert [x][1..] == [];
    if |s| > 0 && s[0].1 > x.1 {
      var t := Insert(x, s[1..]);
      InsertWithCount(x, s[1..], v);
      assert ([s[0]] + t)[1..] == t;
    } else {
      WithCountConcat([x], s, v);
    }
  }

  /** Every entry of `Insert(x, s)` is `x` or an entry of `s`. */
  lemma InsertMember(x: (Key, nat), s: seq<(Key, nat)>, j: nat)
    requires j < |Insert(x, s)|
    ensures Insert(x, s)[j] == x || exists m :: 0 <= m < |s| && s[m] == Insert(x, s)[j]
  {
    InsertMultiset(x, s);
    var y := Insert(x, s)[j];
    assert y in multiset(Insert(x, s));
    if y != x {
      assert y in multiset(s);
      assert y in s;
    }
  }

  lemma SortedCons(h: (Key, nat), u: seq<(Key, nat)>)
    requires SortedDesc(u)
    requires forall i :: 0 <= i < |u| ==> u[i].1 <= h.1
    ensures SortedDesc([h] + u)
  {
  }

  lemma DistinctCons(h: (Key, nat), u: seq<(Key, nat)>)
    requires DistinctKeys(u)
    requires forall i :: 0 <= i < |u| ==> u[i].0 != h.0
    ensures DistinctKeys([h] + u)
  {
  }

  lemma {:induction false} InsertSorted(x: (Key, nat), s: seq<(Key, nat)>)
    requires SortedDesc(s)
    ensures SortedDesc(Insert(x, s))
  {
    if |s| > 0 && s[0].1 > x.1 {
      var t := Insert(x, s[1..]);
      assert SortedDesc(s[1..]) by {
        forall i, j | 0 <= i < j < |s[1..]| ensures s[1..][i].1 >= s[1..][j].1 {
          assert s[1..][i] == s[i + 1] && s[1..][j] == s[j + 1];
        }
      }
      InsertSorted(x, s[1..]);
      forall j | 0 <= j < |t| ensures t[j].1 <= s[0].1 {
        InsertMember(x, s[1..], j);
        if t[j] != x {
          var m :| 0 <= m < |s[1..]| && s[1..][m] == t[j];
          assert s[m + 1] == t[j];
        }
      }
      SortedCons(s[0], t);
    } else {
      SortedCons(x, s);
    }
  }

  lemma {:induction false} InsertDistinct(x: (Key, nat), s: seq<(Key, nat)>)
    requires DistinctKeys(s)
    requires forall i :: 0 <= i < |s| ==> s[i].0 != x.0
    ensures DistinctKeys(Insert(x, s))
  {
    if |s| > 0 && s[0].1 > x.1 {
      var t := Insert(x, s[1..]);
      assert DistinctKeys(s[1..]) by {
        forall i, j | 0 <= i < j < |s[1..]| ensures s[1..][i].0 != s[1..][j].0 {
          assert s[1..][i] == s[i + 1] && s[1..][j] == s[j + 1];
        }
      }
      InsertDistinct(x, s[1..]);
      forall j | 0 <= j < |t| ensures t[j].0 != s[0].0 {
        InsertMember(x, s[1..], j);
        if t[j] != x {
          var m :| 0 <= m < |s[1..]| && s[1..][m] == t[j];
          assert s[m + 1] == t[j];
        }
      }
      DistinctCons(s[0], t);
    } else {
      DistinctCons(x, s);
    }
  }

  lemma {:induction false} SortByCountPerm(s: seq<(Key, nat)>)
    ensures multiset(SortByCount(s)) == multiset(s)
    ensures |SortByCount(s)| == |s|
  {
    if |s| > 0 {
      SortByCountPerm(s[1..]);
      HeadTail(s);
      InsertMultiset(s[0], SortByCount(s[1..]));
    }
  }

  lemma {:induction false} SortByCountSorted(s: seq<(Key, nat)>)
    ensures SortedDesc(SortByCount(s))
  {
    if |s| > 0 {
      SortByCountSorted(s[1..]);
      InsertSorted(s[0], SortByCount(s[1..]));
    }
  }

  lemma {:induction false} SortByCountSum(s: seq<(Key, nat)>)
    ensures SumCounts(SortByCount(s)) == SumCounts(s)
  {
    if |s| > 0 {
      SortByCountSum(s[1..]);
      HeadTail(s);
      InsertSum(s[0], SortByCount(s[1..]));
      SumCountsCons(s[0], s[1..]);
    }
  }

  lemma {:induction false} SortByCountDistinct(s: seq<(Key, nat)>)
    requires DistinctKeys(s)
    ensures DistinctKeys(SortByCount(s))
  {
    if |s| > 0 {
      var t := SortByCount(s[1..]);
      assert DistinctKeys(s[1..]) by {
        forall i, j | 0 <= i < j < |s[1..]| ensures s[1..][i].0 != s[1..][j].0 {
          assert s[1..][i] == s[i + 1] && s[1..][j] == s[j + 1];
        }
      }
      SortByCountDistinct(s[1..]);
      SortByCountPerm(s[1..]);
      forall i | 0 <= i < |t| ensures t[i].0 != s[0].0 {
        assert t[i] in multiset(s[1..]);
        var j :| 0 <= j < |s[1..]| && s[1..][j] == t[i];
        assert s[j + 1] == t[i];
      }
      InsertDistinct(s[0], t);
    }
  }

  /** The stable sort permutes its input, orders it by count descending,
      keeps keys distinct and keeps the total. */
  lemma SortByCountSpec(s: seq<(Key, nat)>)
    ensures multiset(SortByCount(s)) == multiset(s)
    ensures |SortByCount(s)| == |s|
    ensures SortedDesc(SortByCount(s))
    ensures SumCounts(SortByCount(s)) == SumCounts(s)
    ensures DistinctKeys(s) ==> DistinctKeys(SortByCount(s))
  {
    SortByCountPerm(s);
    SortByCountSorted(s);
    SortByCountSum(s);
    if DistinctKeys(s) {
      SortByCountDistinct(s);
    }
  }

  /** The sort is stable: for each count, its entries keep their input order. */
  lemma {:induction false} SortByCountStable(s: seq<(Key, nat)>, v: nat)
    ensures WithCount(SortByCount(s), v) == WithCount(s, v)
  {
    if |s| > 0 {
      SortByCountStable(s[1..], v);
      assert s == [s[0]] + s[1..];
      InsertWithCount(s[0], SortByCount(s[1..]), v);
      WithCountConcat([s[0]], s[1..], v);
    }
  }

  // ---------------------------------------------------------------------------
  // most_common

  function Min(a: nat, b: nat): nat
  {
    if a <= b then a else b
  }

  /** The keys of a list of (key, count) pairs. */
  function KeysOf(s: seq<(Key, nat)>): (r: seq<Key>)
    ensures |r| == |s| && forall i :: 0 <= i < |s| ==> r[i] == s[i].0
  {
    seq(|s|, i requires 0 <= i < |s| => s[i].0)
  }

  /** `c.most_common(n)`: the first `n` items of the stable descending sort. */
  function MostCommon(c: Counter, n: nat): seq<(Key, nat)>
  {
    var sorted := SortByCount(Items(c));
    sorted[..Min(n, |sorted|)]
  }

  lemma ItemsDistinct(c: Counter)
    requires Valid(c)
    ensures DistinctKeys(Items(c))
  {
  }

  /** An entry of `c.items()` is a key of the counter with its count. */
  lemma ItemsMember(c: Counter, p: (Key, nat))
    requires Valid(c) && p in multiset(Items(c))
    ensures p.0 in c.counts && p.1 == c.counts[p.0]
  {
    var items := Items(c);
    var j :| 0 <= j < |items| && items[j] == p;
    assert c.keys[j] in c.counts;
  }

  /** Every key of the counter appears in `c.items()` with its count. */
  lemma ItemsComplete(c: Counter, k: Key)
    requires Valid(c) && k in c.counts
    ensures (k, c.counts[k]) in multiset(Items(c))
  {
    var items := Items(c);
    var j := IndexOf(c.keys, k);
    assert items[j] == (k, c.counts[k]);
  }

  /** `most_common(n)` has `min(n, number of keys)` entries, each a key of
      the counter with its count, no key twice, counts non-increasing. */
  lemma MostCommonShape(c: Counter, n: nat)
    requires Valid(c)
    ensures |MostCommon(c, n)| == Min(n, |c.keys|)
    ensures forall i :: 0 <= i < |MostCommon(c, n)| ==>
              MostCommon(c, n)[i].0 in c.counts && MostCommon(c, n)[i].1 == c.counts[MostCommon(c, n)[i].0]
    ensures DistinctKeys(MostCommon(c, n))
    ensures SortedDesc(MostCommon(c, n))
  {
    var items := Items(c);
    var sorted := SortByCount(items);
    var r := MostCommon(c, n);
    SortByCountPerm(items);
    SortByCountSorted(items);
    ItemsDistinct(c);
    SortByCountDistinct(items);
    PrefixOrder(sorted, |r|);
    forall i | 0 <= i < |r| ensures r[i].0 in c.counts && r[i].1 == c.counts[r[i].0] {
      assert r[i] == sorted[i];
      assert sorted[i] in multiset(items);
      ItemsMember(c, sorted[i]);
    }
  }

  /** A prefix of a sorted list of distinct keys is one too. */
  lemma PrefixOrder(s: seq<(Key, nat)>, m: nat)
    requires m <= |s| && SortedDesc(s) && DistinctKeys(s)
    ensures SortedDesc(s[..m]) && DistinctKeys(s[..m])
  {
  }

  /** A key that `most_common(n)` leaves out sits at or past position `n` of
      the sorted items. */
  lemma DroppedPosition(c: Counter, n: nat, k: Key) returns (t: nat)
    requires Valid(c) && k in c.counts && k !in KeysOf(MostCommon(c, n))
    ensures |MostCommon(c, n)| <= t < |SortByCount(Items(c))|
    ensures SortByCount(Items(c))[t] == (k, c.counts[k])
  {
    var sorted := SortByCount(Items(c));
    var r := MostCommon(c, n);
    SortByCountSpec(Items(c));
    ItemsComplete(c, k);
    assert (k, c.counts[k]) in multiset(sorted);
    t :| 0 <= t < |sorted| && sorted[t] == (k, c.counts[k]);
    assert forall j :: 0 <= j < |r| ==> KeysOf(r)[j] == sorted[j].0;
  }

  /** No key left out of `most_common(n)` is counted more than a kept one. */
  lemma MostCommonTop(c: Counter, n: nat)
    requires Valid(c)
    ensures forall k, i :: k in c.counts && k !in KeysOf(MostCommon(c, n)) && 0 <= i < |MostCommon(c, n)| ==>
              c.counts[k] <= MostCommon(c, n)[i].1
  {
    var items := Items(c);
    var sorted := SortByCount(items);
    var r := MostCommon(c, n);
    SortByCountSorted(items);
    forall k, i | k in c.counts && k !in KeysOf(r) && 0 <= i < |r|
      ensures c.counts[k] <= r[i].1
    {
      var t := DroppedPosition(c, n, k);
      assert r[i] == sorted[i];
    }
  }

  /** For every count value, the entries `most_common(n)` keeps with that count
      are a prefix of the counter's entries with that count in insertion order:
      ties keep their first-encountered order, and the ones dropped come last. */
  lemma MostCommonTies(c: Counter, n: nat)
    ensures forall v :: WithCount(MostCommon(c, n), v) <= WithCount(Items(c), v)
  {
    var items := Items(c);
    var sorted := SortByCount(items);
    var m := Min(n, |sorted|);
    assert sorted == sorted[..m] + sorted[m..];
    forall v ensures WithCount(sorted[..m], v) <= WithCount(items, v) {
      SortByCountStable(items, v);
      WithCountConcat(sorted[..m], sorted[m..], v);
    }
  }

  /** Entries with equal counts appear in the order their keys have in `order`. */
  ghost predicate TiesInOrder(s: seq<(Key, nat)>, order: seq<Key>)
  {
    forall i, j :: 0 <= i < j < |s| && s[i].1 == s[j].1 ==>
      IndexOf(order, s[i].0) < IndexOf(order, s[j].0)
  }

  /** Putting in front an entry that precedes every equal-count entry of `u`
      keeps the ties in order. */
  lemma TiesInOrderCons(h: (Key, nat), u: seq<(Key, nat)>, order: seq<Key>)
    requires TiesInOrder(u, order)
    requires forall i :: 0 <= i < |u| && u[i].1 == h.1 ==> IndexOf(order, h.0) < IndexOf(order, u[i].0)
    ensures TiesInOrder([h] + u, order)
  {
  }

  lemma {:induction false} InsertTiesInOrder(x: (Key, nat), t: seq<(Key, nat)>, order: seq<Key>)
    requires TiesInOrder(t, order)
    requires forall i :: 0 <= i < |t| ==> IndexOf(order, x.0) < IndexOf(order, t[i].0)
    ensures TiesInOrder(Insert(x, t), order)
  {
    if |t| > 0 && t[0].1 > x.1 {
      var u := Insert(x, t[1..]);
      InsertTiesInOrder(x, t[1..], order);
      InsertMultiset(x, t[1..]);
      forall j | 0 <= j < |u| && u[j].1 == t[0].1
        ensures IndexOf(order, t[0].0) < IndexOf(order, u[j].0)
      {
        assert u[j] in multiset(u);
        assert u[j] in t[1..];
        var m :| 0 <= m < |t[1..]| && t[1..][m] == u[j];
        assert t[m + 1] == u[j];
      }
      TiesInOrderCons(t[0], u, order);
    } else {
      TiesInOrderCons(x, t, order);
    }
  }

  /** Sorting entries listed in `order` keeps every tie in `order`. */
  lemma {:induction false} SortTiesInOrder(s: seq<(Key, nat)>, order: seq<Key>)
    requires forall i, j :: 0 <= i < j < |s| ==> IndexOf(order, s[i].0) < IndexOf(order, s[j].0)
    ensures TiesInOrder(SortByCount(s), order)
  {
    if |s| > 0 {
      var t := SortByCount(s[1..]);
      SortTiesInOrder(s[1..], order);
      SortByCountSpec(s[1..]);
      forall i | 0 <= i < |t| ensures IndexOf(order, s[0].0) < IndexOf(order, t[i].0) {
        assert t[i] in multiset(s[1..]);
        var j :| 0 <= j < |s[1..]| && s[1..][j] == t[i];
        assert s[j + 1] == t[i];
      }
      InsertTiesInOrder(s[0], t, order);
    }
  }

  /** The stable sort of `c.items()` lists tied keys in insertion order. */
  lemma SortedTiesInOrder(c: Counter)
    requires Valid(c)
    ensures TiesInOrder(SortByCount(Items(c)), c.keys)
  {
    var items := Items(c);
    forall i, j | 0 <= i < j < |items|
      ensures IndexOf(c.keys, items[i].0) < IndexOf(c.keys, items[j].0)
    {
      assert IndexOf(c.keys, c.keys[i]) == i;
      assert IndexOf(c.keys, c.keys[j]) == j;
    }
    SortTiesInOrder(items, c.keys);
  }

  /** `most_common` lists tied keys in insertion order, and a key it drops
      comes after every kept key with the same count. */
  lemma MostCommonTieOrder(c: Counter, n: nat)
    requires Valid(c)
    ensures TiesInOrder(MostCommon(c, n), c.keys)
    ensures forall k, i ::
              (k in c.counts && k !in KeysOf(MostCommon(c, n)) && 0 <= i < |MostCommon(c, n)|
               && c.counts[k] == MostCommon(c, n)[i].1) ==>
              IndexOf(c.keys, MostCommon(c, n)[i].0) < IndexOf(c.keys, k)
  {
    var sorted := SortByCount(Items(c));
    var r := MostCommon(c, n);
    SortedTiesInOrder(c);
    forall i, j | 0 <= i < j < |r| && r[i].1 == r[j].1
      ensures IndexOf(c.keys, r[i].0) < IndexOf(c.keys, r[j].0)
    {
      assert r[i] == sorted[i] && r[j] == sorted[j];
    }
    forall k, i | k in c.counts && k !in KeysOf(r) && 0 <= i < |r| && c.counts[k] == r[i].1
      ensures IndexOf(c.keys, r[i].0) < IndexOf(c.keys, k)
    {
      var t := DroppedPosition(c, n, k);
      assert r[i] == sorted[i];
    }
  }

  /** With `n` at least the number of keys, `most_common(n)` lists every key
      and its counts add up to the counter's total. */
  lemma MostCommonAll(c: Counter, n: nat)
    requires Valid(c) && n >= |c.keys|
    ensures multiset(MostCommon(c, n)) == multiset(Items(c))
    ensures SumCounts(MostCommon(c, n)) == SumCounts(Items(c))
  {
    var sorted := SortByCount(Items(c));
    SortByCountSpec(Items(c));
    assert sorted[..|sorted|] == sorted;
  }
}
