/**
 The composite document-order key of an invisible-level node and the stable
 sort the engine applies to it. The source sorts with the comparator
 `a.position - b.position || a.section_position - b.section_position ||
 a.sc_position - b.sc_position`, which is lexicographic order on the triple,
 and JavaScript's `Array.prototype.sort` is stable.
 */
module Ordering {
  import opened Seqs

  /** (own position, enclosing section's position, section container's position) */
  datatype Key = Key(own: int, section: int, container: int)

  /** Lexicographic order on keys: the comparator returns a value <= 0. */
  predicate KeyLe(a: Key, b: Key)
  {
    a.own < b.own
    || (a.own == b.own && (a.section < b.section
                           || (a.section == b.section && a.container <= b.container)))
  }

  lemma KeyLeTotalOrder(a: Key, b: Key, c: Key)
    ensures KeyLe(a, a)
    ensures KeyLe(a, b) || KeyLe(b, a)
    ensures KeyLe(a, b) && KeyLe(b, a) ==> a == b
    ensures KeyLe(a, b) && KeyLe(b, c) ==> KeyLe(a, c)
  {
  }

  /** A store index carrying the key it is sorted by. */
  datatype Tagged = Tagged(index: nat, key: Key)

  predicate Sorted(s: seq<Tagged>)
  {
    forall i, j | 0 <= i < j < |s| :: KeyLe(s[i].key, s[j].key)
  }

  /** Inserts `x` in front of every element whose key is not smaller. */
  function Insert(x: Tagged, s: seq<Tagged>): (r: seq<Tagged>)
    requires Sorted(s)
    ensures Sorted(r)
    ensures multiset(r) == multiset(s) + multiset{x}
    ensures |r| == |s| + 1
  {
    if |s| == 0 || KeyLe(x.key, s[0].key) then
      assert forall j | 0 <= j < |s| :: KeyLe(x.key, s[j].key) by {
        if |s| > 0 {
          forall j | 0 <= j < |s| ensures KeyLe(x.key, s[j].key) {
            KeyLeTotalOrder(x.key, s[0].key, s[j].key);
          }
        }
      }
      [x] + s
    else
      var rest := Insert(x, s[1..]);
      assert s == [s[0]] + s[1..];
      assert forall j | 0 <= j < |rest| :: KeyLe(s[0].key, rest[j].key) by {
        forall j | 0 <= j < |rest| ensures KeyLe(s[0].key, rest[j].key) {
          assert rest[j] in multiset(rest);
          KeyLeTotalOrder(s[0].key, x.key, x.key);
        }
      }
      [s[0]] + rest
  }

  /** Stable insertion sort by key. */
  function Sort(s: seq<Tagged>): (r: seq<Tagged>)
    ensures Sorted(r)
    ensures multiset(r) == multiset(s)
    ensures |r| == |s|
  {
    if |s| == 0 then []
    else
      assert s == [s[0]] + s[1..];
      Insert(s[0], Sort(s[1..]))
  }

  /** The elements of `s` whose key is `k`, in order. */
  function WithKey(s: seq<Tagged>, k: Key): seq<Tagged>
  {
    if |s| == 0 then []
    else (if s[0].key == k then [s[0]] else []) + WithKey(s[1..], k)
  }

  lemma {:induction false} InsertStable(x: Tagged, s: seq<Tagged>, k: Key)
    requires Sorted(s)
    ensures WithKey(Insert(x, s), k) == WithKey([x] + s, k)
  {
    if |s| == 0 || KeyLe(x.key, s[0].key) {
    } else {
      // x goes after s[0] and s[0].key < x.key, so s[0] and x never share k
      InsertStable(x, s[1..], k);
      var a := if s[0].key == k then [s[0]] else [];
      var b := if x.key == k then [x] else [];
      assert Insert(x, s) == [s[0]] + Insert(x, s[1..]);
      assert ([s[0]] + Insert(x, s[1..]))[1..] == Insert(x, s[1..]);
      assert WithKey(Insert(x, s), k) == a + WithKey([x] + s[1..], k);
      assert ([x] + s[1..])[1..] == s[1..];
      assert WithKey([x] + s[1..], k) == b + WithKey(s[1..], k);
      assert ([x] + s)[1..] == s;
      assert WithKey([x] + s, k) == b + WithKey(s, k);
      assert WithKey(s, k) == a + WithKey(s[1..], k);
      KeyLeTotalOrder(x.key, s[0].key, s[0].key);
      assert a == [] || b == [];
    }
  }

  /** Sorting is stable: elements with equal keys keep their relative order. */
  lemma {:induction false} SortStable(s: seq<Tagged>, k: Key)
    ensures WithKey(Sort(s), k) == WithKey(s, k)
  {
    if |s| > 0 {
      SortStable(s[1..], k);
      InsertStable(s[0], Sort(s[1..]), k);
      assert ([s[0]] + Sort(s[1..]))[1..] == Sort(s[1..]);
      assert ([s[0]] + s[1..]) == s;
    }
  }

  /** The store indices of a tagged sequence, in order. */
  function Indexes(s: seq<Tagged>): (r: seq<nat>)
    ensures |r| == |s|
    ensures forall j | 0 <= j < |s| :: r[j] == s[j].index
  {
    seq(|s|, j requires 0 <= j < |s| => s[j].index)
  }

  lemma {:induction false} InsertIndexes(x: Tagged, s: seq<Tagged>)
    requires Sorted(s)
    ensures multiset(Indexes(Insert(x, s))) == multiset(Indexes(s)) + multiset{x.index}
  {
    if |s| == 0 || KeyLe(x.key, s[0].key) {
      assert Indexes([x] + s) == [x.index] + Indexes(s);
    } else {
      InsertIndexes(x, s[1..]);
      assert Indexes([s[0]] + Insert(x, s[1..])) == [s[0].index] + Indexes(Insert(x, s[1..]));
      assert Indexes(s) == [s[0].index] + Indexes(s[1..]);
    }
  }

  lemma IndexesSplit(s: seq<Tagged>)
    requires |s| > 0
    ensures Indexes(s) == [s[0].index] + Indexes(s[1..])
  {
  }

  /** Sorting permutes the carried store indices. */
  lemma {:induction false} SortIndexes(s: seq<Tagged>)
    ensures multiset(Indexes(Sort(s))) == multiset(Indexes(s))
  {
    if |s| > 0 {
      var t := Sort(s[1..]);
      SortIndexes(s[1..]);
      InsertIndexes(s[0], t);
      IndexesSplit(s);
      calc {
        multiset(Indexes(Sort(s)));
        multiset(Indexes(Insert(s[0], t)));
        multiset(Indexes(t)) + multiset{s[0].index};
        multiset(Indexes(s[1..])) + multiset{s[0].index};
        multiset([s[0].index] + Indexes(s[1..]));
      }
    }
  }

  /** The test "carries key `k`", as a value `Filter` can take. */
  function KeyIs(k: Key): Tagged -> bool
  {
    (t: Tagged) => t.key == k
  }

  lemma {:induction false} WithKeyIsFilter(s: seq<Tagged>, k: Key)
    ensures WithKey(s, k) == Filter(s, KeyIs(k))
    decreases |s|
  {
    if |s| > 0 {
      var p := KeyIs(k);
      WithKeyIsFilter(s[1..], k);
      assert [s[0]] + s[1..] == s;
      FilterConcat([s[0]], s[1..], p);
      FilterSingle(s[0], p);
    }
  }

  /** Two elements of `s` with key `k`, at `a < b`, sit in that order in `WithKey(s, k)`. */
  lemma WithKeyPositions(s: seq<Tagged>, k: Key, a: nat, b: nat)
    requires a < b < |s| && s[a].key == k && s[b].key == k
    ensures exists a', b' :: 0 <= a' < b' < |WithKey(s, k)| && WithKey(s, k)[a'] == s[a] && WithKey(s, k)[b'] == s[b]
  {
    var p := KeyIs(k);
    WithKeyIsFilter(s, k);
    FilterIsPick(s, p);
    var idx := Indices(s, p);
    var w := WithKey(s, k);
    assert w == Pick(s, idx);
    assert p(s[a]) && p(s[b]);
    assert a in idx && b in idx;
    var a' :| 0 <= a' < |idx| && idx[a'] == a;
    var b' :| 0 <= b' < |idx| && idx[b'] == b;
    IncreasingPositions(idx, a', b');
    assert w[a'] == s[a] && w[b'] == s[b];
  }

  /** Stability in terms of store indices: when the input carries increasing
      store indices, elements with equal keys leave the sort with increasing
      store indices. */
  lemma SortTiesByIndex(s: seq<Tagged>)
    requires Increasing(Indexes(s))
    ensures var r := Sort(s);
            forall a, b | 0 <= a < b < |r| && r[a].key == r[b].key :: r[a].index < r[b].index
  {
    var r := Sort(s);
    forall a, b | 0 <= a < b < |r| && r[a].key == r[b].key
      ensures r[a].index < r[b].index
    {
      SortTie(s, r, a, b);
    }
  }

  lemma SortTie(s: seq<Tagged>, r: seq<Tagged>, a: nat, b: nat)
    requires Increasing(Indexes(s)) && r == Sort(s)
    requires a < b < |r| && r[a].key == r[b].key
    ensures r[a].index < r[b].index
  {
    var k := r[a].key;
    SortStable(s, k);
    WithKeyPositions(r, k, a, b);
    var w := WithKey(s, k);
    var a', b' :| 0 <= a' < b' < |w| && w[a'] == r[a] && w[b'] == r[b];
    WithKeyIsFilter(s, k);
    FilterIsPick(s, KeyIs(k));
    var idx := Indices(s, KeyIs(k));
    assert w[a'] == s[idx[a']] && w[b'] == s[idx[b']];
    assert Indexes(s)[idx[a']] < Indexes(s)[idx[b']];
  }
}
