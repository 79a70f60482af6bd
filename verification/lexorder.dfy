/**
 The order Rust's `Ord` gives byte slices (lexicographic by unsigned byte, a
 proper prefix first) and the dictionary key sort bencode encoding performs
 with it (`sort_key_value_entries`).
 */
module LexOrder {
  import opened Bytes

  /** `a <= b` for `&[u8]`. */
  predicate LexLe(a: seq<u8>, b: seq<u8>) {
    |a| == 0 || (|b| > 0 && (a[0] < b[0] || (a[0] == b[0] && LexLe(a[1..], b[1..]))))
  }

  /** The byte-wise order is reflexive. */
  lemma {:induction false} LexReflexive(a: seq<u8>)
    ensures LexLe(a, a)
  {
    if |a| > 0 { LexReflexive(a[1..]); }
  }

  /** The byte-wise order is antisymmetric. */
  lemma {:induction false} LexAntisymmetric(a: seq<u8>, b: seq<u8>)
    requires LexLe(a, b) && LexLe(b, a)
    ensures a == b
  {
    if |a| > 0 && |b| > 0 {
      LexAntisymmetric(a[1..], b[1..]);
      assert a == [a[0]] + a[1..] && b == [b[0]] + b[1..];
    }
  }

  /** The byte-wise order is transitive. */
  lemma {:induction false} LexTransitive(a: seq<u8>, b: seq<u8>, c: seq<u8>)
    requires LexLe(a, b) && LexLe(b, c)
    ensures LexLe(a, c)
  {
    if |a| > 0 && |b| > 0 && |c| > 0 && a[0] == b[0] == c[0] {
      LexTransitive(a[1..], b[1..], c[1..]);
    }
  }

  /** Any two byte strings are ordered one way or the other. */
  lemma {:induction false} LexTotal(a: seq<u8>, b: seq<u8>)
    ensures LexLe(a, b) || LexLe(b, a)
  {
    if |a| > 0 && |b| > 0 && a[0] == b[0] {
      LexTotal(a[1..], b[1..]);
    }
  }

  /** `LexLe` is a total order on byte strings. */
  lemma LexIsTotalOrder()
    ensures forall a :: LexLe(a, a)
    ensures forall a, b :: LexLe(a, b) && LexLe(b, a) ==> a == b
    ensures forall a, b, c :: LexLe(a, b) && LexLe(b, c) ==> LexLe(a, c)
    ensures forall a, b :: LexLe(a, b) || LexLe(b, a)
  {
    forall a { LexReflexive(a); }
    forall a, b | LexLe(a, b) && LexLe(b, a) { LexAntisymmetric(a, b); }
    forall a, b, c | LexLe(a, b) && LexLe(b, c) { LexTransitive(a, b, c); }
    forall a, b { LexTotal(a, b); }
  }

  /** `k` is the least member of `s`. */
  ghost predicate IsLeast(k: seq<u8>, s: set<seq<u8>>) {
    k in s && forall j :: j in s ==> LexLe(k, j)
  }

  /** A non-empty finite set of byte strings has a least member. */
  lemma {:induction false} LeastExists(s: set<seq<u8>>)
    requires s != {}
    ensures exists k :: IsLeast(k, s)
    decreases |s|
  {
    var x :| x in s;
    if s != {x} {
      var rest := s - {x};
      LeastExists(rest);
      var m :| IsLeast(m, rest);
      LexTotal(x, m);
      if LexLe(x, m) {
        forall j | j in s ensures LexLe(x, j) {
          if j != x { LexTransitive(x, m, j); } else { LexReflexive(x); }
        }
        assert IsLeast(x, s);
      } else {
        LexReflexive(m);
        assert IsLeast(m, s);
      }
    } else {
      LexReflexive(x);
      assert IsLeast(x, s);
    }
  }

  /** The smallest key of a non-empty key set. */
  function LeastKey(s: set<seq<u8>>): (k: seq<u8>)
    requires s != {}
    ensures k in s && forall j :: j in s ==> LexLe(k, j)
  {
    LeastExists(s);
    LexIsTotalOrder();
    var k :| k in s && forall j :: j in s ==> LexLe(k, j);
    k
  }

  /** Keys strictly ascending: sorted, and therefore without repeats. */
  ghost predicate StrictlyAscending<V>(ps: seq<(seq<u8>, V)>) {
    forall i, j :: 0 <= i < j < |ps| ==> LexLe(ps[i].0, ps[j].0) && ps[i].0 != ps[j].0
  }

  /** The entries are in ascending key order. */
  ghost predicate SortedByKey<V>(ps: seq<(seq<u8>, V)>) {
    forall i, j :: 0 <= i < j < |ps| ==> LexLe(ps[i].0, ps[j].0)
  }

  /** The keys a listing of entries mentions. */
  ghost function KeysOf<V>(ps: seq<(seq<u8>, V)>): set<seq<u8>> {
    if |ps| == 0 then {} else {ps[0].0} + KeysOf(ps[1..])
  }

  /** A key occurs in the listing exactly when some entry carries it. */
  lemma {:induction false} KeysOfMembers<V>(ps: seq<(seq<u8>, V)>, k: seq<u8>)
    ensures k in KeysOf(ps) <==> exists i :: 0 <= i < |ps| && ps[i].0 == k
  {
    if |ps| > 0 {
      KeysOfMembers(ps[1..], k);
      if k in KeysOf(ps[1..]) {
        var i :| 0 <= i < |ps[1..]| && ps[1..][i].0 == k;
        assert ps[i + 1].0 == k;
      }
      if exists i :: 0 <= i < |ps| && ps[i].0 == k {
        var i :| 0 <= i < |ps| && ps[i].0 == k;
        if i > 0 { assert ps[1..][i - 1].0 == k; }
      }
    }
  }

  /** `ps` lists the entries of `m`, each exactly once, in some order. */
  ghost predicate Enumerates<V>(ps: seq<(seq<u8>, V)>, m: map<seq<u8>, V>) {
    && (forall i :: 0 <= i < |ps| ==> ps[i].0 in m && m[ps[i].0] == ps[i].1)
    && KeysOf(ps) == m.Keys
    && (forall i, j :: 0 <= i < j < |ps| ==> ps[i].0 != ps[j].0)
  }

  /**
   The entries of `m` in ascending key order: the order in which bencode
   writes a dictionary. Defined by repeatedly taking the least key.
   */
  function SortedEntries<V>(m: map<seq<u8>, V>): (r: seq<(seq<u8>, V)>)
    ensures Enumerates(r, m)
    ensures StrictlyAscending(r)
    decreases |m|
  {
    if |m| == 0 then []
    else
      var k := LeastKey(m.Keys);
      var rest := m - {k};
      assert |rest| < |m| by { assert rest.Keys == m.Keys - {k}; }
      var tail := SortedEntries(rest);
      LeastFirst(k, tail, m);
      [(k, m[k])] + tail
  }

  /** The least key, followed by an ascending listing of the other entries, lists `m` ascending. */
  lemma LeastFirst<V>(k: seq<u8>, tail: seq<(seq<u8>, V)>, m: map<seq<u8>, V>)
    requires k in m && forall j :: j in m ==> LexLe(k, j)
    requires Enumerates(tail, m - {k}) && StrictlyAscending(tail)
    ensures Enumerates([(k, m[k])] + tail, m)
    ensures StrictlyAscending([(k, m[k])] + tail)
  {
    EnumeratesCons(k, m[k], tail, m);
    var r := [(k, m[k])] + tail;
    forall i, j | 0 <= i < j < |r| ensures LexLe(r[i].0, r[j].0) && r[i].0 != r[j].0 {
      assert r[j] == tail[j - 1];
      if i > 0 {
        assert r[i] == tail[i - 1];
      }
    }
  }

  /** Prepending a missing entry to a listing of the rest of the map lists the whole map. */
  lemma EnumeratesCons<V>(k: seq<u8>, v: V, tail: seq<(seq<u8>, V)>, m: map<seq<u8>, V>)
    requires k in m && m[k] == v
    requires Enumerates(tail, m - {k})
    ensures Enumerates([(k, v)] + tail, m)
  {
    var r := [(k, v)] + tail;
    assert r[1..] == tail;
    assert forall i :: 0 < i < |r| ==> r[i] == tail[i - 1];
  }

  /** Dropping the first entry of a listing lists the map without that key. */
  lemma EnumeratesTail<V>(ps: seq<(seq<u8>, V)>, m: map<seq<u8>, V>)
    requires Enumerates(ps, m) && |ps| > 0
    ensures ps[0].0 in m && m[ps[0].0] == ps[0].1
    ensures Enumerates(ps[1..], m - {ps[0].0})
  {
    KeysOfMembers(ps[1..], ps[0].0);
  }

  /** Insert `p` before the first entry whose key is greater than `p`'s. */
  function InsertByKey<V>(p: (seq<u8>, V), ps: seq<(seq<u8>, V)>): (r: seq<(seq<u8>, V)>)
    requires SortedByKey(ps)
    ensures SortedByKey(r)
    ensures multiset(r) == multiset(ps) + multiset{p}
    ensures |r| == |ps| + 1
  {
    if |ps| == 0 then [p]
    else if LexLe(p.0, ps[0].0) then
      InsertFront(p, ps);
      [p] + ps
    else
      SortedTail(ps);
      var tail := InsertByKey(p, ps[1..]);
      InsertBehindHead(p, ps, tail);
      [ps[0]] + tail
  }

  /** The tail of a sorted listing is sorted. */
  lemma SortedTail<V>(ps: seq<(seq<u8>, V)>)
    requires SortedByKey(ps) && |ps| > 0
    ensures SortedByKey(ps[1..])
  {
    forall i, j | 0 <= i < j < |ps[1..]| ensures LexLe(ps[1..][i].0, ps[1..][j].0) {
      assert ps[1..][i] == ps[i + 1] && ps[1..][j] == ps[j + 1];
    }
  }

  /** An entry whose key is at most the head's can go in front. */
  lemma InsertFront<V>(p: (seq<u8>, V), ps: seq<(seq<u8>, V)>)
    requires SortedByKey(ps) && |ps| > 0 && LexLe(p.0, ps[0].0)
    ensures SortedByKey([p] + ps)
  {
    var r := [p] + ps;
    forall i, j | 0 <= i < j < |r| ensures LexLe(r[i].0, r[j].0) {
      assert r[j] == ps[j - 1];
      if i == 0 {
        if j > 1 { LexTransitive(p.0, ps[0].0, ps[j - 1].0); }
      } else {
        assert r[i] == ps[i - 1];
      }
    }
  }

  /** An entry whose key is above the head's goes into the tail, and the head stays first. */
  lemma InsertBehindHead<V>(p: (seq<u8>, V), ps: seq<(seq<u8>, V)>, tail: seq<(seq<u8>, V)>)
    requires SortedByKey(ps) && |ps| > 0 && !LexLe(p.0, ps[0].0)
    requires SortedByKey(tail) && multiset(tail) == multiset(ps[1..]) + multiset{p}
    ensures SortedByKey([ps[0]] + tail)
    ensures multiset([ps[0]] + tail) == multiset(ps) + multiset{p}
  {
    LexTotal(p.0, ps[0].0);
    var r := [ps[0]] + tail;
    forall i, j | 0 <= i < j < |r| ensures LexLe(r[i].0, r[j].0) {
      assert r[j] == tail[j - 1];
      if i == 0 {
        assert tail[j - 1] in multiset(tail);
        if tail[j - 1] != p {
          assert tail[j - 1] in multiset(ps[1..]);
          var k :| 0 <= k < |ps[1..]| && ps[1..][k] == tail[j - 1];
          assert ps[k + 1] == tail[j - 1];
        }
      } else {
        assert r[i] == tail[i - 1];
      }
    }
    assert ps == [ps[0]] + ps[1..];
  }

  /**
   `sort_key_value_entries`: sort `(key, value)` pairs ascending by raw key
   bytes. Modelled as an insertion sort.
   */
  function SortKeyValueEntries<V>(ps: seq<(seq<u8>, V)>): (r: seq<(seq<u8>, V)>)
    ensures SortedByKey(r)
    ensures multiset(r) == multiset(ps)
  {
    if |ps| == 0 then []
    else
      assert ps == [ps[0]] + ps[1..];
      InsertByKey(ps[0], SortKeyValueEntries(ps[1..]))
  }

  /** Two key-ascending listings of the same map are the same listing. */
  lemma {:induction false} AscendingEnumerationUnique<V>(a: seq<(seq<u8>, V)>, b: seq<(seq<u8>, V)>, m: map<seq<u8>, V>)
    requires StrictlyAscending(a) && Enumerates(a, m)
    requires StrictlyAscending(b) && Enumerates(b, m)
    ensures a == b
    decreases |a|
  {
    if |a| > 0 {
      assert a[0].0 in m;
      KeysOfMembers(b, a[0].0);
      KeysOfMembers(a, b[0].0);
      var j :| 0 <= j < |b| && b[j].0 == a[0].0;
      var i :| 0 <= i < |a| && a[i].0 == b[0].0;
      if i > 0 && j > 0 {
        LexAntisymmetric(a[0].0, b[0].0);
      }
      var k := a[0].0;
      assert b[0].0 == k;
      var rest := m - {k};
      EnumeratesTail(a, m);
      EnumeratesTail(b, m);
      AscendingEnumerationUnique(a[1..], b[1..], rest);
      assert a == [a[0]] + a[1..] && b == [b[0]] + b[1..];
    }
  }

  /** With distinct keys, each entry occurs at most once. */
  lemma {:induction false} DistinctKeysCountOnce<V>(ps: seq<(seq<u8>, V)>, p: (seq<u8>, V))
    requires forall i, j :: 0 <= i < j < |ps| ==> ps[i].0 != ps[j].0
    ensures multiset(ps)[p] <= 1
  {
    if |ps| > 0 {
      assert ps == [ps[0]] + ps[1..];
      DistinctKeysCountOnce(ps[1..], p);
      if p == ps[0] {
        assert p !in ps[1..];
      }
    }
  }

  /** An element at two positions occurs at least twice. */
  lemma RepeatCountsTwice<T>(s: seq<T>, i: nat, j: nat)
    requires i < j < |s| && s[i] == s[j]
    ensures multiset(s)[s[i]] >= 2
  {
    assert s == s[..j] + [s[j]] + s[j + 1..];
    assert s[i] in s[..j];
  }

  /** A sub-multiset of entries mentions no key the whole does not. */
  lemma {:induction false} KeysOfSubset<V>(a: seq<(seq<u8>, V)>, b: seq<(seq<u8>, V)>)
    requires multiset(a) <= multiset(b)
    ensures KeysOf(a) <= KeysOf(b)
  {
    forall k | k in KeysOf(a) ensures k in KeysOf(b) {
      KeysOfMembers(a, k);
      KeysOfMembers(b, k);
      var i :| 0 <= i < |a| && a[i].0 == k;
      assert a[i] in multiset(b);
      var j :| 0 <= j < |b| && b[j] == a[i];
    }
  }

  /** A permutation of a listing of `m` is again a listing of `m`. */
  lemma PermutationEnumerates<V>(r: seq<(seq<u8>, V)>, ps: seq<(seq<u8>, V)>, m: map<seq<u8>, V>)
    requires Enumerates(ps, m) && multiset(r) == multiset(ps)
    ensures Enumerates(r, m)
  {
    forall i | 0 <= i < |r| ensures r[i].0 in m && m[r[i].0] == r[i].1 {
      assert r[i] in multiset(ps);
      var j :| 0 <= j < |ps| && ps[j] == r[i];
    }
    KeysOfSubset(r, ps);
    KeysOfSubset(ps, r);
    forall i, j | 0 <= i < j < |r| ensures r[i].0 != r[j].0 {
      if r[i].0 == r[j].0 {
        assert r[i] == r[j];
        RepeatCountsTwice(r, i, j);
        DistinctKeysCountOnce(ps, r[i]);
      }
    }
  }

  /**
   Sorting any listing of a map's entries yields the map's key-ascending
   listing: the dictionary encoding does not depend on iteration order.
   */
  lemma SortIsCanonical<V>(ps: seq<(seq<u8>, V)>, m: map<seq<u8>, V>)
    requires Enumerates(ps, m)
    ensures SortKeyValueEntries(ps) == SortedEntries(m)
  {
    var r := SortKeyValueEntries(ps);
    PermutationEnumerates(r, ps, m);
    AscendingEnumerationUnique(r, SortedEntries(m), m);
  }
}
