/**
  Nodes and buckets of the append-only cuckoo hash map, as values: a node
  is a (key, value) pair whose key is a designated EMPTY sentinel when the
  slot is free, a bucket is four nodes. This module holds the pure logic of
  one bucket (insert, evict, search) and the view of a set of occupied
  nodes as a map from keys to values.
 */
module Buckets {

  /** Number of nodes in a bucket. */
  const BucketSize: nat := 4

  datatype Option<T> = None | Some(value: T)

  datatype Node<K, V> = Node(key: K, val: V)

  /** What inserting into one bucket did. */
  datatype Outcome = Overwritten | Inserted | Full

  /** A bucket as the map keeps it: occupied slots form a prefix and no key repeats. */
  ghost predicate WellFormed<K, V>(b: seq<Node<K, V>>, empty: K) {
    && |b| == BucketSize
    && (forall i, j :: 0 <= i < j < |b| && b[i].key == empty ==> b[j].key == empty)
    && (forall i, j :: 0 <= i < j < |b| && b[i].key != empty ==> b[i].key != b[j].key)
  }

  /** The first index at or after `from` whose key is k, if there is one. */
  function FindKey<K(==), V>(s: seq<Node<K, V>>, k: K, from: nat): (r: Option<nat>)
    requires from <= |s|
    ensures r.Some? ==> from <= r.value < |s| && s[r.value].key == k
    ensures forall i :: from <= i < |s| && (r.None? || i < r.value) ==> s[i].key != k
    decreases |s| - from
  {
    if from == |s| then None
    else if s[from].key == k then Some(from)
    else FindKey(s, k, from + 1)
  }

  /** The first index at or after `from` whose key is k or EMPTY, or |b| when there is none. */
  function FirstHit<K(==), V>(b: seq<Node<K, V>>, k: K, empty: K, from: nat): (i: nat)
    requires from <= |b|
    ensures from <= i <= |b|
    ensures i < |b| ==> b[i].key == k || b[i].key == empty
    ensures forall j :: from <= j < i ==> b[j].key != k && b[j].key != empty
    decreases |b| - from
  {
    if from == |b| then |b|
    else if b[from].key == k || b[from].key == empty then from
    else FirstHit(b, k, empty, from + 1)
  }

  /**
    Insert (k, v) into one bucket, scanning its slots in order: the first
    slot that holds k gets its value overwritten, the first EMPTY slot met
    before that receives the pair, and a bucket with neither is full.
   */
  function BucketPut<K(==), V>(b: seq<Node<K, V>>, k: K, v: V, empty: K): (r: (Outcome, seq<Node<K, V>>))
    requires |b| == BucketSize
    ensures r.0 == Full <==> forall j :: 0 <= j < |b| ==> b[j].key != k && b[j].key != empty
    ensures r.0 == Full ==> r.1 == b
  {
    var i := FirstHit(b, k, empty, 0);
    if i == |b| then (Full, b)
    else if b[i].key == k then (Overwritten, b[i := Node(k, v)])
    else (Inserted, b[i := Node(k, v)])
  }

  /** A key already in the bucket has its value overwritten where it stands. */
  lemma BucketPutOverwrites<K, V>(b: seq<Node<K, V>>, k: K, v: V, empty: K, i: nat)
    requires WellFormed(b, empty) && k != empty
    requires i < |b| && b[i].key == k
    ensures BucketPut(b, k, v, empty) == (Overwritten, b[i := Node(k, v)])
  {
  }

  /** A missing key goes into the first EMPTY slot. */
  lemma BucketPutInserts<K, V>(b: seq<Node<K, V>>, k: K, v: V, empty: K, i: nat)
    requires WellFormed(b, empty) && k != empty
    requires forall j :: 0 <= j < |b| ==> b[j].key != k
    requires i < |b| && b[i].key == empty && forall j :: 0 <= j < i ==> b[j].key != empty
    ensures BucketPut(b, k, v, empty) == (Inserted, b[i := Node(k, v)])
  {
  }

  /** In a well-formed bucket, a put that does not fail inserts exactly when no slot holds the key. */
  lemma BucketPutInsertsWhenAbsent<K, V>(b: seq<Node<K, V>>, k: K, v: V, empty: K)
    requires WellFormed(b, empty) && k != empty
    requires BucketPut(b, k, v, empty).0 != Full
    ensures BucketPut(b, k, v, empty).0 == Inserted <==> FindKey(b, k, 0).None?
  {
    var i := FirstHit(b, k, empty, 0);
    if FindKey(b, k, 0).Some? {
      var j := FindKey(b, k, 0).value;
      assert i <= j;
    }
  }

  /** The occupied nodes of a bucket or of the overflow array. */
  ghost function Occupied<K, V>(b: seq<Node<K, V>>, empty: K): set<Node<K, V>> {
    set i | 0 <= i < |b| && b[i].key != empty :: b[i]
  }

  /** The keys of a set of nodes. */
  ghost function KeysOf<K, V>(e: set<Node<K, V>>): set<K> {
    set n | n in e :: n.key
  }

  /** The nodes of e whose key is not x. */
  ghost function WithoutKey<K, V>(e: set<Node<K, V>>, x: K): set<Node<K, V>> {
    set n | n in e && n.key != x
  }

  /** No two nodes of e share a key. */
  ghost predicate UniqueKeys<K, V>(e: set<Node<K, V>>) {
    forall n, m :: n in e && m in e && n.key == m.key ==> n == m
  }

  /** A set of nodes with unique keys, read as a map from keys to values. */
  ghost function MapOf<K, V>(e: set<Node<K, V>>): (m: map<K, V>)
    requires UniqueKeys(e)
  {
    map n | n in e :: n.key := n.val
  }

  /** The map of e holds exactly the pairs of e. */
  lemma MapOfHolds<K, V>(e: set<Node<K, V>>)
    requires UniqueKeys(e)
    ensures MapOf(e).Keys == KeysOf(e)
    ensures forall n :: n in e ==> MapOf(e)[n.key] == n.val
  {
    forall k | k in KeysOf(e) ensures k in MapOf(e) {
      var n :| n in e && n.key == k;
    }
  }

  /**
    Dropping the node with key x and adding node a (whose key is x or new)
    is, on the map, a removal of x followed by an update at a's key.
   */
  lemma {:induction false} MapOfReplace<K, V>(e: set<Node<K, V>>, x: K, a: Node<K, V>)
    requires UniqueKeys(e)
    requires a.key == x || a.key !in KeysOf(e)
    ensures UniqueKeys(WithoutKey(e, x) + {a})
    ensures MapOf(WithoutKey(e, x) + {a}) == (MapOf(e) - {x})[a.key := a.val]
  {
    var e' := WithoutKey(e, x) + {a};
    assert UniqueKeys(e') by {
      forall n, m | n in e' && m in e' && n.key == m.key ensures n == m {
      }
    }
    MapOfHolds(e);
    MapOfHolds(e');
    var lhs, rhs := MapOf(e'), (MapOf(e) - {x})[a.key := a.val];
    assert lhs.Keys == rhs.Keys by {
      forall k ensures k in lhs <==> k in rhs {
        if k in rhs && k != a.key {
          var n :| n in e && n.key == k;
          assert n in e';
        }
      }
    }
    forall k | k in lhs ensures lhs[k] == rhs[k] {
      var n :| n in e' && n.key == k;
    }
  }

  /**
    cuckoo on a bucket: the new pair takes slot 0, the occupants of slots
    0..2 move one slot towards the end, and the occupant of slot 3 is
    handed back.
   */
  function Evict<K, V>(b: seq<Node<K, V>>, a: Node<K, V>): (r: (seq<Node<K, V>>, Node<K, V>))
    requires |b| == BucketSize
    ensures |r.0| == BucketSize && r.0[0] == a
    ensures multiset(r.0) + multiset{r.1} == multiset(b) + multiset{a}
  {
    assert b == b[..3] + [b[3]];
    ([a] + b[..3], b[3])
  }

  /**
    Evicting from a full bucket that does not hold the new key keeps the
    bucket well formed; the bucket then holds the new pair instead of the
    node handed back.
   */
  lemma EvictFromFull<K, V>(b: seq<Node<K, V>>, a: Node<K, V>, empty: K)
    requires WellFormed(b, empty)
    requires forall j :: 0 <= j < |b| ==> b[j].key != a.key && b[j].key != empty
    requires a.key != empty
    ensures WellFormed(Evict(b, a).0, empty)
    ensures Evict(b, a).1 in Occupied(b, empty)
    ensures Occupied(Evict(b, a).0, empty) == WithoutKey(Occupied(b, empty), b[3].key) + {a}
  {
    var nb := Evict(b, a).0;
    assert nb == [a, b[0], b[1], b[2]];
    assert Occupied(b, empty) == {b[0], b[1], b[2], b[3]};
    assert Occupied(nb, empty) == {a, b[0], b[1], b[2]};
  }

  /** A successful insert replaces the node with key k, if any, by (k, v) and keeps the bucket well formed. */
  lemma BucketPutEffect<K, V>(b: seq<Node<K, V>>, k: K, v: V, empty: K)
    requires WellFormed(b, empty) && k != empty
    requires BucketPut(b, k, v, empty).0 != Full
    ensures WellFormed(BucketPut(b, k, v, empty).1, empty)
    ensures Occupied(BucketPut(b, k, v, empty).1, empty) == WithoutKey(Occupied(b, empty), k) + {Node(k, v)}
  {
    var i := FirstHit(b, k, empty, 0);
    var nb := BucketPut(b, k, v, empty).1;
    assert nb == b[i := Node(k, v)];
    forall n ensures n in Occupied(nb, empty) <==> n in WithoutKey(Occupied(b, empty), k) + {Node(k, v)} {
      if n in Occupied(nb, empty) && n != Node(k, v) {
        var j :| 0 <= j < |nb| && nb[j].key != empty && nb[j] == n;
        assert j != i && n == b[j];
        assert n.key != k;
        assert n in Occupied(b, empty);
      }
      if n in WithoutKey(Occupied(b, empty), k) {
        var j :| 0 <= j < |b| && b[j].key != empty && b[j] == n;
        assert j != i;
        assert nb[j] == n;
      }
      if n == Node(k, v) {
        assert nb[i] == n;
      }
    }
  }

  /** The occupied nodes of a table of buckets. */
  ghost function Entries<K, V>(t: seq<seq<Node<K, V>>>, empty: K): set<Node<K, V>> {
    set b, s | 0 <= b < |t| && 0 <= s < |t[b]| && t[b][s].key != empty :: t[b][s]
  }

  /** The occupied nodes of every bucket of t except bucket j. */
  ghost function Others<K, V>(t: seq<seq<Node<K, V>>>, j: nat, empty: K): set<Node<K, V>> {
    set b, s | 0 <= b < |t| && b != j && 0 <= s < |t[b]| && t[b][s].key != empty :: t[b][s]
  }

  /** A table's entries are those of bucket j plus those of the other buckets, before and after bucket j is replaced. */
  lemma TableSplit<K, V>(t: seq<seq<Node<K, V>>>, j: nat, nb: seq<Node<K, V>>, empty: K)
    requires j < |t|
    ensures Entries(t, empty) == Others(t, j, empty) + Occupied(t[j], empty)
    ensures Entries(t[j := nb], empty) == Others(t, j, empty) + Occupied(nb, empty)
  {
    var t' := t[j := nb];
    assert Others(t', j, empty) == Others(t, j, empty) by {
      forall n | n in Others(t, j, empty) ensures n in Others(t', j, empty) {
        var b, s :| 0 <= b < |t| && b != j && 0 <= s < |t[b]| && t[b][s].key != empty && t[b][s] == n;
        assert t'[b][s] == n;
      }
    }
    forall n | n in Entries(t', empty) ensures n in Others(t', j, empty) + Occupied(nb, empty) {
      var b, s :| 0 <= b < |t'| && 0 <= s < |t'[b]| && t'[b][s].key != empty && t'[b][s] == n;
    }
    forall n | n in Others(t', j, empty) + Occupied(nb, empty) ensures n in Entries(t', empty) {
      if n in Occupied(nb, empty) {
        var s :| 0 <= s < |nb| && nb[s].key != empty && nb[s] == n;
        assert t'[j][s] == n;
      }
    }
    forall n | n in Entries(t, empty) ensures n in Others(t, j, empty) + Occupied(t[j], empty) {
      var b, s :| 0 <= b < |t| && 0 <= s < |t[b]| && t[b][s].key != empty && t[b][s] == n;
    }
    forall n | n in Occupied(t[j], empty) ensures n in Entries(t, empty) {
      var s :| 0 <= s < |t[j]| && t[j][s].key != empty && t[j][s] == n;
    }
  }

  /** Replacing, inside one part of a set, the node with key x by a, when the other part lacks x. */
  lemma ReplaceInPart<K, V>(others: set<Node<K, V>>, part: set<Node<K, V>>, x: K, a: Node<K, V>)
    requires WithoutKey(others, x) == others
    ensures others + (WithoutKey(part, x) + {a}) == WithoutKey(others + part, x) + {a}
  {
  }

  /** The (key, value) pairs of a map, as nodes. */
  ghost function Pairs<K, V>(m: map<K, V>): set<Node<K, V>> {
    set x | x in m :: Node(x, m[x])
  }

  /** Updating a map at c adds at most the pair (c, cv) to its pairs. */
  lemma PairsUpdate<K, V>(m: map<K, V>, c: K, cv: V)
    ensures Pairs(m[c := cv]) <= Pairs(m) + {Node(c, cv)}
    ensures Node(c, cv) in Pairs(m[c := cv])
  {
    assert c in m[c := cv];
    forall n | n in Pairs(m[c := cv]) ensures n in Pairs(m) + {Node(c, cv)} {
      var x :| x in m[c := cv] && n == Node(x, m[c := cv][x]);
      if x != c {
        assert n == Node(x, m[x]);
      }
    }
  }

  /**
    Replacing the pair of p by (c, cv) hands back p's pair: the new pairs
    and the handed-back one are among the old pairs and (c, cv).
   */
  lemma PairsEvict<K, V>(m: map<K, V>, p: K, c: K, cv: V)
    requires p in m
    ensures Pairs((m - {p})[c := cv]) + {Node(p, m[p])} <= Pairs(m) + {Node(c, cv)}
  {
    var m' := (m - {p})[c := cv];
    forall n | n in Pairs(m') ensures n in Pairs(m) + {Node(c, cv)} {
      var x :| x in m' && n == Node(x, m'[x]);
      if x != c {
        assert n == Node(x, m[x]);
      }
    }
  }

  /** The keys held by the overflow array. */
  ghost function ArrayKeys<K, V>(a: seq<Node<K, V>>, empty: K): set<K> {
    set i | 0 <= i < |a| && a[i].key != empty :: a[i].key
  }

  /** The overflow array holds each key at most once. */
  ghost predicate ArrayOk<K, V>(a: seq<Node<K, V>>, empty: K) {
    forall i, j :: 0 <= i < j < |a| && a[i].key != empty ==> a[i].key != a[j].key
  }

  /** Overwriting the value of a key the array holds keeps its keys, and the key is then found there. */
  lemma ArrayOverwrite<K, V>(a: seq<Node<K, V>>, i: nat, n: Node<K, V>, empty: K)
    requires ArrayOk(a, empty) && i < |a| && a[i].key == n.key && n.key != empty
    ensures ArrayOk(a[i := n], empty)
    ensures ArrayKeys(a[i := n], empty) == ArrayKeys(a, empty)
    ensures n.key in ArrayKeys(a, empty)
    ensures FindKey(a[i := n], n.key, 0) == Some(i)
    ensures Occupied(a[i := n], empty) <= Occupied(a, empty) + {n}
  {
    var a' := a[i := n];
    forall m | m in Occupied(a', empty) ensures m in Occupied(a, empty) + {n} {
      var j :| 0 <= j < |a'| && a'[j].key != empty && a'[j] == m;
      if j != i {
        assert a[j] == m;
      }
    }
    forall x | x in ArrayKeys(a', empty) ensures x in ArrayKeys(a, empty) {
      var j :| 0 <= j < |a'| && a'[j].key != empty && a'[j].key == x;
      assert a[j].key == x;
    }
    forall x | x in ArrayKeys(a, empty) ensures x in ArrayKeys(a', empty) {
      var j :| 0 <= j < |a| && a[j].key != empty && a[j].key == x;
      assert a'[j].key == x;
    }
    assert a[i].key in ArrayKeys(a, empty);
  }

  /** A key the array does not hold, stored at a new head slot, is found at index 0. */
  lemma ArrayPrepend<K, V>(a: seq<Node<K, V>>, n: Node<K, V>, empty: K)
    requires ArrayOk(a, empty) && n.key != empty
    requires forall j :: 0 <= j < |a| ==> a[j].key != n.key
    ensures ArrayOk([n] + a, empty)
    ensures ArrayKeys([n] + a, empty) == ArrayKeys(a, empty) + {n.key}
    ensures FindKey([n] + a, n.key, 0) == Some(0)
    ensures Occupied([n] + a, empty) == Occupied(a, empty) + {n}
  {
    var a' := [n] + a;
    forall m | m in Occupied(a', empty) ensures m in Occupied(a, empty) + {n} {
      var j :| 0 <= j < |a'| && a'[j].key != empty && a'[j] == m;
      if j > 0 {
        assert a[j - 1] == m;
      }
    }
    forall m | m in Occupied(a, empty) ensures m in Occupied(a', empty) {
      var j :| 0 <= j < |a| && a[j].key != empty && a[j] == m;
      assert a'[j + 1] == m;
    }
    assert a'[0] == n;
    forall x | x in ArrayKeys(a', empty) ensures x in ArrayKeys(a, empty) + {n.key} {
      var j :| 0 <= j < |a'| && a'[j].key != empty && a'[j].key == x;
      if j > 0 {
        assert a[j - 1].key == x;
      }
    }
    forall x | x in ArrayKeys(a, empty) ensures x in ArrayKeys(a', empty) {
      var j :| 0 <= j < |a| && a[j].key != empty && a[j].key == x;
      assert a'[j + 1].key == x;
    }
    assert a'[0].key == n.key;
  }
}
