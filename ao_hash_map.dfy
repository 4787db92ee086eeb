/**
  The append-only two-way cuckoo hash map `e::ao_hash_map`: two tables of
  four-slot buckets, addressed by two index functions of a 64-bit key hash,
  plus an overflow array for pairs that could not be placed by bounded
  eviction. It is filled by one writer through Put and then read through
  Get and Mod.
 */
module AoHash {
  import opened Buckets

  /** Number of eviction attempts before Put falls back to the overflow array. */
  const MaxAttempts: nat := 128
  /** From this attempt on, a load factor above 3/4 also triggers a resize. */
  const LateAttempts: nat := 64
  /** Table size chosen by the first resize. */
  const InitialTableSize: nat := 8

  /** The two tables, each addressed by its own index function. */
  datatype Which = Primary | Secondary

  /** Where a key was found: a slot of a bucket of one table, or an index of the overflow array. */
  datatype Loc = InTable(which: Which, bucket: nat, slot: nat) | InArray(index: nat)

  ghost predicate IsPow2(n: nat) {
    if n <= 1 then n == 1 else n % 2 == 0 && IsPow2(n / 2)
  }

  /** Arithmetic step of ModUnique, stated apart to keep nonlinear facts out of its context. */
  lemma MulAtLeast(a: int, n: int)
    requires a >= 1 && n > 0
    ensures a * n >= n
  {
  }

  /** Arithmetic step of ModUnique and ModAddPeriod, stated apart for the same reason. */
  lemma Distrib(a: int, b: int, n: int)
    ensures a * n - b * n == (a - b) * n
  {
  }

  /** A remainder is determined by any decomposition x == q * n + r with r < n. */
  lemma ModUnique(x: nat, n: nat, q: nat, r: nat)
    requires n > 0 && r < n && x == q * n + r
    ensures x % n == r
  {
    var q', r' := x / n, x % n;
    assert x == q' * n + r';
    if q' < q {
      Distrib(q, q', n);
      MulAtLeast(q - q', n);
      assert false;
    } else if q' > q {
      Distrib(q', q, n);
      MulAtLeast(q' - q, n);
      assert false;
    }
  }

  /** Adding one period does not change a remainder. */
  lemma ModAddPeriod(x: nat, m: nat)
    requires m > 0
    ensures (x + m) % m == x % m
  {
    var q, r := x / m, x % m;
    assert x == q * m + r;
    Distrib(q + 1, q, m);
    ModUnique(x + m, m, q + 1, r);
  }

  /** Reducing modulo 2n and then modulo n is reducing modulo n. */
  lemma {:induction false} ModOfDoubleMod(h: nat, n: nat)
    requires n > 0
    ensures (h % (2 * n)) % n == h % n
    decreases h
  {
    if h < 2 * n {
      ModUnique(h, 2 * n, 0, h);
    } else {
      ModOfDoubleMod(h - 2 * n, n);
      ModAddPeriod(h - 2 * n, 2 * n);
      ModAddPeriod(h - 2 * n, n);
      ModAddPeriod(h - n, n);
    }
  }

  /** For positive totals, e / t > n / d exactly when e * d > n * t. */
  lemma RealCompare(e: nat, t: nat, n: nat, d: nat)
    requires t > 0 && d > 0
    ensures e as real / t as real > n as real / d as real <==> e * d > n * t
  {
    var er, tr, nr, dr := e as real, t as real, n as real, d as real;
    assert er / tr - nr / dr == (er * dr - nr * tr) / (tr * dr);
    assert (e * d - n * t) as real == er * dr - nr * tr;
  }

  /**
    Tables that gained just k, beside unchanged overflow keys, make a map
    that gained just k. This lemma, KeysAfterOverflow, PairsAfterPlacing
    and PairsAfterOverflow are stated on plain sets so that PutPair's proof
    need not unfold the heap functions, which keeps the solver's cost down.
   */
  lemma KeysAfterPlacing<T>(tk0: set<T>, tk: set<T>, ak: set<T>, k: T)
    requires tk == tk0 + {k}
    ensures tk + ak == (tk0 + ak) + {k}
  {
  }

  /** Adding the carried key c to the overflow keys, when the tables' keys plus c were the old keys plus k, adds just k. */
  lemma KeysAfterOverflow<T>(tk0: set<T>, tk: set<T>, ak: set<T>, k: T, c: T, keys: set<T>)
    requires tk + {c} == tk0 + {k} && keys == (tk + ak) + {c}
    ensures keys == (tk0 + ak) + {k}
  {
  }

  /**
    The value a lookup finds for x in the maps of the two tables and in the
    overflow array: table 1 takes precedence over table 2, which takes
    precedence over the first overflow slot holding x.
   */
  ghost function FindIn<K, V>(m1: map<K, V>, m2: map<K, V>, a: seq<Node<K, V>>, x: K): Option<V> {
    if x in m1 then Some(m1[x])
    else if x in m2 then Some(m2[x])
    else match FindKey(a, x, 0)
      case Some(i) => Some(a[i].val)
      case None => None
  }

  /** Every stored copy of x, in either table or the overflow array, has the same value. */
  ghost predicate OneValue<K, V>(s: set<Node<K, V>>, x: K) {
    forall n, n' :: n in s && n' in s && n.key == x && n'.key == x ==> n == n'
  }

  /**
    A lookup of a key other than EMPTY succeeds exactly when a table or the
    overflow array holds it, and the value it returns is one stored with it.
   */
  lemma FindInHeld<K, V>(m1: map<K, V>, m2: map<K, V>, a: seq<Node<K, V>>, empty: K, x: K)
    requires x != empty
    ensures FindIn(m1, m2, a, x).Some? <==> x in m1.Keys + m2.Keys + ArrayKeys(a, empty)
    ensures FindIn(m1, m2, a, x).Some? ==>
              Node(x, FindIn(m1, m2, a, x).value) in Pairs(m1) + Pairs(m2) + Occupied(a, empty)
  {
    if x in m1 {
      assert Node(x, m1[x]) in Pairs(m1);
    } else if x in m2 {
      assert Node(x, m2[x]) in Pairs(m2);
    } else if FindKey(a, x, 0).Some? {
      var i := FindKey(a, x, 0).value;
      assert a[i] in Occupied(a, empty);
      assert a[i].key in ArrayKeys(a, empty);
    }
  }

  /**
    A put of (k, v) that adds no stored pair but (k, v) and no key but k
    leaves the lookup of every other key unchanged, as long as all its
    stored copies had the same value.
   */
  lemma FindKept<K, V>(m1: map<K, V>, m2: map<K, V>, a: seq<Node<K, V>>,
                       n1: map<K, V>, n2: map<K, V>, b: seq<Node<K, V>>, empty: K, k: K, v: V)
    requires Pairs(n1) + Pairs(n2) + Occupied(b, empty) <= Pairs(m1) + Pairs(m2) + Occupied(a, empty) + {Node(k, v)}
    requires n1.Keys + n2.Keys + ArrayKeys(b, empty) == m1.Keys + m2.Keys + ArrayKeys(a, empty) + {k}
    ensures forall x :: x != k && x != empty && OneValue(Pairs(m1) + Pairs(m2) + Occupied(a, empty), x) ==>
              FindIn(n1, n2, b, x) == FindIn(m1, m2, a, x)
  {
    forall x | x != k && x != empty && OneValue(Pairs(m1) + Pairs(m2) + Occupied(a, empty), x)
      ensures FindIn(n1, n2, b, x) == FindIn(m1, m2, a, x)
    {
      FindInHeld(m1, m2, a, empty, x);
      FindInHeld(n1, n2, b, empty, x);
    }
  }

  /**
    The maps of the two tables and the element count after put stored
    (c, cv): in table 1, or, when table 1 lacks c, in table 2. The count
    grows by one unless that table already held c.
   */
  ghost predicate PutInto<K, V>(m1: map<K, V>, m2: map<K, V>, n1: map<K, V>, n2: map<K, V>, c: K, cv: V, e0: nat, e1: nat) {
    || (n1 == m1[c := cv] && n2 == m2 && e1 == e0 + (if c in m1 then 0 else 1))
    || (c !in m1 && n1 == m1 && n2 == m2[c := cv] && e1 == e0 + (if c in m2 then 0 else 1))
  }

  /**
    The maps of the two tables after (c, cv) evicted the pair (p, pv) from
    table w; the other table is unchanged.
   */
  ghost predicate EvictedBy<K, V>(w: Which, m1: map<K, V>, m2: map<K, V>, n1: map<K, V>, n2: map<K, V>, c: K, cv: V, p: K, pv: V) {
    match w
    case Primary => p in m1 && m1[p] == pv && n1 == (m1 - {p})[c := cv] && n2 == m2
    case Secondary => p in m2 && m2[p] == pv && n2 == (m2 - {p})[c := cv] && n1 == m1
  }

  /** Storing (c, cv) in one table adds no stored pair but (c, cv). */
  lemma PairsAfterPut<K, V>(m1: map<K, V>, m2: map<K, V>, n1: map<K, V>, n2: map<K, V>, c: K, cv: V, e0: nat, e1: nat)
    requires PutInto(m1, m2, n1, n2, c, cv, e0, e1)
    ensures Pairs(n1) + Pairs(n2) <= Pairs(m1) + Pairs(m2) + {Node(c, cv)}
  {
    if n1 == m1[c := cv] && n2 == m2 {
      PairsUpdate(m1, c, cv);
    } else {
      PairsUpdate(m2, c, cv);
    }
  }

  /** An eviction adds no stored pair but (c, cv), and the pair it hands back was stored. */
  lemma PairsAfterEvict<K, V>(w: Which, m1: map<K, V>, m2: map<K, V>, n1: map<K, V>, n2: map<K, V>, c: K, cv: V, p: K, pv: V)
    requires EvictedBy(w, m1, m2, n1, n2, c, cv, p, pv)
    ensures Pairs(n1) + Pairs(n2) + {Node(p, pv)} <= Pairs(m1) + Pairs(m2) + {Node(c, cv)}
  {
    match w
    case Primary => PairsEvict(m1, p, c, cv);
    case Secondary => PairsEvict(m2, p, c, cv);
  }

  /**
    The overflow array after the end of put stored (c, cv) in it: the
    first slot holding c has its value overwritten, or, when no slot holds
    c, the pair sits in a new slot at the head.
   */
  ghost predicate StoredInArray<K, V>(a: seq<Node<K, V>>, b: seq<Node<K, V>>, c: K, cv: V) {
    match FindKey(a, c, 0)
    case Some(i) => b == a[i := Node(c, cv)]
    case None => b == [Node(c, cv)] + a
  }

  /** Stored pairs that gained at most x, beside unchanged overflow nodes, gained at most x in all. */
  lemma PairsAfterPlacing<T>(s0: set<T>, s: set<T>, a: set<T>, x: T)
    requires s <= s0 + {x}
    ensures s + a <= (s0 + a) + {x}
  {
  }

  /**
    Tables whose pairs plus the carried pair c are among the old ones plus
    x, and an overflow array that gained at most c, gained at most x in all.
   */
  lemma PairsAfterOverflow<T>(s0: set<T>, s: set<T>, a0: set<T>, a: set<T>, x: T, c: T)
    requires s + {c} <= s0 + {x} && a <= a0 + {c}
    ensures s + a <= (s0 + a0) + {x}
  {
  }

  class AoHashMap<K(==), V> {
    /** The sentinel key of free slots; never a key of the application. */
    const empty: K
    /** The default value V() given to fresh slots. */
    const zero: V
    /** The application's hash function H. */
    const hash: K -> bv64
    /** e::lookup3_64, the mixing function of both index functions. */
    const mix: bv64 -> bv64
    /** e::compat::hash<uint64_t>, applied before mixing by the second index function. */
    const mix2: bv64 -> bv64

    var tableSize: nat
    var table1: array<seq<Node<K, V>>>
    var table2: array<seq<Node<K, V>>>
    var arraySize: nat
    var overflow: array<Node<K, V>>
    var elements: nat

    /** A fresh map: no tables, no overflow array, no elements. */
    constructor (empty: K, zero: V, hash: K -> bv64, mix: bv64 -> bv64, mix2: bv64 -> bv64)
      ensures this.empty == empty && this.zero == zero
      ensures this.hash == hash && this.mix == mix && this.mix2 == mix2
      ensures Valid() && fresh(table1) && fresh(table2) && fresh(overflow)
      ensures tableSize == 0 && arraySize == 0 && elements == 0
      ensures Keys() == {}
      ensures forall k :: Lookup(k) == None
    {
      this.empty, this.zero := empty, zero;
      this.hash, this.mix, this.mix2 := hash, mix, mix2;
      tableSize, arraySize, elements := 0, 0, 0;
      table1 := new seq<Node<K, V>>[0];
      table2 := new seq<Node<K, V>>[0];
      overflow := new Node<K, V>[0];
    }

    /** get_index1 / get_index2: the bucket a key belongs to in a table of n buckets. */
    function Index(w: Which, k: K, n: nat): (r: nat)
      requires n > 0
      ensures r < n
    {
      match w
      case Primary => (mix(hash(k)) as nat) % n
      case Secondary => (mix(mix2(hash(k))) as nat) % n
    }

    /** Doubling the table sends a key to a bucket whose index, modulo the old size, is its old bucket. */
    lemma IndexAfterDoubling(w: Which, k: K, n: nat)
      requires n > 0
      ensures Index(w, k, 2 * n) % n == Index(w, k, n)
    {
      match w
      case Primary => ModOfDoubleMod(mix(hash(k)) as nat, n);
      case Secondary => ModOfDoubleMod(mix(mix2(hash(k))) as nat, n);
    }

    /**
      A table of n buckets as the map keeps it: every bucket well formed,
      and every key in the bucket its index function names.
     */
    ghost predicate TableOk(t: seq<seq<Node<K, V>>>, n: nat, w: Which) {
      && |t| == n
      && (forall b :: 0 <= b < |t| ==> WellFormed(t[b], empty))
      && (forall b, s :: 0 <= b < |t| && 0 <= s < |t[b]| && t[b][s].key != empty ==>
            Index(w, t[b][s].key, n) == b)
    }

    ghost predicate Valid()
      reads this`tableSize, this`table1, this`table2, this`arraySize, this`overflow, table1, table2, overflow
    {
      && table1 != table2
      && (tableSize == 0 || (tableSize >= InitialTableSize && IsPow2(tableSize)))
      && TableOk(table1[..], tableSize, Primary)
      && TableOk(table2[..], tableSize, Secondary)
      && overflow.Length == arraySize
      && ArrayOk(overflow[..], empty)
    }

    /** The keys held by the two tables. */
    ghost function TableKeys(): set<K>
      reads this`tableSize, this`table1, this`table2, table1, table2
    {
      MapIn(Primary).Keys + MapIn(Secondary).Keys
    }

    /** Every key the map holds, in either table or in the overflow array. */
    ghost function Keys(): set<K>
      reads this`tableSize, this`table1, this`table2, this`overflow, table1, table2, overflow
    {
      TableKeys() + ArrayKeys(overflow[..], empty)
    }

    /** In a table as the map keeps it, a key occurs at most once. */
    lemma TableUnique(t: seq<seq<Node<K, V>>>, n: nat, w: Which)
      requires TableOk(t, n, w)
      ensures UniqueKeys(Entries(t, empty))
    {
      var e := Entries(t, empty);
      forall x, y | x in e && y in e && x.key == y.key ensures x == y {
        var b, s :| 0 <= b < |t| && 0 <= s < |t[b]| && t[b][s].key != empty && t[b][s] == x;
        var b', s' :| 0 <= b' < |t| && 0 <= s' < |t[b']| && t[b'][s'].key != empty && t[b'][s'] == y;
        assert b == b';
        assert WellFormed(t[b], empty);
      }
    }

    /** The contents of one table, as a map from keys to values. */
    ghost function TableMap(t: seq<seq<Node<K, V>>>, n: nat, w: Which): (m: map<K, V>)
      requires TableOk(t, n, w)
    {
      TableUnique(t, n, w);
      MapOf(Entries(t, empty))
    }

    /** Every occupied slot of a table gives its key's value in the table's map. */
    lemma TableMapAt(t: seq<seq<Node<K, V>>>, n: nat, w: Which, b: nat, s: nat)
      requires TableOk(t, n, w) && b < |t| && s < |t[b]| && t[b][s].key != empty
      ensures t[b][s].key in TableMap(t, n, w) && TableMap(t, n, w)[t[b][s].key] == t[b][s].val
    {
      TableUnique(t, n, w);
      MapOfHolds(Entries(t, empty));
      assert t[b][s] in Entries(t, empty);
    }

    /** A key is in a table exactly when the search of its home bucket finds it, and then with that slot's value. */
    lemma TableHome(t: seq<seq<Node<K, V>>>, n: nat, w: Which, k: K)
      requires TableOk(t, n, w) && n > 0 && k != empty
      ensures k in TableMap(t, n, w) <==> FindKey(t[Index(w, k, n)], k, 0).Some?
      ensures FindKey(t[Index(w, k, n)], k, 0).Some? ==>
                TableMap(t, n, w)[k] == t[Index(w, k, n)][FindKey(t[Index(w, k, n)], k, 0).value].val
    {
      var j := Index(w, k, n);
      if k in TableMap(t, n, w) {
        var x :| x in Entries(t, empty) && x.key == k;
        var b, s :| 0 <= b < |t| && 0 <= s < |t[b]| && t[b][s].key != empty && t[b][s] == x;
        assert b == j;
      }
      if FindKey(t[j], k, 0).Some? {
        TableMapAt(t, n, w, j, FindKey(t[j], k, 0).value);
      }
    }

    /** A home bucket without the key means the table does not hold it. */
    lemma TableMiss(t: seq<seq<Node<K, V>>>, n: nat, w: Which, k: K)
      requires TableOk(t, n, w) && n > 0
      requires forall s :: 0 <= s < |t[Index(w, k, n)]| ==> t[Index(w, k, n)][s].key != k
      ensures k !in KeysOf(Entries(t, empty))
    {
      forall x | x in Entries(t, empty) ensures x.key != k {
        var b, s :| 0 <= b < |t| && 0 <= s < |t[b]| && t[b][s].key != empty && t[b][s] == x;
      }
    }

    /** No bucket other than a key's home bucket holds that key. */
    lemma OthersLackKey(t: seq<seq<Node<K, V>>>, n: nat, w: Which, x: K)
      requires TableOk(t, n, w) && n > 0
      ensures WithoutKey(Others(t, Index(w, x, n), empty), x) == Others(t, Index(w, x, n), empty)
    {
      var j := Index(w, x, n);
      forall m | m in Others(t, j, empty) ensures m.key != x {
        var b, s :| 0 <= b < |t| && b != j && 0 <= s < |t[b]| && t[b][s].key != empty && t[b][s] == m;
      }
    }

    /** Replacing one bucket by a well-formed bucket of keys that belong there keeps the table as the map keeps it. */
    lemma TableReplace(t: seq<seq<Node<K, V>>>, n: nat, w: Which, j: nat, nb: seq<Node<K, V>>)
      requires TableOk(t, n, w) && j < n
      requires WellFormed(nb, empty)
      requires forall x :: x in Occupied(nb, empty) ==> Index(w, x.key, n) == j
      ensures TableOk(t[j := nb], n, w)
    {
      var t': seq<seq<Node<K, V>>> := t[j := nb];
      forall b: int, s: int | 0 <= b < |t'| && 0 <= s < |t'[b]| && t'[b][s].key != empty
        ensures Index(w, t'[b][s].key, n) == b
      {
        if b == j {
          assert t'[b][s] in Occupied(nb, empty);
        }
      }
    }

    /**
      A successful insert into the home bucket of c keeps the table as the
      map keeps it, and on the table's map it is an update at c.
     */
    lemma TablePut(t: seq<seq<Node<K, V>>>, n: nat, w: Which, c: K, cv: V)
      requires TableOk(t, n, w) && n > 0 && c != empty
      requires BucketPut(t[Index(w, c, n)], c, cv, empty).0 != Full
      ensures TableOk(t[Index(w, c, n) := BucketPut(t[Index(w, c, n)], c, cv, empty).1], n, w)
      ensures TableMap(t[Index(w, c, n) := BucketPut(t[Index(w, c, n)], c, cv, empty).1], n, w) ==
              TableMap(t, n, w)[c := cv]
    {
      var j := Index(w, c, n);
      var nb := BucketPut(t[j], c, cv, empty).1;
      TablePutEntries(t, n, w, c, cv);
      TableUnique(t, n, w);
      MapOfReplace(Entries(t, empty), c, Node(c, cv));
      var m := MapOf(Entries(t, empty));
      assert (m - {c})[c := cv] == m[c := cv];
    }

    /** A put into the home bucket of c that does not fail inserts exactly when the table lacks c. */
    lemma TablePutInserts(t: seq<seq<Node<K, V>>>, n: nat, w: Which, c: K, cv: V)
      requires TableOk(t, n, w) && n > 0 && c != empty
      requires BucketPut(t[Index(w, c, n)], c, cv, empty).0 != Full
      ensures BucketPut(t[Index(w, c, n)], c, cv, empty).0 == Inserted <==> c !in TableMap(t, n, w)
    {
      TableHome(t, n, w, c);
      BucketPutInsertsWhenAbsent(t[Index(w, c, n)], c, cv, empty);
    }

    /** The entries after a successful insert into the home bucket of c: the node with key c, if any, replaced by (c, cv). */
    lemma TablePutEntries(t: seq<seq<Node<K, V>>>, n: nat, w: Which, c: K, cv: V)
      requires TableOk(t, n, w) && n > 0 && c != empty
      requires BucketPut(t[Index(w, c, n)], c, cv, empty).0 != Full
      ensures TableOk(t[Index(w, c, n) := BucketPut(t[Index(w, c, n)], c, cv, empty).1], n, w)
      ensures Entries(t[Index(w, c, n) := BucketPut(t[Index(w, c, n)], c, cv, empty).1], empty) ==
              WithoutKey(Entries(t, empty), c) + {Node(c, cv)}
    {
      var j := Index(w, c, n);
      var nb := BucketPut(t[j], c, cv, empty).1;
      BucketPutEffect(t[j], c, cv, empty);
      forall x | x in Occupied(nb, empty) ensures Index(w, x.key, n) == j {
        if x != Node(c, cv) {
          var s :| 0 <= s < |t[j]| && t[j][s].key != empty && t[j][s] == x;
        }
      }
      TableReplace(t, n, w, j, nb);
      TableSplit(t, j, nb, empty);
      OthersLackKey(t, n, w, c);
      ReplaceInPart(Others(t, j, empty), Occupied(t[j], empty), c, Node(c, cv));
    }

    /**
      Evicting from the full home bucket of a key the table does not hold
      keeps the table as the map keeps it; the node handed back is one the
      table held, and on the map the eviction removes it and adds the new pair.
     */
    lemma TableEvict(t: seq<seq<Node<K, V>>>, n: nat, w: Which, a: Node<K, V>)
      requires TableOk(t, n, w) && n > 0 && a.key != empty
      requires forall s :: 0 <= s < |t[Index(w, a.key, n)]| ==>
                 t[Index(w, a.key, n)][s].key != a.key && t[Index(w, a.key, n)][s].key != empty
      ensures var j := Index(w, a.key, n);
              var (nb, p) := Evict(t[j], a);
              && TableOk(t[j := nb], n, w)
              && p.key != empty && p.key != a.key
              && p.key in TableMap(t, n, w) && TableMap(t, n, w)[p.key] == p.val
              && TableMap(t[j := nb], n, w) == (TableMap(t, n, w) - {p.key})[a.key := a.val]
    {
      var j := Index(w, a.key, n);
      var r := Evict(t[j], a);
      var nb, p := r.0, r.1;
      var t' := t[j := nb];
      assert WellFormed(t[j], empty);
      EvictFromFull(t[j], a, empty);
      assert p == t[j][3];
      TableReplace(t, n, w, j, nb);
      TableSplit(t, j, nb, empty);
      OthersLackKey(t, n, w, p.key);
      ReplaceInPart(Others(t, j, empty), Occupied(t[j], empty), p.key, a);
      assert Entries(t', empty) == WithoutKey(Entries(t, empty), p.key) + {a};
      TableUnique(t, n, w);
      TableMiss(t, n, w, a.key);
      MapOfReplace(Entries(t, empty), p.key, a);
    }

    /** A bucket of a freshly allocated table: four EMPTY nodes with default values. */
    function EmptyBucket(): (b: seq<Node<K, V>>)
      ensures WellFormed(b, empty) && Occupied(b, empty) == {}
    {
      seq(BucketSize, _ => Node(empty, zero))
    }

    /** Slot s of old bucket b comes before slot nidx of old bucket bidx in the rehash scan. */
    ghost predicate Before(b: nat, s: nat, bidx: nat, nidx: nat) {
      b < bidx || (b == bidx && s < nidx)
    }

    /** The occupied nodes of the old table that the rehash scan has passed. */
    ghost function Moved(src: seq<seq<Node<K, V>>>, bidx: nat, nidx: nat): set<Node<K, V>> {
      set b, s | 0 <= b < |src| && 0 <= s < |src[b]| && src[b][s].key != empty && Before(b, s, bidx, nidx) :: src[b][s]
    }

    /** The size resize_table() gives the tables. */
    function GrownSize(n: nat): (r: nat)
      ensures r > n
      ensures n == 0 ==> r == InitialTableSize
      ensures n > 0 ==> r == 2 * n
    {
      if n > 0 then n * 2 else InitialTableSize
    }

    /**
      The state of resize_table part way: the new table is as the map keeps
      it and holds exactly the nodes scanned so far, each at a slot no later
      than the slot it had in the old table.
     */
    ghost predicate RehashInv(src: seq<seq<Node<K, V>>>, oldSize: nat, nt: seq<seq<Node<K, V>>>, w: Which, bidx: nat, nidx: nat) {
      && TableOk(src, oldSize, w)
      && TableOk(nt, GrownSize(oldSize), w)
      && Entries(nt, empty) == Moved(src, bidx, nidx)
      && (forall j, s' :: 0 <= j < |nt| && 0 <= s' < |nt[j]| && nt[j][s'].key != empty ==>
            exists b, s :: 0 <= b < |src| && s' <= s < |src[b]| && Before(b, s, bidx, nidx) && src[b][s] == nt[j][s'])
    }

    /** The scan starts with a table of empty buckets and nothing moved. */
    lemma RehashStart(src: seq<seq<Node<K, V>>>, oldSize: nat, w: Which)
      requires TableOk(src, oldSize, w)
      ensures RehashInv(src, oldSize, seq(GrownSize(oldSize), _ => EmptyBucket()), w, 0, 0)
    {
      var nt: seq<seq<Node<K, V>>> := seq(GrownSize(oldSize), _ => EmptyBucket());
      forall b, s | 0 <= b < |nt| && 0 <= s < |nt[b]| ensures nt[b][s].key == empty {
        assert nt[b] == EmptyBucket();
      }
      assert Entries(nt, empty) == {};
      assert Moved(src, 0, 0) == {};
    }

    /** Nodes scanned before slot nidx of bucket bidx have keys other than the node at that slot. */
    lemma MovedLacksCurrent(src: seq<seq<Node<K, V>>>, oldSize: nat, w: Which, bidx: nat, nidx: nat)
      requires TableOk(src, oldSize, w) && bidx < oldSize && nidx < BucketSize
      requires src[bidx][nidx].key != empty
      ensures WithoutKey(Moved(src, bidx, nidx), src[bidx][nidx].key) == Moved(src, bidx, nidx)
      ensures Moved(src, bidx, nidx + 1) == Moved(src, bidx, nidx) + {src[bidx][nidx]}
    {
      var x := src[bidx][nidx];
      assert WellFormed(src[bidx], empty);
      forall y | y in Moved(src, bidx, nidx) ensures y.key != x.key {
        var b, s :| 0 <= b < |src| && 0 <= s < |src[b]| && src[b][s].key != empty && Before(b, s, bidx, nidx) && src[b][s] == y;
        if b == bidx {
          assert s < nidx;
        }
      }
    }

    /**
      Putting the next occupied old node into its bucket of the new table
      inserts it (the bucket has a free slot and lacks the key), and the
      scan can move on to the next slot.
     */
    lemma RehashStep(src: seq<seq<Node<K, V>>>, oldSize: nat, nt: seq<seq<Node<K, V>>>, w: Which, bidx: nat, nidx: nat)
      requires RehashInv(src, oldSize, nt, w, bidx, nidx)
      requires bidx < oldSize && nidx < BucketSize && src[bidx][nidx].key != empty
      ensures var x := src[bidx][nidx];
              var j := Index(w, x.key, GrownSize(oldSize));
              var (outcome, nb) := BucketPut(nt[j], x.key, x.val, empty);
              outcome == Inserted && RehashInv(src, oldSize, nt[j := nb], w, bidx, nidx + 1)
    {
      var newSize := GrownSize(oldSize);
      var x := src[bidx][nidx];
      var j := Index(w, x.key, newSize);
      assert WellFormed(src[bidx], empty);
      IndexAfterDoubling(w, x.key, oldSize);
      forall s' | 0 <= s' < |nt[j]| && nt[j][s'].key != empty
        ensures exists s :: s' <= s < nidx && src[bidx][s] == nt[j][s']
      {
        var b, s :| 0 <= b < |src| && s' <= s < |src[b]| && Before(b, s, bidx, nidx) && src[b][s] == nt[j][s'];
        IndexAfterDoubling(w, nt[j][s'].key, oldSize);
        assert b == bidx;
      }
      assert nt[j][nidx].key == empty;
      forall s' | 0 <= s' < |nt[j]| ensures nt[j][s'].key != x.key {
        if nt[j][s'].key != empty {
          var s :| s' <= s < nidx && src[bidx][s] == nt[j][s'];
        }
      }
      var f := FirstHit(nt[j], x.key, empty, 0);
      assert f <= nidx;
      var nb := BucketPut(nt[j], x.key, x.val, empty).1;
      assert nb == nt[j][f := x];
      var nt': seq<seq<Node<K, V>>> := nt[j := nb];
      TablePutEntries(nt, newSize, w, x.key, x.val);
      MovedLacksCurrent(src, oldSize, w, bidx, nidx);
      forall j': int, s': int | 0 <= j' < |nt'| && 0 <= s' < |nt'[j']| && nt'[j'][s'].key != empty
        ensures exists b, s :: 0 <= b < |src| && s' <= s < |src[b]| && Before(b, s, bidx, nidx + 1) && src[b][s] == nt'[j'][s']
      {
        if j' == j && s' == f {
          assert src[bidx][nidx] == nt'[j'][s'];
        } else {
          assert nt'[j'][s'] == nt[j'][s'];
          var b, s :| 0 <= b < |src| && s' <= s < |src[b]| && Before(b, s, bidx, nidx) && src[b][s] == nt[j'][s'];
          assert Before(b, s, bidx, nidx + 1);
        }
      }
    }

    /** At an EMPTY slot, or past the last slot, the scan moves on to the next old bucket. */
    lemma RehashNextBucket(src: seq<seq<Node<K, V>>>, oldSize: nat, nt: seq<seq<Node<K, V>>>, w: Which, bidx: nat, nidx: nat)
      requires RehashInv(src, oldSize, nt, w, bidx, nidx)
      requires bidx < oldSize && nidx <= BucketSize
      requires nidx == BucketSize || src[bidx][nidx].key == empty
      ensures RehashInv(src, oldSize, nt, w, bidx + 1, 0)
    {
      assert WellFormed(src[bidx], empty);
      assert Moved(src, bidx + 1, 0) == Moved(src, bidx, nidx);
      forall j, s' | 0 <= j < |nt| && 0 <= s' < |nt[j]| && nt[j][s'].key != empty
        ensures exists b, s :: 0 <= b < |src| && s' <= s < |src[b]| && Before(b, s, bidx + 1, 0) && src[b][s] == nt[j][s']
      {
        var b, s :| 0 <= b < |src| && s' <= s < |src[b]| && Before(b, s, bidx, nidx) && src[b][s] == nt[j][s'];
        assert Before(b, s, bidx + 1, 0);
      }
    }

    /** When every old bucket has been scanned, the new table holds exactly the old table's entries. */
    lemma RehashDone(src: seq<seq<Node<K, V>>>, oldSize: nat, nt: seq<seq<Node<K, V>>>, w: Which)
      requires RehashInv(src, oldSize, nt, w, oldSize, 0)
      ensures TableOk(nt, GrownSize(oldSize), w)
      ensures Entries(nt, empty) == Entries(src, empty)
    {
      assert Moved(src, oldSize, 0) == Entries(src, empty);
    }

    /** IsPow2 holds of the initial size and is kept by doubling. */
    lemma GrownSizePow2(n: nat)
      requires n == 0 || (n >= InitialTableSize && IsPow2(n))
      ensures GrownSize(n) >= InitialTableSize && IsPow2(GrownSize(n))
    {
      if n == 0 {
        assert IsPow2(1);
        assert IsPow2(2);
        assert IsPow2(4);
      } else {
        assert GrownSize(n) / 2 == n;
      }
    }

    /**
      put on one bucket: scan the slots in order, overwrite the value of a
      slot holding k, or fill the first EMPTY slot and count one more
      element; a bucket with neither is left alone.
     */
    method PutInBucket(t: array<seq<Node<K, V>>>, bi: nat, k: K, v: V) returns (ok: bool)
      requires bi < t.Length && |t[bi]| == BucketSize
      modifies t, this`elements
      ensures t[..] == old(t[..])[bi := BucketPut(old(t[bi]), k, v, empty).1]
      ensures ok <==> BucketPut(old(t[bi]), k, v, empty).0 != Full
      ensures elements == old(elements) + if BucketPut(old(t[bi]), k, v, empty).0 == Inserted then 1 else 0
    {
      var i := 0;
      while i < BucketSize
        invariant 0 <= i <= BucketSize
        invariant t[..] == old(t[..]) && elements == old(elements)
        invariant forall j :: 0 <= j < i ==> t[bi][j].key != k && t[bi][j].key != empty
      {
        if t[bi][i].key == k {
          t[bi] := t[bi][i := t[bi][i].(val := v)];
          return true;
        } else if t[bi][i].key == empty {
          t[bi] := t[bi][i := Node(k, v)];
          elements := elements + 1;
          return true;
        }
        i := i + 1;
      }
      return false;
    }

    /** mod on one bucket: the first slot holding k, if any. */
    method ModBucket(t: array<seq<Node<K, V>>>, bi: nat, k: K) returns (slot: Option<nat>)
      requires bi < t.Length && |t[bi]| == BucketSize
      ensures slot == FindKey(t[bi], k, 0)
    {
      var i := 0;
      while i < BucketSize
        invariant 0 <= i <= BucketSize
        invariant forall j :: 0 <= j < i ==> t[bi][j].key != k
      {
        if t[bi][i].key == k {
          return Some(i);
        }
        i := i + 1;
      }
      return None;
    }

    /**
      cuckoo: hand back the pair in slot 3, move slots 2, 1, 0 one slot
      towards the end, and store (k, v) in slot 0. The slots that are
      overwritten must be occupied.
     */
    method Cuckoo(t: array<seq<Node<K, V>>>, bi: nat, k: K, v: V) returns (pk: K, pv: V)
      requires bi < t.Length && |t[bi]| == BucketSize
      requires forall s :: 1 <= s < BucketSize ==> t[bi][s].key != empty
      modifies t
      ensures t[..] == old(t[..])[bi := Evict(old(t[bi]), Node(k, v)).0]
      ensures Node(pk, pv) == Evict(old(t[bi]), Node(k, v)).1
    {
      pk, pv := t[bi][BucketSize - 1].key, t[bi][BucketSize - 1].val;
      var i := BucketSize - 1;
      while i > 0
        invariant 0 <= i < BucketSize
        invariant t[..] == old(t[..])[bi := t[bi]] && |t[bi]| == BucketSize
        invariant forall j :: 0 <= j <= i ==> t[bi][j] == old(t[bi])[j]
        invariant forall j :: i < j < BucketSize ==> t[bi][j] == old(t[bi])[j - 1]
      {
        t[bi] := t[bi][i := t[bi][i - 1]];
        i := i - 1;
      }
      t[bi] := t[bi][0 := Node(k, v)];
      assert t[bi] == [Node(k, v)] + old(t[bi])[..BucketSize - 1] by {
        forall j | 0 <= j < BucketSize ensures t[bi][j] == ([Node(k, v)] + old(t[bi])[..BucketSize - 1])[j] {
        }
      }
    }

    /**
      resize_table on one table: allocate a table of the grown size and put
      every node of the old table into the bucket its index function names
      there, scanning each old bucket up to its first EMPTY slot. Each of
      these puts inserts, and the element count it adds is taken back.
     */
    method ResizeTable(src: array<seq<Node<K, V>>>, oldSize: nat, w: Which) returns (nt: array<seq<Node<K, V>>>)
      requires TableOk(src[..], oldSize, w)
      modifies this`elements
      ensures fresh(nt)
      ensures TableOk(nt[..], GrownSize(oldSize), w)
      ensures Entries(nt[..], empty) == Entries(src[..], empty)
      ensures elements == old(elements)
    {
      var newSize := GrownSize(oldSize);
      var eb := EmptyBucket();
      nt := new seq<Node<K, V>>[newSize](_ => eb);
      assert nt[..] == seq(newSize, _ => EmptyBucket());
      RehashStart(src[..], oldSize, w);
      for bidx := 0 to oldSize
        invariant fresh(nt) && nt.Length == newSize
        invariant RehashInv(src[..], oldSize, nt[..], w, bidx, 0)
        invariant elements == old(elements)
      {
        RehashBucket(src, oldSize, nt, w, bidx);
      }
      RehashDone(src[..], oldSize, nt[..], w);
    }

    /**
      The inner loop of resize_table: put the nodes of old bucket bidx, up
      to its first EMPTY slot, into their buckets of the new table.
     */
    method RehashBucket(src: array<seq<Node<K, V>>>, oldSize: nat, nt: array<seq<Node<K, V>>>, w: Which, bidx: nat)
      requires src != nt && bidx < oldSize && nt.Length == GrownSize(oldSize)
      requires RehashInv(src[..], oldSize, nt[..], w, bidx, 0)
      modifies nt, this`elements
      ensures RehashInv(src[..], oldSize, nt[..], w, bidx + 1, 0)
      ensures elements == old(elements)
    {
      var nidx := 0;
      while nidx < BucketSize
        invariant 0 <= nidx <= BucketSize
        invariant RehashInv(src[..], oldSize, nt[..], w, bidx, nidx)
        invariant elements == old(elements)
      {
        var n := src[bidx][nidx];
        if n.key == empty {
          break;
        }
        var newBidx := Index(w, n.key, nt.Length);
        ghost var before := nt[..];
        RehashStep(src[..], oldSize, before, w, bidx, nidx);
        var x := PutInBucket(nt, newBidx, n.key, n.val);
        assert nt[..] == before[newBidx := BucketPut(before[newBidx], n.key, n.val, empty).1];
        assert x;
        elements := elements - 1;
        nidx := nidx + 1;
      }
      RehashNextBucket(src[..], oldSize, nt[..], w, bidx, nidx);
    }

    /** The array holding a table. */
    function Table(w: Which): array<seq<Node<K, V>>>
      reads this`table1, this`table2
    {
      match w
      case Primary => table1
      case Secondary => table2
    }

    /** The contents of a table, as a map from keys to values. */
    ghost function MapIn(w: Which): map<K, V>
      reads this`tableSize, this`table1, this`table2, table1, table2
    {
      match w
      case Primary => Map1()
      case Secondary => Map2()
    }

    /** The contents of table 1, as a map from keys to values. */
    ghost function Map1(): map<K, V>
      reads this`tableSize, this`table1, table1
    {
      if TableOk(table1[..], tableSize, Primary) then TableMap(table1[..], tableSize, Primary) else map[]
    }

    /** The contents of table 2, as a map from keys to values. */
    ghost function Map2(): map<K, V>
      reads this`tableSize, this`table2, table2
    {
      if TableOk(table2[..], tableSize, Secondary) then TableMap(table2[..], tableSize, Secondary) else map[]
    }

    /**
      The value the map associates with k: table 1 takes precedence over
      table 2, which takes precedence over the overflow array.
     */
    ghost function Find(k: K): Option<V>
      reads this`tableSize, this`table1, this`table2, this`overflow, table1, table2, overflow
    {
      FindIn(MapIn(Primary), MapIn(Secondary), overflow[..], k)
    }

    /** The (key, value) pairs the two tables hold. */
    ghost function TablePairs(): set<Node<K, V>>
      reads this`tableSize, this`table1, this`table2, table1, table2
    {
      Pairs(MapIn(Primary)) + Pairs(MapIn(Secondary))
    }

    /** Every (key, value) pair the map stores, in either table or in the overflow array. */
    ghost function Nodes(): set<Node<K, V>>
      reads this`tableSize, this`table1, this`table2, this`overflow, table1, table2, overflow
    {
      TablePairs() + Occupied(overflow[..], empty)
    }

    /**
      The slot holding k in its bucket of table w, when the tables are
      allocated and the bucket holds k: the search get_bucket and the
      bucket-level mod make.
     */
    function SlotIn(w: Which, k: K): (r: Option<nat>)
      requires Valid()
      reads this`tableSize, this`table1, this`table2, this`arraySize, this`overflow, table1, table2, overflow
      ensures r.Some? ==> tableSize > 0 && r.value < BucketSize && Table(w)[Index(w, k, tableSize)][r.value].key == k
    {
      match BucketOf(w, tableSize, k)
      case None => None
      case Some(b) => FindKey(Table(w)[b], k, 0)
    }

    /** Whether a location is a slot of the map that holds k. */
    ghost predicate Holds(loc: Loc, k: K)
      reads this`table1, this`table2, this`overflow, table1, table2, overflow
    {
      match loc
      case InTable(w, b, s) => b < Table(w).Length && s < |Table(w)[b]| && Table(w)[b][s].key == k
      case InArray(i) => i < overflow.Length && overflow[i].key == k
    }

    /** The value stored at a location of the map. */
    function ValueAt(loc: Loc): V
      requires Valid() && LocOk(loc)
      reads this`tableSize, this`table1, this`table2, this`arraySize, this`overflow, table1, table2, overflow
    {
      match loc
      case InTable(w, b, s) => Table(w)[b][s].val
      case InArray(i) => overflow[i].val
    }

    /** Whether a location is a slot of the map. */
    predicate LocOk(loc: Loc)
      reads this`table1, this`table2, this`overflow, table1, table2, overflow
    {
      match loc
      case InTable(w, b, s) => b < Table(w).Length && s < |Table(w)[b]|
      case InArray(i) => i < overflow.Length
    }

    /**
      Where get and mod find k: its slot in its table-1 bucket, else its
      slot in its table-2 bucket, else the first overflow slot holding it.
     */
    function Lookup(k: K): (r: Option<Loc>)
      requires Valid()
      reads this`tableSize, this`table1, this`table2, this`arraySize, this`overflow, table1, table2, overflow
      ensures r.Some? ==> LocOk(r.value) && Holds(r.value, k)
      ensures r.None? ==> forall i :: 0 <= i < overflow.Length ==> overflow[i].key != k
    {
      match SlotIn(Primary, k)
      case Some(s) => Some(InTable(Primary, Index(Primary, k, tableSize), s))
      case None =>
        match SlotIn(Secondary, k)
        case Some(s) => Some(InTable(Secondary, Index(Secondary, k, tableSize), s))
        case None =>
          match FindKey(overflow[..], k, 0)
          case Some(i) => Some(InArray(i))
          case None => None
    }

    /** The search of one table finds k exactly when the table's map holds it, and then its value. */
    lemma SlotInIsMapIn(w: Which, k: K)
      requires Valid() && k != empty
      ensures SlotIn(w, k).Some? <==> k in MapIn(w)
      ensures SlotIn(w, k).Some? ==> MapIn(w)[k] == Table(w)[Index(w, k, tableSize)][SlotIn(w, k).value].val
    {
      var t := Table(w)[..];
      if tableSize > 0 {
        TableHome(t, tableSize, w, k);
      } else {
        assert Entries(t, empty) == {};
      }
    }

    /**
      The search of get and mod agrees with the map: for any key but
      EMPTY it finds a location exactly when the map holds the key, and
      the value there is the key's value.
     */
    lemma LookupIsFind(k: K)
      requires Valid() && k != empty
      ensures Lookup(k).Some? <==> k in Keys()
      ensures Lookup(k).Some? ==> Find(k) == Some(ValueAt(Lookup(k).value))
      ensures Lookup(k).None? ==> Find(k) == None
    {
      SlotInIsMapIn(Primary, k);
      SlotInIsMapIn(Secondary, k);
      if FindKey(overflow[..], k, 0).None? {
        assert k !in ArrayKeys(overflow[..], empty);
      }
    }

    /**
      mod: the location of k, found by the bucket-level search of its
      table-1 bucket, then of its table-2 bucket, then by a scan of the
      overflow array.
     */
    method Mod(k: K) returns (loc: Option<Loc>)
      requires Valid()
      ensures loc == Lookup(k)
    {
      var b1 := BucketOf(Primary, tableSize, k);
      if b1.Some? {
        var s := ModBucket(table1, b1.value, k);
        if s.Some? {
          return Some(InTable(Primary, b1.value, s.value));
        }
      }
      var b2 := BucketOf(Secondary, tableSize, k);
      if b2.Some? {
        var s := ModBucket(table2, b2.value, k);
        if s.Some? {
          return Some(InTable(Secondary, b2.value, s.value));
        }
      }
      for i := 0 to arraySize
        invariant forall j :: 0 <= j < i ==> overflow[j].key != k
      {
        if overflow[i].key == k {
          return Some(InArray(i));
        }
      }
      return None;
    }

    /**
      get: the value at the location mod finds, or, when there is none,
      the caller's variable left as it was (here: prior).
     */
    method Get(k: K, prior: V) returns (found: bool, v: V)
      requires Valid()
      ensures found <==> Lookup(k).Some?
      ensures found ==> v == ValueAt(Lookup(k).value)
      ensures !found ==> v == prior
    {
      var loc := Mod(k);
      match loc
      case Some(l) =>
        found, v := true, ValueAt(l);
      case None =>
        found, v := false, prior;
    }

    /** Whether another map is an instance of the same template: same EMPTY, same V(), same hash functions. */
    ghost predicate SameKind(other: AoHashMap<K, V>) {
      other.empty == empty && other.zero == zero && other.hash == hash && other.mix == mix && other.mix2 == mix2
    }

    /** Two maps of the same kind read a table alike. */
    lemma SameKindTable(other: AoHashMap<K, V>, t: seq<seq<Node<K, V>>>, n: nat, w: Which)
      requires SameKind(other)
      ensures other.TableOk(t, n, w) <==> TableOk(t, n, w)
      ensures TableOk(t, n, w) ==> other.TableMap(t, n, w) == TableMap(t, n, w)
    {
      if n > 0 {
        forall k ensures other.Index(w, k, n) == Index(w, k, n) {
        }
      }
    }

    /**
      reset: drop the tables and the overflow array and return to the
      unallocated state. The element count is left as it was.
     */
    method Reset()
      modifies this`tableSize, this`table1, this`table2, this`arraySize, this`overflow
      ensures Valid() && Keys() == {}
      ensures tableSize == 0 && arraySize == 0 && elements == old(elements)
      ensures fresh(table1) && fresh(table2) && fresh(overflow)
    {
      table1 := new seq<Node<K, V>>[0];
      table2 := new seq<Node<K, V>>[0];
      overflow := new Node<K, V>[0];
      tableSize, arraySize := 0, 0;
    }

    /** swap: exchange the whole state, tables, overflow array and counts, with another map. */
    method Swap(other: AoHashMap<K, V>)
      requires Valid() && other.Valid() && SameKind(other)
      modifies this`tableSize, this`table1, this`table2, this`arraySize, this`overflow, this`elements
      modifies other`tableSize, other`table1, other`table2, other`arraySize, other`overflow, other`elements
      ensures Valid() && other.Valid()
      ensures tableSize == old(other.tableSize) && other.tableSize == old(tableSize)
      ensures table1 == old(other.table1) && other.table1 == old(table1)
      ensures table2 == old(other.table2) && other.table2 == old(table2)
      ensures arraySize == old(other.arraySize) && other.arraySize == old(arraySize)
      ensures overflow == old(other.overflow) && other.overflow == old(overflow)
      ensures elements == old(other.elements) && other.elements == old(elements)
      ensures Keys() == old(other.Keys()) && other.Keys() == old(Keys())
    {
      // Swapping a map with itself exchanges each field with itself.
      if other != this {
        SwapDistinct(other);
      }
    }

    /** The exchange of swap between two different maps. */
    method SwapDistinct(other: AoHashMap<K, V>)
      requires other != this && Valid() && other.Valid() && SameKind(other)
      modifies this`tableSize, this`table1, this`table2, this`arraySize, this`overflow, this`elements
      modifies other`tableSize, other`table1, other`table2, other`arraySize, other`overflow, other`elements
      ensures Valid() && other.Valid()
      ensures tableSize == old(other.tableSize) && other.tableSize == old(tableSize)
      ensures table1 == old(other.table1) && other.table1 == old(table1)
      ensures table2 == old(other.table2) && other.table2 == old(table2)
      ensures arraySize == old(other.arraySize) && other.arraySize == old(arraySize)
      ensures overflow == old(other.overflow) && other.overflow == old(overflow)
      ensures elements == old(other.elements) && other.elements == old(elements)
      ensures Keys() == old(other.Keys()) && other.Keys() == old(Keys())
    {
      SameKindTable(other, table1[..], tableSize, Primary);
      SameKindTable(other, table2[..], tableSize, Secondary);
      SameKindTable(other, other.table1[..], other.tableSize, Primary);
      SameKindTable(other, other.table2[..], other.tableSize, Secondary);
      var n, t1, t2 := tableSize, table1, table2;
      tableSize, table1, table2 := other.tableSize, other.table1, other.table2;
      other.tableSize, other.table1, other.table2 := n, t1, t2;
      var a, o, e := arraySize, overflow, elements;
      arraySize, overflow, elements := other.arraySize, other.overflow, other.elements;
      other.arraySize, other.overflow, other.elements := a, o, e;
    }

    /**
      The copy loops of copy_from: fresh tables of n buckets, filled slot
      by slot, bucket by bucket, from the two source tables.
     */
    method CopyTables(src1: array<seq<Node<K, V>>>, src2: array<seq<Node<K, V>>>, n: nat)
      returns (dst1: array<seq<Node<K, V>>>, dst2: array<seq<Node<K, V>>>)
      requires src1.Length == n && src2.Length == n
      requires forall j :: 0 <= j < n ==> |src1[j]| == BucketSize && |src2[j]| == BucketSize
      ensures fresh(dst1) && fresh(dst2) && dst1 != dst2
      ensures dst1[..] == src1[..] && dst2[..] == src2[..]
    {
      dst1 := new seq<Node<K, V>>[n](_ => EmptyBucket());
      dst2 := new seq<Node<K, V>>[n](_ => EmptyBucket());
      for i := 0 to n
        invariant forall j :: 0 <= j < i ==> dst1[j] == src1[j] && dst2[j] == src2[j]
        invariant forall j :: i <= j < n ==> |dst1[j]| == BucketSize && |dst2[j]| == BucketSize
      {
        for b := 0 to BucketSize
          invariant |dst1[i]| == BucketSize && |dst2[i]| == BucketSize
          invariant dst1[i][..b] == src1[i][..b] && dst2[i][..b] == src2[i][..b]
          invariant forall j :: 0 <= j < i ==> dst1[j] == src1[j] && dst2[j] == src2[j]
          invariant forall j :: i < j < n ==> |dst1[j]| == BucketSize && |dst2[j]| == BucketSize
        {
          dst1[i] := dst1[i][b := src1[i][b]];
          dst2[i] := dst2[i][b := src2[i][b]];
        }
        assert dst1[i] == dst1[i][..BucketSize] && dst2[i] == dst2[i][..BucketSize];
      }
      assert dst1[..] == src1[..] && dst2[..] == src2[..];
    }

    /** The last copy loop of copy_from: a fresh overflow array holding the nodes of src, in order. */
    method CopyArray(src: array<Node<K, V>>) returns (dst: array<Node<K, V>>)
      ensures fresh(dst) && dst[..] == src[..]
    {
      dst := new Node<K, V>[src.Length](_ => Node(empty, zero));
      for i := 0 to src.Length
        invariant forall j :: 0 <= j < i ==> dst[j] == src[j]
      {
        dst[i] := src[i];
      }
      assert dst[..] == src[..];
    }

    /**
      copy_from: reset, then give this map tables and an overflow array of
      its own holding the other map's nodes slot by slot, and its count.
      Copying a map onto itself reads back the sizes the reset has just
      zeroed, so it leaves the map empty with its element count.
     */
    method CopyFrom(other: AoHashMap<K, V>)
      requires other.Valid() && SameKind(other)
      modifies this`tableSize, this`table1, this`table2, this`arraySize, this`overflow, this`elements
      ensures Valid() && fresh(table1) && fresh(table2) && fresh(overflow)
      ensures tableSize == other.tableSize && arraySize == other.arraySize && elements == other.elements
      ensures table1[..] == other.table1[..] && table2[..] == other.table2[..]
      ensures overflow[..] == other.overflow[..]
      ensures Keys() == other.Keys()
      ensures other != this ==> tableSize == old(other.tableSize) && arraySize == old(other.arraySize)
      ensures other != this ==> elements == old(other.elements) && Keys() == old(other.Keys())
      ensures other == this ==> tableSize == 0 && arraySize == 0 && Keys() == {} && elements == old(elements)
    {
      Reset();
      CopyContents(other);
    }

    /**
      The copying part of copy_from, once this map has been reset: the
      sizes, the count and every slot are read from the other map, which
      may be this map itself.
     */
    method CopyContents(other: AoHashMap<K, V>)
      requires other.Valid() && SameKind(other)
      modifies this`tableSize, this`table1, this`table2, this`arraySize, this`overflow, this`elements
      ensures Valid() && fresh(table1) && fresh(table2) && fresh(overflow)
      ensures tableSize == old(other.tableSize) && arraySize == old(other.arraySize) && elements == old(other.elements)
      ensures tableSize == other.tableSize && arraySize == other.arraySize && elements == other.elements
      ensures table1[..] == other.table1[..] && table2[..] == other.table2[..]
      ensures overflow[..] == other.overflow[..]
      ensures Keys() == other.Keys()
    {
      forall j | 0 <= j < other.tableSize
        ensures |other.table1[j]| == BucketSize && |other.table2[j]| == BucketSize
      {
        assert WellFormed(other.table1[..][j], empty) && WellFormed(other.table2[..][j], empty);
      }
      tableSize := other.tableSize;
      table1, table2 := CopyTables(other.table1, other.table2, tableSize);
      arraySize := other.arraySize;
      overflow := CopyArray(other.overflow);
      elements := other.elements;
      SameContents(other);
    }

    /** Two maps of one kind whose tables and overflow arrays hold the same nodes are equally valid and hold the same keys. */
    lemma SameContents(other: AoHashMap<K, V>)
      requires SameKind(other) && other.Valid()
      requires tableSize == other.tableSize && arraySize == other.arraySize && table1 != table2
      requires table1[..] == other.table1[..] && table2[..] == other.table2[..] && overflow[..] == other.overflow[..]
      ensures Valid() && Keys() == other.Keys()
    {
      SameKindTable(other, table1[..], tableSize, Primary);
      SameKindTable(other, table2[..], tableSize, Secondary);
      assert Map1() == other.Map1() && Map2() == other.Map2();
    }

    /** load_factor, exactly: elements per slot of both tables and the overflow array, and 1 without tables. */
    ghost function LoadFactor(): (r: real)
      reads this
      ensures tableSize == 0 ==> r == 1.0
      ensures tableSize > 0 ==> r * (2 * tableSize + arraySize) as real == elements as real
    {
      if tableSize == 0 then 1.0 else elements as real / (2 * tableSize + arraySize) as real
    }

    /** Whether the load factor exceeds num/den, compared without division. */
    function LoadExceeds(num: nat, den: nat): bool
      reads this
    {
      if tableSize == 0 then num < den
      else elements * den > num * (2 * tableSize + arraySize)
    }

    /** The division-free comparison agrees with the exact load factor. */
    lemma LoadExceedsIsExact(num: nat, den: nat)
      requires den > 0
      ensures LoadExceeds(num, den) <==> LoadFactor() > num as real / den as real
    {
      if tableSize > 0 {
        RealCompare(elements, 2 * tableSize + arraySize, num, den);
      }
    }

    /**
      resize_table(): give both tables the grown size and rehash them; the
      overflow array and the element count stay as they are.
     */
    method Resize()
      requires Valid()
      modifies this`tableSize, this`table1, this`table2, this`elements
      ensures Valid()
      ensures tableSize == GrownSize(old(tableSize))
      ensures fresh(table1) && fresh(table2)
      ensures Entries(table1[..], empty) == old(Entries(table1[..], empty))
      ensures Entries(table2[..], empty) == old(Entries(table2[..], empty))
      ensures MapIn(Primary) == old(MapIn(Primary)) && MapIn(Secondary) == old(MapIn(Secondary))
      ensures overflow == old(overflow) && arraySize == old(arraySize) && elements == old(elements)
    {
      var newSize := GrownSize(tableSize);
      GrownSizePow2(tableSize);
      var nt1 := ResizeTable(table1, tableSize, Primary);
      table1 := nt1;
      var nt2 := ResizeTable(table2, tableSize, Secondary);
      table2 := nt2;
      tableSize := newSize;
    }

    /**
      make_room_at_array_head: replace the overflow array by one a slot
      longer whose slot 0 is free and whose other slots hold the old array.
     */
    method MakeRoomAtArrayHead()
      requires overflow.Length == arraySize
      modifies this`overflow, this`arraySize
      ensures fresh(overflow) && arraySize == old(arraySize) + 1
      ensures overflow[..] == [Node(empty, zero)] + old(overflow[..])
      ensures tableSize == old(tableSize) && table1 == old(table1) && table2 == old(table2)
      ensures elements == old(elements)
    {
      var fresh0 := Node(empty, zero);
      var na := new Node<K, V>[arraySize + 1](_ => fresh0);
      for i := 0 to arraySize
        invariant unchanged(this) && unchanged(overflow)
        invariant forall j :: 0 <= j < i ==> na[j + 1] == overflow[j]
      {
        na[i + 1] := overflow[i];
      }
      na[0] := fresh0;
      arraySize := arraySize + 1;
      overflow := na;
      assert overflow[..] == [fresh0] + old(overflow[..]);
    }

    /** get_bucket: no bucket while the tables are unallocated, otherwise the bucket the index function names. */
    function BucketOf(w: Which, n: nat, k: K): (r: Option<nat>)
      ensures r.None? <==> n == 0
      ensures r.Some? ==> r.value < n
    {
      if n == 0 then None else Some(Index(w, k, n))
    }

    /**
      The state the put loop keeps once it has evicted: every copy of k in
      the tables has value v, and k is either the carried key, with value
      v, or held by exactly one table.
     */
    ghost predicate Carrying(m1: map<K, V>, m2: map<K, V>, k: K, v: V, c: K, cv: V) {
      && (k in m1 ==> m1[k] == v)
      && (k in m2 ==> m2[k] == v)
      && (c == k ==> cv == v && k !in m1 && k !in m2)
      && (c != k ==> (k in m1) != (k in m2))
    }

    /** Where k now sits: with value v in table 1, or, absent from table 1, with value v in table 2. */
    ghost predicate Placed(m1: map<K, V>, m2: map<K, V>, k: K, v: V) {
      if k in m1 then m1[k] == v else k in m2 && m2[k] == v
    }

    /** The bucket of c in one table holds four keys other than c. */
    ghost predicate HomeFull(w: Which, c: K)
      reads this`tableSize, this`table1, this`table2, Table(w)
    {
      && tableSize > 0 && Table(w).Length == tableSize
      && var b := Table(w)[Index(w, c, tableSize)];
         forall s :: 0 <= s < |b| ==> b[s].key != c && b[s].key != empty
    }

    /**
      put on the bucket of c in one table. On success the table's map is
      updated at c; otherwise the bucket holds four other keys, so the
      table does not hold c, and nothing changes.
     */
    method PutInTable(w: Which, c: K, cv: V) returns (done: bool)
      requires Valid() && tableSize > 0 && c != empty
      modifies Table(w), this`elements
      ensures Valid()
      ensures done ==> MapIn(w) == old(MapIn(w))[c := cv]
      ensures done ==> elements == old(elements) + (if c in old(MapIn(w)) then 0 else 1)
      ensures !done ==> Table(w)[..] == old(Table(w)[..]) && elements == old(elements)
      ensures !done ==> c !in MapIn(w) && MapIn(w) == old(MapIn(w))
      ensures !done ==> HomeFull(w, c)
    {
      var b := BucketOf(w, tableSize, c);
      ghost var t := Table(w)[..];
      done := PutInBucket(Table(w), b.value, c, cv);
      if done {
        assert Table(w)[..] == t[b.value := BucketPut(t[b.value], c, cv, empty).1];
        TablePut(t, tableSize, w, c, cv);
        TablePutInserts(t, tableSize, w, c, cv);
      } else {
        TableMiss(t, tableSize, w, c);
        assert Table(w)[..] == t;
      }
    }

    /**
      cuckoo on the full bucket of c in one table, which does not hold c:
      the table's map loses the handed-back key and gains c.
     */
    method EvictInTable(w: Which, c: K, cv: V) returns (p: K, pv: V)
      requires Valid() && tableSize > 0 && c != empty
      requires HomeFull(w, c)
      modifies Table(w)
      ensures Valid()
      ensures p != empty && p != c && p in old(MapIn(w)) && old(MapIn(w))[p] == pv
      ensures MapIn(w) == (old(MapIn(w)) - {p})[c := cv]
      ensures w == Primary ==> Map2() == old(Map2())
      ensures w == Secondary ==> Map1() == old(Map1())
    {
      var b := BucketOf(w, tableSize, c);
      ghost var t := Table(w)[..];
      p, pv := Cuckoo(Table(w), b.value, c, cv);
      assert Table(w)[..] == t[b.value := Evict(t[b.value], Node(c, cv)).0];
      TableEvict(t, tableSize, w, Node(c, cv));
    }

    /** A successful put of the carried pair into table 1 leaves k placed with value v. */
    lemma PlacedAfterPrimary(m1: map<K, V>, m2: map<K, V>, k: K, v: V, c: K, cv: V)
      requires (c == k && cv == v) || Carrying(m1, m2, k, v, c, cv)
      ensures Placed(m1[c := cv], m2, k, v)
    {
    }

    /** A successful put into table 2 of a pair table 1 does not hold leaves k placed with value v. */
    lemma PlacedAfterSecondary(m1: map<K, V>, m2: map<K, V>, k: K, v: V, c: K, cv: V)
      requires (c == k && cv == v) || Carrying(m1, m2, k, v, c, cv)
      requires c !in m1
      ensures Placed(m1, m2[c := cv], k, v)
    {
    }

    /**
      An eviction by the carried pair, which neither table holds, keeps k's
      whereabouts, with the handed-back pair carried on; the tables' keys
      plus the new carried key are the old ones plus the old carried key,
      and no pair is stored or carried that was not before.
     */
    lemma CarryingAfterEvict(w: Which, m1: map<K, V>, m2: map<K, V>, n1: map<K, V>, n2: map<K, V>,
                             k: K, v: V, c: K, cv: V, p: K, pv: V)
      requires EvictedBy(w, m1, m2, n1, n2, c, cv, p, pv)
      requires (c == k && cv == v) || Carrying(m1, m2, k, v, c, cv)
      requires c !in m1 && c !in m2
      ensures Carrying(n1, n2, k, v, p, pv)
      ensures n1.Keys + n2.Keys + {p} == m1.Keys + m2.Keys + {c}
      ensures Pairs(n1) + Pairs(n2) + {Node(p, pv)} <= Pairs(m1) + Pairs(m2) + {Node(c, cv)}
    {
      PairsAfterEvict(w, m1, m2, n1, n2, c, cv, p, pv);
    }

    /**
      Whether the put loop's attempt grows the tables: unallocated, load
      above .9, or above .75 late in the loop; the loads are compared
      without division.
     */
    predicate NeedsGrowth(attempt: nat): (r: bool)
      reads this
      ensures r <==> tableSize == 0 || LoadFactor() > 0.9 || (LoadFactor() > 0.75 && attempt >= LateAttempts)
    {
      LoadExceedsIsExact(9, 10);
      LoadExceedsIsExact(3, 4);
      tableSize == 0 || LoadExceeds(9, 10) || (LoadExceeds(3, 4) && attempt >= LateAttempts)
    }

    /** The head of an attempt of the put loop: grow the tables when they need it, keeping both maps. */
    method GrowIfNeeded(attempt: nat)
      requires Valid()
      modifies this`tableSize, this`table1, this`table2, this`elements
      ensures Valid() && tableSize > 0
      ensures tableSize == if old(NeedsGrowth(attempt)) then GrownSize(old(tableSize)) else old(tableSize)
      ensures fresh(table1) || table1 == old(table1)
      ensures fresh(table2) || table2 == old(table2)
      ensures MapIn(Primary) == old(MapIn(Primary)) && MapIn(Secondary) == old(MapIn(Secondary))
      ensures overflow == old(overflow) && arraySize == old(arraySize) && elements == old(elements)
    {
      if NeedsGrowth(attempt) {
        Resize();
      }
    }

    /**
      put into the bucket of c in table 1, else into its bucket in table 2;
      when both are full, neither table holds c and nothing changes.
     */
    method PlaceInTables(c: K, cv: V) returns (done: bool)
      requires Valid() && tableSize > 0 && c != empty
      modifies table1, table2, this`elements
      ensures Valid()
      ensures done ==> PutInto(old(MapIn(Primary)), old(MapIn(Secondary)), MapIn(Primary), MapIn(Secondary),
                               c, cv, old(elements), elements)
      ensures !done ==> MapIn(Primary) == old(MapIn(Primary)) && MapIn(Secondary) == old(MapIn(Secondary))
      ensures !done ==> c !in MapIn(Primary) && c !in MapIn(Secondary) && elements == old(elements)
      ensures !done ==> HomeFull(Primary, c) && HomeFull(Secondary, c)
    {
      ghost var m2 := MapIn(Secondary);
      done := PutInTable(Primary, c, cv);
      if done {
        assert MapIn(Secondary) == m2;
        return;
      }
      ghost var m1 := MapIn(Primary);
      done := PutInTable(Secondary, c, cv);
      assert MapIn(Primary) == m1;
    }

    /** Placing the carried pair in a table keeps k placed and adds c to the keys. */
    lemma PlacedAfterPlacing(m1: map<K, V>, m2: map<K, V>, n1: map<K, V>, n2: map<K, V>,
                             k: K, v: V, c: K, cv: V, e0: nat, e1: nat)
      requires (c == k && cv == v) || Carrying(m1, m2, k, v, c, cv)
      requires PutInto(m1, m2, n1, n2, c, cv, e0, e1)
      ensures Placed(n1, n2, k, v)
      ensures n1.Keys + n2.Keys == m1.Keys + m2.Keys + {c}
      ensures Pairs(n1) + Pairs(n2) <= Pairs(m1) + Pairs(m2) + {Node(c, cv)}
      ensures e1 == e0 || e1 == e0 + 1
    {
      PairsAfterPut(m1, m2, n1, n2, c, cv, e0, e1);
      if n1 == m1[c := cv] && n2 == m2 {
        PlacedAfterPrimary(m1, m2, k, v, c, cv);
      } else {
        PlacedAfterSecondary(m1, m2, k, v, c, cv);
      }
    }

    /**
      The tail of an attempt of the put loop, on allocated tables: put the
      carried pair into its table-1 bucket, else into its table-2 bucket,
      else evict from the bucket of the table the attempt's parity names
      and hand the evicted pair back to be carried on.
     */
    method PlaceOrEvict(c: K, cv: V, attempt: nat) returns (done: bool, c': K, cv': V)
      requires Valid() && tableSize > 0 && c != empty
      modifies table1, table2, this`elements
      ensures Valid()
      ensures done ==> PutInto(old(MapIn(Primary)), old(MapIn(Secondary)), MapIn(Primary), MapIn(Secondary),
                               c, cv, old(elements), elements)
      ensures !done ==> c' != empty && c !in old(MapIn(Primary)) && c !in old(MapIn(Secondary))
      ensures !done ==> EvictedBy(if attempt % 2 == 0 then Primary else Secondary,
                                  old(MapIn(Primary)), old(MapIn(Secondary)), MapIn(Primary), MapIn(Secondary),
                                  c, cv, c', cv')
      ensures !done ==> elements == old(elements)
    {
      c', cv' := c, cv;
      done := PlaceInTables(c, cv);
      if !done {
        var w := if attempt % 2 == 0 then Primary else Secondary;
        c', cv' := EvictInTable(w, c, cv);
      }
    }

    /**
      One attempt of the put loop: grow the tables when they are
      unallocated or too loaded, then place the carried pair or evict.
      Growing keeps both maps, so the outcome is stated on the maps before
      the attempt.
     */
    method Attempt(c: K, cv: V, attempt: nat) returns (done: bool, c': K, cv': V)
      requires Valid() && c != empty
      modifies this`tableSize, this`table1, this`table2, this`elements, table1, table2
      ensures Valid() && tableSize > 0 && old(tableSize) <= tableSize
      ensures fresh(table1) || table1 == old(table1)
      ensures fresh(table2) || table2 == old(table2)
      ensures overflow == old(overflow) && arraySize == old(arraySize)
      ensures done ==> PutInto(old(MapIn(Primary)), old(MapIn(Secondary)), MapIn(Primary), MapIn(Secondary),
                               c, cv, old(elements), elements)
      ensures !done ==> c' != empty && c !in old(MapIn(Primary)) && c !in old(MapIn(Secondary))
      ensures !done ==> EvictedBy(if attempt % 2 == 0 then Primary else Secondary,
                                  old(MapIn(Primary)), old(MapIn(Secondary)), MapIn(Primary), MapIn(Secondary),
                                  c, cv, c', cv')
      ensures !done ==> elements == old(elements)
    {
      GrowIfNeeded(attempt);
      done, c', cv' := PlaceOrEvict(c, cv, attempt);
    }

    /**
      The scan of the end of put: overwrite the value of c where the
      overflow array holds it, and report whether it did.
     */
    method OverwriteInArray(c: K, cv: V) returns (found: bool)
      requires overflow.Length == arraySize && ArrayOk(overflow[..], empty) && c != empty
      modifies overflow
      ensures ArrayOk(overflow[..], empty)
      ensures found <==> c in ArrayKeys(old(overflow[..]), empty)
      ensures found ==> StoredInArray(old(overflow[..]), overflow[..], c, cv)
      ensures found ==> ArrayKeys(overflow[..], empty) == old(ArrayKeys(overflow[..], empty))
      ensures found ==> Occupied(overflow[..], empty) <= old(Occupied(overflow[..], empty)) + {Node(c, cv)}
      ensures found ==> FindKey(overflow[..], c, 0).Some? && overflow[FindKey(overflow[..], c, 0).value] == Node(c, cv)
      ensures !found ==> overflow[..] == old(overflow[..])
    {
      for i := 0 to arraySize
        invariant forall j :: 0 <= j < i ==> overflow[j].key != c
      {
        if overflow[i].key == c {
          ghost var a := overflow[..];
          ArrayOverwrite(a, i, Node(c, cv), empty);
          overflow[i] := overflow[i].(val := cv);
          assert overflow[..] == a[i := Node(c, cv)];
          return true;
        }
      }
      return false;
    }

    /**
      The end of put: overwrite the value of the carried key in the
      overflow array, or grow the array by a free slot at its head and
      store the pair there, counting one more element.
     */
    method PutInOverflow(c: K, cv: V)
      requires overflow.Length == arraySize && ArrayOk(overflow[..], empty) && c != empty
      modifies this`overflow, this`arraySize, this`elements, overflow
      ensures overflow.Length == arraySize && ArrayOk(overflow[..], empty)
      ensures StoredInArray(old(overflow[..]), overflow[..], c, cv)
      ensures ArrayKeys(overflow[..], empty) == old(ArrayKeys(overflow[..], empty)) + {c}
      ensures Occupied(overflow[..], empty) <= old(Occupied(overflow[..], empty)) + {Node(c, cv)}
      ensures FindKey(overflow[..], c, 0).Some? && overflow[FindKey(overflow[..], c, 0).value] == Node(c, cv)
      ensures c in old(ArrayKeys(overflow[..], empty)) ==> arraySize == old(arraySize) && elements == old(elements)
      ensures c !in old(ArrayKeys(overflow[..], empty)) ==> arraySize == old(arraySize) + 1 && elements == old(elements) + 1
      ensures fresh(overflow) || overflow == old(overflow)
    {
      var found := OverwriteInArray(c, cv);
      if !found {
        ghost var a := overflow[..];
        ArrayPrepend(a, Node(c, cv), empty);
        MakeRoomAtArrayHead();
        overflow[0] := Node(c, cv);
        elements := elements + 1;
        assert overflow[..] == [Node(c, cv)] + a;
      }
    }

    /**
      The end of put for a pair still carried after the attempts: the
      pair goes to the overflow array, the tables stay as they are, and k
      is then held with value v.
     */
    method PutLeftover(k: K, v: V, c: K, cv: V)
      requires Valid() && c != empty && Carrying(MapIn(Primary), MapIn(Secondary), k, v, c, cv)
      modifies this`overflow, this`arraySize, this`elements, overflow
      ensures Valid() && Find(k) == Some(v)
      ensures StoredInArray(old(overflow[..]), overflow[..], c, cv)
      ensures Occupied(overflow[..], empty) <= old(Occupied(overflow[..], empty)) + {Node(c, cv)}
      ensures TablePairs() == old(TablePairs())
      ensures Keys() == old(Keys()) + {c}
      ensures arraySize == old(arraySize) || arraySize == old(arraySize) + 1
      ensures elements == old(elements) || elements == old(elements) + 1
      ensures fresh(overflow) || overflow == old(overflow)
      ensures tableSize == old(tableSize) && table1 == old(table1) && table2 == old(table2)
    {
      ghost var t1, t2 := table1[..], table2[..];
      PutInOverflow(c, cv);
      assert table1[..] == t1 && table2[..] == t2;
    }

    /**
      The attempts of put: up to 128 of them, carrying evicted pairs on.
      Either k ends up placed in a table with value v, or a pair is still
      carried that neither table holds; either way the tables' keys gain
      exactly k, counting the carried key, and no pair is stored or
      carried that was not stored before, but (k, v). A key table 1
      already holds is overwritten there at the first attempt.
     */
    method PutInTables(k: K, v: V) returns (done: bool, c: K, cv: V)
      requires Valid() && k != empty
      modifies this`tableSize, this`table1, this`table2, this`elements, table1, table2
      ensures Valid() && tableSize > 0 && old(tableSize) <= tableSize
      ensures overflow == old(overflow) && arraySize == old(arraySize)
      ensures done ==> Placed(MapIn(Primary), MapIn(Secondary), k, v) && TableKeys() == old(TableKeys()) + {k}
      ensures done ==> TablePairs() <= old(TablePairs()) + {Node(k, v)}
      ensures done ==> elements == old(elements) || elements == old(elements) + 1
      ensures !done ==> c != empty && Carrying(MapIn(Primary), MapIn(Secondary), k, v, c, cv)
      ensures !done ==> TableKeys() + {c} == old(TableKeys()) + {k} && elements == old(elements)
      ensures !done ==> TablePairs() + {Node(c, cv)} <= old(TablePairs()) + {Node(k, v)}
      ensures k in old(MapIn(Primary)) ==>
                && done && elements == old(elements)
                && MapIn(Primary) == old(MapIn(Primary))[k := v] && MapIn(Secondary) == old(MapIn(Secondary))
      ensures fresh(table1) || table1 == old(table1)
      ensures fresh(table2) || table2 == old(table2)
    {
      c, cv, done := k, v, false;
      for attempt := 0 to MaxAttempts
        invariant Valid() && c != empty
        invariant old(tableSize) <= tableSize
        invariant overflow == old(overflow) && arraySize == old(arraySize)
        invariant elements == old(elements)
        invariant attempt == 0 ==> c == k && cv == v
        invariant attempt == 0 ==> MapIn(Primary) == old(MapIn(Primary)) && MapIn(Secondary) == old(MapIn(Secondary))
        invariant attempt > 0 ==> k !in old(MapIn(Primary)) && tableSize > 0
        invariant attempt > 0 ==> Carrying(MapIn(Primary), MapIn(Secondary), k, v, c, cv)
        invariant TableKeys() + {c} == old(TableKeys()) + {k}
        invariant TablePairs() + {Node(c, cv)} <= old(TablePairs()) + {Node(k, v)}
        invariant fresh(table1) || table1 == old(table1)
        invariant fresh(table2) || table2 == old(table2)
      {
        ghost var m1, m2, e0, c0, cv0 := MapIn(Primary), MapIn(Secondary), elements, c, cv;
        done, c, cv := Attempt(c, cv, attempt);
        if done {
          PlacedAfterPlacing(m1, m2, MapIn(Primary), MapIn(Secondary), k, v, c0, cv0, e0, elements);
          return;
        }
        CarryingAfterEvict(if attempt % 2 == 0 then Primary else Secondary, m1, m2, MapIn(Primary), MapIn(Secondary),
                           k, v, c0, cv0, c, cv);
      }
    }

    /**
      The body of put: the attempts on the tables, then the overflow array
      for a pair still carried. Afterwards k is held with value v, no key
      is lost or added but k, and no pair is stored that was not stored
      before, but (k, v). A key table 1 already holds is overwritten there
      and nothing else changes.
     */
    method PutPair(k: K, v: V)
      requires Valid() && k != empty
      modifies this, table1, table2, overflow
      ensures Valid()
      ensures tableSize > 0 && old(tableSize) <= tableSize
      ensures Keys() == old(Keys()) + {k}
      ensures Find(k) == Some(v)
      ensures Nodes() <= old(Nodes()) + {Node(k, v)}
      ensures k in old(MapIn(Primary)) ==> elements == old(elements)
      ensures k in old(MapIn(Primary)) ==>
                && MapIn(Primary) == old(MapIn(Primary))[k := v] && MapIn(Secondary) == old(MapIn(Secondary))
                && overflow[..] == old(overflow[..])
      ensures arraySize == old(arraySize) || arraySize == old(arraySize) + 1
      ensures elements == old(elements) || elements == old(elements) + 1
      ensures fresh(table1) || table1 == old(table1)
      ensures fresh(table2) || table2 == old(table2)
      ensures fresh(overflow) || overflow == old(overflow)
    {
      ghost var a0, tk0, tp0 := overflow[..], TableKeys(), TablePairs();
      ghost var an0, ak := Occupied(a0, empty), ArrayKeys(a0, empty);
      var done, c, cv := PutInTables(k, v);
      assert overflow[..] == a0;
      ghost var tk, tp := TableKeys(), TablePairs();
      if done {
        KeysAfterPlacing(tk0, tk, ak, k);
        PairsAfterPlacing(tp0, tp, an0, Node(k, v));
      } else {
        PutLeftover(k, v, c, cv);
        KeysAfterOverflow(tk0, tk, ak, k, c, Keys());
        PairsAfterOverflow(tp0, tp, an0, Occupied(overflow[..], empty), Node(k, v), Node(c, cv));
      }
    }

    /**
      put: afterwards k is held with value v, and no key is lost or added
      but k. No pair is stored that was not stored before, but (k, v), so
      the lookup of every other key whose stored copies all had the same
      value is unchanged.
     */
    method Put(k: K, v: V) returns (ok: bool)
      requires Valid() && k != empty
      modifies this, table1, table2, overflow
      ensures Valid() && ok
      ensures tableSize > 0 && old(tableSize) <= tableSize
      ensures Keys() == old(Keys()) + {k}
      ensures Find(k) == Some(v)
      ensures Nodes() <= old(Nodes()) + {Node(k, v)}
      ensures forall x :: x != k && x != empty && OneValue(old(Nodes()), x) ==>
                Find(x) == FindIn(old(MapIn(Primary)), old(MapIn(Secondary)), old(overflow[..]), x)
      ensures k in old(MapIn(Primary)) ==> elements == old(elements)
      ensures k in old(MapIn(Primary)) ==>
                && MapIn(Primary) == old(MapIn(Primary))[k := v] && MapIn(Secondary) == old(MapIn(Secondary))
                && overflow[..] == old(overflow[..])
      ensures arraySize == old(arraySize) || arraySize == old(arraySize) + 1
      ensures elements == old(elements) || elements == old(elements) + 1
      ensures fresh(table1) || table1 == old(table1)
      ensures fresh(table2) || table2 == old(table2)
      ensures fresh(overflow) || overflow == old(overflow)
    {
      ghost var m1, m2, a0 := MapIn(Primary), MapIn(Secondary), overflow[..];
      PutPair(k, v);
      FindKept(m1, m2, a0, MapIn(Primary), MapIn(Secondary), overflow[..], empty, k, v);
      return true;
    }
  }
}
