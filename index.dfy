/**
 * The three boundary-rune indices (`bindex`, `eindex`, `beindex`) as the
 * build loop leaves them: buckets of nodes keyed by a function of the
 * idiom's text, filled in the order the loop visits the idioms.
 */
module Index {
  import opened Runes
  import opened Idiom

  predicate NoDuplicates<T(==)>(s: seq<T>) {
    forall i, j :: 0 <= i < j < |s| ==> s[i] != s[j]
  }

  /** Listing one more idiom, not listed yet, keeps the list free of repeats. */
  lemma NoDuplicatesAppend(order: seq<Text>, x: Text)
    requires NoDuplicates(order) && x !in order
    ensures NoDuplicates(order + [x])
  {
  }

  /** The idioms listed in `order`, as a set. */
  ghost function Members(order: seq<Text>): set<Text> {
    set k | k in order
  }

  /** Listing one more idiom adds it to the members. */
  lemma MembersAppend(order: seq<Text>, x: Text)
    ensures Members(order + [x]) == Members(order) + {x}
  {
  }

  /** Go's lookup of a missing key in a map of slices: the nil slice. */
  function Lookup<K(==)>(ix: map<K, seq<IdiomNode>>, c: K): seq<IdiomNode> {
    if c in ix then ix[c] else []
  }

  /**
   * The index after the build loop has visited the idioms `order` of table
   * `m`: each visited node appended to the bucket of its key.
   */
  function IndexBy<K(==)>(m: map<Text, IdiomNode>, order: seq<Text>, key: Text --> K): map<K, seq<IdiomNode>>
    requires forall k <- order :: k in m && key.requires(k)
    decreases |order|
  {
    if order == [] then map[]
    else
      var last := order[|order| - 1];
      var ix := IndexBy(m, order[..|order| - 1], key);
      ix[key(last) := Lookup(ix, key(last)) + [m[last]]]
  }

  /** The bucket for `c` after visiting `order`. */
  function Bucket<K(==)>(m: map<Text, IdiomNode>, order: seq<Text>, key: Text --> K, c: K): seq<IdiomNode>
    requires forall k <- order :: k in m && key.requires(k)
  {
    Lookup(IndexBy(m, order, key), c)
  }

  /**
   * Bucket invariant: a node occurs in the bucket of `c` exactly once when it
   * is the stored node of a visited idiom whose key is `c`, and otherwise not
   * at all.
   */
  lemma {:induction false} BucketCount<K>(m: map<Text, IdiomNode>, order: seq<Text>, key: Text --> K, c: K, n: IdiomNode)
    requires WellFormed(m) && NoDuplicates(order)
    requires forall k <- order :: k in m && key.requires(k)
    ensures multiset(Bucket(m, order, key, c))[n] ==
      if n.idiom in order && m[n.idiom] == n && key(n.idiom) == c then 1 else 0
  {
    if order != [] {
      var front, last := order[..|order| - 1], order[|order| - 1];
      BucketCount(m, front, key, c, n);
      assert forall t :: t in order <==> t in front || t == last;
      assert last !in front;
      var ix := IndexBy(m, front, key);
      if key(last) == c {
        assert Bucket(m, order, key, c) == Bucket(m, front, key, c) + [m[last]];
      } else {
        assert Bucket(m, order, key, c) == Bucket(m, front, key, c);
      }
    }
  }

  /**
   * The three indices `b`, `e`, `be` of table `m` after visiting the
   * distinct stored idioms `order`: by first rune, by last rune and by the
   * (first, last) pair.
   */
  ghost predicate Indexes(m: map<Text, IdiomNode>, order: seq<Text>,
                          b: map<char, seq<IdiomNode>>, e: map<char, seq<IdiomNode>>, be: map<BeKey, seq<IdiomNode>>)
  {
    && WellFormed(m)
    && NoDuplicates(order)
    && (forall k <- order :: k in m)
    && b == IndexBy(m, order, Begin)
    && e == IndexBy(m, order, End)
    && be == IndexBy(m, order, BeKeyOf)
  }

  /** Visiting one more stored idiom appends its node to its bucket in each index. */
  lemma IndexesAppend(m: map<Text, IdiomNode>, order: seq<Text>,
                      b: map<char, seq<IdiomNode>>, e: map<char, seq<IdiomNode>>, be: map<BeKey, seq<IdiomNode>>,
                      n: IdiomNode)
    requires Indexes(m, order, b, e, be)
    requires n.idiom in m && m[n.idiom] == n && n.idiom !in order
    ensures var x := n.idiom;
      Indexes(m, order + [x],
        b[Begin(x) := Lookup(b, Begin(x)) + [n]],
        e[End(x) := Lookup(e, End(x)) + [n]],
        be[BeKeyOf(x) := Lookup(be, BeKeyOf(x)) + [n]])
  {
    var x := n.idiom;
    IndexByAppend(m, order, Begin, x);
    IndexByAppend(m, order, End, x);
    IndexByAppend(m, order, BeKeyOf, x);
    NoDuplicatesAppend(order, x);
  }

  /** Visiting one more idiom appends its node to the bucket of its key. */
  lemma IndexByAppend<K>(m: map<Text, IdiomNode>, order: seq<Text>, key: Text --> K, x: Text)
    requires forall k <- order :: k in m && key.requires(k)
    requires x in m && key.requires(x)
    ensures var ix := IndexBy(m, order, key);
      IndexBy(m, order + [x], key) == ix[key(x) := Lookup(ix, key(x)) + [m[x]]]
  {
    assert (order + [x])[..|order|] == order;
  }

  /** A node is in a bucket exactly when it is a visited idiom's node with that key. */
  lemma BucketMembers<K>(m: map<Text, IdiomNode>, order: seq<Text>, key: Text --> K, c: K, n: IdiomNode)
    requires WellFormed(m) && NoDuplicates(order)
    requires forall k <- order :: k in m && key.requires(k)
    ensures n in Bucket(m, order, key, c) <==> n.idiom in order && m[n.idiom] == n && key(n.idiom) == c
  {
    BucketCount(m, order, key, c, n);
  }

  /**
   * The contents of a bucket, counted with multiplicity, do not depend on
   * the order in which the idioms were visited.
   */
  lemma BucketOrderIrrelevant<K>(m: map<Text, IdiomNode>, o1: seq<Text>, o2: seq<Text>, key: Text --> K, c: K)
    requires WellFormed(m) && NoDuplicates(o1) && NoDuplicates(o2)
    requires forall k <- o1 :: k in m && key.requires(k)
    requires forall k <- o2 :: k in m && key.requires(k)
    requires forall k :: k in o1 <==> k in o2
    ensures multiset(Bucket(m, o1, key, c)) == multiset(Bucket(m, o2, key, c))
  {
    forall n ensures multiset(Bucket(m, o1, key, c))[n] == multiset(Bucket(m, o2, key, c))[n] {
      BucketCount(m, o1, key, c, n);
      BucketCount(m, o2, key, c, n);
    }
  }

  /** The number of entries of an index, over all its buckets. */
  ghost function Entries<K>(ix: map<K, seq<IdiomNode>>): nat
    decreases |ix|
  {
    if ix == map[] then 0
    else
      var c :| c in ix;
      |ix[c]| + Entries(ix - {c})
  }

  /** `Entries` may be computed starting from any bucket. */
  lemma {:induction false} EntriesWithout<K>(ix: map<K, seq<IdiomNode>>, c: K)
    requires c in ix
    ensures Entries(ix) == |ix[c]| + Entries(ix - {c})
    decreases |ix|
  {
    var d :| d in ix && Entries(ix) == |ix[d]| + Entries(ix - {d});
    if d != c {
      var ixc, ixd := ix - {c}, ix - {d};
      assert |ixd| < |ix| by { assert ixd.Keys < ix.Keys; }
      assert |ixc| < |ix| by { assert ixc.Keys < ix.Keys; }
      EntriesWithout(ixd, c);
      EntriesWithout(ixc, d);
      assert ixd - {c} == ixc - {d};
    }
  }

  /** Appending one node to one bucket adds one entry to the index. */
  lemma EntriesAppend<K>(ix: map<K, seq<IdiomNode>>, c: K, n: IdiomNode)
    ensures Entries(ix[c := Lookup(ix, c) + [n]]) == Entries(ix) + 1
  {
    var ix' := ix[c := Lookup(ix, c) + [n]];
    EntriesWithout(ix', c);
    assert ix' - {c} == ix - {c};
    if c in ix {
      EntriesWithout(ix, c);
    } else {
      assert ix - {c} == ix;
    }
  }

  /** Each index holds one entry per visited idiom. */
  lemma {:induction false} IndexEntries<K>(m: map<Text, IdiomNode>, order: seq<Text>, key: Text --> K)
    requires forall k <- order :: k in m && key.requires(k)
    ensures Entries(IndexBy(m, order, key)) == |order|
  {
    if order != [] {
      var front, last := order[..|order| - 1], order[|order| - 1];
      IndexEntries(m, front, key);
      EntriesAppend(IndexBy(m, front, key), key(last), m[last]);
    }
  }

  /** A sequence without repeated elements has as many elements as its set. */
  lemma {:induction false} DistinctCount<T>(s: seq<T>)
    requires NoDuplicates(s)
    ensures |set x | x in s| == |s|
  {
    if s != [] {
      var front, last := s[..|s| - 1], s[|s| - 1];
      DistinctCount(front);
      assert (set x | x in s) == (set x | x in front) + {last};
      assert last !in front;
    }
  }

  /** Two idioms with the same key visited in turn land in their bucket in that order. */
  lemma BucketOfTwo<K>(m: map<Text, IdiomNode>, key: Text --> K, x: Text, y: Text)
    requires x in m && y in m && key.requires(x) && key.requires(y) && key(x) == key(y)
    ensures Bucket(m, [x, y], key, key(x)) == [m[x], m[y]]
  {
    assert [x, y][..1] == [x];
    assert [x][..0] == [];
    var ix0 := IndexBy(m, [], key);
    var ix1 := IndexBy(m, [x], key);
    assert ix0 == map[];
    assert ix1 == ix0[key(x) := Lookup(ix0, key(x)) + [m[x]]];
    assert IndexBy(m, [x, y], key) == ix1[key(y) := Lookup(ix1, key(y)) + [m[y]]];
  }

  /** Visiting one more idiom appends its node to its own bucket and leaves every other bucket as it was. */
  lemma BucketGrows<K>(m: map<Text, IdiomNode>, order: seq<Text>, key: Text --> K, c: K)
    requires forall k <- order :: k in m && key.requires(k)
    requires order != []
    ensures var front, last := order[..|order| - 1], order[|order| - 1];
      Bucket(m, order, key, c) ==
        if key(last) == c then Bucket(m, front, key, c) + [m[last]] else Bucket(m, front, key, c)
  {
  }

  /** A visited idiom's node is in the bucket of its key. */
  lemma {:induction false} BucketHasVisited<K>(m: map<Text, IdiomNode>, order: seq<Text>, key: Text --> K, i: nat)
    requires forall k <- order :: k in m && key.requires(k)
    requires i < |order|
    ensures m[order[i]] in Bucket(m, order, key, key(order[i]))
  {
    var front := order[..|order| - 1];
    BucketGrows(m, order, key, key(order[i]));
    if i < |order| - 1 {
      assert order[i] == front[i];
      BucketHasVisited(m, front, key, i);
    }
  }

  /**
   * The order inside a bucket is the visit order: of two visited idioms with
   * the same key, the one visited first has its node earlier in the bucket.
   */
  lemma {:induction false} BucketFollowsOrder<K>(m: map<Text, IdiomNode>, order: seq<Text>, key: Text --> K, i: nat, j: nat)
    requires forall k <- order :: k in m && key.requires(k)
    requires i < j < |order| && key(order[i]) == key(order[j])
    ensures var bucket := Bucket(m, order, key, key(order[j]));
      exists p, q :: 0 <= p < q < |bucket| && bucket[p] == m[order[i]] && bucket[q] == m[order[j]]
  {
    var front, last := order[..|order| - 1], order[|order| - 1];
    var c := key(order[j]);
    var bucket := Bucket(m, order, key, c);
    BucketGrows(m, order, key, c);
    var fb := Bucket(m, front, key, c);
    assert order[i] == front[i];
    if j < |order| - 1 {
      assert order[j] == front[j];
      BucketFollowsOrder(m, front, key, i, j);
      var p, q :| 0 <= p < q < |fb| && fb[p] == m[order[i]] && fb[q] == m[order[j]];
      assert bucket[p] == fb[p] && bucket[q] == fb[q];
    } else {
      BucketHasVisited(m, front, key, i);
      var p :| 0 <= p < |fb| && fb[p] == m[order[i]];
      assert bucket[p] == fb[p] && bucket[|fb|] == m[last];
    }
  }

  /**
   * So the order of a bucket depends on the map iteration order: the same two
   * idioms visited the other way round give the bucket in the other order.
   */
  lemma BucketOrderMatters<K>(m: map<Text, IdiomNode>, key: Text --> K, x: Text, y: Text)
    requires x in m && y in m && key.requires(x) && key.requires(y) && key(x) == key(y) && m[x] != m[y]
    ensures Bucket(m, [x, y], key, key(x)) != Bucket(m, [y, x], key, key(x))
  {
    BucketOfTwo(m, key, x, y);
    BucketOfTwo(m, key, y, x);
  }
}
