/**
 * The idiom graph: the table of idioms, the three boundary-rune indices and
 * the chain graph, built once by the loader and read-only afterwards.
 */
module IdiomGraphs {
  import opened Wrappers
  import opened Runes
  import opened LineReader
  import opened Idiom
  import opened Index
  import opened Chain
  import opened Paging

  class IdiomGraph {
    /** The idioms by text. */
    var idioms: map<Text, IdiomNode>
    /** Nodes by first rune, by last rune, and by (first, last) pair. */
    var bindex: map<char, seq<IdiomNode>>
    var eindex: map<char, seq<IdiomNode>>
    var beindex: map<BeKey, seq<IdiomNode>>
    /** The chain graph: the ids of its nodes, and its edges by idiom text. */
    var nodeIds: set<int>
    var edges: set<(Text, Text)>
    /** The order in which the build loop visited the idioms (Go's map iteration order). */
    ghost var order: seq<Text>

    /** The idiom table as the read loop leaves it: valid idioms under their own text, with distinct ids. */
    ghost predicate Loaded()
      reads this`idioms
    {
      WellFormed(idioms) && DistinctIds(idioms)
    }

    /** `n` is the node stored for its text. */
    ghost predicate Stored(n: IdiomNode)
      reads this`idioms
    {
      n.idiom in idioms && idioms[n.idiom] == n
    }

    /** The idioms the build loop has visited. */
    ghost function Visited(): set<Text>
      reads this`order
    {
      Members(order)
    }

    /** The three indices as the build loop leaves them after visiting `order`. */
    ghost predicate Indexed()
      reads this`idioms, this`order, this`bindex, this`eindex, this`beindex
    {
      && Loaded()
      && Indexes(idioms, order, bindex, eindex, beindex)
    }

    /** The indices and the graph as the build loop leaves them after visiting `order`. */
    ghost predicate Built()
      reads this
    {
      && Indexed()
      && nodeIds == IdsOf(idioms, Visited())
      && edges == ChainEdges(Visited())
    }

    /** The finished graph: the build loop has visited every idiom. */
    ghost predicate Valid()
      reads this
    {
      Built() && forall k :: k in idioms ==> k in order
    }

    /** The rest of `LoadIdiomGraph` once the idiom table is read: the build loop. */
    constructor FromTable(table: map<Text, IdiomNode>)
      requires WellFormed(table) && DistinctIds(table)
      ensures Valid() && idioms == table
    {
      idioms, bindex, eindex, beindex := table, map[], map[], map[];
      nodeIds, edges, order := {}, {}, [];
      new;
      Build();
    }

    /**
     * `LoadIdiomGraph`: reads the input line by line, stores every trimmed
     * line of at least two runes under a fresh id, then builds the indices
     * and the chain graph. A read error other than end of file yields no
     * graph, only the error.
     */
    static method Load(input: Stream) returns (g: IdiomGraph?, err: Option<IoError>)
      ensures err == input.failure
      ensures err.Some? ==> g == null
      ensures err.None? ==> g != null && fresh(g) && g.Valid() && g.idioms == Register(Accepted(input.data))
    {
      var graphId := 0;
      var table: map<Text, IdiomNode> := map[];
      var pos := 0;
      ghost var acc: seq<Text> := [];
      while true
        invariant pos <= |input.data|
        invariant table == Register(acc) && graphId == |acc|
        invariant forall t <- acc :: IsValidIdiom(t)
        invariant acc + Accept(LinesFrom(input.data, pos)) == Accepted(input.data)
        decreases |input.data| - pos
      {
        var chunk := ReadString(input, pos);
        if chunk.status.Broken? {
          return null, Some(chunk.status.error);
        }
        ReadLoopStep(input, pos, acc);
        var idiom := TrimSpace(chunk.line);
        if IsValidIdiom(idiom) {
          RegisterAppend(acc, idiom);
          table := table[idiom := IdiomNode(graphId, idiom)];
          graphId := graphId + 1;
          acc := acc + [idiom];
        }
        if !chunk.status.Delimited? {
          break;
        }
        pos := chunk.next;
      }
      RegisterWellFormed(acc);
      g := new IdiomGraph.FromTable(table);
      err := None;
    }

    /** `graph.AddNode`: the graph library rejects a node whose id is already present. */
    method AddNode(n: IdiomNode)
      requires n.id !in nodeIds
      modifies this`nodeIds
      ensures nodeIds == old(nodeIds) + {n.id}
    {
      nodeIds := nodeIds + {n.id};
    }

    /**
     * `graph.SetEdge` with the uniform edge weight: the graph library rejects
     * a self edge, adds missing end points and records the edge.
     */
    method SetEdge(from: IdiomNode, to: IdiomNode)
      requires from.id != to.id
      modifies this`nodeIds, this`edges
      ensures nodeIds == old(nodeIds) + {from.id, to.id}
      ensures edges == old(edges) + {(from.idiom, to.idiom)}
    {
      nodeIds := nodeIds + {from.id, to.id};
      edges := edges + {(from.idiom, to.idiom)};
    }

    /**
     * The build loop of `LoadIdiomGraph`: visits the idioms in whatever order
     * the map iteration yields, which the model leaves arbitrary.
     */
    method Build()
      requires Loaded()
      requires bindex == map[] && eindex == map[] && beindex == map[] && nodeIds == {} && edges == {}
      modifies this
      ensures Valid() && idioms == old(idioms)
    {
      order := [];
      var remaining := idioms.Keys;
      while remaining != {}
        invariant Built() && idioms == old(idioms)
        invariant forall k :: k in idioms <==> k in order || k in remaining
        invariant forall k :: k in order ==> k !in remaining
        decreases remaining
      {
        var idiom :| idiom in remaining;
        Visit(idiom);
        remaining := remaining - {idiom};
      }
    }

    /**
     * One turn of the build loop for `idiom`: add its node, wire the edges
     * between it and the idioms visited before, then append it to its three
     * buckets.
     */
    method Visit(idiom: Text)
      requires Built() && idiom in idioms && idiom !in order
      modifies this`bindex, this`eindex, this`beindex, this`nodeIds, this`edges, this`order
      ensures Built() && idioms == old(idioms) && order == old(order) + [idiom]
    {
      var node := idioms[idiom];
      ghost var visited := Visited();
      MembersAppend(order, idiom);
      IdsOfFresh(idioms, visited, idiom);
      AddNode(node);
      WireInto(node);
      WireOutOf(node);
      ChainEdgesAdd(visited, idiom);
      Index(node);
      assert Visited() == visited + {idiom};
    }

    /**
     * The indexing step of `LoadIdiomGraph` (idioms/idiom_graph.go,
     * lines 111-114): append `node` to the bucket of its key in each of the
     * three indices.
     */
    method Index(node: IdiomNode)
      requires Indexed() && Stored(node) && node.idiom !in order
      modifies this`bindex, this`eindex, this`beindex, this`order
      ensures Indexed() && order == old(order) + [node.idiom]
    {
      var idiom := node.idiom;
      var bword, eword, beindexKey := Begin(idiom), End(idiom), BeKeyOf(idiom);
      IndexesAppend(idioms, order, bindex, eindex, beindex, node);
      bindex := bindex[bword := Lookup(bindex, bword) + [node]];
      eindex := eindex[eword := Lookup(eindex, eword) + [node]];
      beindex := beindex[beindexKey := Lookup(beindex, beindexKey) + [node]];
      order := order + [idiom];
    }

    /**
     * The first wiring loop of `LoadIdiomGraph` (idioms/idiom_graph.go,
     * lines 104-106): an edge into `node` from every visited idiom ending
     * with its first rune.
     */
    method WireInto(node: IdiomNode)
      requires Indexed() && Stored(node) && node.idiom !in order
      requires IdsOf(idioms, Visited()) + {node.id} <= nodeIds
      modifies this`edges, this`nodeIds
      ensures nodeIds == old(nodeIds)
      ensures edges == old(edges) + EdgesInto(Visited(), node.idiom)
    {
      var froms := Lookup(eindex, Begin(node.idiom));
      BucketIds(idioms, order, End, Begin(node.idiom), node.idiom);
      EdgesFromBucket(idioms, order, node.idiom);
      SetEdgesInto(froms, node);
    }

    /**
     * The second wiring loop of `LoadIdiomGraph` (lines 107-109): an edge
     * out of `node` to every visited idiom beginning with its last rune.
     */
    method WireOutOf(node: IdiomNode)
      requires Indexed() && Stored(node) && node.idiom !in order
      requires IdsOf(idioms, Visited()) + {node.id} <= nodeIds
      modifies this`edges, this`nodeIds
      ensures nodeIds == old(nodeIds)
      ensures edges == old(edges) + EdgesOutOf(Visited(), node.idiom)
    {
      var tos := Lookup(bindex, End(node.idiom));
      BucketIds(idioms, order, Begin, End(node.idiom), node.idiom);
      EdgesToBucket(idioms, order, node.idiom);
      SetEdgesOutOf(node, tos);
    }

    /** `graph.SetEdge(from, node)` for each `from` of `froms` in turn. */
    method SetEdgesInto(froms: seq<IdiomNode>, node: IdiomNode)
      requires node.id in nodeIds
      requires forall n <- froms :: n.id in nodeIds && n.id != node.id
      modifies this`edges, this`nodeIds
      ensures nodeIds == old(nodeIds)
      ensures edges == old(edges) + EdgesFrom(froms, node.idiom)
    {
      assert froms[..|froms|] == froms;
      var i := 0;
      while i < |froms|
        invariant 0 <= i <= |froms|
        invariant nodeIds == old(nodeIds)
        invariant edges == old(edges) + EdgesFrom(froms[..i], node.idiom)
      {
        SetEdge(froms[i], node);
        EdgesFromStep(froms, node.idiom, i);
        i := i + 1;
      }
    }

    /** `graph.SetEdge(node, to)` for each `to` of `tos` in turn. */
    method SetEdgesOutOf(node: IdiomNode, tos: seq<IdiomNode>)
      requires node.id in nodeIds
      requires forall n <- tos :: n.id in nodeIds && n.id != node.id
      modifies this`edges, this`nodeIds
      ensures nodeIds == old(nodeIds)
      ensures edges == old(edges) + EdgesTo(node.idiom, tos)
    {
      assert tos[..|tos|] == tos;
      var i := 0;
      while i < |tos|
        invariant 0 <= i <= |tos|
        invariant nodeIds == old(nodeIds)
        invariant edges == old(edges) + EdgesTo(node.idiom, tos[..i])
      {
        SetEdge(node, tos[i]);
        EdgesToStep(node.idiom, tos, i);
        i := i + 1;
      }
    }

    /** `Find`: the stored node for `idiom`, or none when it was not loaded. */
    function Find(idiom: Text): (r: Option<IdiomNode>)
      reads this
      requires Valid()
      ensures r.Some? <==> idiom in idioms
      ensures r.Some? ==> Stored(r.value) && r.value.idiom == idiom
    {
      if idiom in idioms then Some(idioms[idiom]) else None
    }

    /**
     * `BeginWith`: the page selected by (offset, length) of the bucket of
     * idioms beginning with `word`.
     */
    function BeginWith(word: char, offset: int, length: int): (r: seq<IdiomNode>)
      reads this
      requires Valid()
      ensures r == Window(Lookup(bindex, word), offset, length)
      ensures forall n <- r :: Stored(n) && Begin(n.idiom) == word
      ensures (forall n :: Stored(n) ==> Begin(n.idiom) != word) ==> r == []
    {
      var nodes := Lookup(bindex, word);
      var (start, end) := Normalize(offset, length, |nodes|);
      BucketExactly(idioms, order, Begin, word);
      assert start < end ==> nodes[start] in nodes;
      nodes[start..end]
    }

    /** `EndWith`: the page of the bucket of idioms ending with `word`. */
    function EndWith(word: char, offset: int, length: int): (r: seq<IdiomNode>)
      reads this
      requires Valid()
      ensures r == Window(Lookup(eindex, word), offset, length)
      ensures forall n <- r :: Stored(n) && End(n.idiom) == word
      ensures (forall n :: Stored(n) ==> End(n.idiom) != word) ==> r == []
    {
      var nodes := Lookup(eindex, word);
      var (start, end) := Normalize(offset, length, |nodes|);
      BucketExactly(idioms, order, End, word);
      assert start < end ==> nodes[start] in nodes;
      nodes[start..end]
    }

    /** `BeginEndWith`: the page of the bucket of idioms beginning with `bword` and ending with `eword`. */
    function BeginEndWith(bword: char, eword: char, offset: int, length: int): (r: seq<IdiomNode>)
      reads this
      requires Valid()
      ensures r == Window(Lookup(beindex, BeKey(bword, eword)), offset, length)
      ensures forall n <- r :: Stored(n) && Begin(n.idiom) == bword && End(n.idiom) == eword
      ensures (forall n :: Stored(n) ==> Begin(n.idiom) != bword || End(n.idiom) != eword) ==> r == []
    {
      var nodes := Lookup(beindex, BeKey(bword, eword));
      var (start, end) := Normalize(offset, length, |nodes|);
      BucketExactly(idioms, order, BeKeyOf, BeKey(bword, eword));
      assert start < end ==> nodes[start] in nodes;
      nodes[start..end]
    }

    /**
     * `ShortestPath(b, e)`: copies the path the shortest-path library answers
     * for (b, e), given here as `between`, into the result. The library's
     * answer is taken to be what `ShortestPath` documents: empty when `e`
     * cannot be reached from `b`, otherwise a shortest chain from `b` to `e`.
     */
    method ShortestPath(b: IdiomNode, e: IdiomNode, between: seq<IdiomNode>) returns (returnpath: seq<IdiomNode>)
      requires Valid() && Stored(b) && Stored(e) && forall n <- between :: Stored(n)
      requires ShortestPathAnswer(edges, Texts(between), b.idiom, e.idiom)
      ensures returnpath == between
      ensures returnpath != [] ==> returnpath[0] == b && returnpath[|returnpath| - 1] == e
      ensures forall i :: 0 < i < |returnpath| ==>
        returnpath[i - 1] != returnpath[i] && End(returnpath[i - 1].idiom) == Begin(returnpath[i].idiom)
      ensures b == e ==> returnpath == [b]
    {
      returnpath := CopyPath(between);
      AnswerAsNodes(idioms, Visited(), b, e, between);
    }

    /** Every stored node sits exactly once in the bucket of its key in each index, and in no other bucket. */
    lemma BucketInvariant(n: IdiomNode)
      requires Valid()
      ensures forall c :: multiset(Lookup(bindex, c))[n] == if Stored(n) && Begin(n.idiom) == c then 1 else 0
      ensures forall c :: multiset(Lookup(eindex, c))[n] == if Stored(n) && End(n.idiom) == c then 1 else 0
      ensures forall c :: multiset(Lookup(beindex, c))[n] == if Stored(n) && BeKeyOf(n.idiom) == c then 1 else 0
    {
      forall c: char ensures multiset(Lookup(bindex, c))[n] == if Stored(n) && Begin(n.idiom) == c then 1 else 0 {
        BucketCount(idioms, order, Begin, c, n);
      }
      forall c: char ensures multiset(Lookup(eindex, c))[n] == if Stored(n) && End(n.idiom) == c then 1 else 0 {
        BucketCount(idioms, order, End, c, n);
      }
      forall c: BeKey ensures multiset(Lookup(beindex, c))[n] == if Stored(n) && BeKeyOf(n.idiom) == c then 1 else 0 {
        BucketCount(idioms, order, BeKeyOf, c, n);
      }
    }

    /** Each index holds as many entries as there are idioms. */
    lemma IndexSizes()
      requires Valid()
      ensures Entries(bindex) == |idioms| && Entries(eindex) == |idioms| && Entries(beindex) == |idioms|
    {
      IndexEntries(idioms, order, Begin);
      IndexEntries(idioms, order, End);
      IndexEntries(idioms, order, BeKeyOf);
      DistinctCount(order);
      assert Visited() == idioms.Keys;
    }

    /**
     * The chain graph has an edge from A to B exactly when both are loaded,
     * they differ and A's last rune is B's first; its nodes are the ids of
     * all loaded idioms.
     */
    lemma EdgeInvariant(a: Text, b: Text)
      requires Valid()
      ensures (a, b) in edges <==> a in idioms && b in idioms && a != b && End(a) == Begin(b)
      ensures nodeIds == IdsOf(idioms, idioms.Keys)
    {
      assert Visited() == idioms.Keys;
    }
  }

  /** The nodes of `path`, as idiom texts. */
  function Texts(path: seq<IdiomNode>): (ts: seq<Text>)
    ensures |ts| == |path| && forall i :: 0 <= i < |path| ==> ts[i] == path[i].idiom
  {
    seq(|path|, i requires 0 <= i < |path| => path[i].idiom)
  }

  /**
   * Whatever order the map iteration of the build loop takes, two graphs
   * built from the same idioms have the same chain graph and the same
   * bucket contents; only the order inside a bucket may differ.
   */
  lemma OrderIndependent(g1: IdiomGraph, g2: IdiomGraph)
    requires g1.Valid() && g2.Valid() && g1.idioms == g2.idioms
    ensures g1.edges == g2.edges && g1.nodeIds == g2.nodeIds
    ensures forall c :: multiset(Lookup(g1.bindex, c)) == multiset(Lookup(g2.bindex, c))
    ensures forall c :: multiset(Lookup(g1.eindex, c)) == multiset(Lookup(g2.eindex, c))
    ensures forall c :: multiset(Lookup(g1.beindex, c)) == multiset(Lookup(g2.beindex, c))
  {
    assert g1.Visited() == g2.Visited();
    forall c: char ensures multiset(Lookup(g1.bindex, c)) == multiset(Lookup(g2.bindex, c)) {
      BucketOrderIrrelevant(g1.idioms, g1.order, g2.order, Begin, c);
    }
    forall c: char ensures multiset(Lookup(g1.eindex, c)) == multiset(Lookup(g2.eindex, c)) {
      BucketOrderIrrelevant(g1.idioms, g1.order, g2.order, End, c);
    }
    forall c: BeKey ensures multiset(Lookup(g1.beindex, c)) == multiset(Lookup(g2.beindex, c)) {
      BucketOrderIrrelevant(g1.idioms, g1.order, g2.order, BeKeyOf, c);
    }
  }

  /**
   * `Find` on a loaded graph: an idiom is found exactly when some input
   * line trims to it and it has at least two runes; its id is the position
   * of its last occurrence among the accepted lines.
   */
  lemma FindAfterLoad(g: IdiomGraph, data: Text, t: Text)
    requires g.Valid() && g.idioms == Register(Accepted(data))
    ensures g.Find(t).Some? <==> IsValidIdiom(t) && exists l <- Lines(data) :: TrimSpace(l) == t
    ensures g.Find(t).Some? ==>
      var acc := Accepted(data);
      var n := g.Find(t).value;
      0 <= n.id < |acc| && acc[n.id] == t && forall j :: n.id < j < |acc| ==> acc[j] != t
  {
    LoadedIdioms(data, t);
  }

  /** The copy loop of `ShortestPath`: the library's path, node by node, into a fresh slice. */
  method CopyPath(path: seq<IdiomNode>) returns (copy: seq<IdiomNode>)
    ensures copy == path
  {
    copy := [];
    var i := 0;
    while i < |path|
      invariant 0 <= i <= |path|
      invariant copy == path[..i]
    {
      copy := copy + [path[i]];
      i := i + 1;
    }
  }

  /**
   * A shortest-path answer read back as stored nodes: it starts at `b`,
   * ends at `e`, and each node differs from the next and ends with the
   * rune the next one begins with; from an idiom to itself it is that one
   * node.
   */
  lemma AnswerAsNodes(m: map<Text, IdiomNode>, keys: set<Text>, b: IdiomNode, e: IdiomNode, path: seq<IdiomNode>)
    requires forall n <- path :: n.idiom in m && m[n.idiom] == n
    requires b.idiom in m && m[b.idiom] == b && e.idiom in m && m[e.idiom] == e
    requires ShortestPathAnswer(ChainEdges(keys), Texts(path), b.idiom, e.idiom)
    ensures path != [] ==> path[0] == b && path[|path| - 1] == e
    ensures forall i :: 0 < i < |path| ==>
      path[i - 1] != path[i] && End(path[i - 1].idiom) == Begin(path[i].idiom)
    ensures b == e ==> path == [b]
  {
    var ts := Texts(path);
    if b == e {
      ShortestPathToItself(ChainEdges(keys), ts, b.idiom);
    }
    if path != [] {
      assert ts[0] == b.idiom && ts[|ts| - 1] == e.idiom;
      assert path[0] in path && path[|path| - 1] in path;
    }
    forall i | 0 < i < |path|
      ensures path[i - 1] != path[i] && End(path[i - 1].idiom) == Begin(path[i].idiom)
    {
      ChainLinksRunes(keys, ts, i);
    }
  }

  /** The edges from each of `froms` into `x`. */
  ghost function EdgesFrom(froms: seq<IdiomNode>, x: Text): set<(Text, Text)> {
    set n <- froms :: (n.idiom, x)
  }

  /** The edges from `x` to each of `tos`. */
  ghost function EdgesTo(x: Text, tos: seq<IdiomNode>): set<(Text, Text)> {
    set n <- tos :: (x, n.idiom)
  }

  lemma EdgesFromStep(froms: seq<IdiomNode>, x: Text, i: nat)
    requires i < |froms|
    ensures EdgesFrom(froms[..i + 1], x) == EdgesFrom(froms[..i], x) + {(froms[i].idiom, x)}
  {
    assert froms[..i + 1] == froms[..i] + [froms[i]];
  }

  lemma EdgesToStep(x: Text, tos: seq<IdiomNode>, i: nat)
    requires i < |tos|
    ensures EdgesTo(x, tos[..i + 1]) == EdgesTo(x, tos[..i]) + {(x, tos[i].idiom)}
  {
    assert tos[..i + 1] == tos[..i] + [tos[i]];
  }

  /** The ids of the stored idioms among `keys`. */
  ghost function IdsOf(m: map<Text, IdiomNode>, keys: set<Text>): set<int> {
    set k | k in keys && k in m :: m[k].id
  }

  /** An idiom not yet visited has an id no visited idiom has. */
  lemma IdsOfFresh(m: map<Text, IdiomNode>, keys: set<Text>, x: Text)
    requires DistinctIds(m) && x in m && x !in keys
    ensures m[x].id !in IdsOf(m, keys)
    ensures IdsOf(m, keys + {x}) == IdsOf(m, keys) + {m[x].id}
  {
  }

  /**
   * Before `x` is visited, a bucket holds only the stored nodes of idioms
   * visited earlier that have the bucket's key; none of them is x's node.
   */
  lemma BucketIsVisited<K>(m: map<Text, IdiomNode>, order: seq<Text>, key: Text --> K, c: K, x: Text)
    requires WellFormed(m) && NoDuplicates(order)
    requires forall k <- order :: k in m && key.requires(k)
    requires x !in order
    ensures forall n <- Bucket(m, order, key, c) ::
      n.idiom in order && m[n.idiom] == n && key(n.idiom) == c && n.idiom != x
  {
    forall n | n in Bucket(m, order, key, c)
      ensures n.idiom in order && m[n.idiom] == n && key(n.idiom) == c
    {
      BucketMembers(m, order, key, c, n);
    }
  }

  /** Every node in a bucket of the visited idioms other than x's has an id already in the graph. */
  lemma BucketIds<K>(m: map<Text, IdiomNode>, order: seq<Text>, key: Text --> K, c: K, x: Text)
    requires WellFormed(m) && DistinctIds(m) && NoDuplicates(order)
    requires forall k <- order :: k in m && key.requires(k)
    requires x in m && x !in order
    ensures forall n <- Bucket(m, order, key, c) :: n.id in IdsOf(m, Members(order)) && n.id != m[x].id
  {
    BucketIsVisited(m, order, key, c, x);
  }

  /**
   * The edges wired from the last-rune bucket of x's first rune are exactly
   * the edges into x from the idioms visited so far.
   */
  lemma EdgesFromBucket(m: map<Text, IdiomNode>, order: seq<Text>, x: Text)
    requires WellFormed(m) && NoDuplicates(order)
    requires forall k <- order :: k in m
    requires |x| > 0
    ensures var froms := Bucket(m, order, End, Begin(x));
      EdgesFrom(froms, x) == EdgesInto(Members(order), x)
  {
    var froms := Bucket(m, order, End, Begin(x));
    var lhs := EdgesFrom(froms, x);
    forall j | 0 <= j < |froms| ensures froms[j].idiom in order && End(froms[j].idiom) == Begin(x) {
      BucketMembers(m, order, End, Begin(x), froms[j]);
    }
    forall a | a in order && End(a) == Begin(x) ensures (a, x) in lhs {
      BucketMembers(m, order, End, Begin(x), m[a]);
      var j :| 0 <= j < |froms| && froms[j] == m[a];
    }
  }

  /**
   * The edges wired to the first-rune bucket of x's last rune are exactly
   * the edges out of x to the idioms visited so far.
   */
  lemma EdgesToBucket(m: map<Text, IdiomNode>, order: seq<Text>, x: Text)
    requires WellFormed(m) && NoDuplicates(order)
    requires forall k <- order :: k in m
    requires |x| > 0
    ensures var tos := Bucket(m, order, Begin, End(x));
      EdgesTo(x, tos) == EdgesOutOf(Members(order), x)
  {
    var tos := Bucket(m, order, Begin, End(x));
    var lhs := EdgesTo(x, tos);
    forall j | 0 <= j < |tos| ensures tos[j].idiom in order && Begin(tos[j].idiom) == End(x) {
      BucketMembers(m, order, Begin, End(x), tos[j]);
    }
    forall b | b in order && Begin(b) == End(x) ensures (x, b) in lhs {
      BucketMembers(m, order, Begin, End(x), m[b]);
      var j :| 0 <= j < |tos| && tos[j] == m[b];
    }
  }

  /** Once every idiom is visited, a bucket holds exactly the stored nodes with the bucket's key. */
  lemma BucketExactly<K>(m: map<Text, IdiomNode>, order: seq<Text>, key: Text --> K, c: K)
    requires WellFormed(m) && NoDuplicates(order)
    requires forall k <- order :: k in m && key.requires(k)
    requires forall k :: k in m ==> k in order
    ensures forall n :: n in Bucket(m, order, key, c) <==> n.idiom in m && m[n.idiom] == n && key(n.idiom) == c
  {
    forall n ensures n in Bucket(m, order, key, c) <==> n.idiom in m && m[n.idiom] == n && key(n.idiom) == c {
      BucketMembers(m, order, key, c, n);
    }
  }
}
