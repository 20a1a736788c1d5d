/**
 * The chain graph: which idiom may follow which, the edge set the build
 * loop must produce, and chains (paths) over it.
 */
module Chain {
  import opened Runes
  import opened Idiom

  /** `b` may follow `a` in a chain: a's last rune is b's first, and they differ. */
  predicate IsChainStep(a: Text, b: Text) {
    |a| > 0 && |b| > 0 && a != b && End(a) == Begin(b)
  }

  /** The edges of the chain graph over the idioms `keys`. */
  function ChainEdges(keys: set<Text>): set<(Text, Text)> {
    set a, b | a in keys && b in keys && IsChainStep(a, b) :: (a, b)
  }

  /** The edges that visiting `x` adds into `x`: one from each idiom of `keys` ending with x's first rune. */
  function EdgesInto(keys: set<Text>, x: Text): set<(Text, Text)>
    requires |x| > 0
  {
    set a | a in keys && |a| > 0 && End(a) == Begin(x) :: (a, x)
  }

  /** The edges that visiting `x` adds out of `x`: one to each idiom of `keys` beginning with x's last rune. */
  function EdgesOutOf(keys: set<Text>, x: Text): set<(Text, Text)>
    requires |x| > 0
  {
    set b | b in keys && |b| > 0 && End(x) == Begin(b) :: (x, b)
  }

  /**
   * Adding an idiom not yet in the graph adds exactly the edges between it
   * and the idioms already there, in both directions, and no self edge.
   */
  lemma ChainEdgesAdd(keys: set<Text>, x: Text)
    requires |x| > 0 && x !in keys
    ensures ChainEdges(keys + {x}) == ChainEdges(keys) + EdgesInto(keys, x) + EdgesOutOf(keys, x)
  {
    var lhs, rhs := ChainEdges(keys + {x}), ChainEdges(keys) + EdgesInto(keys, x) + EdgesOutOf(keys, x);
    forall e | e in lhs ensures e in rhs {
      var (a, b) := e;
      assert a in keys || b in keys;
    }
  }

  /** The graph has no self edges. */
  lemma NoSelfEdge(keys: set<Text>, a: Text)
    ensures (a, a) !in ChainEdges(keys)
  {
  }

  /** `p` is a chain: every consecutive pair is an edge of `edges`. */
  ghost predicate IsChain(edges: set<(Text, Text)>, p: seq<Text>) {
    forall i :: 0 < i < |p| ==> (p[i - 1], p[i]) in edges
  }

  /** `p` is a chain from `b` to `e`, both included. */
  ghost predicate IsChainFrom(edges: set<(Text, Text)>, p: seq<Text>, b: Text, e: Text) {
    |p| > 0 && p[0] == b && p[|p| - 1] == e && IsChain(edges, p)
  }

  /** `p` is a chain from `b` to `e` and no chain between them is shorter. */
  ghost predicate IsShortestChain(edges: set<(Text, Text)>, p: seq<Text>, b: Text, e: Text) {
    IsChainFrom(edges, p, b, e) && forall q :: IsChainFrom(edges, q, b, e) ==> |p| <= |q|
  }

  /**
   * The answer `ShortestPath(b, e)` documents: empty when `e` cannot be
   * reached from `b`, otherwise a shortest chain `[b, ..., e]`.
   */
  ghost predicate ShortestPathAnswer(edges: set<(Text, Text)>, p: seq<Text>, b: Text, e: Text) {
    if p == [] then forall q :: !IsChainFrom(edges, q, b, e) else IsShortestChain(edges, p, b, e)
  }

  /** In a chain of the idiom graph, each idiom's last rune is the next one's first rune. */
  lemma ChainLinksRunes(keys: set<Text>, p: seq<Text>, i: nat)
    requires IsChain(ChainEdges(keys), p) && 0 < i < |p|
    ensures p[i - 1] in keys && p[i] in keys && p[i - 1] != p[i]
    ensures |p[i - 1]| > 0 && |p[i]| > 0 && End(p[i - 1]) == Begin(p[i])
  {
    assert (p[i - 1], p[i]) in ChainEdges(keys);
  }

  /**
   * A group of idioms none of which ends with the first rune of an idiom
   * outside it: a chain that starts inside the group never leaves it.
   */
  lemma {:induction false} ChainStaysInGroup(keys: set<Text>, group: set<Text>, p: seq<Text>)
    requires forall a, b :: a in group && b in keys && b !in group && |a| > 0 && |b| > 0 ==> End(a) != Begin(b)
    requires IsChain(ChainEdges(keys), p) && |p| > 0 && p[0] in group
    ensures forall x <- p :: x in group
  {
    if |p| > 1 {
      var front := p[..|p| - 1];
      assert IsChain(ChainEdges(keys), front);
      ChainStaysInGroup(keys, group, front);
      ChainLinksRunes(keys, p, |p| - 1);
      assert p[|p| - 2] in front;
      assert forall x <- p :: x in front || x == p[|p| - 1];
    }
  }

  /** Between two groups with no boundary rune in common there is no chain. */
  lemma NoChainAcrossGroups(keys: set<Text>, group: set<Text>, b: Text, e: Text)
    requires forall a, c :: a in group && c in keys && c !in group && |a| > 0 && |c| > 0 ==> End(a) != Begin(c)
    requires b in group && e !in group
    ensures forall q :: !IsChainFrom(ChainEdges(keys), q, b, e)
    ensures ShortestPathAnswer(ChainEdges(keys), [], b, e)
  {
    forall q | IsChainFrom(ChainEdges(keys), q, b, e) ensures false {
      ChainStaysInGroup(keys, group, q);
    }
  }

  /**
   * A small graph: "爱屋及乌" ends with the rune "乌烟瘴气" begins with, which
   * ends with the rune "气壮山河" begins with. Those are its only two edges,
   * and the chain through all three is the shortest from the first to the last.
   */
  lemma ThreeIdiomChain()
    ensures var a, b, c := "爱屋及乌", "乌烟瘴气", "气壮山河";
      && ChainEdges({a, b, c}) == {(a, b), (b, c)}
      && IsShortestChain(ChainEdges({a, b, c}), [a, b, c], a, c)
  {
    var a, b, c := "爱屋及乌", "乌烟瘴气", "气壮山河";
    var edges := ChainEdges({a, b, c});
    assert End(a) == Begin(b) && End(b) == Begin(c);
    assert End(a) != Begin(c) && End(c) != Begin(a) && End(c) != Begin(b) && End(b) != Begin(a);
    assert End(a) != Begin(a) && End(c) != Begin(c);
    assert edges == {(a, b), (b, c)};
  }

  /**
   * In that graph the shortest chain from "爱屋及乌" to "气壮山河" is unique:
   * the only answer `ShortestPath` may give is the chain through all three.
   */
  lemma ThreeIdiomAnswer(p: seq<Text>)
    requires ShortestPathAnswer(ChainEdges({"爱屋及乌", "乌烟瘴气", "气壮山河"}), p, "爱屋及乌", "气壮山河")
    ensures p == ["爱屋及乌", "乌烟瘴气", "气壮山河"]
  {
    var a, b, c := "爱屋及乌", "乌烟瘴气", "气壮山河";
    var edges := ChainEdges({a, b, c});
    ThreeIdiomChain();
    assert IsChainFrom(edges, [a, b, c], a, c);
    assert p != [];
    assert |p| <= 3;
    assert |p| != 1 by { assert a != c; }
    if |p| == 2 {
      assert false;
    }
    assert (p[0], p[1]) in edges;
    assert p[1] == b;
  }

  /**
   * The one-idiom sequence `[x]` is a chain from `x` to `x`, so the only
   * answer for a path from an idiom to itself is `[x]`, never the empty
   * sequence.
   */
  lemma ShortestPathToItself(edges: set<(Text, Text)>, p: seq<Text>, x: Text)
    requires ShortestPathAnswer(edges, p, x, x)
    ensures p == [x]
  {
    assert IsChainFrom(edges, [x], x, x);
    assert |p| == 1;
  }
}
