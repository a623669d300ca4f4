/**
 `forAllEvaluatedBlocks`: visiting the evaluated blocks below a block.

 Blocks may be shared and may form cycles.  The children of a block are its constant values;
 one may be missing (an optional argument) or be something other than a block.
 */
module Blocks {

  type Block = nat

  datatype Child = Missing | NotABlock | Evaluated(block: Block)

  type Graph = map<Block, seq<Child>>

  /** Every block mentioned is in the graph. */
  ghost predicate Closed(g: Graph) {
    forall b, i :: b in g && 0 <= i < |g[b]| && g[b][i].Evaluated? ==> g[b][i].block in g
  }

  ghost predicate Edge(g: Graph, a: Block, b: Block) {
    a in g && Evaluated(b) in g[a]
  }

  ghost predicate Path(g: Graph, p: seq<Block>) {
    |p| > 0 && forall i :: 0 < i < |p| ==> Edge(g, p[i - 1], p[i])
  }

  ghost predicate Reachable(g: Graph, root: Block, b: Block) {
    exists p :: Path(g, p) && p[0] == root && p[|p| - 1] == b
  }

  lemma RootReachable(g: Graph, root: Block)
    ensures Reachable(g, root, root)
  {
    assert Path(g, [root]);
  }

  lemma ReachableStep(g: Graph, root: Block, a: Block, b: Block)
    requires Reachable(g, root, a) && Edge(g, a, b)
    ensures Reachable(g, root, b)
  {
    var p :| Path(g, p) && p[0] == root && p[|p| - 1] == a;
    var q := p + [b];
    forall i | 0 < i < |q| ensures Edge(g, q[i - 1], q[i]) {
      if i < |p| { assert q[i - 1] == p[i - 1] && q[i] == p[i]; }
    }
    assert Path(g, q);
  }

  /** A set that holds the root and is closed under children holds everything reachable. */
  lemma {:induction false} ClosedHoldsPath(g: Graph, s: set<Block>, p: seq<Block>)
    requires Path(g, p) && p[0] in s
    requires forall a, b :: a in s && Edge(g, a, b) ==> b in s
    ensures p[|p| - 1] in s
  {
    if |p| > 1 {
      var q := p[..|p| - 1];
      assert Path(g, q);
      ClosedHoldsPath(g, s, q);
      assert Edge(g, p[|p| - 2], p[|p| - 1]);
    }
  }

  ghost predicate NoDuplicates(s: seq<Block>) {
    forall i, j :: 0 <= i < j < |s| ==> s[i] != s[j]
  }

  /** What the worklist loop keeps: nothing is waiting twice or waiting after its visit, all of
      it is reachable, and the children of visited blocks are visited or waiting. */
  ghost predicate Inv(g: Graph, root: Block, visited: seq<Block>, frontier: seq<Block>) {
    && NoDuplicates(visited + frontier)
    && (root in visited || root in frontier)
    && (forall b :: b in visited || b in frontier ==> b in g && Reachable(g, root, b))
    && (forall a, b :: a in visited && Edge(g, a, b) ==> b in visited || b in frontier)
  }

  /** `function` is called on the blocks of `calls`, in that order. */
  method ForAllEvaluatedBlocks(g: Graph, root: Block) returns (calls: seq<Block>)
    requires Closed(g) && root in g
    ensures NoDuplicates(calls)
    ensures forall b :: b in calls <==> Reachable(g, root, b)
  {
    calls := [];
    var frontier := [root];
    RootReachable(g, root);
    while frontier != []
      invariant Inv(g, root, calls, frontier)
      decreases |g.Keys - (set b | b in calls)|
    {
      var block := frontier[0];
      ghost var before, waiting := calls, frontier;
      frontier := frontier[1..];
      calls := calls + [block];
      frontier := AddChildren(g, root, calls, frontier, block, before, waiting);
      Progress(g.Keys, before, block);
    }
    assert calls + frontier == calls;
    forall b | Reachable(g, root, b) ensures b in calls {
      var p :| Path(g, p) && p[0] == root && p[|p| - 1] == b;
      ClosedHoldsPath(g, (set x | x in calls), p);
    }
  }

  lemma Progress(all: set<Block>, calls: seq<Block>, block: Block)
    requires block in all && block !in calls
    ensures |all - (set b | b in calls + [block])| < |all - (set b | b in calls)|
  {
    var x, y := all - (set b | b in calls), all - (set b | b in calls + [block]);
    assert x == y + {block};
  }

  /** The inner loop: children that are blocks and not yet visited join the frontier once. */
  method AddChildren(g: Graph, ghost root: Block, visited: seq<Block>, frontier: seq<Block>, block: Block,
                     ghost before: seq<Block>, ghost waiting: seq<Block>)
      returns (f: seq<Block>)
    requires Closed(g) && Inv(g, root, before, waiting) && waiting != []
    requires block == waiting[0] && visited == before + [block] && frontier == waiting[1..]
    ensures Inv(g, root, visited, f) && block !in before && block in g
  {
    f := frontier;
    assert visited + f == before + waiting;
    assert block in waiting;
    assert block !in before by {
      var all := before + waiting;
      assert all[|before|] == block;
      forall i | 0 <= i < |before| ensures before[i] != block { assert all[i] == before[i]; }
    }
    var children := g[block];
    var i := 0;
    while i < |children|
      invariant 0 <= i <= |children|
      invariant frontier <= f && NoDuplicates(visited + f)
      invariant forall b :: b in f ==> b in g && Reachable(g, root, b)
      invariant forall k :: 0 <= k < i && children[k].Evaluated? ==> children[k].block in visited || children[k].block in f
    {
      var child := children[i];
      if child.Evaluated? && child.block !in visited && child.block !in f {
        ReachableStep(g, root, block, child.block);
        assert visited + (f + [child.block]) == visited + f + [child.block];
        f := f + [child.block];
      }
      i := i + 1;
    }
    forall a, b | a in visited && Edge(g, a, b) ensures b in visited || b in f {
      if a == block {
        var k :| 0 <= k < |children| && children[k] == Evaluated(b);
      } else {
        assert a in before;
        assert b in before || b in waiting;
        if b in waiting && b != block { assert b in frontier; }
      }
    }
  }
}
