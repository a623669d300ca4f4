/**
 `Modifier::apply_visitor` with its `ChangeTracker`: rewriting a shared graph of IR nodes.

 Nodes live in a store and are told apart by their address.  The modifier clones a node,
 forwards the children that have been visited already, visits the children, rewrites the
 tag of the clone (the postorder function) and keeps the clone only when it differs from
 the original.  What a node means is the tree obtained by unfolding it; sharing must not show.
 */
module Modifiers {

  type Ptr = nat

  datatype Node = Node(tag: int, kids: seq<Ptr>)

  type Store = map<Ptr, Node>

  datatype Tree = Tree(tag: int, kids: seq<Tree>)

  // ---------------------------------------------------------------- graphs and their unfoldings

  /** Children are in the store and rank strictly lower. */
  ghost predicate Acyclic(s: Store, rank: map<Ptr, nat>) {
    && rank.Keys == s.Keys
    && forall p, i :: p in s && 0 <= i < |s[p].kids| ==> s[p].kids[i] in s && rank[s[p].kids[i]] < rank[p]
  }

  ghost function Unfold(s: Store, rank: map<Ptr, nat>, p: Ptr): Tree
    requires Acyclic(s, rank) && p in s
    decreases rank[p]
  {
    Tree(s[p].tag, seq(|s[p].kids|, i requires 0 <= i < |s[p].kids| => Unfold(s, rank, s[p].kids[i])))
  }

  /** The plain recursive rewriting of a tree. */
  function MapTree(f: int -> int, t: Tree): Tree {
    Tree(f(t.tag), seq(|t.kids|, i requires 0 <= i < |t.kids| => MapTree(f, t.kids[i])))
  }

  /** The nodes of a tree in preorder, each as its tag and its number of children. */
  function Preorder(t: Tree): seq<(int, nat)> {
    [(t.tag, |t.kids|)] + PreorderAll(t.kids)
  }

  function PreorderAll(ts: seq<Tree>): seq<(int, nat)> {
    if ts == [] then [] else Preorder(ts[0]) + PreorderAll(ts[1..])
  }

  /** Mapping a tree keeps its shape and applies the function once to every tag. */
  lemma {:induction false} MapTreePreorder(f: int -> int, t: Tree)
    ensures |Preorder(MapTree(f, t))| == |Preorder(t)|
    ensures forall i :: 0 <= i < |Preorder(t)| ==> Preorder(MapTree(f, t))[i] == (f(Preorder(t)[i].0), Preorder(t)[i].1)
    decreases t
  {
    MapAllPreorder(f, t.kids, MapTree(f, t).kids);
  }

  lemma {:induction false} MapAllPreorder(f: int -> int, ts: seq<Tree>, us: seq<Tree>)
    requires |us| == |ts| && forall i :: 0 <= i < |ts| ==> us[i] == MapTree(f, ts[i])
    ensures |PreorderAll(us)| == |PreorderAll(ts)|
    ensures forall i :: 0 <= i < |PreorderAll(ts)| ==> PreorderAll(us)[i] == (f(PreorderAll(ts)[i].0), PreorderAll(ts)[i].1)
    decreases ts
  {
    if ts == [] {
    } else {
      MapTreePreorder(f, ts[0]);
      MapAllPreorder(f, ts[1..], us[1..]);
    }
  }

  /** Following the pointers from p spells out t. */
  ghost predicate Spells(s: Store, p: Ptr, t: Tree)
    decreases t
  {
    && p in s && s[p].tag == t.tag && |s[p].kids| == |t.kids|
    && forall i :: 0 <= i < |t.kids| ==> Spells(s, s[p].kids[i], t.kids[i])
  }

  ghost predicate Extends(s: Store, s': Store) {
    forall p :: p in s ==> p in s' && s'[p] == s[p]
  }

  lemma {:induction false} SpellsExtends(s: Store, s': Store, p: Ptr, t: Tree)
    requires Spells(s, p, t) && Extends(s, s')
    ensures Spells(s', p, t)
    decreases t
  {
    forall i | 0 <= i < |t.kids| ensures Spells(s', s'[p].kids[i], t.kids[i]) {
      SpellsExtends(s, s', s[p].kids[i], t.kids[i]);
    }
  }

  lemma {:induction false} UnfoldSpells(s: Store, rank: map<Ptr, nat>, p: Ptr)
    requires Acyclic(s, rank) && p in s
    ensures Spells(s, p, Unfold(s, rank, p))
    decreases rank[p]
  {
    var t := Unfold(s, rank, p);
    forall i | 0 <= i < |t.kids| ensures Spells(s, s[p].kids[i], t.kids[i]) {
      UnfoldSpells(s, rank, s[p].kids[i]);
    }
  }

  /** q is p or lies below it. */
  ghost predicate Below(s: Store, rank: map<Ptr, nat>, p: Ptr, q: Ptr)
    requires Acyclic(s, rank) && p in s
    decreases rank[p]
  {
    q == p || exists i :: 0 <= i < |s[p].kids| && Below(s, rank, s[p].kids[i], q)
  }

  /** A pointer spells one tree only. */
  lemma {:induction false} SpellsUnique(s: Store, p: Ptr, t: Tree, u: Tree)
    requires Spells(s, p, t) && Spells(s, p, u)
    ensures t == u
    decreases t
  {
    forall i | 0 <= i < |t.kids| ensures t.kids[i] == u.kids[i] {
      SpellsUnique(s, s[p].kids[i], t.kids[i], u.kids[i]);
    }
    assert t.kids == u.kids;
  }

  // ---------------------------------------------------------------- ChangeTracker

  datatype Info = Info(inProgress: bool, visitOnce: bool, result: Ptr)

  type Visited = map<Ptr, Info>

  /** `done`. */
  predicate Done(visited: Visited, p: Ptr) {
    p in visited && !visited[p].inProgress && visited[p].visitOnce
  }

  /** What a finished original node stands for: its result spells the rewritten tree, is marked as
      visited itself, and is the node itself exactly when rewriting changes nothing below it. */
  ghost predicate Finished(f: int -> int, s0: Store, rank: map<Ptr, nat>, store: Store, visited: Visited, p: Ptr)
    requires Acyclic(s0, rank) && p in s0 && p in visited
  {
    var t, r := Unfold(s0, rank, p), visited[p].result;
    && Spells(store, r, MapTree(f, t))
    && (r == p <==> MapTree(f, t) == t)
    && (r != p ==> r !in s0)
    && Done(visited, r) && visited[r].result == r
  }

  ghost predicate AllFinished(f: int -> int, s0: Store, rank: map<Ptr, nat>, store: Store, visited: Visited)
    requires Acyclic(s0, rank)
  {
    forall p :: p in visited && p in s0 && !visited[p].inProgress ==> Finished(f, s0, rank, store, visited, p)
  }

  /** Children of a finished original node are finished. */
  ghost predicate DownClosed(s0: Store, visited: Visited) {
    forall p, i :: p in s0 && Done(visited, p) && 0 <= i < |s0[p].kids| ==> Done(visited, s0[p].kids[i])
  }

  /** Every node still in progress ranks at least k. */
  ghost predicate OpenAbove(rank: map<Ptr, nat>, visited: Visited, k: nat) {
    forall p :: p in visited && p in rank && visited[p].inProgress ==> k <= rank[p]
  }

  /** Nodes finished in the meantime lie below n. */
  ghost predicate OnlyBelow(s0: Store, rank: map<Ptr, nat>, visited: Visited, visited': Visited, n: Ptr)
    requires Acyclic(s0, rank) && n in s0
  {
    forall p :: p in s0 && Done(visited', p) && !Done(visited, p) ==> Below(s0, rank, n, p)
  }

  lemma {:induction false} DoneBelow(s0: Store, rank: map<Ptr, nat>, visited: Visited, p: Ptr, q: Ptr)
    requires Acyclic(s0, rank) && DownClosed(s0, visited) && p in s0 && Done(visited, p) && Below(s0, rank, p, q)
    ensures q in s0 && Done(visited, q)
    decreases rank[p]
  {
    if q != p {
      var i :| 0 <= i < |s0[p].kids| && Below(s0, rank, s0[p].kids[i], q);
      DoneBelow(s0, rank, visited, s0[p].kids[i], q);
    }
  }

  /** Only original nodes are in progress, and a result node is its own result. */
  ghost predicate Tracked(s0: Store, store: Store, visited: Visited) {
    && (forall p :: p in visited ==> visited[p].visitOnce && p in store)
    && (forall p :: p in visited && p !in s0 ==> !visited[p].inProgress && visited[p].result == p)
  }

  /** The postorder function was called once for every finished original node, and for no other. */
  ghost predicate CalledOnce(s0: Store, visited: Visited, calls: seq<Ptr>) {
    && (forall i, j :: 0 <= i < j < |calls| ==> calls[i] != calls[j])
    && (forall p :: p in calls <==> p in s0 && Done(visited, p))
  }

  ghost predicate Inv(f: int -> int, s0: Store, rank: map<Ptr, nat>, store: Store, next: Ptr, visited: Visited, calls: seq<Ptr>)
  {
    && Acyclic(s0, rank) && Extends(s0, store)
    && (forall p :: p in store ==> p < next)
    && Tracked(s0, store, visited)
    && AllFinished(f, s0, rank, store, visited)
    && CalledOnce(s0, visited, calls)
    && DownClosed(s0, visited)
  }

  /** Everything known stays known: the store only grows, at new addresses, and no record of a visit changes. */
  ghost predicate Grows(store: Store, next: Ptr, visited: Visited, store': Store, next': Ptr, visited': Visited) {
    && Extends(store, store') && next <= next'
    && (forall p :: p in store' ==> p in store || next <= p)
    && (forall p :: p in visited ==> p in visited' && visited'[p] == visited[p])
    && (forall p :: p in visited' && visited'[p].inProgress ==> p in visited)
  }

  lemma GrowsTransitive(s: Store, n: Ptr, v: Visited, s': Store, n': Ptr, v': Visited, s'': Store, n'': Ptr, v'': Visited)
    requires Grows(s, n, v, s', n', v') && Grows(s', n', v', s'', n'', v'')
    ensures Grows(s, n, v, s'', n'', v'')
  {
  }

  lemma FinishedGrows(f: int -> int, s0: Store, rank: map<Ptr, nat>, store: Store, visited: Visited, store': Store, visited': Visited, p: Ptr)
    requires Acyclic(s0, rank) && p in s0 && p in visited && Finished(f, s0, rank, store, visited, p)
    requires Extends(store, store') && p in visited' && visited'[p] == visited[p]
    requires visited[p].result in visited' && visited'[visited[p].result] == visited[visited[p].result]
    ensures Finished(f, s0, rank, store', visited', p)
  {
    SpellsExtends(store, store', visited[p].result, MapTree(f, Unfold(s0, rank, p)));
  }

  // ---------------------------------------------------------------- one node

  /** The clone of p once its children are results and its tag is rewritten. */
  ghost predicate Rebuilt(f: int -> int, s0: Store, rank: map<Ptr, nat>, store: Store, visited: Visited, p: Ptr, n: Node)
    requires Acyclic(s0, rank) && p in s0
  {
    && n.tag == f(s0[p].tag) && |n.kids| == |s0[p].kids|
    && forall i :: 0 <= i < |n.kids| ==>
         && s0[p].kids[i] in visited && visited[s0[p].kids[i]].result == n.kids[i]
         && Finished(f, s0, rank, store, visited, s0[p].kids[i])
  }

  /** The clone spells the rewritten tree, and equals the original exactly when nothing changed. */
  lemma RebuiltSpells(f: int -> int, s0: Store, rank: map<Ptr, nat>, store: Store, visited: Visited, p: Ptr, c: Ptr)
    requires Acyclic(s0, rank) && p in s0 && c in store
    requires Rebuilt(f, s0, rank, store, visited, p, store[c])
    ensures Spells(store, c, MapTree(f, Unfold(s0, rank, p)))
    ensures store[c] == s0[p] <==> MapTree(f, Unfold(s0, rank, p)) == Unfold(s0, rank, p)
  {
    var t, n := Unfold(s0, rank, p), store[c];
    var m := MapTree(f, t);
    forall i | 0 <= i < |m.kids| ensures Spells(store, n.kids[i], m.kids[i]) {
      assert Finished(f, s0, rank, store, visited, s0[p].kids[i]);
    }
    if n == s0[p] {
      forall i | 0 <= i < |m.kids| ensures m.kids[i] == t.kids[i] {
        assert Finished(f, s0, rank, store, visited, s0[p].kids[i]);
      }
      assert m.kids == t.kids;
    }
    if m == t {
      forall i | 0 <= i < |n.kids| ensures n.kids[i] == s0[p].kids[i] {
        assert Finished(f, s0, rank, store, visited, s0[p].kids[i]);
        assert m.kids[i] == t.kids[i];
      }
      assert n.kids == s0[p].kids;
    }
  }

  // ---------------------------------------------------------------- what each step keeps

  /** `start` on a node not seen before. */
  lemma StartKeeps(f: int -> int, s0: Store, rank: map<Ptr, nat>, store: Store, next: Ptr, visited: Visited, calls: seq<Ptr>, n: Ptr)
    requires Inv(f, s0, rank, store, next, visited, calls) && n in s0 && n !in visited
    ensures Inv(f, s0, rank, store, next, visited[n := Info(true, true, n)], calls)
  {
    var visited' := visited[n := Info(true, true, n)];
    forall p | p in visited' && p in s0 && !visited'[p].inProgress
      ensures Finished(f, s0, rank, store, visited', p)
    {
      FinishedGrows(f, s0, rank, store, visited, store, visited', p);
    }
  }

  lemma CallKeeps(s0: Store, visited: Visited, visited': Visited, calls: seq<Ptr>, n: Ptr)
    requires CalledOnce(s0, visited, calls) && n in s0 && !Done(visited, n) && Done(visited', n)
    requires forall p :: p in s0 && p != n ==> (Done(visited', p) <==> Done(visited, p))
    ensures CalledOnce(s0, visited', calls + [n])
  {
    assert n !in calls;
    forall p ensures p in calls + [n] <==> p in s0 && Done(visited', p) {
      assert p in calls + [n] <==> p in calls || p == n;
    }
  }

  /** What `finish` does to the records: n is finished with result r, and r is its own result. */
  ghost predicate Closes(s0: Store, store: Store, visited: Visited, store': Store, visited': Visited, n: Ptr, r: Ptr) {
    && Extends(store, store')
    && n in s0 && n in visited && visited[n].inProgress && r in store'
    && (r == n || (r !in s0 && r !in store))
    && n in visited' && visited'[n] == Info(false, true, r) && r in visited' && visited'[r] == Info(false, true, r)
    && (forall p :: p in visited && p != n ==> p in visited' && visited'[p] == visited[p])
    && (forall p :: p in visited' && p != n ==> p in visited || p == r)
  }

  lemma ClosesTracked(s0: Store, store: Store, visited: Visited, store': Store, visited': Visited, n: Ptr, r: Ptr)
    requires Tracked(s0, store, visited) && Closes(s0, store, visited, store', visited', n, r) && Extends(s0, store)
    ensures Tracked(s0, store', visited')
    ensures forall p :: p in s0 && p != n ==> (Done(visited', p) <==> Done(visited, p))
  {
  }

  /** Finishing n with a result that is rebuilt from it keeps every finished node finished. */
  lemma ClosesFinished(f: int -> int, s0: Store, rank: map<Ptr, nat>, store: Store, visited: Visited, store': Store, visited': Visited, n: Ptr, r: Ptr)
    requires Acyclic(s0, rank) && AllFinished(f, s0, rank, store, visited)
    requires Closes(s0, store, visited, store', visited', n, r)
    requires Rebuilt(f, s0, rank, store, visited, n, store'[r])
    requires r == n <==> store'[r] == s0[n]
    ensures AllFinished(f, s0, rank, store', visited')
  {
    forall p | p in visited && p in s0 && !visited[p].inProgress
      ensures Finished(f, s0, rank, store', visited', p)
    {
      FinishedGrows(f, s0, rank, store, visited, store', visited', p);
    }
    forall i | 0 <= i < |s0[n].kids| ensures Finished(f, s0, rank, store', visited, s0[n].kids[i]) {
      FinishedGrows(f, s0, rank, store, visited, store', visited, s0[n].kids[i]);
    }
    RebuiltSpells(f, s0, rank, store', visited, n, r);
    assert Finished(f, s0, rank, store', visited', n);
  }

  lemma ClosesInv(f: int -> int, s0: Store, rank: map<Ptr, nat>, store: Store, visited: Visited, calls: seq<Ptr>, store': Store, next: Ptr, visited': Visited, n: Ptr, r: Ptr)
    requires Inv(f, s0, rank, store, next, visited, calls)
    requires Closes(s0, store, visited, store', visited', n, r)
    requires Rebuilt(f, s0, rank, store, visited, n, store'[r])
    requires r == n <==> store'[r] == s0[n]
    requires forall p :: p in store' ==> p < next
    requires forall i :: 0 <= i < |s0[n].kids| ==> Done(visited, s0[n].kids[i])
    ensures Inv(f, s0, rank, store', next, visited', calls + [n])
  {
    ClosesTracked(s0, store, visited, store', visited', n, r);
    ClosesFinished(f, s0, rank, store, visited, store', visited', n, r);
    CallKeeps(s0, visited, visited', calls, n);
  }

  /** How far the children have come: the first `done` are results, the others are as they were or
      have been forwarded. */
  ghost predicate Forwarded(visited: Visited, orig: seq<Ptr>, kids: seq<Ptr>, done: nat) {
    && |kids| == |orig| && done <= |kids|
    && (forall i :: 0 <= i < done ==> Done(visited, orig[i]) && kids[i] == visited[orig[i]].result)
    && (forall i :: done <= i < |kids| ==> kids[i] == orig[i] || (Done(visited, orig[i]) && kids[i] == visited[orig[i]].result))
  }

  /** The next child can be visited: it is an original node of lower rank, or done already. */
  lemma ChildReady(f: int -> int, s0: Store, rank: map<Ptr, nat>, store: Store, next: Ptr, visited: Visited, calls: seq<Ptr>, n: Ptr, kids: seq<Ptr>, i: nat)
    requires Inv(f, s0, rank, store, next, visited, calls) && n in s0
    requires Forwarded(visited, s0[n].kids, kids, i) && i < |kids|
    ensures s0[n].kids[i] in s0 && rank[s0[n].kids[i]] < rank[n]
    ensures kids[i] == s0[n].kids[i] || (Done(visited, s0[n].kids[i]) && Done(visited, kids[i]) && visited[kids[i]].result == kids[i])
    ensures kids[i] in s0 ==> kids[i] == s0[n].kids[i]
  {
    var k := s0[n].kids[i];
    if kids[i] != k {
      assert Finished(f, s0, rank, store, visited, k);
    }
  }

  /** After the visit of child i one more child is a result. */
  lemma ChildVisited(visited: Visited, visited': Visited, orig: seq<Ptr>, kids: seq<Ptr>, i: nat, r: Ptr)
    requires Forwarded(visited, orig, kids, i) && i < |kids|
    requires forall p :: p in visited ==> p in visited' && visited'[p] == visited[p]
    requires Done(visited', kids[i]) && r == visited'[kids[i]].result
    requires kids[i] == orig[i] || (Done(visited, orig[i]) && Done(visited, kids[i]) && visited[kids[i]].result == kids[i])
    ensures Forwarded(visited', orig, kids[i := r], i + 1)
  {
    assert kids[i] != orig[i] ==> visited[orig[i]].result == kids[i];
  }

  lemma OnlyBelowChild(s0: Store, rank: map<Ptr, nat>, v: Visited, v': Visited, v'': Visited, n: Ptr, i: nat)
    requires Acyclic(s0, rank) && n in s0 && i < |s0[n].kids|
    requires OnlyBelow(s0, rank, v, v', n) && OnlyBelow(s0, rank, v', v'', s0[n].kids[i])
    ensures OnlyBelow(s0, rank, v, v'', n)
  {
    forall p | p in s0 && Done(v'', p) && !Done(v, p) ensures Below(s0, rank, n, p) {
      if Done(v', p) {
      } else {
        assert Below(s0, rank, s0[n].kids[i], p);
      }
    }
  }

  /** All children are results: the clone is what the node should be rewritten to. */
  lemma AllVisited(f: int -> int, s0: Store, rank: map<Ptr, nat>, store: Store, next: Ptr, visited: Visited, calls: seq<Ptr>, n: Ptr, kids: seq<Ptr>)
    requires Inv(f, s0, rank, store, next, visited, calls) && n in s0
    requires Forwarded(visited, s0[n].kids, kids, |kids|)
    ensures Rebuilt(f, s0, rank, store, visited, n, Node(f(s0[n].tag), kids))
    ensures forall i :: 0 <= i < |s0[n].kids| ==> Done(visited, s0[n].kids[i])
  {
    forall i | 0 <= i < |kids| ensures Finished(f, s0, rank, store, visited, s0[n].kids[i]) {
      assert s0[n].kids[i] in s0 && Done(visited, s0[n].kids[i]);
    }
  }

  /** Start, visit of the children, finish: together they only add. */
  lemma VisitGrows(s0: Store, rank: map<Ptr, nat>, s: Store, next: Ptr, v: Visited, s': Store, next': Ptr, v': Visited, s'': Store, v'': Visited, n: Ptr, r: Ptr)
    requires Acyclic(s0, rank) && n !in v && n in s0
    requires Grows(s, next + 1, v[n := Info(true, true, n)], s', next', v')
    requires Closes(s0, s', v', s'', v'', n, r) && (forall p :: p in s'' ==> p in s' || p == next)
    requires OnlyBelow(s0, rank, v[n := Info(true, true, n)], v', n)
    ensures Grows(s, next, v, s'', next', v'')
    ensures OnlyBelow(s0, rank, v, v'', n)
  {
  }

  class Modifier {
    const postorder: int -> int
    var store: Store
    var next: Ptr
    var visited: Visited
    var calls: seq<Ptr>

    ghost predicate Valid(s0: Store, rank: map<Ptr, nat>)
      reads this
    {
      Inv(postorder, s0, rank, store, next, visited, calls)
    }

    /** A modifier about to be applied to the graph s0. */
    constructor (f: int -> int, s0: Store, limit: Ptr, ghost rank: map<Ptr, nat>)
      requires Acyclic(s0, rank) && forall p :: p in s0 ==> p < limit
      ensures Valid(s0, rank) && postorder == f && store == s0 && visited == map[] && calls == []
    {
      postorder, store, next, visited, calls := f, s0, limit, map[], [];
    }

    /** `ForwardChildren`: children that are done are replaced by their results. */
    method ForwardChildren(kids: seq<Ptr>) returns (r: seq<Ptr>)
      ensures Forwarded(visited, kids, r, 0)
      ensures forall i :: 0 <= i < |kids| && Done(visited, kids[i]) ==> r[i] == visited[kids[i]].result
    {
      r := kids;
      for i := 0 to |kids|
        invariant |r| == |kids|
        invariant forall j :: i <= j < |kids| ==> r[j] == kids[j]
        invariant forall j :: 0 <= j < i ==> r[j] == if Done(visited, kids[j]) then visited[kids[j]].result else kids[j]
      {
        if Done(visited, kids[i]) {
          r := r[i := visited[kids[i]].result];
        }
      }
    }

    /** `ChangeTracker::start`. */
    method Start(n: Ptr, ghost s0: Store, ghost rank: map<Ptr, nat>)
      requires Valid(s0, rank) && n in s0 && n !in visited
      modifies this`visited
      ensures Valid(s0, rank)
      ensures visited == old(visited)[n := Info(true, true, n)]
    {
      StartKeeps(postorder, s0, rank, store, next, visited, calls, n);
      visited := visited[n := Info(true, true, n)];
    }

    /** `start`, `clone` and the forwarding of the children that are done. */
    method Begin(n: Ptr, ghost s0: Store, ghost rank: map<Ptr, nat>) returns (c: Ptr, copy: Node)
      requires Valid(s0, rank) && n in s0 && !Done(visited, n) && OpenAbove(rank, visited, rank[n] + 1)
      modifies this`visited, this`next
      ensures Valid(s0, rank) && n !in old(visited) && OpenAbove(rank, visited, rank[n])
      ensures visited == old(visited)[n := Info(true, true, n)] && c == old(next) && next == old(next) + 1
      ensures copy.tag == s0[n].tag && Forwarded(visited, s0[n].kids, copy.kids, 0)
      ensures forall i :: 0 <= i < |s0[n].kids| && Done(visited, s0[n].kids[i]) ==> copy.kids[i] == visited[s0[n].kids[i]].result
    {
      Start(n, s0, rank);
      c, copy := next, store[n];
      next := next + 1;
      var kids := ForwardChildren(copy.kids);
      copy := copy.(kids := kids);
    }

    /** `ChangeTracker::finish`. */
    method Finish(n: Ptr, c: Ptr, copy: Node, ghost s0: Store, ghost rank: map<Ptr, nat>) returns (r: Ptr)
      requires Valid(s0, rank) && n in s0 && n in visited && visited[n] == Info(true, true, n)
      requires c !in store && c < next
      requires Rebuilt(postorder, s0, rank, store, visited, n, copy)
      requires forall i :: 0 <= i < |s0[n].kids| ==> Done(visited, s0[n].kids[i])
      modifies this`store, this`visited, this`calls
      ensures Valid(s0, rank)
      ensures r == if copy != s0[n] then c else n
      ensures calls == old(calls) + [n]
      ensures Closes(s0, old(store), old(visited), store, visited, n, r)
      ensures forall p :: p in store ==> p in old(store) || p == c
    {
      ghost var before, seen := store, visited;
      if copy != store[n] {
        store := store[c := copy];
        visited := visited[n := Info(false, true, c)][c := Info(false, true, c)];
        r := c;
      } else {
        visited := visited[n := Info(false, true, n)];
        r := n;
      }
      ClosesInv(postorder, s0, rank, before, seen, calls, store, next, visited, n, r);
      calls := calls + [n];
    }
  
    /** The postorder call on the clone, then `finish`. */
    method Postorder(n: Ptr, c: Ptr, copy: Node, ghost s0: Store, ghost rank: map<Ptr, nat>) returns (r: Ptr)
      requires Valid(s0, rank) && n in s0 && n in visited && visited[n] == Info(true, true, n)
      requires c !in store && c < next
      requires copy.tag == s0[n].tag && Forwarded(visited, s0[n].kids, copy.kids, |copy.kids|)
      modifies this`store, this`visited, this`calls
      ensures Valid(s0, rank)
      ensures Closes(s0, old(store), old(visited), store, visited, n, r)
      ensures forall p :: p in store ==> p in old(store) || p == c
    {
      AllVisited(postorder, s0, rank, store, next, visited, calls, n, copy.kids);
      r := Finish(n, c, copy.(tag := postorder(copy.tag)), s0, rank);
    }

    /** `visit_children` on the clone of n, with this modifier. */
    method VisitChildren(n: Ptr, kids: seq<Ptr>, ghost s0: Store, ghost rank: map<Ptr, nat>) returns (r: seq<Ptr>)
      requires Valid(s0, rank) && n in s0
      requires OpenAbove(rank, visited, rank[n])
      requires Forwarded(visited, s0[n].kids, kids, 0)
      modifies this
      ensures Valid(s0, rank)
      ensures Forwarded(visited, s0[n].kids, r, |r|)
      ensures Grows(old(store), old(next), old(visited), store, next, visited)
      ensures OnlyBelow(s0, rank, old(visited), visited, n)
      decreases rank[n] + 1, 0
    {
      r := kids;
      for i := 0 to |kids|
        invariant Valid(s0, rank)
        invariant OpenAbove(rank, visited, rank[n])
        invariant Forwarded(visited, s0[n].kids, r, i) && |r| == |kids|
        invariant Grows(old(store), old(next), old(visited), store, next, visited)
        invariant OnlyBelow(s0, rank, old(visited), visited, n)
      {
        ghost var store', next', visited' := store, next, visited;
        ChildReady(postorder, s0, rank, store, next, visited, calls, n, r, i);
        var kid := ApplyVisitor(r[i], s0, rank);
        GrowsTransitive(old(store), old(next), old(visited), store', next', visited', store, next, visited);
        ChildVisited(visited', visited, s0[n].kids, r, i, kid);
        if r[i] == s0[n].kids[i] {
          OnlyBelowChild(s0, rank, old(visited), visited', visited, n, i);
        }
        r := r[i := kid];
      }
    }

    /** `Modifier::apply_visitor`. */
    method ApplyVisitor(n: Ptr, ghost s0: Store, ghost rank: map<Ptr, nat>) returns (r: Ptr)
      requires Valid(s0, rank) && (n in s0 || Done(visited, n))
      requires n in s0 ==> OpenAbove(rank, visited, rank[n] + 1)
      modifies this
      ensures Valid(s0, rank)
      ensures Done(visited, n) && r == visited[n].result
      ensures Grows(old(store), old(next), old(visited), store, next, visited)
      ensures Done(old(visited), n) ==> store == old(store) && visited == old(visited) && calls == old(calls)
      ensures n in s0 ==> OnlyBelow(s0, rank, old(visited), visited, n)
      decreases if n in s0 then rank[n] + 1 else 0, 1
    {
      if Done(visited, n) {
        return visited[n].result;
      }
      var c, copy := Begin(n, s0, rank);
      var kids := VisitChildren(n, copy.kids, s0, rank);
      ghost var store', visited' := store, visited;
      r := Postorder(n, c, copy.(kids := kids), s0, rank);
      VisitGrows(s0, rank, old(store), old(next), old(visited), store', next, visited', store, visited, n, r);
    }
  }

  /** A whole run over the graph below root. */
  method Apply(f: int -> int, s0: Store, limit: Ptr, root: Ptr, ghost rank: map<Ptr, nat>) returns (r: Ptr, m: Modifier)
    requires Acyclic(s0, rank) && root in s0 && forall p :: p in s0 ==> p < limit
    ensures Extends(s0, m.store)
    ensures Spells(m.store, r, MapTree(f, Unfold(s0, rank, root)))
    ensures r == root <==> MapTree(f, Unfold(s0, rank, root)) == Unfold(s0, rank, root)
    ensures forall i, j :: 0 <= i < j < |m.calls| ==> m.calls[i] != m.calls[j]
    ensures forall p :: p in m.calls <==> p in s0 && Below(s0, rank, root, p)
  {
    m := new Modifier(f, s0, limit, rank);
    r := m.ApplyVisitor(root, s0, rank);
    forall p ensures p in m.calls <==> p in s0 && Below(s0, rank, root, p) {
      if p in s0 && Below(s0, rank, root, p) {
        DoneBelow(s0, rank, m.visited, root, p);
      }
    }
  }

  /** Two nodes that share a result have the same rewritten unfolding. */
  lemma SharedResult(f: int -> int, s0: Store, rank: map<Ptr, nat>, store: Store, visited: Visited, p: Ptr, q: Ptr)
    requires Acyclic(s0, rank) && AllFinished(f, s0, rank, store, visited)
    requires p in s0 && q in s0 && Done(visited, p) && Done(visited, q)
    requires visited[p].result == visited[q].result
    ensures MapTree(f, Unfold(s0, rank, p)) == MapTree(f, Unfold(s0, rank, q))
  {
    SpellsUnique(store, visited[p].result, MapTree(f, Unfold(s0, rank, p)), MapTree(f, Unfold(s0, rank, q)));
  }
}
