/**
 `P4SymbolSuffixSet`: a counting trie over the dot-separated components of symbols, read from
 the right, and the shortest suffix that tells a symbol apart from all others.

 A path is a list of components in trie order, last component of the symbol first.
 */
module SuffixSets {
  import opened Common

  type Components = seq<string>

  // ---------------------------------------------------------------- splitting and serialising names

  predicate NoDot(c: string) {
    '.' !in c
  }

  ghost predicate Proper(cs: Components) {
    cs != [] && forall i :: 0 <= i < |cs| ==> NoDot(cs[i])
  }

  /** `boost::split` on '.': never empty, and the components may be. */
  function Split(s: string): (cs: Components)
    ensures |cs| > 0
  {
    if s == "" then [""]
    else
      var rest := Split(s[1..]);
      if s[0] == '.' then [""] + rest else [[s[0]] + rest[0]] + rest[1..]
  }

  /** Components with a dot between any two. */
  function Join(cs: Components): string
    requires cs != []
  {
    if |cs| == 1 then cs[0] else cs[0] + "." + Join(cs[1..])
  }

  /** Splitting undoes joining ... */
  lemma {:induction false} SplitJoin(cs: Components)
    requires Proper(cs)
    ensures Split(Join(cs)) == cs
  {
    if |cs| == 1 {
      SplitPlain(cs[0]);
    } else {
      SplitJoin(cs[1..]);
      SplitDotted(cs[0], Join(cs[1..]));
    }
  }

  lemma {:induction false} SplitPlain(c: string)
    requires NoDot(c)
    ensures Split(c) == [c]
  {
    if c == "" {
    } else {
      SplitPlain(c[1..]);
      assert [c[0]] + c[1..] == c;
    }
  }

  lemma {:induction false} SplitDotted(c: string, s: string)
    requires NoDot(c)
    ensures Split(c + "." + s) == [c] + Split(s)
  {
    var all := c + "." + s;
    if c == "" {
      assert all[1..] == s;
    } else {
      SplitDotted(c[1..], s);
      assert all[1..] == c[1..] + "." + s;
      assert [c[0]] + c[1..] == c;
      assert ([c[1..]] + Split(s))[1..] == Split(s);
    }
  }

  /** ... and joining undoes splitting. */
  lemma {:induction false} JoinSplit(s: string)
    ensures Proper(Split(s)) && Join(Split(s)) == s
  {
    if s == "" {
    } else {
      var rest := Split(s[1..]);
      JoinSplit(s[1..]);
      if s[0] == '.' {
        assert ([""] + rest)[1..] == rest;
      } else {
        var cs := [[s[0]] + rest[0]] + rest[1..];
        assert cs[1..] == rest[1..];
        forall i | 0 <= i < |cs| ensures NoDot(cs[i]) { assert NoDot(rest[i]); }
        if |rest| > 1 { assert Join(cs) == [s[0]] + (rest[0] + "." + Join(rest[1..])); }
      }
    }
  }

  /** The serialisation loop: a dot goes in only once something has been written. */
  function Serialized(cs: Components): string {
    if cs == [] then "" else
      var before := Serialized(cs[..|cs| - 1]);
      before + (if before != "" then "." else "") + cs[|cs| - 1]
  }

  /** Without the empty components in front. */
  function Trimmed(cs: Components): (r: Components)
    ensures r != [] ==> r[0] != ""
    ensures cs != [] && cs[0] != "" ==> r == cs
    ensures Proper(cs) && r != [] ==> Proper(r)
  {
    if cs != [] && cs[0] == "" then Trimmed(cs[1..]) else cs
  }

  lemma {:induction false} TrimmedAppend(cs: Components, c: string)
    ensures Trimmed(cs + [c]) == if Trimmed(cs) != [] then Trimmed(cs) + [c] else if c == "" then [] else [c]
  {
    if cs != [] && cs[0] == "" {
      assert (cs + [c])[1..] == cs[1..] + [c];
      TrimmedAppend(cs[1..], c);
    } else if cs == [] {
      assert cs + [c] == [c] && Trimmed([c][1..]) == [];
    }
  }

  /** Serialising is joining, except that empty components in front are lost. */
  lemma {:induction false} SerializedJoins(cs: Components)
    ensures Serialized(cs) == if Trimmed(cs) == [] then "" else Join(Trimmed(cs))
  {
    if cs == [] {
    } else {
      var front, c := cs[..|cs| - 1], cs[|cs| - 1];
      assert front + [c] == cs;
      SerializedJoins(front);
      TrimmedAppend(front, c);
      if Trimmed(front) != [] {
        JoinNotEmpty(Trimmed(front));
        JoinAppend(Trimmed(front), c);
      }
    }
  }

  /** Two lists of components serialise alike exactly when they differ only in empty components in front. */
  lemma SerializedAlike(a: Components, b: Components)
    requires Proper(a) && Proper(b)
    ensures Serialized(a) == Serialized(b) <==> Trimmed(a) == Trimmed(b)
  {
    SerializedJoins(a);
    SerializedJoins(b);
    if Trimmed(a) != [] {
      JoinNotEmpty(Trimmed(a));
      SplitJoin(Trimmed(a));
    }
    if Trimmed(b) != [] {
      JoinNotEmpty(Trimmed(b));
      SplitJoin(Trimmed(b));
    }
  }

  lemma JoinNotEmpty(cs: Components)
    requires cs != [] && cs[0] != ""
    ensures Join(cs) != ""
  {
  }

  lemma {:induction false} JoinAppend(cs: Components, c: string)
    requires cs != []
    ensures Join(cs + [c]) == Join(cs) + "." + c
  {
    var all := cs + [c];
    if |cs| == 1 {
      assert all[1..] == [c];
    } else {
      assert all[1..] == cs[1..] + [c];
      JoinAppend(cs[1..], c);
    }
  }

  // ---------------------------------------------------------------- which symbols share a suffix

  function Reversed(cs: Components): (r: Components)
    ensures |r| == |cs| && forall i :: 0 <= i < |cs| ==> r[i] == cs[|cs| - 1 - i]
  {
    seq(|cs|, i requires 0 <= i < |cs| => cs[|cs| - 1 - i])
  }

  /** The stored symbols that have p as a suffix. */
  ghost function Sharing(stored: set<Components>, p: Components): set<Components> {
    set r | r in stored && p <= r
  }

  /** n components are enough to tell r apart, and no fewer are. */
  ghost predicate Needed(stored: set<Components>, r: Components, n: nat) {
    && 1 <= n <= |r|
    && (forall k :: 1 <= k < n ==> |Sharing(stored, r[..k])| >= 2)
    && (n < |r| ==> |Sharing(stored, r[..n])| < 2)
  }

  ghost predicate SharedUpto(stored: set<Components>, r: Components, n: nat)
    requires n <= |r|
  {
    forall k :: 1 <= k <= n ==> |Sharing(stored, r[..k])| >= 2
  }

  lemma SharedMore(stored: set<Components>, r: Components, n: nat)
    requires 1 <= n <= |r| && SharedUpto(stored, r, n - 1) && |Sharing(stored, r[..n])| >= 2
    ensures SharedUpto(stored, r, n)
  {
  }

  lemma TwoShare(stored: set<Components>, p: Components, a: Components, b: Components)
    requires a in stored && b in stored && a != b && p <= a && p <= b
    ensures |Sharing(stored, p)| >= 2
  {
    var s := Sharing(stored, p);
    assert {a, b} <= s;
    SubsetSize({a, b}, s);
  }

  lemma OnlySharer(stored: set<Components>, p: Components, a: Components)
    requires a in stored && p <= a && |Sharing(stored, p)| >= 2
    ensures exists b :: b in stored && b != a && p <= b
  {
    var s := Sharing(stored, p);
    assert |s - {a}| == |s| - 1;
    var b :| b in s - {a};
  }

  /** Distinct symbols get distinct aliases. */
  lemma AliasesDistinct(stored: set<Components>, a: Components, m: nat, b: Components, n: nat)
    requires a in stored && b in stored && a != b
    requires Needed(stored, a, m) && Needed(stored, b, n)
    ensures a[..m] != b[..n]
  {
    if a[..m] == b[..n] {
      TwoShare(stored, a[..m], a, b);
    }
  }

  ghost function StoredPaths(symbols: set<string>): set<Components> {
    set s | s in symbols :: Reversed(Split(s))
  }

  /** The last n components of a symbol. */
  function LastComponents(symbol: string, n: nat): Components
    requires n <= |Split(symbol)|
  {
    Split(symbol)[|Split(symbol)| - n..]
  }

  /** As text, the aliases of two symbols coincide exactly when their chosen components differ
      only in empty components in front; so they are distinct when no component is empty. */
  lemma AliasTexts(symbols: set<string>, s: string, m: nat, t: string, n: nat)
    requires s in symbols && t in symbols && s != t
    requires Needed(StoredPaths(symbols), Reversed(Split(s)), m) && Needed(StoredPaths(symbols), Reversed(Split(t)), n)
    ensures LastComponents(s, m) != LastComponents(t, n)
    ensures Serialized(LastComponents(s, m)) == Serialized(LastComponents(t, n)) <==>
              Trimmed(LastComponents(s, m)) == Trimmed(LastComponents(t, n))
    ensures "" !in Split(s) && "" !in Split(t) ==>
              Serialized(LastComponents(s, m)) != Serialized(LastComponents(t, n))
  {
    ChosenDistinct(symbols, s, m, t, n);
    LastProper(s, m);
    LastProper(t, n);
    SerializedAlike(LastComponents(s, m), LastComponents(t, n));
  }

  lemma LastProper(s: string, n: nat)
    requires 1 <= n <= |Split(s)|
    ensures Proper(LastComponents(s, n))
    ensures "" !in Split(s) ==> Trimmed(LastComponents(s, n)) == LastComponents(s, n)
  {
    JoinSplit(s);
    assert LastComponents(s, n)[0] == Split(s)[|Split(s)| - n];
  }

  /** As lists of components, the aliases of distinct symbols always differ. */
  lemma ChosenDistinct(symbols: set<string>, s: string, m: nat, t: string, n: nat)
    requires s in symbols && t in symbols && s != t
    requires Needed(StoredPaths(symbols), Reversed(Split(s)), m) && Needed(StoredPaths(symbols), Reversed(Split(t)), n)
    ensures LastComponents(s, m) != LastComponents(t, n)
  {
    JoinSplit(s);
    JoinSplit(t);
    assert Reversed(Split(s)) in StoredPaths(symbols) && Reversed(Split(t)) in StoredPaths(symbols);
    var a, b := Split(s), Split(t);
    ChosenTailsDistinct(StoredPaths(symbols), a, m, b, n);
    assert LastComponents(s, m) == a[|a| - m..] && LastComponents(t, n) == b[|b| - n..];
  }

  lemma ChosenTailsDistinct(stored: set<Components>, a: Components, m: nat, b: Components, n: nat)
    requires a != b && Reversed(a) in stored && Reversed(b) in stored
    requires Needed(stored, Reversed(a), m) && Needed(stored, Reversed(b), n)
    ensures a[|a| - m..] != b[|b| - n..]
  {
    if Reversed(a) == Reversed(b) { ReversedInjective(a, b); }
    AliasesDistinct(stored, Reversed(a), m, Reversed(b), n);
    ReversedTail(a, m);
    ReversedTail(b, n);
  }

  lemma ReversedTail(cs: Components, n: nat)
    requires n <= |cs|
    ensures Reversed(cs[|cs| - n..]) == Reversed(cs)[..n]
  {
    var tail := cs[|cs| - n..];
    var x, y := Reversed(tail), Reversed(cs);
    forall i | 0 <= i < n ensures x[i] == y[i] {
      assert tail[n - 1 - i] == cs[|cs| - 1 - i];
    }
  }

  lemma SplitBoth()
    ensures Split("a") == ["a"] && Split(".a") == ["", "a"]
  {
    SplitPlain("a");
    SplitDotted("", "a");
    assert "" + "." + "a" == ".a" && [""] + ["a"] == ["", "a"];
  }

  lemma SerializedBoth()
    ensures Serialized(["a"]) == "a" && Serialized(["", "a"]) == "a"
  {
    assert ["", "a"][..1] == [""] && [""][..0] == [] && ["a"][..0] == [];
    assert Serialized([""]) == "";
  }

  /** The failing family is not empty: ".a" and "a" are told apart by their components, yet both
      get the alias "a". */
  lemma EmptyComponentCollision()
    ensures var symbols := {".a", "a"};
            && Needed(StoredPaths(symbols), Reversed(Split(".a")), 2) && Needed(StoredPaths(symbols), Reversed(Split("a")), 1)
            && Serialized(LastComponents(".a", 2)) == Serialized(LastComponents("a", 1)) == "a"
  {
    SplitBoth();
    SerializedBoth();
    var dotted, plain := ["a", ""], ["a"];
    assert Reversed(Split(".a")) == dotted && Reversed(Split("a")) == plain;
    BothStored(StoredPaths({".a", "a"}), dotted, plain);
    assert LastComponents(".a", 2) == ["", "a"] && LastComponents("a", 1) == ["a"];
  }

  lemma BothStored(stored: set<Components>, dotted: Components, plain: Components)
    requires dotted == ["a", ""] && plain == ["a"] && dotted in stored && plain in stored
    ensures Needed(stored, dotted, 2) && Needed(stored, plain, 1)
  {
    TwoShare(stored, ["a"], dotted, plain);
    assert dotted[..1] == ["a"];
  }

  /** Every shorter suffix of an alias is shared with another symbol; the alias itself is not,
      unless it is the whole symbol. */
  lemma AliasShortest(stored: set<Components>, a: Components, n: nat, k: nat)
    requires a in stored && Needed(stored, a, n) && 1 <= k < n
    ensures exists b :: b in stored && b != a && a[..k] <= b
    ensures n < |a| ==> forall b :: b in stored && a[..n] <= b ==> b == a
  {
    OnlySharer(stored, a[..k], a);
    if n < |a| {
      forall b | b in stored && a[..n] <= b ensures b == a {
        if b != a { TwoShare(stored, a[..n], a, b); }
      }
    }
  }

  // ---------------------------------------------------------------- the trie

  class SuffixNode {
    var instances: nat
    var edges: map<string, SuffixNode>

    constructor ()
      ensures instances == 0 && edges == map[]
    {
      instances, edges := 0, map[];
    }
  }

  /** The nodes of a trie by the path that leads to them. */
  type Nodes = map<Components, SuffixNode>

  ghost function Ext(p: Components, c: string): Components {
    p + [c]
  }

  /** The paths form a tree of distinct nodes whose edges are exactly the longer paths. */
  ghost predicate IsTree(root: SuffixNode, nodes: Nodes)
    reads nodes.Values
  {
    && [] in nodes && nodes[[]] == root
    && (forall p, q :: p in nodes && q in nodes && nodes[p] == nodes[q] ==> p == q)
    && (forall p, c {:trigger Ext(p, c)} :: Ext(p, c) in nodes <==> p in nodes && c in nodes[p].edges)
    && (forall p, c {:trigger Ext(p, c)} :: p in nodes && c in nodes[p].edges ==> nodes[p].edges[c] == nodes[Ext(p, c)])
  }

  /** `instances` of the node at a path; zero where there is none. */
  ghost function Instances(nodes: Nodes, p: Components): nat
    reads if p in nodes then {nodes[p]} else {}
  {
    if p in nodes then nodes[p].instances else 0
  }

  ghost predicate Upto(r: Components, n: nat, p: Components) {
    p <= r && |p| <= n
  }

  ghost predicate Grown(paths: set<Components>, before: set<Components>, r: Components, n: nat) {
    forall p :: p in paths <==> p in before || Upto(r, n, p)
  }

  lemma GrownMore(paths: set<Components>, before: set<Components>, r: Components, n: nat)
    requires n < |r| && Grown(paths, before, r, n)
    ensures Grown(paths + {Ext(r[..n], r[n])}, before, r, n + 1)
  {
    UptoStep(r, n, r[n]);
  }

  /** A path is there exactly when a stored symbol has it, and its node counts those symbols. */
  ghost predicate Counts(stored: set<Components>, nodes: Nodes)
    reads nodes.Values
  {
    forall p :: p != [] ==>
      (p in nodes <==> Sharing(stored, p) != {}) && Instances(nodes, p) == |Sharing(stored, p)|
  }

  class P4SymbolSuffixSet {
    var symbols: set<string>
    const suffixesRoot: SuffixNode
    ghost var stored: set<Components>
    ghost var nodes: Nodes

    ghost predicate Valid()
      reads this, nodes.Values
    {
      && stored == StoredPaths(symbols)
      && IsTree(suffixesRoot, nodes) && Counts(stored, nodes)
    }

    constructor ()
      ensures Valid() && symbols == {} && fresh(nodes.Values)
    {
      suffixesRoot := new SuffixNode();
      symbols, stored := {}, {};
      new;
      nodes := map[[] := suffixesRoot];
    }

    /** The edge of `node`, the node at path p, for a component; created when missing. */
    method Edge(node: SuffixNode, component: string, ghost p: Components) returns (child: SuffixNode)
      requires IsTree(suffixesRoot, nodes) && p in nodes && nodes[p] == node
      modifies this`nodes, node`edges
      ensures IsTree(suffixesRoot, nodes)
      ensures Ext(p, component) in nodes && nodes[Ext(p, component)] == child
      ensures Ext(p, component) in old(nodes) ==> nodes == old(nodes)
      ensures Ext(p, component) !in old(nodes) ==>
                nodes == old(nodes)[Ext(p, component) := child] && fresh(child) && child.instances == 0
    {
      ghost var longer := Ext(p, component);
      if component !in node.edges {
        child := new SuffixNode();
        node.edges := node.edges[component := child];
        nodes := nodes[longer := child];
        forall q, c ensures Ext(q, c) in nodes <==> q in nodes && c in nodes[q].edges {
          ExtInjective(q, c, p, component);
        }
        forall q, c | q in nodes && c in nodes[q].edges ensures nodes[q].edges[c] == nodes[Ext(q, c)] {
          ExtInjective(q, c, p, component);
        }
      }
      child := node.edges[component];
    }

    /** One step of that walk: along the edge, counting one more symbol through its node. */
    method Visit(node: SuffixNode, component: string, ghost p: Components) returns (child: SuffixNode)
      requires IsTree(suffixesRoot, nodes) && p in nodes && nodes[p] == node
      modifies this`nodes, nodes.Values
      ensures IsTree(suffixesRoot, nodes)
      ensures Ext(p, component) in nodes && nodes[Ext(p, component)] == child
      ensures nodes.Keys == old(nodes.Keys) + {Ext(p, component)} && fresh(nodes.Values - old(nodes.Values))
      ensures forall q :: Instances(nodes, q) == old(Instances(nodes, q)) + if q == Ext(p, component) then 1 else 0
    {
      child := Edge(node, component, p);
      child.instances := child.instances + 1;
    }

    /** The loop of `addSymbol` over the reversed components: every suffix gets a node and is
        counted once more, and nothing else changes. */
    method InsertPath(r: Components)
      requires IsTree(suffixesRoot, nodes)
      modifies this`nodes, nodes.Values
      ensures IsTree(suffixesRoot, nodes)
      ensures forall p :: p in nodes <==> p in old(nodes) || p <= r
      ensures forall p :: p != [] ==> Instances(nodes, p) == old(Instances(nodes, p)) + if p <= r then 1 else 0
      ensures fresh(nodes.Values - old(nodes.Values))
    {
      var node := suffixesRoot;
      var k := 0;
      while k < |r|
        invariant 0 <= k <= |r|
        invariant IsTree(suffixesRoot, nodes)
        invariant r[..k] in nodes && nodes[r[..k]] == node
        invariant fresh(nodes.Values - old(nodes.Values))
        invariant Grown(nodes.Keys, old(nodes.Keys), r, k)
        invariant forall p :: p != [] ==> Instances(nodes, p) == old(Instances(nodes, p)) + if Upto(r, k, p) then 1 else 0
      {
        UptoStep(r, k, r[k]);
        GrownMore(nodes.Keys, old(nodes.Keys), r, k);
        node := Visit(node, r[k], r[..k]);
        k := k + 1;
      }
    }

    method AddSymbol(symbol: string)
      requires Valid() && symbol != ""
      modifies this, nodes.Values
      ensures Valid() && symbols == old(symbols) + {symbol}
      ensures fresh(nodes.Values - old(nodes.Values))
    {
      if symbol in symbols { return; }
      var components := Split(symbol);
      ghost var r := Reversed(components);
      NewComponents(symbols, symbol);
      ghost var before := stored;
      InsertPath(Reversed(components));
      symbols, stored := symbols + {symbol}, stored + {r};
      forall p | p != []
        ensures (p in nodes <==> Sharing(stored, p) != {}) && Instances(nodes, p) == |Sharing(stored, p)|
      {
        SharingGrows(before, r, p);
      }
    }

    method ShortestUniqueSuffix(symbol: string) returns (suffix: string, ghost needed: nat)
      requires Valid() && symbol in symbols
      ensures Needed(stored, Reversed(Split(symbol)), needed)
      ensures needed <= |Split(symbol)| && suffix == Serialized(LastComponents(symbol, needed))
    {
      var components := Split(symbol);
      var n := CountNeeded(Reversed(components));
      needed := n;
      suffix := Serialize(components[|components| - n..]);
    }

    /** How many trailing components are needed: walk down until a node counts one symbol only. */
    method CountNeeded(r: Components) returns (needed: nat)
      requires Valid() && r in stored && r != []
      ensures Needed(stored, r, needed)
    {
      needed := 0;
      var node := suffixesRoot;
      while needed < |r|
        invariant 0 <= needed <= |r|
        invariant r[..needed] in nodes && nodes[r[..needed]] == node
        invariant SharedUpto(stored, r, needed)
      {
        ghost var longer := Ext(r[..needed], r[needed]);
        UptoStep(r, needed, r[needed]);
        assert r in Sharing(stored, longer);
        assert longer in nodes;
        node := node.edges[r[needed]];
        needed := needed + 1;
        assert node.instances == |Sharing(stored, longer)|;
        if node.instances < 2 { break; }
        SharedMore(stored, r, needed);
      }
    }
  }

  /** The serialisation of the chosen components. */
  method Serialize(components: Components) returns (s: string)
    ensures s == Serialized(components)
  {
    s := "";
    var i := 0;
    while i < |components|
      invariant 0 <= i <= |components|
      invariant s == Serialized(components[..i])
    {
      assert components[..i + 1][..i] == components[..i];
      if s != "" { s := s + "."; }
      s := s + components[i];
      i := i + 1;
    }
    assert components[..|components|] == components;
  }

  lemma ExtInjective(p: Components, c: string, q: Components, d: string)
    ensures Ext(p, c) == Ext(q, d) <==> p == q && c == d
    ensures Ext(p, c) != []
  {
    if Ext(p, c) == Ext(q, d) {
      assert p == Ext(p, c)[..|p|] && q == Ext(q, d)[..|q|];
      assert c == Ext(p, c)[|p|] && d == Ext(q, d)[|q|];
    }
  }

  lemma UptoStep(r: Components, n: nat, c: string)
    requires n < |r| && r[n] == c
    ensures r[..n + 1] == Ext(r[..n], c)
    ensures forall p :: Upto(r, n + 1, p) <==> Upto(r, n, p) || p == Ext(r[..n], c)
  {
    assert r[..n + 1] == Ext(r[..n], c);
    forall p ensures Upto(r, n + 1, p) <==> Upto(r, n, p) || p == Ext(r[..n], c) {
      if p <= r && |p| == n + 1 { assert p == r[..n + 1]; }
    }
  }

  lemma SharingGrows(stored: set<Components>, r: Components, p: Components)
    requires r !in stored
    ensures |Sharing(stored + {r}, p)| == |Sharing(stored, p)| + if p <= r then 1 else 0
    ensures Sharing(stored + {r}, p) != {} <==> Sharing(stored, p) != {} || p <= r
  {
    if p <= r {
      assert Sharing(stored + {r}, p) == Sharing(stored, p) + {r};
    } else {
      assert Sharing(stored + {r}, p) == Sharing(stored, p);
    }
  }

  lemma NewComponents(symbols: set<string>, symbol: string)
    requires symbol !in symbols
    ensures Reversed(Split(symbol)) !in StoredPaths(symbols)
  {
    forall s | s in symbols ensures Reversed(Split(s)) != Reversed(Split(symbol)) {
      if Reversed(Split(s)) == Reversed(Split(symbol)) {
        ReversedInjective(Split(s), Split(symbol));
        JoinSplit(s);
        JoinSplit(symbol);
      }
    }
  }

  lemma ReversedInjective(a: Components, b: Components)
    requires Reversed(a) == Reversed(b)
    ensures a == b
  {
    forall i | 0 <= i < |a| ensures a[i] == b[i] {
      assert Reversed(a)[|a| - 1 - i] == a[i] && Reversed(b)[|a| - 1 - i] == b[i];
    }
  }
}
