/**
 `IR::Vector` and `IR::IndexedVector`: rewriting the elements of a vector in place while it is
 being visited, and the index by name that has to follow every change.
 */
module IRVectors {
  import opened Common

  /** A pointer stored in a vector: null, or a node, which may be a declaration with a name. */
  datatype Elem = Null | Node(id: nat, name: Option<string>)

  /** What the visitor returns for an element. */
  datatype Answer =
    | Nothing                        // nullptr
    | One(node: Elem)                // a node of the element type
    | Splice(items: seq<Elem>)       // a Vector of the same type
    | OtherVector(items: seq<Elem>)  // another kind of vector

  /** A visitor: the answer to its k-th call, on a given element.  It may remember earlier calls. */
  type Visitor = (nat, Elem) -> Answer

  ghost predicate ProperVisitor(v: Visitor) {
    forall k: nat, e :: v(k, e).One? ==> v(k, e).node.Node?
  }

  /** What one element is replaced by. */
  function Expand(e: Elem, a: Answer): seq<Elem> {
    match a
    case Nothing => if e.Null? then [e] else []
    case One(n) => [n]
    case Splice(items) => items
    case OtherVector(items) => items
  }

  /** The visitor applied to every element in order, with all results laid end to end. */
  function FlatMap(v: Visitor, s: seq<Elem>): seq<Elem> {
    if s == [] then []
    else
      var k := |s| - 1;
      FlatMap(v, s[..k]) + Expand(s[k], v(k, s[k]))
  }

  /** The vector once the first k elements have been visited. */
  function Partial(v: Visitor, s: seq<Elem>, k: nat): seq<Elem>
    requires k <= |s|
  {
    FlatMap(v, s[..k]) + s[k..]
  }

  lemma PartialStep(v: Visitor, s: seq<Elem>, k: nat)
    requires k < |s|
    ensures FlatMap(v, s[..k + 1]) == FlatMap(v, s[..k]) + Expand(s[k], v(k, s[k]))
    ensures Partial(v, s, k) == FlatMap(v, s[..k]) + [s[k]] + s[k + 1..]
    ensures Partial(v, s, k + 1) == FlatMap(v, s[..k]) + Expand(s[k], v(k, s[k])) + s[k + 1..]
  {
    assert s[..k + 1][..k] == s[..k];
  }

  lemma PartialDone(v: Visitor, s: seq<Elem>)
    ensures s[..|s|] == s && Partial(v, s, |s|) == FlatMap(v, s)
  {
  }

  // ---------------------------------------------------------------- the result, piece by piece

  /** What may stand in the result for element e, answered by a. */
  ghost predicate IsPiece(e: Elem, a: Answer, x: seq<Elem>) {
    && (a.Nothing? && e.Node? ==> x == [])
    && (a.Nothing? && e.Null? ==> x == [e])
    && (a.One? ==> x == [a.node])
    && (a.Splice? ==> x == a.items)
    && (a.OtherVector? ==> x == a.items)
  }

  function Flatten(pieces: seq<seq<Elem>>): seq<Elem> {
    if pieces == [] then [] else Flatten(pieces[..|pieces| - 1]) + pieces[|pieces| - 1]
  }

  /** r is one piece for each element, end to end. */
  ghost predicate InPieces(v: Visitor, s: seq<Elem>, r: seq<Elem>, pieces: seq<seq<Elem>>) {
    && |pieces| == |s| && r == Flatten(pieces)
    && forall k :: 0 <= k < |s| ==> IsPiece(s[k], v(k, s[k]), pieces[k])
  }

  lemma {:induction false} FlatMapPieces(v: Visitor, s: seq<Elem>) returns (pieces: seq<seq<Elem>>)
    ensures InPieces(v, s, FlatMap(v, s), pieces)
    decreases |s|
  {
    if s == [] {
      pieces := [];
    } else {
      var k := |s| - 1;
      var front := FlatMapPieces(v, s[..k]);
      var last := Expand(s[k], v(k, s[k]));
      pieces := front + [last];
      OneMorePiece(v, s, front, last);
    }
  }

  lemma OneMorePiece(v: Visitor, s: seq<Elem>, front: seq<seq<Elem>>, last: seq<Elem>)
    requires s != [] && InPieces(v, s[..|s| - 1], Flatten(front), front)
    requires IsPiece(s[|s| - 1], v(|s| - 1, s[|s| - 1]), last)
    ensures InPieces(v, s, Flatten(front) + last, front + [last])
  {
    var pieces := front + [last];
    assert pieces[..|front|] == front;
    forall k | 0 <= k < |s| ensures IsPiece(s[k], v(k, s[k]), pieces[k]) {
      if k < |front| { assert s[..|s| - 1][k] == s[k] && pieces[k] == front[k]; }
    }
  }

  function Nulls(s: seq<Elem>): seq<Elem> {
    if s == [] then [] else Nulls(s[..|s| - 1]) + (if s[|s| - 1].Null? then [Null] else [])
  }

  ghost predicate DeletesAll(v: Visitor, s: seq<Elem>) {
    forall k :: 0 <= k < |s| ==> v(k, s[k]).Nothing?
  }

  ghost predicate KeepsAll(v: Visitor, s: seq<Elem>) {
    forall k :: 0 <= k < |s| ==> if s[k].Null? then v(k, s[k]).Nothing? else v(k, s[k]) == One(s[k])
  }

  /** A visitor that deletes everything leaves the null elements; one that keeps everything, everything. */
  lemma {:induction false} DeletedOrKept(v: Visitor, s: seq<Elem>)
    ensures DeletesAll(v, s) ==> FlatMap(v, s) == Nulls(s)
    ensures KeepsAll(v, s) ==> FlatMap(v, s) == s
    decreases |s|
  {
    if s == [] {
    } else {
      var k := |s| - 1;
      DeletedOrKept(v, s[..k]);
      assert s == s[..k] + [s[k]];
    }
  }

  // ---------------------------------------------------------------- std::vector

  function Erased(s: seq<Elem>, i: nat): seq<Elem>
    requires i < |s|
  {
    s[..i] + s[i + 1..]
  }

  function Inserted(s: seq<Elem>, i: nat, items: seq<Elem>): seq<Elem>
    requires i <= |s|
  {
    s[..i] + items + s[i..]
  }

  class Vector {
    var vec: seq<Elem>

    constructor (vec: seq<Elem>)
      ensures this.vec == vec
    {
      this.vec := vec;
    }

    /** `visit_children`: i walks over the vector while elements are erased, overwritten and inserted. */
    method VisitChildren(v: Visitor) returns (ghost pieces: seq<seq<Elem>>)
      requires ProperVisitor(v)
      modifies this
      ensures vec == FlatMap(v, old(vec)) && InPieces(v, old(vec), vec, pieces)
      ensures DeletesAll(v, old(vec)) ==> vec == Nulls(old(vec))
      ensures KeepsAll(v, old(vec)) ==> vec == old(vec)
    {
      pieces := FlatMapPieces(v, vec);
      DeletedOrKept(v, vec);
      VisitLoop(v);
    }

    method VisitLoop(v: Visitor)
      requires ProperVisitor(v)
      modifies this
      ensures vec == FlatMap(v, old(vec))
    {
      ghost var s := vec;
      var i, k := 0, 0;
      assert s[..0] == [] && Partial(v, s, 0) == s;
      while i < |vec|
        invariant 0 <= k <= |s|
        invariant vec == Partial(v, s, k) && i == |FlatMap(v, s[..k])|
        decreases |s| - k
      {
        PartialStep(v, s, k);
        ghost var done, rest := FlatMap(v, s[..k]), s[k + 1..];
        assert vec[i] == s[k];
        i := Apply(i, v(k, vec[i]), done, s[k], rest);
        k := k + 1;
      }
      assert s[..k] == s;
    }

    /** One turn of the loop: element e at position i gives way to what the visitor answered. */
    method Apply(i: nat, n: Answer, ghost done: seq<Elem>, ghost e: Elem, ghost rest: seq<Elem>) returns (i': nat)
      requires vec == done + [e] + rest && i == |done|
      modifies this
      ensures vec == done + Expand(e, n) + rest && i' == |done + Expand(e, n)|
    {
      i' := i;
      assert vec[i] == e && Erased(vec, i) == done + rest;
      if n.Nothing? && vec[i] != Null {
        vec := Erased(vec, i);
        assert vec == done + [] + rest;
      } else if n.Nothing? || n == One(vec[i]) {
        i' := i + 1;
      } else if n.Splice? {
        vec := Erased(vec, i);
        vec := Inserted(vec, i, n.items);
        i' := i + |n.items|;
        assert vec == done + n.items + rest;
      } else if n.OtherVector? {
        i' := SpreadOver(i, n.items, done, e, rest);
      } else {
        vec := vec[i := n.node];
        i' := i + 1;
        assert vec == done + [n.node] + rest;
      }
    }

    /** Another kind of vector: make room with null elements, then overwrite them one by one. */
    method SpreadOver(i: nat, items: seq<Elem>, ghost done: seq<Elem>, ghost e: Elem, ghost rest: seq<Elem>) returns (i': nat)
      requires vec == done + [e] + rest && i == |done|
      modifies this
      ensures vec == done + items + rest && i' == |done + items|
    {
      if items == [] {
        vec := Erased(vec, i);
        return i;
      }
      vec := Inserted(vec, i, seq(|items| - 1, _ => Null));
      var j := 0;
      i' := i;
      while j < |items|
        invariant 0 <= j <= |items| && i' == i + j
        invariant |vec| == |done| + |items| + |rest|
        invariant vec[..i'] == done + items[..j]
        invariant vec[i + |items|..] == rest
      {
        vec := vec[i' := items[j]];
        i', j := i' + 1, j + 1;
      }
      assert vec == vec[..i'] + vec[i'..];
    }
  }

  // ---------------------------------------------------------------- the index by name

  predicate Declares(e: Elem, name: string) {
    e.Node? && e.name == Some(name)
  }

  /** The first declaration of a name in a vector, or null. */
  function LinearSearch(s: seq<Elem>, name: string): Elem {
    if s == [] then Null else if Declares(s[0], name) then s[0] else LinearSearch(s[1..], name)
  }

  /** No name is declared by two elements. */
  ghost predicate UniqueNames(s: seq<Elem>) {
    forall i, j, name :: 0 <= i < j < |s| && Declares(s[i], name) ==> !Declares(s[j], name)
  }

  type Index = map<string, Elem>

  /** The index holds exactly the declarations of the vector. */
  ghost predicate Indexes(m: Index, s: seq<Elem>) {
    && (forall i, name :: 0 <= i < |s| && Declares(s[i], name) ==> name in m && m[name] == s[i])
    && (forall name :: name in m ==> exists i :: 0 <= i < |s| && Declares(s[i], name))
  }

  /** With an exact index, looking a name up is searching the vector. */
  lemma {:induction false} LookupIsSearch(m: Index, s: seq<Elem>, name: string)
    requires Indexes(m, s)
    ensures LinearSearch(s, name) == if name in m then m[name] else Null
  {
    if name in m {
      var i :| 0 <= i < |s| && Declares(s[i], name);
      SearchFinds(s, name, i);
    } else {
      SearchMisses(s, name);
    }
  }

  lemma {:induction false} SearchFinds(s: seq<Elem>, name: string, i: nat)
    requires i < |s| && Declares(s[i], name)
    requires forall j :: 0 <= j < |s| && Declares(s[j], name) ==> s[j] == s[i]
    ensures LinearSearch(s, name) == s[i]
  {
    if !Declares(s[0], name) { SearchFinds(s[1..], name, i - 1); }
  }

  lemma {:induction false} SearchMisses(s: seq<Elem>, name: string)
    requires forall j :: 0 <= j < |s| ==> !Declares(s[j], name)
    ensures LinearSearch(s, name) == Null
  {
    if s == [] {
    } else {
      SearchMisses(s[1..], name);
    }
  }

  function Added(m: Index, e: Elem): Index {
    if e.Node? && e.name.Some? && e.name.value !in m then m[e.name.value := e] else m
  }

  function Removed(m: Index, e: Elem): Index {
    if e.Node? && e.name.Some? then m - {e.name.value} else m
  }

  /** The name of an element is in the index; taking out a declaration whose name is not is a bug. */
  predicate Held(m: Index, e: Elem) {
    e.Node? && e.name.Some? ==> e.name.value in m
  }

  // ---------------------------------------------------------------- when looking up is searching

  function Lookup(m: Index, name: string): Elem {
    if name in m then m[name] else Null
  }

  /** Looking any name up gives what a search of the vector gives; the index holds no null. */
  ghost predicate Agrees(m: Index, s: seq<Elem>) {
    && (forall name :: name in m ==> m[name].Node?)
    && (forall name :: Lookup(m, name) == LinearSearch(s, name))
  }

  predicate IsDeclaration(e: Elem) {
    e.Node? && e.name.Some?
  }

  ghost predicate Mentions(s: seq<Elem>, name: string) {
    exists i :: 0 <= i < |s| && Declares(s[i], name)
  }

  lemma {:induction false} SearchMentions(s: seq<Elem>, name: string)
    ensures LinearSearch(s, name) != Null <==> Mentions(s, name)
    ensures Mentions(s, name) ==> LinearSearch(s, name) in s && Declares(LinearSearch(s, name), name)
  {
    if s == [] {
    } else {
      SearchMentions(s[1..], name);
      if i :| 0 <= i < |s[1..]| && Declares(s[1..][i], name) { assert Declares(s[i + 1], name); }
      if i :| 0 <= i < |s| && Declares(s[i], name) { assert i > 0 ==> Declares(s[1..][i - 1], name); }
    }
  }

  /** The first part of a vector that mentions the name decides a search. */
  lemma {:induction false} SearchParts(a: seq<Elem>, b: seq<Elem>, name: string)
    ensures LinearSearch(a + b, name) == if LinearSearch(a, name) != Null then LinearSearch(a, name) else LinearSearch(b, name)
  {
    if a == [] {
      assert a + b == b;
    } else {
      assert (a + b)[1..] == a[1..] + b;
      SearchParts(a[1..], b, name);
    }
  }

  lemma SearchThree(a: seq<Elem>, x: seq<Elem>, b: seq<Elem>, name: string)
    ensures LinearSearch(a + x + b, name) ==
              if LinearSearch(a, name) != Null then LinearSearch(a, name)
              else if LinearSearch(x, name) != Null then LinearSearch(x, name)
              else LinearSearch(b, name)
  {
    SearchParts(a + x, b, name);
    SearchParts(a, x, name);
  }

  lemma SearchOne(e: Elem, name: string)
    ensures LinearSearch([e], name) == if Declares(e, name) then e else Null
  {
    assert [e][1..] == [];
  }

  /** Erasing keeps lookup and search in agreement exactly when no other element declares the name. */
  lemma EraseAgrees(m: Index, a: seq<Elem>, e: Elem, b: seq<Elem>)
    requires Agrees(m, a + [e] + b)
    ensures Held(m, e)
    ensures Agrees(Removed(m, e), a + b) <==> (IsDeclaration(e) ==> !Mentions(a + b, e.name.value))
  {
    var m' := Removed(m, e);
    forall name
      ensures Lookup(m, name) == LinearSearch(a + [e] + b, name)
      ensures !Declares(e, name) ==> Lookup(m', name) == LinearSearch(a + b, name)
      ensures LinearSearch(a + b, name) != Null <==> Mentions(a + b, name)
      ensures Declares(e, name) ==> LinearSearch(a + [e] + b, name) != Null && Lookup(m', name) == Null
    {
      SearchThree(a, [e], b, name);
      SearchParts(a, b, name);
      SearchOne(e, name);
      SearchMentions(a + b, name);
    }
    if IsDeclaration(e) { assert Lookup(m, e.name.value) != Null by { assert Declares(e, e.name.value); } }
  }

  /** What a run of insertions into the index leaves to be looked up. */
  lemma {:induction false} LookupAdded(m: Index, items: seq<Elem>, name: string)
    requires forall n :: n in m ==> m[n].Node?
    ensures forall n :: n in AddedAll(m, items) ==> AddedAll(m, items)[n].Node?
    ensures Lookup(AddedAll(m, items), name) == if name in m then m[name] else LinearSearch(items, name)
    decreases |items|
  {
    if items == [] {
    } else {
      var k := |items| - 1;
      LookupAdded(m, items[..k], name);
      assert items == items[..k] + [items[k]];
      SearchParts(items[..k], [items[k]], name);
      SearchOne(items[k], name);
    }
  }

  /** The new elements put no declaration in front of the one the index holds for its name. */
  ghost predicate Behind(m: Index, a: seq<Elem>, items: seq<Elem>, name: string) {
    name in m && !Mentions(a, name) && Mentions(items, name) ==> LinearSearch(items, name) == m[name]
  }

  /** Inserting keeps lookup and search in agreement exactly when no declaration comes to stand in
      front of another one of its name, unless it is the same. */
  lemma InsertAgrees(m: Index, a: seq<Elem>, items: seq<Elem>, b: seq<Elem>)
    requires Agrees(m, a + b)
    ensures Agrees(AddedAll(m, items), a + items + b) <==> forall name :: Behind(m, a, items, name)
  {
    var m' := AddedAll(m, items);
    forall name
      ensures Lookup(m', name) == LinearSearch(a + items + b, name) <==> Behind(m, a, items, name)
      ensures name in m' ==> m'[name].Node?
    {
      assert Lookup(m, name) == LinearSearch(a + b, name);
      LookupAdded(m, items, name);
      SearchThree(a, items, b, name);
      SearchParts(a, b, name);
      SearchMentions(a, name);
      SearchMentions(items, name);
    }
    if forall name :: Behind(m, a, items, name) {
      forall name ensures Lookup(m', name) == LinearSearch(a + items + b, name) {
        assert Behind(m, a, items, name);
      }
    }
    if Agrees(m', a + items + b) {
      forall name ensures Behind(m, a, items, name) {
        assert Lookup(m', name) == LinearSearch(a + items + b, name);
      }
    }
  }

  /** Nothing stands behind the end, so appending always keeps the agreement, duplicates included. */
  lemma AppendAgrees(m: Index, s: seq<Elem>, items: seq<Elem>)
    requires Agrees(m, s)
    ensures Agrees(AddedAll(m, items), s + items)
  {
    assert s + [] == s && s + items + [] == s + items;
    forall name ensures Behind(m, s, items, name) {
      assert Lookup(m, name) == LinearSearch(s, name);
      SearchMentions(s, name);
    }
    InsertAgrees(m, s, items, []);
  }

  /** Replacing e by d between a and b leaves the right answer for a name. */
  ghost predicate ReplacedFine(m: Index, a: seq<Elem>, e: Elem, d: Elem, b: seq<Elem>, name: string) {
    if Declares(e, name) && Declares(d, name) then Mentions(a, name) ==> LinearSearch(a, name) == d
    else if Declares(e, name) then !Mentions(a + b, name)
    else Declares(d, name) && name in m && !Mentions(a, name) ==> m[name] == d
  }

  ghost predicate ReplaceFine(m: Index, a: seq<Elem>, e: Elem, d: Elem, b: seq<Elem>) {
    forall name :: ReplacedFine(m, a, e, d, b, name)
  }

  /** Replacing keeps the agreement exactly when it leaves the right answer for every name. */
  lemma ReplaceAgrees(m: Index, a: seq<Elem>, e: Elem, d: Elem, b: seq<Elem>)
    requires Agrees(m, a + [e] + b)
    ensures Agrees(Added(Removed(m, e), d), a + [d] + b) <==> ReplaceFine(m, a, e, d, b)
  {
    var m' := Added(Removed(m, e), d);
    forall name
      ensures Lookup(m', name) == LinearSearch(a + [d] + b, name) <==> ReplacedFine(m, a, e, d, b, name)
    {
      ReplaceAgreesAt(m, a, e, d, b, name);
    }
    if ReplaceFine(m, a, e, d, b) {
      forall name ensures Lookup(m', name) == LinearSearch(a + [d] + b, name) {
        assert ReplacedFine(m, a, e, d, b, name);
      }
    }
    if Agrees(m', a + [d] + b) {
      forall name ensures ReplacedFine(m, a, e, d, b, name) {
        assert Lookup(m', name) == LinearSearch(a + [d] + b, name);
      }
    }
  }

  lemma ReplaceAgreesAt(m: Index, a: seq<Elem>, e: Elem, d: Elem, b: seq<Elem>, name: string)
    requires Agrees(m, a + [e] + b)
    ensures Lookup(Added(Removed(m, e), d), name) == LinearSearch(a + [d] + b, name) <==> ReplacedFine(m, a, e, d, b, name)
  {
    assert Lookup(m, name) == LinearSearch(a + [e] + b, name);
    SearchThree(a, [e], b, name);
    SearchThree(a, [d], b, name);
    SearchOne(e, name);
    SearchOne(d, name);
    SearchMentions(a, name);
    SearchParts(a, b, name);
    SearchMentions(a + b, name);
  }

  /** An exact index agrees with the vector. */
  lemma ExactAgrees(m: Index, s: seq<Elem>)
    requires Indexes(m, s)
    ensures Agrees(m, s)
  {
    forall name ensures Lookup(m, name) == LinearSearch(s, name) {
      LookupIsSearch(m, s, name);
    }
  }

  // ---------------------------------------------------------------- what keeps an index exact

  /** Inserting keeps an index exact exactly when it does not already hold another declaration
      of the same name. */
  lemma InsertKeepsIndex(m: Index, a: seq<Elem>, e: Elem, b: seq<Elem>)
    requires Indexes(m, a + b)
    ensures Indexes(Added(m, e), a + [e] + b) <==>
              (e.Node? && e.name.Some? && e.name.value in m ==> m[e.name.value] == e)
  {
    var s, s' := a + b, a + [e] + b;
    var m' := Added(m, e);
    assert s'[|a|] == e;
    if e.Node? && e.name.Some? && e.name.value in m && m[e.name.value] != e {
      assert Declares(s'[|a|], e.name.value) && m'[e.name.value] != s'[|a|];
    } else {
      forall i, name | 0 <= i < |s'| && Declares(s'[i], name) ensures name in m' && m'[name] == s'[i] {
        if i != |a| { assert s'[i] == s[if i < |a| then i else i - 1]; }
      }
      forall name | name in m' ensures exists i :: 0 <= i < |s'| && Declares(s'[i], name) {
        if name in m {
          var j :| 0 <= j < |s| && Declares(s[j], name);
          assert Declares(s'[if j < |a| then j else j + 1], name);
        }
      }
    }
  }

  lemma IndexAfterInsert(m: Index, a: seq<Elem>, e: Elem, b: seq<Elem>)
    requires Indexes(m, a + b) && UniqueNames(a + [e] + b)
    ensures Indexes(Added(m, e), a + [e] + b)
  {
    var s, s' := a + b, a + [e] + b;
    InsertKeepsIndex(m, a, e, b);
    if e.Node? && e.name.Some? {
      assert Declares(s'[|a|], e.name.value);
      forall j | 0 <= j < |s| ensures !Declares(s[j], e.name.value) {
        assert s[j] == s'[if j < |a| then j else j + 1];
      }
    }
  }

  function AddedAll(m: Index, items: seq<Elem>): Index {
    if items == [] then m
    else Added(AddedAll(m, items[..|items| - 1]), items[|items| - 1])
  }

  lemma {:induction false} IndexAfterInsertAll(m: Index, a: seq<Elem>, items: seq<Elem>, b: seq<Elem>)
    requires Indexes(m, a + b) && UniqueNames(a + items + b)
    ensures Indexes(AddedAll(m, items), a + items + b)
    decreases |items|
  {
    if items == [] {
      assert a + items + b == a + b;
    } else {
      var k := |items| - 1;
      var front := items[..k];
      assert items == front + items[k..];
      UniquePart(a, front, items[k..], b);
      IndexAfterInsertAll(m, a, front, b);
      assert a + items + b == (a + front) + [items[k]] + b;
      IndexAfterInsert(AddedAll(m, front), a + front, items[k], b);
    }
  }

  /** Erasing keeps an index exact exactly when no other element declares the erased name. */
  lemma EraseKeepsIndex(m: Index, a: seq<Elem>, e: Elem, b: seq<Elem>)
    requires Indexes(m, a + [e] + b)
    ensures e.Node? && e.name.Some? ==> e.name.value in m
    ensures Indexes(Removed(m, e), a + b) <==>
              (e.Node? && e.name.Some? ==> forall i :: 0 <= i < |a + b| ==> !Declares((a + b)[i], e.name.value))
  {
    var s, s' := a + [e] + b, a + b;
    var m' := Removed(m, e);
    assert s[|a|] == e;
    assert e.Node? && e.name.Some? ==> Declares(s[|a|], e.name.value);
    if e.Node? && e.name.Some? ==> forall i :: 0 <= i < |s'| ==> !Declares(s'[i], e.name.value) {
      forall i, name | 0 <= i < |s'| && Declares(s'[i], name) ensures name in m' && m'[name] == s'[i] {
        var j := if i < |a| then i else i + 1;
        assert s[j] == s'[i];
      }
      forall name | name in m' ensures exists i :: 0 <= i < |s'| && Declares(s'[i], name) {
        var j :| 0 <= j < |s| && Declares(s[j], name);
        assert s'[if j < |a| then j else j - 1] == s[j];
      }
    }
  }

  lemma IndexAfterErase(m: Index, a: seq<Elem>, e: Elem, b: seq<Elem>)
    requires Indexes(m, a + [e] + b) && UniqueNames(a + [e] + b)
    ensures Indexes(Removed(m, e), a + b)
  {
    var s, s' := a + [e] + b, a + b;
    EraseKeepsIndex(m, a, e, b);
    forall i | 0 <= i < |s'| && e.Node? && e.name.Some? ensures !Declares(s'[i], e.name.value) {
      assert s[|a|] == e && s'[i] == s[if i < |a| then i else i + 1];
    }
  }

  /** With two declarations of one name the index still agrees with the vector, and erasing the second
      one makes it forget the first. */
  lemma DuplicateForgotten(e: Elem, d: Elem, name: string)
    requires Declares(e, name) && Declares(d, name)
    ensures var m := AddedAll(map[], [e, d]);
            Agrees(m, [e, d]) && Lookup(Removed(m, d), name) == Null && LinearSearch([e], name) == e
  {
    assert [] + [e, d] == [e, d];
    AppendAgrees(map[], [], [e, d]);
    SearchOne(e, name);
  }

  lemma UniqueAfterErase(a: seq<Elem>, e: Elem, b: seq<Elem>)
    requires UniqueNames(a + [e] + b)
    ensures UniqueNames(a + b)
  {
    var s, s' := a + [e] + b, a + b;
    forall i | 0 <= i < |s'| ensures s'[i] == s[if i < |a| then i else i + 1] {
    }
  }

  lemma UniquePart(a: seq<Elem>, x: seq<Elem>, y: seq<Elem>, b: seq<Elem>)
    requires UniqueNames(a + (x + y) + b)
    ensures UniqueNames(a + x + b)
  {
    var s, s' := a + (x + y) + b, a + x + b;
    forall i | 0 <= i < |s'| ensures s'[i] == s[if i < |a + x| then i else i + |y|] {
    }
  }

  ghost predicate FirstDeclares(s: seq<Elem>, i: nat, name: string) {
    i < |s| && Declares(s[i], name) && forall j :: 0 <= j < i ==> !Declares(s[j], name)
  }

  /** What visiting one element does to the index; none for a bug. */
  function Reindex(m: Index, e: Elem, a: Answer): Option<Index> {
    if (a.Nothing? && e.Null?) || a == One(e) then Some(m)
    else if !Held(m, e) then None
    else Some(AddedAll(Removed(m, e), Expand(e, a)))
  }

  function Reindexed(v: Visitor, m: Index, s: seq<Elem>): Option<Index> {
    if s == [] then Some(m)
    else
      var k := |s| - 1;
      match Reindexed(v, m, s[..k])
      case None => None
      case Some(m') => Reindex(m', s[k], v(k, s[k]))
  }

  lemma OneAdded(m: Index, e: Elem)
    ensures AddedAll(m, [e]) == Added(m, e)
  {
    assert [e][..0] == [];
  }

  lemma ReindexedStep(v: Visitor, m: Index, s: seq<Elem>, k: nat, now: Index)
    requires k < |s| && Reindexed(v, m, s[..k]) == Some(now)
    ensures Reindexed(v, m, s[..k + 1]) == Reindex(now, s[k], v(k, s[k]))
  {
    assert s[..k + 1][..k] == s[..k];
  }

  lemma {:induction false} ReindexedFails(v: Visitor, m: Index, s: seq<Elem>, k: nat)
    requires k <= |s| && Reindexed(v, m, s[..k]).None?
    ensures Reindexed(v, m, s).None?
  {
    if k == |s| {
      assert s[..k] == s;
    } else {
      var front := s[..|s| - 1];
      assert front[..k] == s[..k];
      ReindexedFails(v, m, front, k);
    }
  }

  lemma {:induction false} IndexKept(v: Visitor, m: Index, s: seq<Elem>)
    ensures KeepsAll(v, s) ==> Reindexed(v, m, s) == Some(m)
    decreases |s|
  {
    if s == [] {
    } else {
      IndexKept(v, m, s[..|s| - 1]);
    }
  }

  /** At no point of a visit are there two declarations of one name. */
  ghost predicate AlwaysUnique(v: Visitor, s: seq<Elem>) {
    forall k :: 0 <= k <= |s| ==> UniqueNames(Partial(v, s, k))
  }

  /** Without two declarations of one name there is no bug, and the index stays exact. */
  lemma {:induction false} ReindexedExact(v: Visitor, m: Index, s: seq<Elem>, k: nat)
    requires k <= |s| && Indexes(m, s) && AlwaysUnique(v, s)
    ensures Reindexed(v, m, s[..k]).Some? && Indexes(Reindexed(v, m, s[..k]).value, Partial(v, s, k))
  {
    if k == 0 {
      assert s[..0] == [] && Partial(v, s, 0) == s;
    } else {
      ReindexedExact(v, m, s, k - 1);
      assert s[..k][..k - 1] == s[..k - 1];
      PartialStep(v, s, k - 1);
      assert UniqueNames(Partial(v, s, k - 1)) && UniqueNames(Partial(v, s, k));
      ReindexExact(Reindexed(v, m, s[..k - 1]).value, FlatMap(v, s[..k - 1]), s[k - 1], v(k - 1, s[k - 1]), s[k..]);
    }
  }

  lemma VisitExact(v: Visitor, m: Index, s: seq<Elem>)
    requires Indexes(m, s) && AlwaysUnique(v, s)
    ensures Reindexed(v, m, s).Some? && Indexes(Reindexed(v, m, s).value, FlatMap(v, s)) && UniqueNames(FlatMap(v, s))
  {
    ReindexedExact(v, m, s, |s|);
    PartialDone(v, s);
  }

  lemma ReindexExact(m: Index, a: seq<Elem>, e: Elem, n: Answer, b: seq<Elem>)
    requires Indexes(m, a + [e] + b) && UniqueNames(a + [e] + b) && UniqueNames(a + Expand(e, n) + b)
    ensures Reindex(m, e, n).Some? && Indexes(Reindex(m, e, n).value, a + Expand(e, n) + b)
  {
    EraseKeepsIndex(m, a, e, b);
    IndexAfterErase(m, a, e, b);
    IndexAfterInsertAll(Removed(m, e), a, Expand(e, n), b);
  }

  class IndexedVector {
    var vec: seq<Elem>
    var declarations: Index

    /** No two elements declare one name, and the index is exact. */
    ghost predicate Valid()
      reads this
    {
      UniqueNames(vec) && Indexes(declarations, vec)
    }

    constructor ()
      ensures Valid() && vec == []
    {
      vec, declarations := [], map[];
    }

    /** `getDeclaration`. */
    method GetDeclaration(name: string) returns (r: Elem)
      ensures r == Lookup(declarations, name)
      ensures Agrees(declarations, vec) ==> r == LinearSearch(vec, name)
    {
      assert Agrees(declarations, vec) ==> Lookup(declarations, name) == LinearSearch(vec, name);
      r := if name in declarations then declarations[name] else Null;
    }

    /** `insertInMap`; false when the name was already declared, which is reported as an error. */
    method InsertInMap(e: Elem) returns (isNew: bool)
      modifies this`declarations
      ensures declarations == Added(old(declarations), e)
      ensures isNew <==> !(e.Node? && e.name.Some? && e.name.value in old(declarations))
    {
      isNew := true;
      if e.Null? || e.name.None? { return; }
      if e.name.value in declarations {
        isNew := false;
      } else {
        declarations := declarations[e.name.value := e];
      }
    }

    /** `removeFromMap`. */
    method RemoveFromMap(e: Elem)
      requires Held(declarations, e)
      modifies this`declarations
      ensures declarations == Removed(old(declarations), e)
    {
      if e.Null? || e.name.None? { return; }
      declarations := declarations - {e.name.value};
    }

    method Erase(i: nat)
      requires i < |vec| && Held(declarations, vec[i])
      modifies this
      ensures vec == Erased(old(vec), i) && declarations == Removed(old(declarations), old(vec[i]))
      ensures old(Valid()) ==> Valid()
      ensures old(Agrees(declarations, vec)) ==>
                (Agrees(declarations, vec) <==> (IsDeclaration(old(vec[i])) ==> !Mentions(vec, old(vec[i]).name.value)))
    {
      ghost var a, e, b := vec[..i], vec[i], vec[i + 1..];
      assert vec == a + [e] + b;
      if Agrees(declarations, vec) { EraseAgrees(declarations, a, e, b); }
      if Valid() {
        IndexAfterErase(declarations, a, e, b);
        UniqueAfterErase(a, e, b);
      }
      RemoveFromMap(vec[i]);
      vec := Erased(vec, i);
    }

    method Insert(i: nat, e: Elem)
      requires i <= |vec|
      modifies this
      ensures vec == Inserted(old(vec), i, [e]) && declarations == Added(old(declarations), e)
      ensures old(Valid()) && UniqueNames(vec) ==> Valid()
      ensures old(Agrees(declarations, vec)) ==>
                (Agrees(declarations, vec) <==> forall name :: Behind(old(declarations), old(vec)[..i], [e], name))
    {
      assert vec == vec[..i] + vec[i..];
      OneAdded(declarations, e);
      if Agrees(declarations, vec) { InsertAgrees(declarations, vec[..i], [e], vec[i..]); }
      if Valid() && UniqueNames(Inserted(vec, i, [e])) {
        IndexAfterInsert(declarations, vec[..i], e, vec[i..]);
      }
      var _ := InsertInMap(e);
      vec := Inserted(vec, i, [e]);
    }

    /** `insert` of a range: first the index, then the vector. */
    method InsertRange(i: nat, items: seq<Elem>)
      requires i <= |vec|
      modifies this
      ensures vec == Inserted(old(vec), i, items) && declarations == AddedAll(old(declarations), items)
      ensures old(Valid()) && UniqueNames(vec) ==> Valid()
      ensures old(Agrees(declarations, vec)) ==>
                (Agrees(declarations, vec) <==> forall name :: Behind(old(declarations), old(vec)[..i], items, name))
    {
      var j := 0;
      while j < |items|
        invariant 0 <= j <= |items| && vec == old(vec)
        invariant declarations == AddedAll(old(declarations), items[..j])
      {
        assert items[..j + 1][..j] == items[..j];
        var _ := InsertInMap(items[j]);
        j := j + 1;
      }
      assert items[..j] == items && vec == vec[..i] + vec[i..];
      if old(Valid()) && UniqueNames(Inserted(vec, i, items)) {
        IndexAfterInsertAll(old(declarations), vec[..i], items, vec[i..]);
      }
      if old(Agrees(declarations, vec)) { InsertAgrees(old(declarations), vec[..i], items, vec[i..]); }
      vec := Inserted(vec, i, items);
    }

    method Replace(i: nat, e: Elem)
      requires i < |vec| && Held(declarations, vec[i])
      modifies this
      ensures vec == old(vec)[i := e] && declarations == Added(Removed(old(declarations), old(vec[i])), e)
      ensures old(Valid()) && UniqueNames(vec) ==> Valid()
      ensures old(Agrees(declarations, vec)) ==>
                (Agrees(declarations, vec) <==> ReplaceFine(old(declarations), old(vec)[..i], old(vec[i]), e, old(vec)[i + 1..]))
    {
      ghost var a, b := vec[..i], vec[i + 1..];
      assert vec == a + [vec[i]] + b && vec[i := e] == a + [e] + b;
      if Agrees(declarations, vec) { ReplaceAgrees(declarations, a, vec[i], e, b); }
      if Valid() && UniqueNames(vec[i := e]) {
        IndexAfterErase(declarations, a, vec[i], b);
        IndexAfterInsert(Removed(declarations, vec[i]), a, e, b);
      }
      RemoveFromMap(vec[i]);
      vec := vec[i := e];
      var _ := InsertInMap(e);
    }

    method PushBack(e: Elem)
      requires e.Node?
      modifies this
      ensures vec == old(vec) + [e] && declarations == Added(old(declarations), e)
      ensures old(Valid()) && UniqueNames(vec) ==> Valid()
      ensures old(Agrees(declarations, vec)) ==> Agrees(declarations, vec)
    {
      assert vec + [e] + [] == vec + [e] && vec + [] == vec;
      OneAdded(declarations, e);
      if Agrees(declarations, vec) { AppendAgrees(declarations, vec, [e]); }
      if Valid() && UniqueNames(vec + [e]) {
        IndexAfterInsert(declarations, vec, e, []);
      }
      vec := vec + [e];
      var _ := InsertInMap(e);
    }

    method PopBack()
      requires vec != [] && Held(declarations, vec[|vec| - 1])
      modifies this
      ensures vec == old(vec)[..|old(vec)| - 1]
      ensures declarations == Removed(old(declarations), old(vec[|vec| - 1]))
      ensures old(Valid()) ==> Valid()
      ensures old(Agrees(declarations, vec)) ==>
                (Agrees(declarations, vec) <==>
                 (IsDeclaration(old(vec[|vec| - 1])) ==> !Mentions(vec, old(vec[|vec| - 1]).name.value)))
    {
      var last := vec[|vec| - 1];
      ghost var a := vec[..|vec| - 1];
      assert vec == a + [last] + [] && a + [] == a;
      if Agrees(declarations, vec) { EraseAgrees(declarations, a, last, []); }
      if Valid() {
        IndexAfterErase(declarations, a, last, []);
        UniqueAfterErase(a, last, []);
      }
      RemoveFromMap(last);
      vec := vec[..|vec| - 1];
    }

    /** `removeByName`: erases the first declaration of the name, if there is one. */
    method RemoveByName(name: string) returns (found: bool)
      requires Null !in vec && forall i :: 0 <= i < |vec| && Declares(vec[i], name) ==> Held(declarations, vec[i])
      modifies this
      ensures found <==> exists i :: 0 <= i < |old(vec)| && Declares(old(vec)[i], name)
      ensures found ==> exists i :: FirstDeclares(old(vec), i, name) && vec == Erased(old(vec), i)
      ensures found ==> declarations == old(declarations) - {name}
      ensures !found ==> vec == old(vec) && declarations == old(declarations)
      ensures old(Valid()) ==> Valid()
      ensures old(Agrees(declarations, vec)) ==> (Agrees(declarations, vec) <==> (found ==> !Mentions(vec, name)))
    {
      var i := 0;
      while i < |vec|
        invariant 0 <= i <= |vec| && vec == old(vec) && declarations == old(declarations)
        invariant forall j :: 0 <= j < i ==> !Declares(vec[j], name)
      {
        if Declares(vec[i], name) {
          assert FirstDeclares(vec, i, name);
          Erase(i);
          return true;
        }
        i := i + 1;
      }
      found := false;
    }

    /** `visit_children`.  It stops with a bug when it has to take out a declaration that the index
        does not hold, which cannot happen while no name is declared twice. */
    method VisitChildren(v: Visitor) returns (ok: bool, ghost pieces: seq<seq<Elem>>)
      requires ProperVisitor(v) && forall k: nat, e :: !v(k, e).OtherVector?
      modifies this
      ensures ok <==> Reindexed(v, old(declarations), old(vec)).Some?
      ensures ok ==> vec == FlatMap(v, old(vec)) && declarations == Reindexed(v, old(declarations), old(vec)).value
      ensures old(Valid()) && AlwaysUnique(v, old(vec)) ==> ok && Valid()
      ensures ok ==> InPieces(v, old(vec), vec, pieces)
      ensures ok && DeletesAll(v, old(vec)) ==> vec == Nulls(old(vec))
      ensures KeepsAll(v, old(vec)) ==> ok && vec == old(vec) && declarations == old(declarations)
    {
      pieces := FlatMapPieces(v, vec);
      DeletedOrKept(v, vec);
      IndexKept(v, declarations, vec);
      if Valid() && AlwaysUnique(v, vec) { VisitExact(v, declarations, vec); }
      ok := VisitLoop(v);
    }

    method VisitLoop(v: Visitor) returns (ok: bool)
      requires ProperVisitor(v) && forall k: nat, e :: !v(k, e).OtherVector?
      modifies this
      ensures ok <==> Reindexed(v, old(declarations), old(vec)).Some?
      ensures ok ==> vec == FlatMap(v, old(vec)) && declarations == Reindexed(v, old(declarations), old(vec)).value
    {
      ghost var s, m := vec, declarations;
      var i, k := 0, 0;
      assert s[..0] == [] && Partial(v, s, 0) == s;
      while i < |vec|
        invariant 0 <= k <= |s|
        invariant vec == Partial(v, s, k) && i == |FlatMap(v, s[..k])|
        invariant Reindexed(v, m, s[..k]) == Some(declarations)
        decreases |s| - k
      {
        PartialStep(v, s, k);
        ReindexedStep(v, m, s, k, declarations);
        assert vec[i] == s[k];
        i, ok := Apply(i, v(k, vec[i]), FlatMap(v, s[..k]), s[k], s[k + 1..]);
        if !ok {
          ReindexedFails(v, m, s, k + 1);
          return;
        }
        k := k + 1;
      }
      assert k == |s|;
      PartialDone(v, s);
      ok := true;
    }

    method Apply(i: nat, n: Answer, ghost done: seq<Elem>, ghost e: Elem, ghost rest: seq<Elem>) returns (i': nat, ok: bool)
      requires vec == done + [e] + rest && i == |done| && !n.OtherVector?
      modifies this
      ensures ok <==> Reindex(old(declarations), e, n).Some?
      ensures ok ==> declarations == Reindex(old(declarations), e, n).value
      ensures ok ==> vec == done + Expand(e, n) + rest && i' == |done + Expand(e, n)|
    {
      i', ok := i, true;
      if n.Nothing? && vec[i] != Null {
        if !Held(declarations, vec[i]) { return i, false; }
        Erase(i);
      } else if n.Nothing? || n == One(vec[i]) {
        i' := i + 1;
      } else if !Held(declarations, vec[i]) {
        ok := false;
      } else if n.Splice? {
        Erase(i);
        assert vec == done + rest && Inserted(vec, i, n.items) == done + n.items + rest;
        InsertRange(i, n.items);
        i' := i + |n.items|;
      } else {
        assert vec[i := n.node] == done + [n.node] + rest;
        OneAdded(Removed(declarations, e), n.node);
        Replace(i, n.node);
        i' := i + 1;
      }
    }
  }
}
