/**
 `P4RuntimeSymbolTable`: the table object, with its ids and its set of symbol suffixes.
 Every method is proved against the value-level meaning in `SymbolIds`.
 */
module SymbolTables {
  import opened Common
  import opened SymbolIds
  import opened SuffixSets

  ghost function Names(st: Ids): set<string> {
    set k, n | k in st.tables && n in st.tables[k] :: n
  }

  lemma NamesAfterAdd(st: Ids, a: AddCall)
    ensures Names(AddOne(st, a)) == Names(st) + {a.name}
  {
    var st' := AddOne(st, a);
    forall n ensures n in Names(st') <==> n in Names(st) || n == a.name {
      if n in Names(st') {
        var k :| k in st'.tables && n in st'.tables[k];
        AddOneAt(st, a, k, n);
        assert Has(st', k, n);
      }
      if n in Names(st) {
        var k :| k in st.tables && n in st.tables[k];
        AddOneAt(st, a, k, n);
        assert Has(st', k, n);
      }
      if n == a.name {
        AddOneAt(st, a, a.kind, a.name);
        assert Has(st', a.kind, n);
      }
    }
  }

  class P4RuntimeSymbolTable {
    var symbolTables: map<nat, map<string, nat>>
    var assignedIds: set<nat>
    const suffixSet: P4SymbolSuffixSet

    ghost function State(): Ids
      reads this
    {
      Ids(symbolTables, assignedIds)
    }

    /** The suffix set holds exactly the names of the table. */
    ghost predicate Valid()
      reads this, suffixSet, suffixSet.nodes.Values
    {
      suffixSet.Valid() && suffixSet.symbols == Names(State())
    }

    constructor ()
      ensures Valid() && fresh(suffixSet) && fresh(suffixSet.nodes.Values)
      ensures State() == EMPTY
    {
      symbolTables, assignedIds := map[], {};
      suffixSet := new P4SymbolSuffixSet();
    }

    /** `tryToAssignId`. */
    method TryToAssignId(id: Option<nat>) returns (r: nat)
      modifies this`assignedIds
      ensures r == TryToAssign(old(assignedIds), id)
      ensures assignedIds == Record(old(assignedIds), id)
    {
      if id.None? { return 0; }
      if id.value in assignedIds { return 0; }
      assignedIds := assignedIds + {id.value};
      r := id.value;
    }

    method Add(kind: nat, name: string, id: Option<nat>)
      requires Valid() && name != ""
      modifies this, suffixSet, suffixSet.nodes.Values
      ensures Valid() && fresh(suffixSet.nodes.Values - old(suffixSet.nodes.Values))
      ensures State() == AddOne(old(State()), AddCall(kind, name, id))
    {
      NamesAfterAdd(State(), AddCall(kind, name, id));
      var table := if kind in symbolTables then symbolTables[kind] else map[];
      if name in table {
        assert name in Names(State());
        return;
      }
      var first := TryToAssignId(id);
      symbolTables := symbolTables[kind := table[name := first]];
      suffixSet.AddSymbol(name);
    }

    /** `computeIdsForSymbols`: the names without an id, in the order of a std::map. */
    method ComputeIdsForSymbols(hash: string -> nat, kind: nat) returns (ok: bool)
      requires kind in symbolTables
      modifies this`symbolTables, this`assignedIds
      ensures Outcome(State(), ok) == AssignNames(hash, old(State()), kind, Unassigned(old(State()), kind))
      ensures Names(State()) == old(Names(State())) && symbolTables.Keys == old(symbolTables.Keys)
    {
      ghost var goal := AssignNames(hash, State(), kind, Unassigned(State(), kind));
      AssignNamesKeeps(hash, State(), kind, Unassigned(State(), kind));
      SameNames(State(), goal.st);
      var todo := set n | n in symbolTables[kind] && symbolTables[kind][n] == 0;
      while todo != {}
        invariant kind in symbolTables
        invariant AssignNames(hash, State(), kind, todo) == goal
        decreases todo
      {
        LeastExists(todo);
        var name :| IsLeast(name, todo);
        LeastIs(name, todo);
        var id := ProbeForId(kind, hash(name) % WORD32, assignedIds);
        if id.None? { return false; }
        assignedIds := assignedIds + {id.value};
        var table: map<string, nat> := symbolTables[kind][name := id.value];
        symbolTables := symbolTables[kind := table];
        todo := todo - {name};
      }
      ok := true;
    }

    /** The loop of `create` over the symbol types, in the order of a std::map. */
    method ComputeAllIds(hash: string -> nat) returns (ok: bool)
      modifies this`symbolTables, this`assignedIds
      ensures Outcome(State(), ok) == ComputeKinds(hash, old(State()), old(symbolTables.Keys))
      ensures Names(State()) == old(Names(State()))
    {
      ghost var goal := ComputeKinds(hash, State(), symbolTables.Keys);
      ok := true;
      var kinds := symbolTables.Keys;
      while kinds != {}
        invariant kinds <= symbolTables.Keys && Names(State()) == old(Names(State()))
        invariant ComputeKinds(hash, State(), kinds).st == goal.st
        invariant (ok && ComputeKinds(hash, State(), kinds).ok) == goal.ok
        decreases kinds
      {
        FirstExists(kinds);
        var kind :| IsFirst(kind, kinds);
        assert First(kinds) == kind;
        var one := ComputeIdsForSymbols(hash, kind);
        ok := ok && one;
        kinds := kinds - {kind};
      }
    }

    method GetId(kind: nat, name: string) returns (id: nat)
      requires Has(State(), kind, name)
      ensures id == Id(State(), kind, name)
    {
      id := symbolTables[kind][name];
    }

    /** `getAlias`. */
    method GetAlias(name: string) returns (alias: string, ghost needed: nat)
      requires Valid() && name in Names(State())
      ensures Needed(StoredPaths(Names(State())), Reversed(Split(name)), needed)
      ensures needed <= |Split(name)| && alias == Serialized(LastComponents(name, needed))
    {
      alias, needed := suffixSet.ShortestUniqueSuffix(name);
    }
  }

  lemma SameNames(a: Ids, b: Ids)
    requires forall k, n :: Has(b, k, n) <==> Has(a, k, n)
    ensures Names(a) == Names(b)
  {
    forall n | n in Names(a) ensures n in Names(b) {
      var k :| k in a.tables && n in a.tables[k];
      assert Has(a, k, n) && Has(b, k, n);
    }
    forall n | n in Names(b) ensures n in Names(a) {
      var k :| k in b.tables && n in b.tables[k];
      assert Has(b, k, n) && Has(a, k, n);
    }
  }

  /** `create`, for the add calls its callback makes. */
  method CreateTable(hash: string -> nat, adds: seq<AddCall>) returns (symbols: P4RuntimeSymbolTable, ok: bool)
    requires forall i :: 0 <= i < |adds| ==> adds[i].name != ""
    ensures fresh(symbols) && symbols.Valid()
    ensures Outcome(symbols.State(), ok) == Create(hash, adds)
  {
    symbols := new P4RuntimeSymbolTable();
    var i := 0;
    while i < |adds|
      invariant 0 <= i <= |adds|
      invariant fresh(symbols) && symbols.Valid() && fresh(symbols.suffixSet) && fresh(symbols.suffixSet.nodes.Values)
      invariant symbols.State() == AddAll(adds[..i])
    {
      assert adds[..i + 1][..i] == adds[..i];
      symbols.Add(adds[i].kind, adds[i].name, adds[i].id);
      i := i + 1;
    }
    assert adds[..|adds|] == adds;
    ok := symbols.ComputeAllIds(hash);
  }
}
