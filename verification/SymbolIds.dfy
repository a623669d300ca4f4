/**
 The ids of `P4RuntimeSymbolTable`: explicit ids from '@id' annotations, and generated ids
 found by linear probing from a hash of the name.

 This module gives the meaning of the table operations on values.  A table maps a symbol type
 and a name to an id; 0 is INVALID_ID, "not assigned yet".  The hash function is arbitrary.
 */
module SymbolIds {
  import opened Common

  const WORD32: nat := 0x1_0000_0000
  const LOW16: nat := 0x1_0000

  datatype Ids = Ids(tables: map<nat, map<string, nat>>, taken: set<nat>)

  datatype AddCall = AddCall(kind: nat, name: string, id: Option<nat>)

  predicate Has(st: Ids, kind: nat, name: string) {
    kind in st.tables && name in st.tables[kind]
  }

  function Id(st: Ids, kind: nat, name: string): nat {
    if Has(st, kind, name) then st.tables[kind][name] else 0
  }

  // ---------------------------------------------------------------- adding symbols

  /** `tryToAssignId`: the id to store. */
  function TryToAssign(taken: set<nat>, id: Option<nat>): nat {
    if id.Some? && id.value !in taken then id.value else 0
  }

  /** `tryToAssignId`: the ids taken afterwards. */
  function Record(taken: set<nat>, id: Option<nat>): set<nat> {
    if id.Some? then taken + {id.value} else taken
  }

  /** `add`. */
  function AddOne(st: Ids, a: AddCall): Ids {
    var table := if a.kind in st.tables then st.tables[a.kind] else map[];
    if a.name in table then st
    else Ids(st.tables[a.kind := table[a.name := TryToAssign(st.taken, a.id)]], Record(st.taken, a.id))
  }

  const EMPTY := Ids(map[], {})

  function AddAll(adds: seq<AddCall>): Ids {
    if adds == [] then EMPTY else AddOne(AddAll(adds[..|adds| - 1]), adds[|adds| - 1])
  }

  lemma AddOneAt(st: Ids, a: AddCall, kind: nat, name: string)
    ensures Has(AddOne(st, a), kind, name) <==> Has(st, kind, name) || (kind == a.kind && name == a.name)
    ensures Has(st, kind, name) || kind != a.kind || name != a.name ==> Id(AddOne(st, a), kind, name) == Id(st, kind, name)
    ensures !Has(st, a.kind, a.name) ==> Id(AddOne(st, a), a.kind, a.name) == TryToAssign(st.taken, a.id)
  {
  }

  // ---------------------------------------------------------------- generating ids

  /** [resource type: 8 bits] [zero: 8 bits] [low 16 bits of the value]. */
  function ConstructId(kind: nat, value: nat): nat {
    kind % 0x100 * 0x100_0000 + value % LOW16
  }

  /** A resource type as the P4Runtime id prefixes are: one byte, not zero. */
  predicate IsPrefix(kind: nat) {
    1 <= kind < 0x100
  }

  /** The type and the low 16 bits can be read back from an id, with a zero byte between them. */
  lemma ConstructedFields(kind: nat, value: nat)
    ensures ConstructId(kind, value) < WORD32
    ensures ConstructId(kind, value) / 0x100_0000 == kind % 0x100
    ensures IsPrefix(kind) ==> ConstructId(kind, value) / 0x100_0000 == kind && ConstructId(kind, value) != 0
    ensures ConstructId(kind, value) / LOW16 % 0x100 == 0
    ensures ConstructId(kind, value) % LOW16 == value % LOW16
  {
    var top, low := kind % 0x100, value % LOW16;
    var id := top * 0x100_0000 + low;
    assert id / 0x100_0000 == top by { assert 0 <= id - top * 0x100_0000 < 0x100_0000; }
    assert id / LOW16 == top * 0x100 by { assert 0 <= id - (top * 0x100) * LOW16 < LOW16; }
  }

  /** The id probed d steps past the hash is already in use. */
  ghost predicate InUse(kind: nat, source: nat, taken: set<nat>, d: nat) {
    ConstructId(kind, source + d) in taken
  }

  /** d steps past the hash is the first free id. */
  ghost predicate IsFirstFree(kind: nat, source: nat, taken: set<nat>, d: nat) {
    d < LOW16 && !InUse(kind, source, taken, d) && forall e: nat :: e < d ==> InUse(kind, source, taken, e)
  }

  /** The first free id in cyclic order of the low 16 bits, starting at the hash. */
  ghost function FirstFree(kind: nat, source: nat, taken: set<nat>): (r: Option<nat>)
    ensures r.Some? ==> r.value !in taken && exists v: nat :: r.value == ConstructId(kind, v)
  {
    if exists d: nat :: IsFirstFree(kind, source, taken, d) then
      var d: nat :| IsFirstFree(kind, source, taken, d);
      Some(ConstructId(kind, source + d))
    else None
  }

  lemma FirstFreeIs(kind: nat, source: nat, taken: set<nat>, d: nat)
    requires IsFirstFree(kind, source, taken, d)
    ensures FirstFree(kind, source, taken) == Some(ConstructId(kind, source + d))
  {
    forall e: nat | IsFirstFree(kind, source, taken, e) ensures e == d {
    }
  }

  lemma NoneFree(kind: nat, source: nat, taken: set<nat>)
    requires forall d: nat :: d < LOW16 ==> InUse(kind, source, taken, d)
    ensures FirstFree(kind, source, taken) == None
    ensures forall v: nat :: ConstructId(kind, v) in taken
  {
    forall v: nat ensures ConstructId(kind, v) in taken {
      var d := (v % LOW16 - source % LOW16) % LOW16;
      assert (source + d) % LOW16 == v % LOW16;
      assert InUse(kind, source, taken, d);
    }
  }

  /** `probeForId`, with the 32-bit counter it uses. */
  method ProbeForId(kind: nat, sourceValue: nat, taken: set<nat>) returns (id: Option<nat>)
    requires sourceValue < WORD32
    ensures id == FirstFree(kind, sourceValue, taken)
    ensures id.None? <==> forall v: nat :: ConstructId(kind, v) in taken
  {
    var value := sourceValue;
    ghost var d := 0;
    while ConstructId(kind, value) in taken
      invariant 0 <= d < WORD32 && value == (sourceValue + d) % WORD32
      invariant forall e: nat :: e < d ==> InUse(kind, sourceValue, taken, e)
      decreases WORD32 - d
    {
      SameSlot(kind, sourceValue + d);
      assert InUse(kind, sourceValue, taken, d);
      value := (value + 1) % WORD32;
      d := d + 1;
      if value == sourceValue {
        assert d == WORD32;
        NoneFree(kind, sourceValue, taken);
        return None;
      }
    }
    SameSlot(kind, sourceValue + d);
    FreeIsNear(kind, sourceValue, taken, d);
    FirstFreeIs(kind, sourceValue, taken, d);
    id := Some(ConstructId(kind, value));
  }

  /** The counter wraps at 2^32 without disturbing the low 16 bits. */
  lemma SameSlot(kind: nat, v: nat)
    ensures ConstructId(kind, v % WORD32) == ConstructId(kind, v)
  {
  }

  /** After 65536 ids in use in a row there is no free one. */
  lemma FreeIsNear(kind: nat, source: nat, taken: set<nat>, d: nat)
    requires !InUse(kind, source, taken, d) && forall e: nat :: e < d ==> InUse(kind, source, taken, e)
    ensures d < LOW16
  {
    var e := d - LOW16;
    assert e >= 0 ==> ConstructId(kind, source + e) == ConstructId(kind, source + d);
    assert e >= 0 ==> InUse(kind, source, taken, e);
  }

  // ---------------------------------------------------------------- the order of names

  /** `cstring` order: lexicographic. */
  predicate Less(a: string, b: string) {
    if b == "" then false
    else if a == "" then true
    else a[0] < b[0] || (a[0] == b[0] && Less(a[1..], b[1..]))
  }

  /** The first difference decides: a smaller character, or the end of the text. */
  ghost predicate DiffersAt(a: string, b: string, i: nat) {
    && i <= |a| && i < |b| && a[..i] == b[..i]
    && (i == |a| || a[i] < b[i])
  }

  lemma {:induction false} LessIs(a: string, b: string)
    ensures Less(a, b) <==> exists i: nat :: DiffersAt(a, b, i)
  {
    if b == "" {
    } else if a == "" {
      assert DiffersAt(a, b, 0);
    } else {
      LessIs(a[1..], b[1..]);
      if a[0] < b[0] {
        assert DiffersAt(a, b, 0);
      } else if a[0] == b[0] {
        if i: nat :| DiffersAt(a[1..], b[1..], i) { LongerPrefix(a, b, i); }
        if i: nat :| DiffersAt(a, b, i) { LongerPrefix(a, b, i - 1); }
      }
    }
  }

  lemma LongerPrefix(a: string, b: string, i: int)
    requires a != "" && b != "" && a[0] == b[0] && i >= -1
    ensures i >= 0 ==> (DiffersAt(a[1..], b[1..], i) <==> DiffersAt(a, b, i + 1))
    ensures !DiffersAt(a, b, 0)
  {
    if 0 <= i < |a| && i < |b| {
      assert a[..i + 1] == [a[0]] + a[1..][..i] && b[..i + 1] == [b[0]] + b[1..][..i];
      if a[..i + 1] == b[..i + 1] { assert a[1..][..i] == a[..i + 1][1..] == b[..i + 1][1..] == b[1..][..i]; }
    }
  }

  lemma {:induction false} LessTotal(a: string, b: string)
    ensures a == b || Less(a, b) || Less(b, a)
    ensures !(Less(a, b) && Less(b, a)) && !Less(a, a)
  {
    if a != "" && b != "" {
      LessTotal(a[1..], b[1..]);
      LessTotal(a[1..], a[1..]);
      if a[0] == b[0] && a[1..] == b[1..] { assert a == [a[0]] + a[1..] == b; }
    } else if a != "" {
      LessTotal(a[1..], a[1..]);
    }
  }

  lemma {:induction false} LessTransitive(a: string, b: string, c: string)
    requires Less(a, b) && Less(b, c)
    ensures Less(a, c)
  {
    if a != "" && a[0] == b[0] == c[0] { LessTransitive(a[1..], b[1..], c[1..]); }
  }

  predicate IsLeast(name: string, names: set<string>) {
    name in names && forall n :: n in names ==> n == name || Less(name, n)
  }

  lemma {:induction false} LeastExists(names: set<string>)
    requires names != {}
    ensures exists n :: IsLeast(n, names)
  {
    var x :| x in names;
    if names == {x} {
      assert IsLeast(x, names);
    } else {
      LeastExists(names - {x});
      var y :| IsLeast(y, names - {x});
      LessTotal(x, y);
      if Less(x, y) {
        forall n | n in names ensures n == x || Less(x, n) {
          if n != x && n != y { LessTransitive(x, y, n); }
        }
        assert IsLeast(x, names);
      } else {
        assert IsLeast(y, names);
      }
    }
  }

  ghost function Least(names: set<string>): (n: string)
    requires names != {}
    ensures IsLeast(n, names)
  {
    LeastExists(names);
    var n :| IsLeast(n, names);
    n
  }

  lemma LeastIs(name: string, names: set<string>)
    requires IsLeast(name, names)
    ensures Least(names) == name
  {
    LessTotal(name, Least(names));
  }

  predicate IsFirst(kind: nat, kinds: set<nat>) {
    kind in kinds && forall k :: k in kinds ==> kind <= k
  }

  lemma {:induction false} FirstExists(kinds: set<nat>)
    requires kinds != {}
    ensures exists k :: IsFirst(k, kinds)
  {
    var x :| x in kinds;
    if kinds == {x} {
      assert IsFirst(x, kinds);
    } else {
      FirstExists(kinds - {x});
      var y :| IsFirst(y, kinds - {x});
      var m := if x < y then x else y;
      forall k | k in kinds ensures m <= k {
        if k != x { assert k in kinds - {x}; }
      }
      assert IsFirst(m, kinds);
    }
  }

  ghost function First(kinds: set<nat>): (k: nat)
    requires kinds != {}
    ensures IsFirst(k, kinds)
  {
    FirstExists(kinds);
    var k :| IsFirst(k, kinds);
    k
  }

  // ---------------------------------------------------------------- computing ids

  /** Storing a generated id. */
  function Assign(st: Ids, kind: nat, name: string, id: nat): Ids
    requires kind in st.tables
  {
    var table: map<string, nat> := st.tables[kind][name := id];
    Ids(st.tables[kind := table], st.taken + {id})
  }

  function Unassigned(st: Ids, kind: nat): set<string>
    requires kind in st.tables
  {
    set n | n in st.tables[kind] && st.tables[kind][n] == 0
  }

  /** The state after giving an id to each of `names` in turn, least name first; and whether
      every probe found one. */
  datatype Outcome = Outcome(st: Ids, ok: bool)

  ghost function AssignNames(hash: string -> nat, st: Ids, kind: nat, names: set<string>): Outcome
    requires kind in st.tables
    decreases |names|
  {
    if names == {} then Outcome(st, true)
    else
      var n := Least(names);
      match FirstFree(kind, hash(n) % WORD32, st.taken)
      case None => Outcome(st, false)
      case Some(id) => AssignNames(hash, Assign(st, kind, n, id), kind, names - {n})
  }

  /** `computeIdsForSymbols` for each of `kinds` in turn, least first. */
  ghost function ComputeKinds(hash: string -> nat, st: Ids, kinds: set<nat>): Outcome
    requires kinds <= st.tables.Keys
    decreases |kinds|
  {
    if kinds == {} then Outcome(st, true)
    else
      var k := First(kinds);
      var one := AssignNames(hash, st, k, Unassigned(st, k));
      AssignNamesKeeps(hash, st, k, Unassigned(st, k));
      var rest := ComputeKinds(hash, one.st, kinds - {k});
      Outcome(rest.st, one.ok && rest.ok)
  }

  /** `create`, for the add calls its callback makes. */
  ghost function Create(hash: string -> nat, adds: seq<AddCall>): Outcome {
    var st := AddAll(adds);
    ComputeKinds(hash, st, st.tables.Keys)
  }

  /** Assigning names keeps the symbols and every id already there, and touches one type only. */
  lemma {:induction false} AssignNamesKeeps(hash: string -> nat, st: Ids, kind: nat, names: set<string>)
    requires kind in st.tables && names <= st.tables[kind].Keys
    ensures var r := AssignNames(hash, st, kind, names).st;
            && r.tables.Keys == st.tables.Keys && kind in r.tables
            && (forall k, n :: Has(r, k, n) <==> Has(st, k, n))
            && (forall k, n :: k != kind || n !in names ==> Id(r, k, n) == Id(st, k, n))
            && st.taken <= r.taken
    decreases |names|
  {
    if names == {} {
    } else {
      var n := Least(names);
      match FirstFree(kind, hash(n) % WORD32, st.taken)
      case None =>
      case Some(id) =>
        var st' := Assign(st, kind, n, id);
        assert names - {n} <= st'.tables[kind].Keys;
        AssignNamesKeeps(hash, st', kind, names - {n});
    }
  }

  // ---------------------------------------------------------------- ids are unique

  /** Ids that are assigned are recorded, and no two symbols share one. */
  ghost predicate Unique(st: Ids) {
    && (forall k, n :: Id(st, k, n) != 0 ==> Id(st, k, n) in st.taken)
    && (forall k, n, k', n' :: Id(st, k, n) != 0 && Id(st, k, n) == Id(st, k', n') ==> k == k' && n == n')
  }

  lemma AddOneUnique(st: Ids, a: AddCall)
    requires Unique(st)
    ensures Unique(AddOne(st, a))
  {
    var st' := AddOne(st, a);
    forall k, n ensures Id(st', k, n) == Id(st, k, n) || (k == a.kind && n == a.name && !Has(st, k, n)) {
      AddOneAt(st, a, k, n);
    }
    AddOneAt(st, a, a.kind, a.name);
  }

  lemma {:induction false} AddAllUnique(adds: seq<AddCall>)
    ensures Unique(AddAll(adds))
  {
    if adds == [] {
    } else {
      AddAllUnique(adds[..|adds| - 1]);
      AddOneUnique(AddAll(adds[..|adds| - 1]), adds[|adds| - 1]);
    }
  }

  lemma {:induction false} AddAllHas(adds: seq<AddCall>, kind: nat, name: string)
    ensures Has(AddAll(adds), kind, name) <==> exists i :: 0 <= i < |adds| && adds[i].kind == kind && adds[i].name == name
  {
    if adds == [] {
    } else {
      var front, last := adds[..|adds| - 1], adds[|adds| - 1];
      AddAllHas(front, kind, name);
      AddOneAt(AddAll(front), last, kind, name);
      if Has(AddAll(front), kind, name) {
        var i :| 0 <= i < |front| && front[i].kind == kind && front[i].name == name;
        assert adds[i] == front[i];
      }
      if i :| 0 <= i < |adds| && adds[i].kind == kind && adds[i].name == name {
        if i < |front| { assert front[i] == adds[i]; }
      }
    }
  }

  lemma AssignUnique(st: Ids, kind: nat, name: string, id: nat)
    requires Unique(st) && Has(st, kind, name) && id !in st.taken
    ensures Unique(Assign(st, kind, name, id))
  {
    var st' := Assign(st, kind, name, id);
    forall k, n ensures Id(st', k, n) == if k == kind && n == name then id else Id(st, k, n) {
    }
  }

  ghost predicate Generated(kind: nat, id: nat) {
    id != 0 && exists v: nat :: id == ConstructId(kind, v)
  }

  lemma {:induction false} AssignNamesUnique(hash: string -> nat, st: Ids, kind: nat, names: set<string>)
    requires kind in st.tables && IsPrefix(kind) && names <= st.tables[kind].Keys && Unique(st)
    ensures var r := AssignNames(hash, st, kind, names);
            Unique(r.st) && (r.ok ==> forall n :: n in names ==> Generated(kind, Id(r.st, kind, n)))
    decreases |names|
  {
    if names == {} {
    } else {
      var n := Least(names);
      match FirstFree(kind, hash(n) % WORD32, st.taken)
      case None =>
      case Some(id) =>
        var st' := Assign(st, kind, n, id);
        assert Has(st, kind, n);
        AssignUnique(st, kind, n, id);
        assert names - {n} <= st'.tables[kind].Keys;
        AssignNamesUnique(hash, st', kind, names - {n});
        AssignNamesKeeps(hash, st', kind, names - {n});
        assert Id(st', kind, n) == id && Generated(kind, id);
    }
  }

  /** What computing the ids does to one symbol. */
  ghost predicate Settled(before: Ids, after: Ids, kind: nat, name: string) {
    if Id(before, kind, name) != 0 then Id(after, kind, name) == Id(before, kind, name)
    else Generated(kind, Id(after, kind, name))
  }

  lemma {:induction false} ComputeKindsSettles(hash: string -> nat, st: Ids, kinds: set<nat>)
    requires kinds <= st.tables.Keys && (forall k :: k in st.tables ==> IsPrefix(k)) && Unique(st)
    ensures var r := ComputeKinds(hash, st, kinds);
            && Unique(r.st)
            && (forall k, n :: Has(r.st, k, n) <==> Has(st, k, n))
            && (forall k, n :: k !in kinds ==> Id(r.st, k, n) == Id(st, k, n))
            && (r.ok ==> forall k, n :: k in kinds && Has(st, k, n) ==> Settled(st, r.st, k, n))
    decreases |kinds|
  {
    if kinds == {} {
    } else {
      var k := First(kinds);
      var names := Unassigned(st, k);
      var one := AssignNames(hash, st, k, names);
      AssignNamesKeeps(hash, st, k, names);
      AssignNamesUnique(hash, st, k, names);
      ComputeKindsSettles(hash, one.st, kinds - {k});
    }
  }

  // ---------------------------------------------------------------- ids start from the hash

  /** The id e steps past a hash. */
  function Slot(kind: nat, h: nat, e: nat): nat {
    ConstructId(kind, h + e)
  }

  lemma FirstFreeGives(kind: nat, source: nat, taken: set<nat>) returns (d: nat)
    requires FirstFree(kind, source % WORD32, taken).Some?
    ensures d < LOW16 && FirstFree(kind, source % WORD32, taken).value == Slot(kind, source, d)
    ensures forall e: nat :: e < d ==> Slot(kind, source, e) in taken
  {
    d :| IsFirstFree(kind, source % WORD32, taken, d);
    FirstFreeIs(kind, source % WORD32, taken, d);
    SameSlotFrom(kind, source, d);
    forall e: nat | e < d ensures Slot(kind, source, e) in taken {
      assert InUse(kind, source % WORD32, taken, e);
      SameSlotFrom(kind, source, e);
    }
  }

  lemma SameSlotFrom(kind: nat, source: nat, d: nat)
    ensures ConstructId(kind, source % WORD32 + d) == Slot(kind, source, d)
  {
    var q := source / WORD32;
    assert source + d == source % WORD32 + d + q * 0x1_0000 * LOW16;
    SameLow(source % WORD32 + d, q * 0x1_0000);
  }

  lemma SameLow(x: nat, q: nat)
    ensures (x + q * LOW16) % LOW16 == x % LOW16
  {
    assert x + q * LOW16 == (x / LOW16 + q) * LOW16 + x % LOW16;
  }

  /** An id that stands in the way of name n of a type: taken before, or given to a smaller name. */
  ghost predicate InTheWay(taken: set<nat>, after: Ids, kind: nat, names: set<string>, n: string, id: nat) {
    id in taken || exists n' :: n' in names && Less(n', n) && Id(after, kind, n') == id
  }

  ghost predicate Probed(hash: string -> nat, taken: set<nat>, after: Ids, kind: nat, names: set<string>, n: string, d: nat) {
    && d < LOW16 && Id(after, kind, n) == Slot(kind, hash(n), d)
    && forall e: nat :: e < d ==> InTheWay(taken, after, kind, names, n, Slot(kind, hash(n), e))
  }

  ghost predicate HasProbe(hash: string -> nat, taken: set<nat>, after: Ids, kind: nat, names: set<string>, n: string) {
    exists d: nat :: Probed(hash, taken, after, kind, names, n, d)
  }

  ghost predicate GivenIn(after: Ids, kind: nat, names: set<string>, x: nat) {
    exists n :: n in names && Id(after, kind, n) == x
  }

  /** After a type is done, exactly the ids taken before and those given to its names are taken. */
  lemma {:induction false} AssignNamesTakes(hash: string -> nat, st: Ids, kind: nat, names: set<string>)
    requires kind in st.tables && names <= st.tables[kind].Keys && AssignNames(hash, st, kind, names).ok
    ensures var r := AssignNames(hash, st, kind, names).st;
            forall x: nat :: x in r.taken <==> x in st.taken || GivenIn(r, kind, names, x)
    decreases |names|
  {
    if names == {} {
    } else {
      var n := Least(names);
      var id := FirstFree(kind, hash(n) % WORD32, st.taken).value;
      var st', rest := Assign(st, kind, n, id), names - {n};
      assert rest <= st'.tables[kind].Keys;
      var r := AssignNames(hash, st', kind, rest).st;
      AssignNamesTakes(hash, st', kind, rest);
      AssignNamesKeeps(hash, st', kind, rest);
      assert Id(r, kind, n) == id;
      forall x: nat ensures x in r.taken <==> x in st.taken || GivenIn(r, kind, names, x) {
        GivenOneMore(r, kind, names, n, x);
      }
    }
  }

  /** Within one type each name gets the first slot from its hash on that nothing stands in the way of. */
  lemma {:induction false} AssignNamesProbes(hash: string -> nat, st: Ids, kind: nat, names: set<string>)
    requires kind in st.tables && names <= st.tables[kind].Keys && AssignNames(hash, st, kind, names).ok
    ensures var r := AssignNames(hash, st, kind, names).st;
            forall n :: n in names ==> HasProbe(hash, st.taken, r, kind, names, n)
    decreases |names|
  {
    if names == {} {
    } else {
      var n := Least(names);
      var id := FirstFree(kind, hash(n) % WORD32, st.taken).value;
      var st', rest := Assign(st, kind, n, id), names - {n};
      assert rest <= st'.tables[kind].Keys;
      var r := AssignNames(hash, st', kind, rest).st;
      AssignNamesProbes(hash, st', kind, rest);
      AssignNamesKeeps(hash, st', kind, rest);
      assert Id(r, kind, n) == id;
      LeastProbed(hash, st.taken, r, kind, names, n);
      forall m | m in rest ensures HasProbe(hash, st.taken, r, kind, names, m) {
        ProbedOneMore(hash, st.taken, st'.taken, r, kind, names, n, rest, m);
      }
    }
  }

  lemma LeastProbed(hash: string -> nat, taken: set<nat>, r: Ids, kind: nat, names: set<string>, n: string)
    requires FirstFree(kind, hash(n) % WORD32, taken) == Some(Id(r, kind, n))
    ensures HasProbe(hash, taken, r, kind, names, n)
  {
    var d := FirstFreeGives(kind, hash(n), taken);
    assert Probed(hash, taken, r, kind, names, n, d);
  }

  lemma GivenOneMore(r: Ids, kind: nat, names: set<string>, n: string, x: nat)
    requires n in names
    ensures GivenIn(r, kind, names, x) <==> GivenIn(r, kind, names - {n}, x) || Id(r, kind, n) == x
  {
  }

  lemma ProbedOneMore(hash: string -> nat, taken: set<nat>, taken': set<nat>, r: Ids, kind: nat, names: set<string>, n: string, rest: set<string>, m: string)
    requires IsLeast(n, names) && rest == names - {n} && m in rest && taken' == taken + {Id(r, kind, n)}
    requires HasProbe(hash, taken', r, kind, rest, m)
    ensures HasProbe(hash, taken, r, kind, names, m)
  {
    var c: nat :| Probed(hash, taken', r, kind, rest, m, c);
    forall e: nat | e < c ensures InTheWay(taken, r, kind, names, m, Slot(kind, hash(m), e)) {
      assert InTheWay(taken', r, kind, rest, m, Slot(kind, hash(m), e));
    }
    assert Probed(hash, taken, r, kind, names, m, c);
  }

  /** A symbol without an explicit id whose turn comes before that of (kind, name). */
  ghost predicate Earlier(before: Ids, k: nat, n: string, kind: nat, name: string) {
    Has(before, k, n) && Id(before, k, n) == 0 && (k < kind || (k == kind && Less(n, name)))
  }

  /** The id is an accepted explicit one or that of an earlier symbol. */
  ghost predicate Claimed(taken: set<nat>, before: Ids, after: Ids, kinds: set<nat>, kind: nat, name: string, id: nat) {
    id in taken || exists k, n :: k in kinds && Earlier(before, k, n, kind, name) && Id(after, k, n) == id
  }

  ghost predicate Settles(hash: string -> nat, taken: set<nat>, before: Ids, after: Ids, kinds: set<nat>, kind: nat, name: string, d: nat) {
    && d < LOW16 && Id(after, kind, name) == Slot(kind, hash(name), d)
    && forall e: nat :: e < d ==> Claimed(taken, before, after, kinds, kind, name, Slot(kind, hash(name), e))
  }

  lemma {:induction false} ComputeKindsKeeps(hash: string -> nat, st: Ids, kinds: set<nat>)
    requires kinds <= st.tables.Keys
    ensures var r := ComputeKinds(hash, st, kinds).st;
            && (forall k, n :: Has(r, k, n) <==> Has(st, k, n))
            && (forall k, n :: k !in kinds ==> Id(r, k, n) == Id(st, k, n))
    decreases |kinds|
  {
    if kinds == {} {
    } else {
      var k := First(kinds);
      AssignNamesKeeps(hash, st, k, Unassigned(st, k));
      ComputeKindsKeeps(hash, AssignNames(hash, st, k, Unassigned(st, k)).st, kinds - {k});
    }
  }

  lemma {:induction false} ComputeKindsProbes(hash: string -> nat, st: Ids, kinds: set<nat>)
    requires kinds <= st.tables.Keys && ComputeKinds(hash, st, kinds).ok
    ensures var r := ComputeKinds(hash, st, kinds).st;
            forall k, n :: k in kinds && Has(st, k, n) && Id(st, k, n) == 0 ==>
              exists d: nat :: Settles(hash, st.taken, st, r, kinds, k, n, d)
    decreases |kinds|
  {
    if kinds == {} {
    } else {
      var k := First(kinds);
      var names, rest := Unassigned(st, k), kinds - {k};
      var one := AssignNames(hash, st, k, names).st;
      AssignNamesKeeps(hash, st, k, names);
      var r := ComputeKinds(hash, one, rest).st;
      AssignNamesProbes(hash, st, k, names);
      AssignNamesTakes(hash, st, k, names);
      ComputeKindsProbes(hash, one, rest);
      ComputeKindsKeeps(hash, one, rest);
      forall k', n | k' in kinds && Has(st, k', n) && Id(st, k', n) == 0
        ensures exists d: nat :: Settles(hash, st.taken, st, r, kinds, k', n, d)
      {
        if k' == k {
          assert n in names;
          FirstKindSettles(hash, st, one, r, kinds, k, n);
        } else {
          LaterKindSettles(hash, st, one, r, kinds, k, k', n);
        }
      }
    }
  }

  lemma FirstKindSettles(hash: string -> nat, st: Ids, one: Ids, r: Ids, kinds: set<nat>, k: nat, n: string)
    requires k in kinds && k in st.tables && n in Unassigned(st, k)
    requires HasProbe(hash, st.taken, one, k, Unassigned(st, k), n)
    requires forall n' :: Id(r, k, n') == Id(one, k, n')
    ensures exists d: nat :: Settles(hash, st.taken, st, r, kinds, k, n, d)
  {
    var names := Unassigned(st, k);
    var d: nat :| Probed(hash, st.taken, one, k, names, n, d);
    forall e: nat | e < d ensures Claimed(st.taken, st, r, kinds, k, n, Slot(k, hash(n), e)) {
      var id := Slot(k, hash(n), e);
      assert InTheWay(st.taken, one, k, names, n, id);
      if id !in st.taken {
        var n' :| n' in names && Less(n', n) && Id(one, k, n') == id;
        assert Earlier(st, k, n', k, n) && Id(r, k, n') == id;
      }
    }
    assert Settles(hash, st.taken, st, r, kinds, k, n, d);
  }

  lemma LaterKindSettles(hash: string -> nat, st: Ids, one: Ids, r: Ids, kinds: set<nat>, k: nat, kind: nat, n: string)
    requires IsFirst(k, kinds) && k in st.tables && kind in kinds - {k}
    requires forall x: nat :: x in one.taken <==> x in st.taken || GivenIn(one, k, Unassigned(st, k), x)
    requires forall n' :: Id(r, k, n') == Id(one, k, n')
    requires forall k', n' :: Has(one, k', n') <==> Has(st, k', n')
    requires forall k', n' :: k' != k ==> Id(one, k', n') == Id(st, k', n')
    requires exists d: nat :: Settles(hash, one.taken, one, r, kinds - {k}, kind, n, d)
    ensures exists d: nat :: Settles(hash, st.taken, st, r, kinds, kind, n, d)
  {
    var rest := kinds - {k};
    var d: nat :| Settles(hash, one.taken, one, r, rest, kind, n, d);
    forall e: nat | e < d ensures Claimed(st.taken, st, r, kinds, kind, n, Slot(kind, hash(n), e)) {
      var id := Slot(kind, hash(n), e);
      assert Claimed(one.taken, one, r, rest, kind, n, id);
      if id in one.taken {
        if id !in st.taken {
          var n' :| n' in Unassigned(st, k) && Id(one, k, n') == id;
          assert Earlier(st, k, n', kind, n) && Id(r, k, n') == id;
        }
      } else {
        var k', n' :| k' in rest && Earlier(one, k', n', kind, n) && Id(r, k', n') == id;
        assert Earlier(st, k', n', kind, n);
      }
    }
    assert Settles(hash, st.taken, st, r, kinds, kind, n, d);
  }

  /** Every symbol without an accepted explicit id gets the first slot from the hash of its name on that
      is no accepted explicit id and not the id of a symbol of a smaller type, or of the same type and
      with a smaller name. */
  lemma CreateProbes(hash: string -> nat, adds: seq<AddCall>, kind: nat, name: string) returns (d: nat)
    requires Create(hash, adds).ok && Has(AddAll(adds), kind, name) && Id(AddAll(adds), kind, name) == 0
    ensures var st, r := AddAll(adds), Create(hash, adds).st;
            && d < LOW16 && Id(r, kind, name) == Slot(kind, hash(name), d)
            && forall e: nat :: e < d ==> Claimed(st.taken, st, r, st.tables.Keys, kind, name, Slot(kind, hash(name), e))
  {
    var st, r := AddAll(adds), Create(hash, adds).st;
    ComputeKindsProbes(hash, st, st.tables.Keys);
    d :| Settles(hash, st.taken, st, r, st.tables.Keys, kind, name, d);
  }

  /** In particular the id is made of the type and the hash when nothing else claims that slot. */
  lemma HashDecides(hash: string -> nat, adds: seq<AddCall>, kind: nat, name: string)
    requires Create(hash, adds).ok && Has(AddAll(adds), kind, name) && Id(AddAll(adds), kind, name) == 0
    requires ConstructId(kind, hash(name)) !in AddAll(adds).taken
    requires forall k, n :: Earlier(AddAll(adds), k, n, kind, name) ==> Id(Create(hash, adds).st, k, n) != ConstructId(kind, hash(name))
    ensures Id(Create(hash, adds).st, kind, name) == ConstructId(kind, hash(name))
  {
    var st, r := AddAll(adds), Create(hash, adds).st;
    var d := CreateProbes(hash, adds, kind, name);
    assert !Claimed(st.taken, st, r, st.tables.Keys, kind, name, Slot(kind, hash(name), 0));
  }

  /** Every symbol that was added, and no other, ends with an id; all ids are distinct, across
      types and names; an accepted explicit id is kept; a generated one has its type on top. */
  lemma CreateSettles(hash: string -> nat, adds: seq<AddCall>)
    requires forall i :: 0 <= i < |adds| ==> IsPrefix(adds[i].kind)
    requires Create(hash, adds).ok
    ensures var r := Create(hash, adds).st;
            && (forall k, n :: Has(r, k, n) <==> exists i :: 0 <= i < |adds| && adds[i].kind == k && adds[i].name == n)
            && (forall k, n :: Has(r, k, n) ==> Id(r, k, n) != 0 && Settled(AddAll(adds), r, k, n))
            && (forall k, n, k', n' :: Has(r, k, n) && Has(r, k', n') && Id(r, k, n) == Id(r, k', n') ==> k == k' && n == n')
  {
    var st := AddAll(adds);
    AddAllUnique(adds);
    KindsAreAdded(adds);
    ComputeKindsSettles(hash, st, st.tables.Keys);
    forall k, n ensures Has(st, k, n) <==> exists i :: 0 <= i < |adds| && adds[i].kind == k && adds[i].name == n {
      AddAllHas(adds, k, n);
    }
  }

  lemma {:induction false} KindsAreAdded(adds: seq<AddCall>)
    ensures forall k :: k in AddAll(adds).tables ==> exists i :: 0 <= i < |adds| && adds[i].kind == k
  {
    if adds == [] {
    } else {
      var front := adds[..|adds| - 1];
      KindsAreAdded(front);
      forall k | k in AddAll(adds).tables ensures exists i :: 0 <= i < |adds| && adds[i].kind == k {
        if k == adds[|adds| - 1].kind {
        } else {
          assert k in AddAll(front).tables;
          var i :| 0 <= i < |front| && front[i].kind == k;
          assert adds[i] == front[i];
        }
      }
    }
  }

  /** The first add of a symbol decides: its explicit id is accepted exactly when nothing
      before it took that id, and later adds of the symbol change nothing. */
  lemma {:induction false} FirstAddDecides(before: seq<AddCall>, a: AddCall, after: seq<AddCall>)
    requires forall i :: 0 <= i < |before| ==> before[i].kind != a.kind || before[i].name != a.name
    ensures Id(AddAll(before + [a] + after), a.kind, a.name) == TryToAssign(AddAll(before).taken, a.id)
  {
    var all := before + [a] + after;
    if after == [] {
      assert all == before + [a] && all[..|all| - 1] == before;
      AddAllHas(before, a.kind, a.name);
      AddOneAt(AddAll(before), a, a.kind, a.name);
    } else {
      var shorter := after[..|after| - 1];
      assert all[..|all| - 1] == before + [a] + shorter;
      FirstAddDecides(before, a, shorter);
      AddAllHas(all[..|all| - 1], a.kind, a.name);
      assert all[..|all| - 1][|before|] == a;
      AddOneAt(AddAll(all[..|all| - 1]), all[|all| - 1], a.kind, a.name);
    }
  }

  // ---------------------------------------------------------------- the order of adds does not matter

  /** A symbol always comes with the same explicit id, and different symbols with different ones. */
  ghost predicate Consistent(adds: seq<AddCall>) {
    forall i, j :: 0 <= i < |adds| && 0 <= j < |adds| ==>
      if adds[i].kind == adds[j].kind && adds[i].name == adds[j].name then adds[i].id == adds[j].id
      else adds[i].id.None? || adds[i].id != adds[j].id
  }

  ghost predicate Asked(adds: seq<AddCall>, x: nat) {
    exists i :: 0 <= i < |adds| && adds[i].id == Some(x)
  }

  /** The ids taken are those asked for, once that holds without the last call. */
  lemma TakenGrows(front: seq<AddCall>, last: AddCall)
    requires Consistent(front + [last]) && forall x: nat :: x in AddAll(front).taken <==> Asked(front, x)
    ensures forall x: nat :: x in AddAll(front + [last]).taken <==> Asked(front + [last], x)
  {
    var adds, st := front + [last], AddAll(front);
    assert adds[..|adds| - 1] == front && adds[|front|] == last;
    AddAllHas(front, last.kind, last.name);
    if Has(st, last.kind, last.name) {
      var j :| 0 <= j < |front| && front[j].kind == last.kind && front[j].name == last.name;
      assert adds[j] == front[j] && front[j].id == last.id;
      assert AddAll(adds).taken == st.taken;
    } else {
      assert AddAll(adds).taken == Record(st.taken, last.id);
    }
    forall x: nat ensures Asked(adds, x) <==> Asked(front, x) || last.id == Some(x) {
      if i :| 0 <= i < |front| && front[i].id == Some(x) { assert adds[i].id == Some(x); }
      if i :| 0 <= i < |adds| && adds[i].id == Some(x) { assert i < |front| ==> front[i].id == Some(x); }
      if last.id == Some(x) { assert adds[|front|].id == Some(x); }
    }
  }

  /** What consistent adds leave behind, told without their order. */
  lemma {:induction false} ConsistentResult(adds: seq<AddCall>)
    requires Consistent(adds)
    ensures forall i :: 0 <= i < |adds| ==>
              Id(AddAll(adds), adds[i].kind, adds[i].name) == if adds[i].id.Some? then adds[i].id.value else 0
    ensures forall x: nat :: x in AddAll(adds).taken <==> Asked(adds, x)
    ensures forall k :: k in AddAll(adds).tables ==> AddAll(adds).tables[k] != map[]
  {
    if adds == [] {
    } else {
      var front, last := adds[..|adds| - 1], adds[|adds| - 1];
      ConsistentResult(front);
      var st := AddAll(front);
      AddAllHas(front, last.kind, last.name);
      forall i | 0 <= i < |adds|
        ensures Id(AddAll(adds), adds[i].kind, adds[i].name) == if adds[i].id.Some? then adds[i].id.value else 0
      {
        AddOneAt(st, last, adds[i].kind, adds[i].name);
        if i < |front| { assert front[i] == adds[i]; }
      }
      TakenGrows(front, last);
      assert adds == front + [last];
    }
  }

  lemma SameHas(adds: seq<AddCall>, adds': seq<AddCall>, kind: nat, name: string)
    requires Consistent(adds) && Consistent(adds') && forall c :: c in adds <==> c in adds'
    ensures Has(AddAll(adds), kind, name) ==>
              Has(AddAll(adds'), kind, name) && Id(AddAll(adds), kind, name) == Id(AddAll(adds'), kind, name)
  {
    AddAllHas(adds, kind, name);
    AddAllHas(adds', kind, name);
    if Has(AddAll(adds), kind, name) {
      var i :| 0 <= i < |adds| && adds[i].kind == kind && adds[i].name == name;
      assert adds[i] in adds';
      var j :| 0 <= j < |adds'| && adds'[j] == adds[i];
      ConsistentResult(adds);
      ConsistentResult(adds');
    }
  }

  lemma SameStates(a: Ids, b: Ids)
    requires forall k, n :: Has(a, k, n) ==> Has(b, k, n) && Id(a, k, n) == Id(b, k, n)
    requires forall k, n :: Has(b, k, n) ==> Has(a, k, n)
    requires forall k :: k in a.tables ==> a.tables[k] != map[]
    requires forall k :: k in b.tables ==> b.tables[k] != map[]
    ensures a.tables == b.tables
  {
    forall k | k in a.tables ensures k in b.tables {
      var n :| n in a.tables[k];
      assert Has(a, k, n);
    }
    forall k | k in b.tables ensures k in a.tables {
      var n :| n in b.tables[k];
      assert Has(b, k, n);
    }
    forall k | k in a.tables ensures a.tables[k] == b.tables[k] {
      forall n ensures n in a.tables[k] <==> n in b.tables[k] {
        assert Has(a, k, n) <==> Has(b, k, n);
      }
      forall n | n in a.tables[k] ensures a.tables[k][n] == b.tables[k][n] {
        assert Has(a, k, n) && Id(a, k, n) == Id(b, k, n);
      }
    }
  }

  /** Consistent adds that mention the same calls give the same table, in whatever order and
      however often the calls are made. */
  lemma OrderIndependent(hash: string -> nat, adds: seq<AddCall>, adds': seq<AddCall>)
    requires Consistent(adds) && Consistent(adds') && forall c :: c in adds <==> c in adds'
    ensures AddAll(adds) == AddAll(adds')
    ensures Create(hash, adds) == Create(hash, adds')
  {
    var a, b := AddAll(adds), AddAll(adds');
    ConsistentResult(adds);
    ConsistentResult(adds');
    forall k, n ensures Has(a, k, n) ==> Has(b, k, n) && Id(a, k, n) == Id(b, k, n) { SameHas(adds, adds', k, n); }
    forall k, n ensures Has(b, k, n) ==> Has(a, k, n) { SameHas(adds', adds, k, n); }
    SameStates(a, b);
    assert a.taken == b.taken by {
      forall x ensures x in a.taken ==> x in b.taken { SameTaken(adds, adds', x); }
      forall x ensures x in b.taken ==> x in a.taken { SameTaken(adds', adds, x); }
    }
  }

  lemma SameTaken(adds: seq<AddCall>, adds': seq<AddCall>, x: nat)
    requires Consistent(adds) && Consistent(adds') && forall c :: c in adds <==> c in adds'
    ensures x in AddAll(adds).taken ==> x in AddAll(adds').taken
  {
    ConsistentResult(adds);
    ConsistentResult(adds');
    if x in AddAll(adds).taken {
      var i :| 0 <= i < |adds| && adds[i].id == Some(x);
      assert adds[i] in adds';
    }
  }
}
