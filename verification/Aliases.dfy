/**
 When two aliases coincide as text, told by the stored symbols alone.

 Serialising a suffix drops the empty components in front of it.  So the alias of a symbol can be
 the whole of another symbol behind some empty components, and then the two aliases read the same.
 */
module Aliases {
  import opened SuffixSets

  function Empties(r: nat): Components {
    seq(r, _ => "")
  }

  predicate EndsIn(cs: Components, tail: Components) {
    |tail| <= |cs| && cs[|cs| - |tail|..] == tail
  }

  // ---------------------------------------------------------------- paths in the trie

  /** Path a runs through the whole of path b and r empty components, and no further than there or as
      the only one. */
  ghost predicate RunsPast(stored: set<Components>, a: Components, b: Components, r: nat) {
    && r >= 1 && b + Empties(r) <= a
    && (a == b + Empties(r) || forall c :: c in stored && b + Empties(r) <= c ==> c == a)
  }

  /** A chosen path that is another one followed by empty components has run past the whole of it. */
  lemma ChosenRunsPast(stored: set<Components>, a: Components, m: nat, b: Components, n: nat, r: nat)
    requires a in stored && b in stored && a != b && Needed(stored, a, m) && Needed(stored, b, n)
    requires r >= 1 && a[..m] == b[..n] + Empties(r)
    ensures RunsPast(stored, a, b, r)
  {
    assert b[..n] <= a[..m] <= a;
    if n < |b| {
      TwoShare(stored, b[..n], a, b);
      assert false;
    }
    assert b[..n] == b;
    if m < |a| {
      forall c | c in stored && a[..m] <= c ensures c == a {
        if c != a { TwoShare(stored, a[..m], a, c); }
      }
    } else {
      assert a[..m] == a;
    }
  }

  /** And a path that runs past another one is chosen that way. */
  lemma RunsPastChosen(stored: set<Components>, a: Components, m: nat, b: Components, n: nat, r: nat) returns (k: nat)
    requires a in stored && b in stored && b != [] && a != b && Needed(stored, a, m) && Needed(stored, b, n)
    requires RunsPast(stored, a, b, r)
    ensures k >= 1 && a[..m] == b[..n] + Empties(k)
  {
    var p := b + Empties(r);
    assert b <= p <= a;
    if n < |b| {
      TwoShare(stored, b[..n], a, b);
      assert false;
    }
    if m <= |b| {
      assert a[..m] == b[..m];
      TwoShare(stored, a[..m], a, b);
      assert false;
    }
    assert a[..|p|] == p;
    if m > |p| {
      var c := OtherSharer(stored, a, m, |p|);
      assert false;
    }
    k := m - |b|;
    assert a[..m] == p[..m] == b + Empties(k);
    assert b[..n] == b;
  }

  lemma OtherSharer(stored: set<Components>, a: Components, m: nat, k: nat) returns (c: Components)
    requires a in stored && Needed(stored, a, m) && 1 <= k < m
    ensures c in stored && c != a && a[..k] <= c
  {
    AliasShortest(stored, a, m, k);
    c :| c in stored && c != a && a[..k] <= c;
  }

  // ---------------------------------------------------------------- components

  lemma ReversedPadding(cs: Components, r: nat)
    ensures Reversed(Empties(r) + cs) == Reversed(cs) + Empties(r)
  {
  }

  /** A suffix of components is a prefix of the path. */
  lemma EndsInPath(cs: Components, tail: Components)
    ensures EndsIn(cs, tail) <==> Reversed(tail) <= Reversed(cs)
  {
    if |tail| <= |cs| {
      ReversedTail(cs, |tail|);
      if Reversed(tail) == Reversed(cs)[..|tail|] { ReversedInjective(tail, cs[|cs| - |tail|..]); }
    }
  }

  lemma {:induction false} TrimmedPadding(cs: Components, r: nat)
    ensures Trimmed(Empties(r) + cs) == Trimmed(cs)
    decreases r
  {
    if r == 0 {
      assert Empties(0) + cs == cs;
    } else {
      assert (Empties(r) + cs)[1..] == Empties(r - 1) + cs;
      TrimmedPadding(cs, r - 1);
    }
  }

  lemma {:induction false} TrimmedForm(cs: Components) returns (r: nat)
    ensures cs == Empties(r) + Trimmed(cs)
    decreases cs
  {
    if cs != [] && cs[0] == "" {
      var k := TrimmedForm(cs[1..]);
      r := k + 1;
      MoreEmpties(1, k, Trimmed(cs[1..]));
      assert cs == Empties(1) + cs[1..];
    } else {
      r := 0;
    }
  }

  /** Lists that agree without their leading empty components differ in some of these only. */
  lemma TrimmedAlike(x: Components, y: Components) returns (r: nat)
    requires Trimmed(x) == Trimmed(y)
    ensures x == Empties(r) + y || y == Empties(r) + x
  {
    var i := TrimmedForm(x);
    var j := TrimmedForm(y);
    if i >= j {
      r := i - j;
      MoreEmpties(r, j, Trimmed(y));
    } else {
      r := j - i;
      MoreEmpties(r, i, Trimmed(x));
    }
  }

  lemma MoreEmpties(r: nat, k: nat, cs: Components)
    ensures Empties(r + k) + cs == Empties(r) + (Empties(k) + cs)
  {
  }

  // ---------------------------------------------------------------- symbols

  /** s ends in r empty components followed by all of t, and is exactly that or the only stored symbol
      that ends so. */
  ghost predicate Pads(symbols: set<string>, s: string, t: string, r: nat) {
    var tail := Empties(r) + Split(t);
    && r >= 1 && EndsIn(Split(s), tail)
    && (Split(s) == tail || forall u :: u in symbols && EndsIn(Split(u), tail) ==> u == s)
  }

  ghost predicate Hides(symbols: set<string>, s: string, t: string) {
    exists r: nat :: Pads(symbols, s, t, r)
  }

  lemma SplitInjective(s: string, t: string)
    requires Reversed(Split(s)) == Reversed(Split(t))
    ensures s == t
  {
    ReversedInjective(Split(s), Split(t));
    JoinSplit(s);
    JoinSplit(t);
  }

  /** Being the only symbol with an ending is being the only path with a prefix. */
  lemma OnlyEnding(symbols: set<string>, s: string, tail: Components)
    requires s in symbols
    ensures (forall u :: u in symbols && EndsIn(Split(u), tail) ==> u == s) <==>
              (forall c :: c in StoredPaths(symbols) && Reversed(tail) <= c ==> c == Reversed(Split(s)))
  {
    var stored, a, path := StoredPaths(symbols), Reversed(Split(s)), Reversed(tail);
    if forall u :: u in symbols && EndsIn(Split(u), tail) ==> u == s {
      forall c | c in stored && path <= c ensures c == a {
        var u :| u in symbols && c == Reversed(Split(u));
        EndsInPath(Split(u), tail);
      }
    }
    if forall c :: c in stored && path <= c ==> c == a {
      forall u | u in symbols && EndsIn(Split(u), tail) ensures u == s {
        EndsInPath(Split(u), tail);
        assert Reversed(Split(u)) in stored;
        SplitInjective(u, s);
      }
    }
  }

  lemma PadsIsRunsPast(symbols: set<string>, s: string, t: string, r: nat)
    requires s in symbols && t in symbols
    ensures Pads(symbols, s, t, r) <==> RunsPast(StoredPaths(symbols), Reversed(Split(s)), Reversed(Split(t)), r)
  {
    var tail := Empties(r) + Split(t);
    ReversedPadding(Split(t), r);
    EndsInPath(Split(s), tail);
    OnlyEnding(symbols, s, tail);
    if Reversed(Split(s)) == Reversed(tail) { ReversedInjective(Split(s), tail); }
  }

  lemma PaddedReversed(x: Components, y: Components, r: nat)
    ensures x == Empties(r) + y <==> Reversed(x) == Reversed(y) + Empties(r)
  {
    ReversedPadding(y, r);
    if Reversed(x) == Reversed(Empties(r) + y) { ReversedInjective(x, Empties(r) + y); }
  }

  lemma LastReversed(s: string, m: nat)
    requires m <= |Split(s)|
    ensures Reversed(LastComponents(s, m)) == Reversed(Split(s))[..m]
  {
    ReversedTail(Split(s), m);
  }

  /** Suffixes padded with empty components, as paths. */
  lemma PaddedTails(s: string, m: nat, t: string, n: nat, r: nat)
    requires m <= |Split(s)| && n <= |Split(t)|
    ensures LastComponents(s, m) == Empties(r) + LastComponents(t, n) <==>
              Reversed(Split(s))[..m] == Reversed(Split(t))[..n] + Empties(r)
  {
    LastReversed(s, m);
    LastReversed(t, n);
    PaddedReversed(LastComponents(s, m), LastComponents(t, n), r);
  }

  /** A symbol that hides another one has an alias that is the other alias behind empty components ... */
  lemma HiddenIsPadded(symbols: set<string>, s: string, m: nat, t: string, n: nat) returns (k: nat)
    requires s in symbols && t in symbols && s != t && Hides(symbols, s, t)
    requires Needed(StoredPaths(symbols), Reversed(Split(s)), m) && Needed(StoredPaths(symbols), Reversed(Split(t)), n)
    ensures k >= 1 && LastComponents(s, m) == Empties(k) + LastComponents(t, n)
  {
    var r: nat :| Pads(symbols, s, t, r);
    k := PadsPadded(symbols, s, m, t, n, r);
    PaddedTails(s, m, t, n, k);
  }

  lemma PadsPadded(symbols: set<string>, s: string, m: nat, t: string, n: nat, r: nat) returns (k: nat)
    requires s in symbols && t in symbols && s != t && Pads(symbols, s, t, r)
    requires Needed(StoredPaths(symbols), Reversed(Split(s)), m) && Needed(StoredPaths(symbols), Reversed(Split(t)), n)
    ensures k >= 1 && Reversed(Split(s))[..m] == Reversed(Split(t))[..n] + Empties(k)
  {
    var stored, a, b := StoredPaths(symbols), Reversed(Split(s)), Reversed(Split(t));
    PadsIsRunsPast(symbols, s, t, r);
    StoredApart(symbols, s, t);
    k := RunsPastChosen(stored, a, m, b, n, r);
  }

  lemma StoredApart(symbols: set<string>, s: string, t: string)
    requires s in symbols && t in symbols && s != t
    ensures Reversed(Split(s)) in StoredPaths(symbols) && Reversed(Split(t)) in StoredPaths(symbols)
    ensures Reversed(Split(s)) != Reversed(Split(t))
  {
    if Reversed(Split(s)) == Reversed(Split(t)) { SplitInjective(s, t); }
  }

  /** ... and only such a symbol has. */
  lemma PaddedIsHidden(symbols: set<string>, s: string, m: nat, t: string, n: nat, r: nat)
    requires s in symbols && t in symbols && s != t
    requires Needed(StoredPaths(symbols), Reversed(Split(s)), m) && Needed(StoredPaths(symbols), Reversed(Split(t)), n)
    requires r >= 1 && LastComponents(s, m) == Empties(r) + LastComponents(t, n)
    ensures Hides(symbols, s, t)
  {
    StoredApart(symbols, s, t);
    PaddedTails(s, m, t, n, r);
    ChosenRunsPast(StoredPaths(symbols), Reversed(Split(s)), m, Reversed(Split(t)), n, r);
    PadsIsRunsPast(symbols, s, t, r);
  }

  lemma SameTextHides(symbols: set<string>, s: string, m: nat, t: string, n: nat)
    requires s in symbols && t in symbols && s != t
    requires Needed(StoredPaths(symbols), Reversed(Split(s)), m) && Needed(StoredPaths(symbols), Reversed(Split(t)), n)
    requires Trimmed(LastComponents(s, m)) == Trimmed(LastComponents(t, n)) && LastComponents(s, m) != LastComponents(t, n)
    ensures Hides(symbols, s, t) || Hides(symbols, t, s)
  {
    var x, y := LastComponents(s, m), LastComponents(t, n);
    var r := TrimmedAlike(x, y);
    assert Empties(0) + y == y && Empties(0) + x == x;
    if x == Empties(r) + y {
      PaddedIsHidden(symbols, s, m, t, n, r);
    } else {
      PaddedIsHidden(symbols, t, n, s, m, r);
    }
  }

  lemma HidesSameText(symbols: set<string>, s: string, m: nat, t: string, n: nat)
    requires s in symbols && t in symbols && s != t && Hides(symbols, s, t)
    requires Needed(StoredPaths(symbols), Reversed(Split(s)), m) && Needed(StoredPaths(symbols), Reversed(Split(t)), n)
    ensures Trimmed(LastComponents(s, m)) == Trimmed(LastComponents(t, n))
  {
    var k := HiddenIsPadded(symbols, s, m, t, n);
    TrimmedPadding(LastComponents(t, n), k);
  }

  /** The aliases of two stored symbols are the same text exactly when one of the symbols hides the
      other behind empty components. */
  lemma SameAliasText(symbols: set<string>, s: string, m: nat, t: string, n: nat)
    requires s in symbols && t in symbols && s != t
    requires Needed(StoredPaths(symbols), Reversed(Split(s)), m) && Needed(StoredPaths(symbols), Reversed(Split(t)), n)
    ensures Serialized(LastComponents(s, m)) == Serialized(LastComponents(t, n)) <==>
              Hides(symbols, s, t) || Hides(symbols, t, s)
  {
    AliasTexts(symbols, s, m, t, n);
    if Trimmed(LastComponents(s, m)) == Trimmed(LastComponents(t, n)) { SameTextHides(symbols, s, m, t, n); }
    if Hides(symbols, s, t) { HidesSameText(symbols, s, m, t, n); }
    if Hides(symbols, t, s) { HidesSameText(symbols, t, n, s, m); }
  }
}
