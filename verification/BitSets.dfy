/**
 The abstract value of a bit vector: the finite set of naturals whose digit is set in a
 sequence of 64-bit words, and the number that a stretch of that set spells in binary.
 */
module BitSets {
  import opened Words

  /** Word `k`, and zero past the end (`bitvec::word`). */
  function WordAt(ws: seq<Word>, k: nat): Word {
    if k < |ws| then ws[k] else 0
  }

  ghost predicate Has(ws: seq<Word>, i: nat) {
    Bit(WordAt(ws, i / BITS), i % BITS)
  }

  ghost function Elems(ws: seq<Word>): (s: set<nat>)
    ensures forall i: nat :: i in s <==> Has(ws, i)
  {
    ZeroHasNoBits();
    set i: nat | i < BITS * |ws| && Has(ws, i)
  }

  /** Equal sets come from equal words, whatever the two lengths. */
  lemma WordsFromElems(a: seq<Word>, b: seq<Word>)
    requires Elems(a) == Elems(b)
    ensures forall k: nat :: WordAt(a, k) == WordAt(b, k)
  {
    forall k: nat ensures WordAt(a, k) == WordAt(b, k) {
      var x, y := WordAt(a, k), WordAt(b, k);
      WordBits(x);
      WordBits(y);
      forall i: nat ensures Bit(x, i) == Bit(y, i) {
        if i < BITS {
          var j := BITS * k + i;
          assert j / BITS == k && j % BITS == i;
          assert Has(a, j) == Has(b, j);
        }
      }
      Extensional(x, y);
    }
  }

  lemma ElemsFromWords(a: seq<Word>, b: seq<Word>)
    requires forall k: nat :: WordAt(a, k) == WordAt(b, k)
    ensures Elems(a) == Elems(b)
  {
  }

  /** Among words of one length, a word changed exactly when the set changed. */
  lemma ChangedWords(after: seq<Word>, before: seq<Word>)
    requires |after| == |before|
    ensures after != before <==> Elems(after) != Elems(before)
  {
    if Elems(after) == Elems(before) {
      WordsFromElems(after, before);
      forall k | 0 <= k < |after| ensures after[k] == before[k] {
        assert WordAt(after, k) == WordAt(before, k);
      }
    }
  }

  lemma UnionWords(r: seq<Word>, a: seq<Word>, b: seq<Word>)
    requires |b| <= |a| == |r|
    requires forall k :: 0 <= k < |b| ==> r[k] == Or(a[k], b[k])
    requires forall k :: |b| <= k < |a| ==> r[k] == a[k]
    ensures Elems(r) == Elems(a) + Elems(b)
    ensures r != a <==> Elems(r) != Elems(a)
  {
    ZeroHasNoBits();
    forall i: nat ensures Has(r, i) == (Has(a, i) || Has(b, i)) {
    }
    ChangedWords(r, a);
  }

  lemma SymmetricDifferenceWords(r: seq<Word>, a: seq<Word>, b: seq<Word>)
    requires |b| <= |a| == |r|
    requires forall k :: 0 <= k < |b| ==> r[k] == Xor(a[k], b[k])
    requires forall k :: |b| <= k < |a| ==> r[k] == a[k]
    ensures Elems(r) == (Elems(a) - Elems(b)) + (Elems(b) - Elems(a))
  {
    ZeroHasNoBits();
    forall i: nat ensures Has(r, i) == (Has(a, i) != Has(b, i)) {
    }
  }

  lemma IntersectionWords(r: seq<Word>, a: seq<Word>, b: seq<Word>)
    requires |a| == |r|
    requires forall k :: 0 <= k < |a| && k < |b| ==> r[k] == And(a[k], b[k])
    requires forall k :: |b| <= k < |a| ==> r[k] == 0
    ensures Elems(r) == Elems(a) * Elems(b)
    ensures r != a <==> Elems(r) != Elems(a)
  {
    ZeroHasNoBits();
    forall i: nat ensures Has(r, i) == (Has(a, i) && Has(b, i)) {
    }
    ChangedWords(r, a);
  }

  lemma DifferenceWords(r: seq<Word>, a: seq<Word>, b: seq<Word>)
    requires |a| == |r|
    requires forall k :: 0 <= k < |a| && k < |b| ==> r[k] == And(a[k], Not(b[k]))
    requires forall k :: |b| <= k < |a| ==> r[k] == a[k]
    ensures Elems(r) == Elems(a) - Elems(b)
    ensures r != a <==> Elems(r) != Elems(a)
  {
    ZeroHasNoBits();
    forall i: nat ensures Has(r, i) == (Has(a, i) && !Has(b, i)) {
    }
    ChangedWords(r, a);
  }

  // ---------------------------------------------------------------- cardinality

  function PopCount(w: nat): nat {
    if w == 0 then 0 else PopCount(w / 2) + w % 2
  }

  ghost predicate InBlock(w: nat, base: nat, n: nat, i: nat) {
    base <= i < base + n && Bit(w, i - base)
  }

  /** The digits of w below n, moved up by base. */
  ghost function Block(w: nat, base: nat, n: nat): set<nat> {
    set i: nat | i < base + n && InBlock(w, base, n, i)
  }

  /** `popcount` of a number counts its digits. */
  lemma {:induction false} PopCountCounts(w: nat, base: nat, n: nat)
    requires w < Pow2(n)
    ensures |Block(w, base, n)| == PopCount(w)
    decreases n
  {
    if n == 0 {
      assert Block(w, base, n) == {};
    } else {
      var rest := Block(w / 2, base + 1, n - 1);
      PopCountCounts(w / 2, base + 1, n - 1);
      forall i: nat
        ensures InBlock(w, base, n, i) == (InBlock(w / 2, base + 1, n - 1, i) || (i == base && w % 2 == 1))
      {
        if i > base { assert Bit(w, i - base) == Bit(w / 2, i - base - 1); }
      }
      if w % 2 == 1 {
        assert Block(w, base, n) == rest + {base};
      } else {
        assert Block(w, base, n) == rest;
      }
    }
  }

  lemma ElemsOfSuffix(ws: seq<Word>, w: Word)
    ensures Elems(ws + [w]) == Elems(ws) + Block(w, BITS * |ws|, BITS)
    ensures Elems(ws) !! Block(w, BITS * |ws|, BITS)
  {
    ZeroHasNoBits();
    var all := ws + [w];
    forall i: nat ensures Has(all, i) == (Has(ws, i) || i in Block(w, BITS * |ws|, BITS)) {
      if i / BITS == |ws| {
        assert i % BITS == i - BITS * |ws|;
      }
    }
    forall i: nat | Has(ws, i) ensures i !in Block(w, BITS * |ws|, BITS) {
    }
  }

  lemma OneMoreWord(ws: seq<Word>, w: Word, bits: nat)
    requires bits == BITS
    ensures |Elems(ws + [w])| == |Elems(ws)| + PopCount(w)
  {
    Pow2Of64();
    PopCountCounts(w, BITS * |ws|, bits);
    ElemsOfSuffix(ws, w);
  }

  // ---------------------------------------------------------------- numbers spelled by a set

  /** The number whose digit j is set exactly when lo + j is in s, for j < n. */
  ghost function Number(s: set<nat>, lo: nat, n: nat): nat
    decreases n
  {
    if n == 0 then 0 else Digit(lo in s) + 2 * Number(s, lo + 1, n - 1)
  }

  lemma {:induction false} NumberBit(s: set<nat>, lo: nat, n: nat, i: nat)
    ensures Bit(Number(s, lo, n), i) == (i < n && lo + i in s)
    decreases n
  {
    if n == 0 {
      ZeroBit(i);
    } else if i > 0 {
      NumberBit(s, lo + 1, n - 1, i - 1);
    }
  }

  lemma NumberFromBits(w: nat, s: set<nat>, lo: nat, n: nat)
    requires forall i: nat :: Bit(w, i) == (i < n && lo + i in s)
    ensures w == Number(s, lo, n)
  {
    forall i: nat ensures Bit(w, i) == Bit(Number(s, lo, n), i) { NumberBit(s, lo, n, i); }
    Extensional(w, Number(s, lo, n));
  }

  /** Numbers are ordered by their high part first ... */
  lemma {:induction false} HighPartDecides(a: set<nat>, b: set<nat>, lo: nat, n: nat, hi: nat, m: nat, total: nat)
    requires hi == lo + n && total == n + m && Number(a, hi, m) < Number(b, hi, m)
    ensures Number(a, lo, total) < Number(b, lo, total)
    decreases n
  {
    if n == 0 {
    } else {
      HighPartDecides(a, b, lo + 1, n - 1, hi, m, total - 1);
    }
  }

  /** ... and by the low part when the high parts agree. */
  lemma {:induction false} LowPartDecides(a: set<nat>, b: set<nat>, lo: nat, n: nat, hi: nat, m: nat, total: nat)
    requires hi == lo + n && total == n + m && Number(a, hi, m) == Number(b, hi, m)
    ensures Number(a, lo, total) < Number(b, lo, total) <==> Number(a, lo, n) < Number(b, lo, n)
    ensures Number(a, lo, total) == Number(b, lo, total) <==> Number(a, lo, n) == Number(b, lo, n)
    decreases n
  {
    if n == 0 {
    } else {
      LowPartDecides(a, b, lo + 1, n - 1, hi, m, total - 1);
    }
  }

  /** With equal numbers above a stretch, the stretch decides, and so does everything from 0 up. */
  lemma StretchDecides(a: set<nat>, b: set<nat>, lo: nat, n: nat, hi: nat, m: nat, rest: nat, total: nat)
    requires hi == lo + n && rest == n + m && total == lo + rest
    requires Number(a, hi, m) == Number(b, hi, m)
    ensures Number(a, lo, n) < Number(b, lo, n) ==> Number(a, 0, total) < Number(b, 0, total)
    ensures Number(a, lo, n) == Number(b, lo, n) ==> Number(a, lo, rest) == Number(b, lo, rest)
  {
    LowPartDecides(a, b, lo, n, hi, m, rest);
    if Number(a, lo, n) < Number(b, lo, n) { HighPartDecides(a, b, 0, lo, lo, rest, total); }
  }

  /** Digits past the largest element add nothing. */
  lemma {:induction false} NumberStable(s: set<nat>, lo: nat, n: nat, m: nat)
    requires forall i :: i in s ==> i < lo + n
    ensures Number(s, lo, n + m) == Number(s, lo, n)
    decreases n + m
  {
    if n + m == 0 {
    } else if n > 0 {
      NumberStable(s, lo + 1, n - 1, m);
    } else {
      NumberStable(s, lo + 1, 0, m - 1);
    }
  }

  lemma WordIsNumber(ws: seq<Word>, k: nat, bits: nat)
    requires bits == BITS
    ensures WordAt(ws, k) == Number(Elems(ws), BITS * k, bits)
  {
    var w := WordAt(ws, k);
    WordBits(w);
    forall i: nat ensures Bit(w, i) == (i < BITS && BITS * k + i in Elems(ws)) {
      if i < BITS {
        var j := BITS * k + i;
        assert j / BITS == k && j % BITS == i;
        assert Has(ws, j) == Bit(w, i);
      }
    }
    NumberFromBits(w, Elems(ws), BITS * k, bits);
  }
}
