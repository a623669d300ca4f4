/**
 `P4RuntimeEntriesConverter`: translating the `const entries` of a P4 table into P4Runtime
 table entries (section 9.1.1 "Match Format" of the P4Runtime v1.0.0 specification, section
 13.2.1.4 "Entries" of the P4_16 v1.1.0 specification).

 The translation is given as the code computes it; the two meanings of an entry, in P4 and in
 P4Runtime, are given independently, and the theorems say that they agree.
 */
module TableEntries {
  import opened Words
  import opened BitSets

  // ---------------------------------------------------------------- P4 side

  datatype MatchKind = Exact | Lpm | Ternary | Range

  datatype Field = Field(kind: MatchKind, width: nat)

  datatype Simple = Constant(value: int) | BoolLiteral(b: bool) | OtherExpression

  datatype Key =
    | DontCare
    | Single(e: Simple)
    | Masked(left: Simple, right: Simple)
    | Between(left: Simple, right: Simple)

  datatype Entry<A> = Entry(keys: seq<Key>, action: A)

  /** Bitwise and of a number of either sign, in two's complement, with a mask. */
  function And2(a: int, m: nat): (r: nat)
    ensures r <= m
    decreases m
  {
    if m == 0 then 0 else 2 * And2(a / 2, m / 2) + Digit(a % 2 == 1 && m % 2 == 1)
  }

  function SimpleValue(e: Simple): int {
    match e
    case Constant(v) => v
    case BoolLiteral(b) => if b then 1 else 0
    case OtherExpression => 0
  }

  /** Does a key value satisfy a key expression? */
  predicate P4Matches(k: Key, x: nat) {
    match k
    case DontCare => true
    case Single(e) => x == SimpleValue(e)
    case Masked(l, r) => SimpleValue(r) >= 0 && And2(x, SimpleValue(r)) == And2(SimpleValue(l), SimpleValue(r))
    case Between(l, r) => SimpleValue(l) <= x <= SimpleValue(r)
  }

  ghost predicate P4EntryMatches(keys: seq<Key>, x: seq<nat>)
    requires |keys| == |x|
  {
    forall i :: 0 <= i < |keys| ==> P4Matches(keys[i], x[i])
  }

  // ---------------------------------------------------------------- P4Runtime side

  type Bytes = seq<nat>

  datatype Match =
    | ExactMatch(field: nat, value: Bytes)
    | LpmMatch(field: nat, value: Bytes, prefixLen: int)
    | TernaryMatch(field: nat, value: Bytes, mask: Bytes)
    | RangeMatch(field: nat, low: Bytes, high: Bytes)

  datatype ProtoEntry<A> = ProtoEntry(matches: seq<Match>, action: A, priority: nat)

  /** The number a big-endian byte string stands for. */
  function Decode(b: Bytes): nat {
    if b == [] then 0 else 256 * Decode(b[..|b| - 1]) + b[|b| - 1]
  }

  function Halved(x: nat, n: nat): nat {
    if n == 0 then x else Halved(x / 2, n - 1)
  }

  /** Does a field value satisfy a match on a field of that width? */
  predicate RuntimeMatches(m: Match, width: nat, x: nat) {
    match m
    case ExactMatch(_, v) => x == Decode(v)
    case LpmMatch(_, v, len) => 0 <= len <= width && Halved(x, width - len) == Halved(Decode(v), width - len)
    case TernaryMatch(_, v, mask) => And2(x, Decode(mask)) == Decode(v)
    case RangeMatch(_, low, high) => Decode(low) <= x <= Decode(high)
  }

  /** The kind of match a message carries. */
  function KindOf(m: Match): MatchKind {
    match m
    case ExactMatch(_, _) => Exact
    case LpmMatch(_, _, _) => Lpm
    case TernaryMatch(_, _, _) => Ternary
    case RangeMatch(_, _, _) => Range
  }

  /** A field the entry does not mention matches everything; field ids count from 1; a match of another
      kind than its field's is rejected. */
  ghost predicate RuntimeEntryMatches(fields: seq<Field>, ms: seq<Match>, x: seq<nat>)
    requires |fields| == |x|
  {
    forall i :: 0 <= i < |ms| ==>
      && 1 <= ms[i].field <= |fields| && KindOf(ms[i]) == fields[ms[i].field - 1].kind
      && RuntimeMatches(ms[i], fields[ms[i].field - 1].width, x[ms[i].field - 1])
  }

  // ---------------------------------------------------------------- the conversion of one field

  datatype Converted<T> =
    | Ok(value: T)
    | Skipped          // nothing to say in the message
    | Error            // reported to the user
    | Bug              // a failed BUG_CHECK

  /** Bits needed to write a number (`mpz_sizeinbase(v, 2)`). */
  function BitLength(v: nat): nat {
    if v < 2 then 1 else 1 + BitLength(v / 2)
  }

  function Encode(v: nat, n: nat): (b: Bytes)
    ensures |b| == n && forall i :: 0 <= i < n ==> b[i] < 256
    decreases n
  {
    if n == 0 then [] else Encode(v / 256, n - 1) + [v % 256]
  }

  /** `stringReprConstant`: big-endian, padded to the width of the field. */
  function StringRepr(v: int, width: nat): Converted<Bytes> {
    if v < 0 then Error
    else if width == 0 || width < BitLength(v) then Bug
    else Ok(Encode(v, (width + 7) / 8))
  }

  /** `convertSimpleKeyExpression`. */
  function ConvertSimple(k: Key, width: nat): Converted<Bytes> {
    if k.Single? && !k.e.OtherExpression? then StringRepr(SimpleValue(k.e), width) else Error
  }

  function AddExact(id: nat, k: Key, width: nat): Converted<Match> {
    match ConvertSimple(k, width)
    case Ok(v) => Ok(ExactMatch(id, v))
    case Skipped => Skipped
    case Error => Error
    case Bug => Bug
  }

  /** mpz_scan1, or the width for 0. */
  function TrailingZeros(n: nat, width: nat): nat {
    if n == 0 then width else Scan1(n)
  }

  function Scan1(n: nat): nat
    requires n > 0
  {
    if n % 2 == 1 then 0 else 1 + Scan1(n / 2)
  }

  function AddLpm(id: nat, k: Key, width: nat): Converted<Match> {
    match k
    case DontCare => Skipped
    case Masked(l, r) =>
      if l.OtherExpression? then Error
      else if !r.Constant? || r.value < 0 then Bug
      else
        var mask, len := r.value, TrailingZeros(r.value, width);
        if len + PopCount(mask) != width then Error
        else if mask == 0 then Skipped
        else
          (match StringRepr(And2(SimpleValue(l), mask), width)
           case Ok(v) => Ok(LpmMatch(id, v, width - len))
           case Skipped => Skipped
           case Error => Error
           case Bug => Bug)
    case _ =>
      match ConvertSimple(k, width)
      case Ok(v) => Ok(LpmMatch(id, v, width))
      case Skipped => Skipped
      case Error => Error
      case Bug => Bug
  }

  function AddTernary(id: nat, k: Key, width: nat): Converted<Match> {
    match k
    case DontCare => Skipped
    case Masked(l, r) =>
      if l.OtherExpression? || r.OtherExpression? || SimpleValue(r) < 0 then Error
      else
        var mask := SimpleValue(r);
        if mask == 0 then Skipped
        else TernaryOf(id, Both(StringRepr(And2(SimpleValue(l), mask), width), StringRepr(mask, width)))
    case _ => TernaryOf(id, Both(ConvertSimple(k, width), StringRepr(Pow2(width) - 1, width)))
  }

  function AddRange(id: nat, k: Key, width: nat): Converted<Match> {
    match k
    case DontCare => Skipped
    case Between(l, r) =>
      if l.OtherExpression? || r.OtherExpression? then Error
      else
        var start, end := SimpleValue(l), SimpleValue(r);
        if start > end || end > Pow2(width) - 1 then Bug
        else if start == 0 && end == Pow2(width) - 1 then Skipped
        else RangeOf(id, Both(StringRepr(start, width), StringRepr(end, width)))
    case _ => RangeOf(id, Both(ConvertSimple(k, width), ConvertSimple(k, width)))
  }

  function Both(a: Converted<Bytes>, b: Converted<Bytes>): Converted<(Bytes, Bytes)> {
    if a.Bug? || b.Bug? then Bug
    else if a.Ok? && b.Ok? then Ok((a.value, b.value))
    else Error
  }

  function TernaryOf(id: nat, c: Converted<(Bytes, Bytes)>): Converted<Match> {
    match c
    case Ok((v, m)) => Ok(TernaryMatch(id, v, m))
    case Skipped => Skipped
    case Error => Error
    case Bug => Bug
  }

  function RangeOf(id: nat, c: Converted<(Bytes, Bytes)>): Converted<Match> {
    match c
    case Ok((low, high)) => Ok(RangeMatch(id, low, high))
    case Skipped => Skipped
    case Error => Error
    case Bug => Bug
  }

  function ConvertField(id: nat, f: Field, k: Key): Converted<Match> {
    match f.kind
    case Exact => AddExact(id, k, f.width)
    case Lpm => AddLpm(id, k, f.width)
    case Ternary => AddTernary(id, k, f.width)
    case Range => AddRange(id, k, f.width)
  }

  // ---------------------------------------------------------------- bytes round trip

  lemma {:induction false} BitLengthFits(v: nat, w: nat)
    requires w > 0
    ensures BitLength(v) <= w <==> v < Pow2(w)
  {
    if v >= 2 {
      if w == 1 {
      } else {
        BitLengthFits(v / 2, w - 1);
      }
    } else {
      Pow2Monotonic(1, w);
    }
  }

  lemma {:induction false} DecodeEncode(v: nat, n: nat)
    requires v < Pow2(8 * n)
    ensures Decode(Encode(v, n)) == v
    decreases n
  {
    if n == 0 {
    } else {
      var b := Encode(v / 256, n - 1) + [v % 256];
      assert Pow2(8 * n) == 256 * Pow2(8 * (n - 1)) by { Pow2Sum(8, 8 * (n - 1)); Pow2Of8(); }
      DecodeEncode(v / 256, n - 1);
      assert b[..n - 1] == Encode(v / 256, n - 1);
    }
  }

  lemma Pow2Of8()
    ensures Pow2(8) == 256
  {
    assert Pow2(4) == 2 * (2 * Pow2(2)) && Pow2(2) == 4;
    Pow2Sum(4, 4);
  }

  /** What is written for a field is read back as the same number. */
  lemma ReprRoundTrip(v: int, width: nat)
    ensures StringRepr(v, width).Ok? <==> 0 <= v < Pow2(width) && width > 0
    ensures StringRepr(v, width).Ok? ==> Decode(StringRepr(v, width).value) == v && |StringRepr(v, width).value| == (width + 7) / 8
    ensures !StringRepr(v, width).Skipped?
  {
    if v >= 0 && width > 0 {
      BitLengthFits(v, width);
      if v < Pow2(width) {
        Pow2Monotonic(width, 8 * ((width + 7) / 8));
        DecodeEncode(v, (width + 7) / 8);
      }
    }
  }

  // ---------------------------------------------------------------- masks

  lemma {:induction false} AndOnes(x: nat, w: nat)
    requires x < Pow2(w)
    ensures And2(x, Pow2(w) - 1) == x
  {
    if w == 0 {
    } else {
      assert (Pow2(w) - 1) / 2 == Pow2(w - 1) - 1;
      AndOnes(x / 2, w - 1);
    }
  }

  /** As many ones as a number below 2^w can have. */
  lemma {:induction false} PopCountBound(m: nat, w: nat)
    requires m < Pow2(w)
    ensures PopCount(m) <= w
    ensures PopCount(m) == w ==> m == Pow2(w) - 1
  {
    if w == 0 {
    } else {
      PopCountBound(m / 2, w - 1);
    }
  }

  /** Trailing zeros and ones that add up to the width leave no zero inside the prefix. */
  lemma {:induction false} PrefixMask(m: nat, w: nat)
    requires 0 < m < Pow2(w) && Scan1(m) + PopCount(m) == w
    ensures Scan1(m) <= w && m == Pow2(w) - Pow2(Scan1(m))
  {
    if m % 2 == 1 {
      PopCountBound(m, w);
    } else {
      assert w > 0;
      PrefixMask(m / 2, w - 1);
    }
  }

  lemma EvenMask(x: int, m: nat)
    ensures And2(x, 2 * m) == 2 * And2(x / 2, m)
  {
    if m == 0 {
      assert And2(x, 0) == 0;
    } else {
      assert 2 * m / 2 == m && 2 * m % 2 == 0;
    }
  }

  lemma HalvedTwice(v: nat, t: nat)
    ensures Halved(2 * v, t + 1) == Halved(v, t)
  {
    assert 2 * v / 2 == v;
  }

  /** Under a prefix mask, equal masked values are equal prefixes. */
  lemma {:induction false} PrefixMatch(x: nat, l: int, w: nat, t: nat, m: nat)
    requires x < Pow2(w) && t <= w && m == Pow2(w) - Pow2(t)
    ensures And2(x, m) == And2(l, m) <==> Halved(x, t) == Halved(And2(l, m), t)
    decreases t
  {
    if t == 0 {
      AndOnes(x, w);
    } else {
      var m' := Pow2(w - 1) - Pow2(t - 1);
      assert m == 2 * m';
      PrefixMatch(x / 2, l / 2, w - 1, t - 1, m');
      EvenMask(x, m');
      EvenMask(l, m');
      HalvedTwice(And2(l / 2, m'), t - 1);
    }
  }

  // ---------------------------------------------------------------- one field means the same on both sides

  /** The type checker gives a mask the type of the key it masks. */
  ghost predicate WellTyped(f: Field, k: Key) {
    f.kind.Lpm? && k.Masked? && k.right.Constant? ==> k.right.value < Pow2(f.width)
  }

  ghost predicate SameMeaning(id: nat, f: Field, k: Key, c: Converted<Match>, x: nat) {
    && (c.Ok? ==> c.value.field == id && KindOf(c.value) == f.kind && (RuntimeMatches(c.value, f.width, x) <==> P4Matches(k, x)))
    && (c.Skipped? ==> P4Matches(k, x))
  }

  lemma LpmMaskConverts(id: nat, f: Field, k: Key, x: nat)
    requires f.kind.Lpm? && k.Masked? && WellTyped(f, k) && x < Pow2(f.width) && AddLpm(id, k, f.width).Ok?
    ensures SameMeaning(id, f, k, AddLpm(id, k, f.width), x)
  {
    var m, t := k.right.value, Scan1(k.right.value);
    PrefixMask(m, f.width);
    PrefixMatch(x, SimpleValue(k.left), f.width, t, m);
    ReprRoundTrip(And2(SimpleValue(k.left), m), f.width);
  }

  lemma LpmConverts(id: nat, f: Field, k: Key, x: nat)
    requires f.kind.Lpm? && WellTyped(f, k) && x < Pow2(f.width)
    ensures SameMeaning(id, f, k, AddLpm(id, k, f.width), x)
  {
    if k.Single? {
      ReprRoundTrip(SimpleValue(k.e), f.width);
    } else if k.Masked? {
      if AddLpm(id, k, f.width).Ok? {
        LpmMaskConverts(id, f, k, x);
      } else if AddLpm(id, k, f.width).Skipped? {
        ReprRoundTrip(And2(SimpleValue(k.left), k.right.value), f.width);
      }
    }
  }

  /** Two numbers are written when both fit, and are read back. */
  lemma BothFit(a: int, b: int, width: nat)
    ensures var c := Both(StringRepr(a, width), StringRepr(b, width));
            && !c.Skipped?
            && (c.Ok? <==> 0 <= a < Pow2(width) && 0 <= b < Pow2(width) && width > 0)
            && (c.Ok? ==> Decode(c.value.0) == a && Decode(c.value.1) == b)
  {
    ReprRoundTrip(a, width);
    ReprRoundTrip(b, width);
  }

  lemma TernaryMaskConverts(id: nat, f: Field, k: Key, x: nat)
    requires f.kind.Ternary? && k.Masked?
    ensures SameMeaning(id, f, k, AddTernary(id, k, f.width), x)
  {
    var m := SimpleValue(k.right);
    if m >= 0 { BothFit(And2(SimpleValue(k.left), m), m, f.width); }
  }

  lemma TernarySingleConverts(id: nat, f: Field, k: Key, x: nat)
    requires f.kind.Ternary? && k.Single? && x < Pow2(f.width)
    ensures SameMeaning(id, f, k, AddTernary(id, k, f.width), x)
  {
    AndOnes(x, f.width);
    WholeMaskConverts(id, f, k, x, Pow2(f.width) - 1);
  }

  lemma WholeMaskConverts(id: nat, f: Field, k: Key, x: nat, ones: nat)
    requires f.kind.Ternary? && k.Single? && ones == Pow2(f.width) - 1 && And2(x, ones) == x
    ensures SameMeaning(id, f, k, AddTernary(id, k, f.width), x)
  {
    var c := Both(ConvertSimple(k, f.width), StringRepr(ones, f.width));
    assert !c.Skipped? && (c.Ok? ==> Decode(c.value.0) == SimpleValue(k.e) && Decode(c.value.1) == ones) by {
      BothFit(SimpleValue(k.e), ones, f.width);
    }
    WholeMaskMeans(id, f, k, x, ones, c);
  }

  lemma WholeMaskMeans(id: nat, f: Field, k: Key, x: nat, ones: nat, c: Converted<(Bytes, Bytes)>)
    requires f.kind.Ternary? && k.Single? && And2(x, ones) == x
    requires !c.Skipped? && (c.Ok? ==> Decode(c.value.0) == SimpleValue(k.e) && Decode(c.value.1) == ones)
    ensures SameMeaning(id, f, k, TernaryOf(id, c), x)
  {
  }

  lemma TernaryConverts(id: nat, f: Field, k: Key, x: nat)
    requires f.kind.Ternary? && x < Pow2(f.width)
    ensures SameMeaning(id, f, k, AddTernary(id, k, f.width), x)
  {
    match k
    case Masked(_, _) => TernaryMaskConverts(id, f, k, x);
    case Single(_) => TernarySingleConverts(id, f, k, x);
    case _ =>
  }

  lemma BetweenConverts(id: nat, f: Field, k: Key, x: nat)
    requires f.kind.Range? && k.Between? && x < Pow2(f.width)
    ensures SameMeaning(id, f, k, AddRange(id, k, f.width), x)
  {
    BothFit(SimpleValue(k.left), SimpleValue(k.right), f.width);
  }

  lemma RangeConverts(id: nat, f: Field, k: Key, x: nat)
    requires f.kind.Range? && x < Pow2(f.width)
    ensures SameMeaning(id, f, k, AddRange(id, k, f.width), x)
  {
    if k.Between? {
      BetweenConverts(id, f, k, x);
    } else if k.Single? {
      ReprRoundTrip(SimpleValue(k.e), f.width);
    }
  }

  lemma ExactConverts(id: nat, f: Field, k: Key, x: nat)
    requires f.kind.Exact?
    ensures SameMeaning(id, f, k, AddExact(id, k, f.width), x)
  {
    if k.Single? { ReprRoundTrip(SimpleValue(k.e), f.width); }
  }

  lemma FieldConverts(id: nat, f: Field, k: Key, x: nat)
    requires WellTyped(f, k) && x < Pow2(f.width)
    ensures SameMeaning(id, f, k, ConvertField(id, f, k), x)
  {
    match f.kind
    case Exact => ExactConverts(id, f, k, x);
    case Lpm => LpmConverts(id, f, k, x);
    case Ternary => TernaryConverts(id, f, k, x);
    case Range => RangeConverts(id, f, k, x);
  }

  ghost predicate Literal(e: Simple) {
    !e.OtherExpression?
  }

  ghost predicate Fits(v: int, width: nat) {
    0 <= v < Pow2(width)
  }

  ghost predicate IsPrefixMask(m: int, width: nat) {
    exists t: nat :: t <= width && m == Pow2(width) - Pow2(t)
  }

  /** The keys each kind of match has a message for, told without the conversion. */
  ghost predicate Expressible(f: Field, k: Key) {
    match k
    case DontCare => !f.kind.Exact?
    case Single(e) => Literal(e) && f.width > 0 && Fits(SimpleValue(e), f.width)
    case Masked(l, r) =>
      && Literal(l) && Literal(r) && Fits(SimpleValue(r), f.width)
      && (f.kind.Ternary? || (f.kind.Lpm? && r.Constant? && IsPrefixMask(r.value, f.width)))
    case Between(l, r) =>
      f.kind.Range? && Literal(l) && Literal(r) && 0 <= SimpleValue(l) <= SimpleValue(r) < Pow2(f.width)
  }

  lemma {:induction false} PrefixMaskBack(w: nat, t: nat, m: nat)
    requires t < w && m == Pow2(w) - Pow2(t)
    ensures 0 < m < Pow2(w) && Scan1(m) + PopCount(m) == w
    decreases t
  {
    Pow2Monotonic(t, w - 1);
    if t == 0 {
      AllOnes(w);
      assert m % 2 == 1;
    } else {
      assert m % 2 == 0 && m / 2 == Pow2(w - 1) - Pow2(t - 1);
      PrefixMaskBack(w - 1, t - 1, m / 2);
    }
  }

  lemma {:induction false} AllOnes(w: nat)
    ensures PopCount(Pow2(w) - 1) == w
  {
    if w == 0 {
    } else {
      assert (Pow2(w) - 1) / 2 == Pow2(w - 1) - 1;
      AllOnes(w - 1);
    }
  }

  lemma LpmMaskAccepted(m: nat, w: nat)
    requires m < Pow2(w)
    ensures TrailingZeros(m, w) + PopCount(m) == w <==> IsPrefixMask(m, w)
  {
    if m == 0 {
      assert m == Pow2(w) - Pow2(w);
    } else if IsPrefixMask(m, w) {
      var t: nat :| t <= w && m == Pow2(w) - Pow2(t);
      PrefixMaskBack(w, t, m);
    } else if Scan1(m) + PopCount(m) == w {
      PrefixMask(m, w);
    }
  }

  ghost predicate Accepted(id: nat, f: Field, k: Key) {
    ConvertField(id, f, k).Ok? || ConvertField(id, f, k).Skipped?
  }

  lemma WholeMaskAccepted(id: nat, f: Field, k: Key)
    requires f.kind.Ternary? && k.Single?
    ensures Accepted(id, f, k) <==> Expressible(f, k)
  {
    var c := Both(ConvertSimple(k, f.width), StringRepr(Pow2(f.width) - 1, f.width));
    assert !c.Skipped? && (c.Ok? <==> Literal(k.e) && f.width > 0 && Fits(SimpleValue(k.e), f.width)) by {
      BothFit(SimpleValue(k.e), Pow2(f.width) - 1, f.width);
    }
    assert ConvertField(id, f, k) == TernaryOf(id, c);
  }

  lemma SingleAccepted(id: nat, f: Field, k: Key)
    requires k.Single?
    ensures Accepted(id, f, k) <==> Expressible(f, k)
  {
    if f.kind.Ternary? {
      WholeMaskAccepted(id, f, k);
    } else {
      ReprRoundTrip(SimpleValue(k.e), f.width);
    }
  }

  lemma LpmMaskedAccepted(id: nat, f: Field, k: Key)
    requires f.kind.Lpm? && k.Masked? && WellTyped(f, k)
    ensures Accepted(id, f, k) <==> Expressible(f, k)
  {
    if k.right.Constant? && k.right.value >= 0 {
      LpmMaskAccepted(k.right.value, f.width);
      ReprRoundTrip(And2(SimpleValue(k.left), k.right.value), f.width);
    }
  }

  lemma TernaryMaskedAccepted(id: nat, f: Field, k: Key)
    requires f.kind.Ternary? && k.Masked?
    ensures Accepted(id, f, k) <==> Expressible(f, k)
  {
    var m := SimpleValue(k.right);
    if m >= 0 { BothFit(And2(SimpleValue(k.left), m), m, f.width); }
  }

  lemma MaskedAccepted(id: nat, f: Field, k: Key)
    requires k.Masked? && WellTyped(f, k)
    ensures Accepted(id, f, k) <==> Expressible(f, k)
  {
    match f.kind
    case Lpm => LpmMaskedAccepted(id, f, k);
    case Ternary => TernaryMaskedAccepted(id, f, k);
    case _ =>
  }

  lemma RangeAccepted(id: nat, f: Field, k: Key)
    requires f.kind.Range? && k.Between?
    ensures Accepted(id, f, k) <==> Expressible(f, k)
  {
    BothFit(SimpleValue(k.left), SimpleValue(k.right), f.width);
  }

  lemma BetweenAccepted(id: nat, f: Field, k: Key)
    requires k.Between?
    ensures Accepted(id, f, k) <==> Expressible(f, k)
  {
    if f.kind.Range? { RangeAccepted(id, f, k); }
  }

  /** The conversion of a well-typed key goes through exactly when the key is expressible. */
  lemma FieldAccepted(id: nat, f: Field, k: Key)
    requires WellTyped(f, k)
    ensures Accepted(id, f, k) <==> Expressible(f, k)
  {
    match k
    case DontCare =>
    case Single(_) => SingleAccepted(id, f, k);
    case Masked(_, _) => MaskedAccepted(id, f, k);
    case Between(_, _) => BetweenAccepted(id, f, k);
  }

  /** A mask wider than the field can pass the check without being a prefix: 10111 on 4 bits
      has no trailing zeros and four ones, and the match compares a bit the mask ignores. */
  lemma OversizedMask()
    ensures var k, f := Masked(Constant(0), Constant(23)), Field(Lpm, 4);
            && !WellTyped(f, k) && AddLpm(1, k, 4).Ok?
            && P4Matches(k, 8) && !RuntimeMatches(AddLpm(1, k, 4).value, 4, 8)
  {
    assert Pow2(4) == 2 * (2 * Pow2(2)) && Pow2(2) == 4;
    assert PopCount(23) == 1 + PopCount(11) && PopCount(11) == 1 + PopCount(5) && PopCount(5) == 1 + PopCount(2);
    assert PopCount(2) == PopCount(1) && PopCount(1) == 1;
    assert And2(8, 23) == 2 * And2(4, 11) && And2(4, 11) == 2 * And2(2, 5) && And2(2, 5) == 2 * And2(1, 2);
    assert And2(1, 2) == 2 * And2(0, 1) && And2(0, 1) == 2 * And2(0, 0);
    assert And2(0, 23) == 2 * And2(0, 11) && And2(0, 11) == 2 * And2(0, 5) && And2(0, 5) == 2 * And2(0, 2);
    assert And2(0, 2) == 2 * And2(0, 1);
    ReprRoundTrip(0, 4);
  }

  lemma {:induction false} MaskTwice(l: int, m: nat)
    ensures And2(And2(l, m), m) == And2(l, m)
    decreases m
  {
    if m == 0 {
    } else {
      MaskTwice(l / 2, m / 2);
      assert And2(l, m) / 2 == And2(l / 2, m / 2);
    }
  }

  /** A mask with at most w ones, one of them beyond the w low bits, ignores a low bit: some other number
      on w bits looks the same under it. */
  lemma {:induction false} IgnoredBit(l: int, m: nat, w: nat) returns (x: nat)
    requires PopCount(m) <= w && m >= Pow2(w) && And2(l, m) < Pow2(w)
    ensures x < Pow2(w) && And2(x, m) == And2(l, m) && x != And2(l, m)
    decreases w
  {
    if m % 2 == 1 { LowBitKept(l, m / 2, m, 0); }
    if w == 0 {
      NoOnes(m);
      assert false;
    } else if m % 2 == 0 {
      x := And2(l, m) + 1;
      LowBitIgnored(l, m / 2, m);
    } else {
      var y := IgnoredBit(l / 2, m / 2, w - 1);
      x := 2 * y + l % 2;
      LowBitKept(l, m / 2, m, y);
    }
  }

  lemma LowBitIgnored(l: int, h: nat, m: nat)
    requires m == 2 * h
    ensures And2(l, m) % 2 == 0 && And2(And2(l, m) + 1, m) == And2(l, m)
  {
    EvenMask(l, h);
    MaskTwice(l / 2, h);
    OddUnderEven(And2(l / 2, h), h);
  }

  lemma OddUnderEven(v: nat, h: nat)
    ensures And2(2 * v + 1, 2 * h) == 2 * And2(v, h)
  {
    EvenMask(2 * v + 1, h);
    assert (2 * v + 1) / 2 == v;
  }

  lemma LowBitKept(l: int, h: nat, m: nat, y: nat)
    requires m == 2 * h + 1
    ensures And2(l, m) == 2 * And2(l / 2, h) + l % 2
    ensures And2(2 * y + l % 2, m) == 2 * And2(y, h) + l % 2
  {
    assert m / 2 == h && (2 * y + l % 2) / 2 == y;
  }

  lemma {:induction false} NoOnes(m: nat)
    ensures PopCount(m) == 0 <==> m == 0
  {
    if m == 0 {
    } else {
      NoOnes(m / 2);
    }
  }

  /** The same above the trailing zeros of the mask, where the prefix lies. */
  lemma {:induction false} IgnoredPrefixBit(l: int, m: nat, w: nat) returns (x: nat)
    requires m > 0 && Scan1(m) + PopCount(m) == w && m >= Pow2(w) && And2(l, m) < Pow2(w)
    ensures x < Pow2(w) && And2(x, m) == And2(l, m) && Halved(x, Scan1(m)) != Halved(And2(l, m), Scan1(m))
    decreases m
  {
    if m % 2 == 1 {
      x := IgnoredBit(l, m, w);
    } else {
      var m' := m / 2;
      assert m == 2 * m' && Scan1(m) == 1 + Scan1(m') && PopCount(m) == PopCount(m');
      EvenMask(l, m');
      var y := IgnoredPrefixBit(l / 2, m', w - 1);
      x := 2 * y;
      EvenMask(x, m');
      assert x / 2 == y;
      HalvedTwice(y, Scan1(m'));
      HalvedTwice(And2(l / 2, m'), Scan1(m'));
    }
  }

  /** An LPM match that is written for a masked key means what the key means exactly when the mask lies
      within the field; a type-correct program has no other masks. */
  lemma LpmMeansExactly(id: nat, f: Field, k: Key)
    requires f.kind.Lpm? && k.Masked? && AddLpm(id, k, f.width).Ok?
    ensures (forall x :: 0 <= x < Pow2(f.width) ==> SameMeaning(id, f, k, AddLpm(id, k, f.width), x)) <==>
              k.right.value < Pow2(f.width)
  {
    var m := k.right.value;
    if m < Pow2(f.width) {
      forall x | 0 <= x < Pow2(f.width) ensures SameMeaning(id, f, k, AddLpm(id, k, f.width), x) {
        LpmConverts(id, f, k, x);
      }
    } else {
      var v := And2(SimpleValue(k.left), m);
      ReprRoundTrip(v, f.width);
      var x := IgnoredPrefixBit(SimpleValue(k.left), m, f.width);
      LpmMisses(id, f, k, x);
    }
  }

  lemma LpmMisses(id: nat, f: Field, k: Key, x: nat)
    requires f.kind.Lpm? && k.Masked? && AddLpm(id, k, f.width).Ok?
    requires And2(x, k.right.value) == And2(SimpleValue(k.left), k.right.value)
    requires Halved(x, Scan1(k.right.value)) != Halved(And2(SimpleValue(k.left), k.right.value), Scan1(k.right.value))
    ensures !SameMeaning(id, f, k, AddLpm(id, k, f.width), x)
  {
    ReprRoundTrip(And2(SimpleValue(k.left), k.right.value), f.width);
  }

  // ---------------------------------------------------------------- whole entries and tables

  ghost predicate InRange(fields: seq<Field>, x: seq<nat>) {
    |x| == |fields| && forall i :: 0 <= i < |fields| ==> x[i] < Pow2(fields[i].width)
  }

  ghost predicate KeysTyped(fields: seq<Field>, keys: seq<Key>) {
    |keys| == |fields| && forall i :: 0 <= i < |fields| ==> WellTyped(fields[i], keys[i])
  }

  ghost predicate ErrorFree(fields: seq<Field>, keys: seq<Key>)
    requires |keys| == |fields|
  {
    forall i :: 0 <= i < |fields| ==> Expressible(fields[i], keys[i])
  }

  /** The matches of the first n fields say what the first n keys say. */
  ghost predicate SameSoFar(fields: seq<Field>, keys: seq<Key>, ms: seq<Match>, n: nat, x: seq<nat>)
    requires |keys| == |fields| == |x| && n <= |fields|
  {
    RuntimeEntryMatches(fields, ms, x) <==> forall i :: 0 <= i < n ==> P4Matches(keys[i], x[i])
  }

  lemma OneMoreMatch(fields: seq<Field>, ms: seq<Match>, m: Match, x: seq<nat>)
    requires |fields| == |x| && 1 <= m.field <= |fields| && KindOf(m) == fields[m.field - 1].kind
    ensures RuntimeEntryMatches(fields, ms + [m], x) <==>
              RuntimeEntryMatches(fields, ms, x) && RuntimeMatches(m, fields[m.field - 1].width, x[m.field - 1])
  {
    var ms' := ms + [m];
    if RuntimeEntryMatches(fields, ms', x) {
      forall i | 0 <= i < |ms|
        ensures 1 <= ms[i].field <= |fields| && KindOf(ms[i]) == fields[ms[i].field - 1].kind
        ensures RuntimeMatches(ms[i], fields[ms[i].field - 1].width, x[ms[i].field - 1])
      {
        assert ms'[i] == ms[i];
      }
      assert ms'[|ms|] == m;
    }
  }

  lemma OneMoreKey(keys: seq<Key>, n: nat, x: seq<nat>)
    requires n < |keys| == |x|
    ensures (forall i :: 0 <= i < n + 1 ==> P4Matches(keys[i], x[i])) <==>
              (forall i :: 0 <= i < n ==> P4Matches(keys[i], x[i])) && P4Matches(keys[n], x[n])
  {
  }

  lemma OneMoreField(fields: seq<Field>, keys: seq<Key>, ms: seq<Match>, n: nat, x: seq<nat>, c: Converted<Match>)
    requires n < |fields| == |keys| == |x| && SameSoFar(fields, keys, ms, n, x)
    requires SameMeaning(n + 1, fields[n], keys[n], c, x[n])
    ensures c.Ok? ==> SameSoFar(fields, keys, ms + [c.value], n + 1, x)
    ensures c.Skipped? ==> SameSoFar(fields, keys, ms, n + 1, x)
  {
    OneMoreKey(keys, n, x);
    if c.Ok? { OneMoreMatch(fields, ms, c.value, x); }
  }

  /** The key matches every value of the field. */
  ghost predicate Universal(f: Field, k: Key) {
    forall x :: 0 <= x < Pow2(f.width) ==> P4Matches(k, x)
  }

  lemma {:induction false} MaskItself(m: nat)
    ensures And2(m, m) == m && And2(0, m) == 0
  {
    if m == 0 {
    } else {
      MaskItself(m / 2);
      assert 0 / 2 == 0;
    }
  }

  lemma MaskedNotUniversal(f: Field, l: int, m: nat, k: Key)
    requires k.Masked? && l == SimpleValue(k.left) && m == SimpleValue(k.right) && 0 < m < Pow2(f.width)
    ensures !Universal(f, k)
  {
    MaskItself(m);
    if And2(l, m) == 0 {
      assert !P4Matches(k, m);
    } else {
      assert !P4Matches(k, 0);
    }
  }

  lemma SingleNotUniversal(f: Field, k: Key)
    requires k.Single? && f.width > 0
    ensures !Universal(f, k)
  {
    assert Pow2(f.width) >= 2 by { Pow2Monotonic(1, f.width); }
    if SimpleValue(k.e) == 0 {
      assert !P4Matches(k, 1);
    } else {
      assert !P4Matches(k, 0);
    }
  }

  lemma BetweenNotUniversal(f: Field, k: Key, low: int, high: int)
    requires k.Between? && low == SimpleValue(k.left) && high == SimpleValue(k.right)
    requires 0 <= low <= high < Pow2(f.width) && !(low == 0 && high == Pow2(f.width) - 1)
    ensures !Universal(f, k)
  {
    if low > 0 {
      assert !P4Matches(k, 0);
    } else {
      assert !P4Matches(k, high + 1);
    }
  }

  /** The fields left out of a message are exactly those whose key matches every value. */
  lemma SkippedExactly(id: nat, f: Field, k: Key)
    requires WellTyped(f, k) && Expressible(f, k)
    ensures ConvertField(id, f, k).Skipped? <==> Universal(f, k)
  {
    FieldAccepted(id, f, k);
    if ConvertField(id, f, k).Skipped? {
      forall x | 0 <= x < Pow2(f.width) ensures P4Matches(k, x) {
        FieldConverts(id, f, k, x);
      }
    } else {
      match k
      case DontCare => assert false;
      case Single(_) => SingleNotUniversal(f, k);
      case Masked(l, r) => MaskedNotUniversal(f, SimpleValue(l), SimpleValue(r), k);
      case Between(l, r) => BetweenNotUniversal(f, k, SimpleValue(l), SimpleValue(r));
    }
  }

  /** Bits that a match does not look at are zero in its value, and an LPM match looks at some. */
  ghost predicate Canonical(m: Match, width: nat) {
    && (m.LpmMatch? ==> 0 < m.prefixLen <= width && Decode(m.value) % Pow2(width - m.prefixLen) == 0)
    && (m.TernaryMatch? ==> And2(Decode(m.value), Decode(m.mask)) == Decode(m.value) && Decode(m.mask) != 0)
  }

  lemma {:induction false} PrefixDivides(l: int, w: nat, t: nat, m: nat)
    requires t <= w && m == Pow2(w) - Pow2(t)
    ensures And2(l, m) % Pow2(t) == 0
    decreases t
  {
    if t == 0 {
    } else {
      var m' := Pow2(w - 1) - Pow2(t - 1);
      assert m == 2 * m';
      PrefixDivides(l / 2, w - 1, t - 1, m');
      EvenMask(l, m');
      TwiceDivides(And2(l / 2, m'), Pow2(t - 1));
    }
  }

  lemma TwiceDivides(v: nat, d: nat)
    requires d > 0 && v % d == 0
    ensures 2 * v % (2 * d) == 0
  {
    var q := v / d;
    assert v == q * d;
    assert 2 * v == q * (2 * d) + 0;
    RemainderUnique(2 * v, 2 * d, q, 0);
  }

  lemma LpmCanonical(id: nat, f: Field, k: Key)
    requires f.kind.Lpm? && WellTyped(f, k) && ConvertField(id, f, k).Ok?
    ensures Canonical(ConvertField(id, f, k).value, f.width)
  {
    if k.Masked? {
      var m, t := k.right.value, Scan1(k.right.value);
      PrefixMask(m, f.width);
      ReprRoundTrip(And2(SimpleValue(k.left), m), f.width);
      PrefixDivides(SimpleValue(k.left), f.width, t, m);
    }
  }

  lemma TernaryCanonical(id: nat, f: Field, k: Key)
    requires f.kind.Ternary? && ConvertField(id, f, k).Ok?
    ensures Canonical(ConvertField(id, f, k).value, f.width)
  {
    if k.Masked? {
      var l, m := SimpleValue(k.left), SimpleValue(k.right);
      BothFit(And2(l, m), m, f.width);
      MaskTwice(l, m);
    } else {
      BothFit(SimpleValue(k.e), Pow2(f.width) - 1, f.width);
      AndOnes(SimpleValue(k.e), f.width);
      Pow2Monotonic(1, f.width);
    }
  }

  lemma ConvertedCanonical(id: nat, f: Field, k: Key)
    requires WellTyped(f, k) && ConvertField(id, f, k).Ok?
    ensures Canonical(ConvertField(id, f, k).value, f.width)
  {
    match f.kind
    case Lpm => LpmCanonical(id, f, k);
    case Ternary => TernaryCanonical(id, f, k);
    case _ =>
  }

  /** Every number in a match has as many bytes as its field takes. */
  predicate Padded(m: Match, width: nat) {
    var n := (width + 7) / 8;
    match m
    case ExactMatch(_, v) => |v| == n
    case LpmMatch(_, v, _) => |v| == n
    case TernaryMatch(_, v, mask) => |v| == n && |mask| == n
    case RangeMatch(_, low, high) => |low| == n && |high| == n
  }

  lemma ConvertedPadded(id: nat, f: Field, k: Key)
    requires ConvertField(id, f, k).Ok?
    ensures Padded(ConvertField(id, f, k).value, f.width)
  {
  }

  /** One field of `addMatchKey`: the message is written exactly for the expressible keys, and
      means on every field value what the key means. */
  method ConvertOne(id: nat, f: Field, k: Key) returns (c: Converted<Match>)
    requires WellTyped(f, k)
    ensures c.Ok? || c.Skipped? <==> Expressible(f, k)
    ensures forall x :: 0 <= x < Pow2(f.width) ==> SameMeaning(id, f, k, c, x)
    ensures c.Ok? ==> c.value.field == id && KindOf(c.value) == f.kind && Padded(c.value, f.width) && Canonical(c.value, f.width)
    ensures Expressible(f, k) ==> (c.Skipped? <==> Universal(f, k))
  {
    c := ConvertField(id, f, k);
    if c.Ok? {
      ConvertedPadded(id, f, k);
      ConvertedCanonical(id, f, k);
      FieldConverts(id, f, k, 0);
    }
    if Expressible(f, k) { SkippedExactly(id, f, k); }
    FieldAccepted(id, f, k);
    forall x | 0 <= x < Pow2(f.width) ensures SameMeaning(id, f, k, c, x) {
      FieldConverts(id, f, k, x);
    }
  }

  /** At most one match for each of the first n fields, in their order, of the field's kind and size. */
  ghost predicate WellFormed(fields: seq<Field>, ms: seq<Match>, n: nat)
    requires n <= |fields|
  {
    && (forall i :: 0 <= i < |ms| ==>
          && 1 <= ms[i].field <= n
          && (ms[i].ExactMatch? <==> fields[ms[i].field - 1].kind.Exact?)
          && (ms[i].LpmMatch? <==> fields[ms[i].field - 1].kind.Lpm?)
          && (ms[i].TernaryMatch? <==> fields[ms[i].field - 1].kind.Ternary?)
          && (ms[i].RangeMatch? <==> fields[ms[i].field - 1].kind.Range?)
          && Padded(ms[i], fields[ms[i].field - 1].width) && Canonical(ms[i], fields[ms[i].field - 1].width))
    && (forall i, j :: 0 <= i < j < |ms| ==> ms[i].field < ms[j].field)
  }

  ghost predicate Mentioned(ms: seq<Match>, id: nat) {
    exists i :: 0 <= i < |ms| && ms[i].field == id
  }

  ghost predicate MentionedSoFar(fields: seq<Field>, keys: seq<Key>, ms: seq<Match>, n: nat)
    requires n <= |fields| == |keys|
  {
    forall i :: 0 <= i < n ==> (Mentioned(ms, i + 1) <==> !Universal(fields[i], keys[i]))
  }

  lemma MentionedAfter(ms: seq<Match>, m: Match, id: nat)
    ensures Mentioned(ms + [m], id) <==> Mentioned(ms, id) || id == m.field
  {
    if i :| 0 <= i < |ms| && ms[i].field == id { assert (ms + [m])[i].field == id; }
    assert (ms + [m])[|ms|] == m;
    if i :| 0 <= i < |ms + [m]| && (ms + [m])[i].field == id { assert i < |ms| ==> ms[i].field == id; }
  }

  /** A match for the next field goes at the end. */
  lemma MatchWritten(fields: seq<Field>, ms: seq<Match>, n: nat, m: Match)
    requires n < |fields| && WellFormed(fields, ms, n)
    requires m.field == n + 1 && KindOf(m) == fields[n].kind && Padded(m, fields[n].width) && Canonical(m, fields[n].width)
    ensures WellFormed(fields, ms + [m], n + 1)
  {
  }

  lemma FieldMentioned(fields: seq<Field>, keys: seq<Key>, ms: seq<Match>, n: nat, m: Match)
    requires n < |fields| == |keys| && MentionedSoFar(fields, keys, ms, n) && m.field == n + 1 && !Universal(fields[n], keys[n])
    ensures MentionedSoFar(fields, keys, ms + [m], n + 1)
  {
    forall i | 0 <= i < n + 1 ensures Mentioned(ms + [m], i + 1) <==> !Universal(fields[i], keys[i]) {
      MentionedAfter(ms, m, i + 1);
    }
  }

  lemma FieldLeftOut(fields: seq<Field>, keys: seq<Key>, ms: seq<Match>, n: nat)
    requires n < |fields| == |keys| && MentionedSoFar(fields, keys, ms, n) && WellFormed(fields, ms, n) && Universal(fields[n], keys[n])
    ensures MentionedSoFar(fields, keys, ms, n + 1)
  {
    assert !Mentioned(ms, n + 1);
  }

  /** `addMatchKey`. */
  method AddMatchKey(fields: seq<Field>, keys: seq<Key>) returns (ms: seq<Match>, ok: bool)
    requires KeysTyped(fields, keys)
    ensures ok <==> ErrorFree(fields, keys)
    ensures ok ==> forall x :: InRange(fields, x) ==> (RuntimeEntryMatches(fields, ms, x) <==> P4EntryMatches(keys, x))
    ensures WellFormed(fields, ms, |fields|)
    ensures ok ==> forall i :: 0 <= i < |fields| ==> (Mentioned(ms, i + 1) <==> !Universal(fields[i], keys[i]))
  {
    ms, ok := [], true;
    var i := 0;
    while i < |keys|
      invariant 0 <= i <= |keys|
      invariant ok <==> forall j :: 0 <= j < i ==> Expressible(fields[j], keys[j])
      invariant ok ==> forall x :: InRange(fields, x) ==> SameSoFar(fields, keys, ms, i, x)
      invariant WellFormed(fields, ms, i)
      invariant ok ==> MentionedSoFar(fields, keys, ms, i)
    {
      var c := ConvertOne(i + 1, fields[i], keys[i]);
      if ok {
        forall x | InRange(fields, x)
          ensures c.Ok? ==> SameSoFar(fields, keys, ms + [c.value], i + 1, x)
          ensures c.Skipped? ==> SameSoFar(fields, keys, ms, i + 1, x)
        {
          assert SameMeaning(i + 1, fields[i], keys[i], c, x[i]);
          OneMoreField(fields, keys, ms, i, x, c);
        }
      }
      if c.Ok? {
        MatchWritten(fields, ms, i, c.value);
        if ok && Expressible(fields[i], keys[i]) { FieldMentioned(fields, keys, ms, i, c.value); }
        ms := ms + [c.value];
      } else if c.Skipped? {
        if ok && Expressible(fields[i], keys[i]) { FieldLeftOut(fields, keys, ms, i); }
      } else {
        ok := false;
      }
      i := i + 1;
    }
  }

  /** `tableNeedsPriority`. */
  predicate NeedsPriority(fields: seq<Field>) {
    exists i :: 0 <= i < |fields| && (fields[i].kind.Ternary? || fields[i].kind.Range?)
  }

  /** In P4 the first matching entry in program order wins. */
  ghost predicate FirstMatch<A>(entries: seq<Entry<A>>, x: seq<nat>, i: nat)
    requires forall j :: 0 <= j < |entries| ==> |entries[j].keys| == |x|
  {
    i < |entries| && P4EntryMatches(entries[i].keys, x) && forall j :: 0 <= j < i ==> !P4EntryMatches(entries[j].keys, x)
  }

  /** In P4Runtime the matching entry with the highest priority wins. */
  ghost predicate BestMatch<A>(fields: seq<Field>, out: seq<ProtoEntry<A>>, x: seq<nat>, i: nat)
    requires |x| == |fields|
  {
    && i < |out| && RuntimeEntryMatches(fields, out[i].matches, x)
    && forall j :: 0 <= j < |out| && RuntimeEntryMatches(fields, out[j].matches, x) ==> out[j].priority <= out[i].priority
  }

  ghost predicate EntriesTyped<A>(fields: seq<Field>, entries: seq<Entry<A>>) {
    forall i :: 0 <= i < |entries| ==> KeysTyped(fields, entries[i].keys)
  }

  ghost predicate EntrySame<A>(fields: seq<Field>, e: Entry<A>, p: ProtoEntry<A>)
    requires |e.keys| == |fields|
  {
    && p.action == e.action
    && forall x :: InRange(fields, x) ==> (RuntimeEntryMatches(fields, p.matches, x) <==> P4EntryMatches(e.keys, x))
  }

  /** `addTableEntries`; priorities count down from the number of entries to 1, or are unset (0). */
  method AddTableEntries<A>(fields: seq<Field>, entries: seq<Entry<A>>) returns (out: seq<ProtoEntry<A>>, ok: bool)
    requires EntriesTyped(fields, entries)
    ensures |out| == |entries|
    ensures ok <==> forall i :: 0 <= i < |entries| ==> ErrorFree(fields, entries[i].keys)
    ensures forall i :: 0 <= i < |out| ==> out[i].priority == if NeedsPriority(fields) then |entries| - i else 0
    ensures ok ==> forall i :: 0 <= i < |out| ==> EntrySame(fields, entries[i], out[i])
    ensures forall i :: 0 <= i < |out| ==> WellFormed(fields, out[i].matches, |fields|)
    ensures ok && NeedsPriority(fields) ==>
              forall x, i :: InRange(fields, x) ==> (FirstMatch(entries, x, i) <==> BestMatch(fields, out, x, i))
  {
    out, ok := [], true;
    var entryPriority := |entries|;
    var needsPriority := NeedsPriority(fields);
    var i := 0;
    while i < |entries|
      invariant 0 <= i <= |entries| && |out| == i
      invariant entryPriority == if needsPriority then |entries| - i else |entries|
      invariant ok <==> forall j :: 0 <= j < i ==> ErrorFree(fields, entries[j].keys)
      invariant forall j :: 0 <= j < i ==> out[j].priority == if needsPriority then |entries| - j else 0
      invariant ok ==> forall j :: 0 <= j < i ==> EntrySame(fields, entries[j], out[j])
      invariant forall j :: 0 <= j < i ==> WellFormed(fields, out[j].matches, |fields|)
    {
      var ms, fine := AddMatchKey(fields, entries[i].keys);
      ok := ok && fine;
      var priority := 0;
      if needsPriority {
        priority, entryPriority := entryPriority, entryPriority - 1;
      }
      out := out + [ProtoEntry(ms, entries[i].action, priority)];
      i := i + 1;
    }
    if ok && needsPriority {
      forall x, k | InRange(fields, x) ensures FirstMatch(entries, x, k) <==> BestMatch(fields, out, x, k) {
        FirstIsBest(fields, entries, out, x, k);
      }
    }
  }

  /** Descending priorities make the first matching entry the best one, and only that one. */
  lemma FirstIsBest<A>(fields: seq<Field>, entries: seq<Entry<A>>, out: seq<ProtoEntry<A>>, x: seq<nat>, i: nat)
    requires EntriesTyped(fields, entries) && |out| == |entries| && InRange(fields, x)
    requires forall j :: 0 <= j < |out| ==> out[j].priority == |entries| - j
    requires forall j :: 0 <= j < |out| ==> EntrySame(fields, entries[j], out[j])
    ensures FirstMatch(entries, x, i) <==> BestMatch(fields, out, x, i)
  {
    forall j | 0 <= j < |out|
      ensures RuntimeEntryMatches(fields, out[j].matches, x) <==> P4EntryMatches(entries[j].keys, x)
    {
      assert EntrySame(fields, entries[j], out[j]);
    }
  }
}
