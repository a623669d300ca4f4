/**
 The debug printer for expressions, on tokens.

 A precedence level is carried in the stream.  A printer puts parentheses around its output when
 the level it finds is above its own precedence, prints its operands at the levels that make the
 output readable again, and puts the level back.  A reader that climbs precedences shows that the
 output determines the expression.
 */
module Printers {

  datatype BinOp =
    | Mul | Div | Mod | Add | Sub | AddSat | SubSat | Concat | Shl | Shr
    | BAnd | BXor | BOr | Lss | Leq | Grt | Geq | Equ | Neq | LAnd | LOr

  datatype UnOp = Neg | Cmpl | LNot

  datatype Expr =
    | Const(value: int)
    | Path(path: string)
    | Un(uop: UnOp, arg: Expr)
    | Bin(op: BinOp, left: Expr, right: Expr)
    | Mux(cond: Expr, ifTrue: Expr, ifFalse: Expr)
    | Member(base: Expr, member: string)
    | Index(base: Expr, index: Expr)

  /** What is sent to the stream in one piece.  A minus sign is one token in both of its roles. */
  datatype Token =
    | Operator(op: BinOp) | Tilde | Bang | Num(value: nat) | Name(name: string)
    | LParen | RParen | LBracket | RBracket | Dot | Question | Colon | Semi

  // ---------------------------------------------------------------- precedence table

  const PREC_POSTFIX := 15
  const PREC_PREFIX := 14
  const PREC_COND := 3
  const PREC_LOW := 1

  function Prec(op: BinOp): (p: nat)
    ensures PREC_COND < p < PREC_PREFIX
  {
    match op
    case Mul | Div | Mod => 13
    case Add | Sub | AddSat | SubSat | Concat => 12
    case Shl | Shr => 11
    case BAnd => 10
    case BXor => 9
    case BOr => 8
    case Lss | Leq | Grt | Geq => 7
    case Equ | Neq => 6
    case LAnd => 5
    case LOr => 4
  }

  function Level(e: Expr): (p: nat)
    ensures PREC_COND <= p <= PREC_POSTFIX
  {
    match e
    case Un(_, _) => PREC_PREFIX
    case Bin(op, _, _) => Prec(op)
    case Mux(_, _, _) => PREC_COND
    case _ => PREC_POSTFIX
  }

  function UnToken(op: UnOp): Token {
    match op
    case Neg => Operator(Sub)
    case Cmpl => Tilde
    case LNot => Bang
  }

  function Digits(v: int): seq<Token> {
    if v < 0 then [Operator(Sub), Num(-v)] else [Num(v)]
  }

  // ---------------------------------------------------------------- printing

  /** The output of a printer between its parentheses. */
  function Body(e: Expr): seq<Token>
    decreases e, 0
  {
    match e
    case Const(v) => Digits(v)
    case Path(n) => [Name(n)]
    case Un(op, x) => [UnToken(op)] + Print(x, PREC_PREFIX)
    case Bin(op, l, r) => Print(l, Prec(op)) + [Operator(op)] + Print(r, Prec(op) + 1)
    case Mux(c, t, f) => Print(c, PREC_COND + 1) + [Question] + Print(t, PREC_LOW) + [Colon] + Print(f, PREC_COND)
    case Member(b, n) => Print(b, PREC_POSTFIX) + [Dot, Name(n)]
    case Index(b, i) => Print(b, PREC_POSTFIX) + [LBracket] + Print(i, PREC_LOW) + [RBracket]
  }

  function Print(e: Expr, prec: nat): seq<Token>
    decreases e, 1
  {
    if prec > Level(e) then [LParen] + Body(e) + [RParen]
    else if prec == 0 && !e.Const? then Body(e) + [Semi]
    else Body(e)
  }

  // ---------------------------------------------------------------- where parentheses go

  /** The binary operators from the tightest to the loosest, by name. */
  predicate Stands(op: BinOp, i: nat) {
    match i
    case 0 => op.Mul? || op.Div? || op.Mod?
    case 1 => op.Add? || op.Sub? || op.AddSat? || op.SubSat? || op.Concat?
    case 2 => op.Shl? || op.Shr?
    case 3 => op.BAnd?
    case 4 => op.BXor?
    case 5 => op.BOr?
    case 6 => op.Lss? || op.Leq? || op.Grt? || op.Geq?
    case 7 => op.Equ? || op.Neq?
    case 8 => op.LAnd?
    case 9 => op.LOr?
    case _ => false
  }

  /** x binds more tightly than y. */
  ghost predicate Above(x: BinOp, y: BinOp) {
    exists i: nat, j: nat :: i < j && Stands(x, i) && Stands(y, j)
  }

  function Enclosed(e: Expr): seq<Token> {
    [LParen] + Body(e) + [RParen]
  }

  lemma StandsAt(op: BinOp, i: nat)
    ensures Stands(op, i) <==> i == 13 - Prec(op)
  {
  }

  lemma AboveIs(x: BinOp, y: BinOp)
    ensures Above(x, y) <==> Prec(x) > Prec(y)
  {
    if Above(x, y) {
      var i: nat, j: nat :| i < j && Stands(x, i) && Stands(y, j);
      StandsAt(x, i);
      StandsAt(y, j);
    }
    if Prec(x) > Prec(y) { Higher(x, 13 - Prec(x), y, 13 - Prec(y)); }
  }

  lemma Higher(x: BinOp, i: nat, y: BinOp, j: nat)
    requires i < j && i == 13 - Prec(x) && j == 13 - Prec(y)
    ensures Above(x, y)
  {
    StandsAt(x, i);
    StandsAt(y, j);
  }

  /** The operands of a binary operator: to the left, what binds less tightly is enclosed; to the right,
      what does not bind more tightly. */
  lemma BinPrints(op: BinOp, l: Expr, r: Expr)
    ensures Body(Bin(op, l, r)) ==
              (if l.Mux? || (l.Bin? && Above(op, l.op)) then Enclosed(l) else Body(l))
              + [Operator(op)]
              + (if r.Mux? || (r.Bin? && !Above(r.op, op)) then Enclosed(r) else Body(r))
  {
    if l.Bin? { AboveIs(op, l.op); }
    if r.Bin? { AboveIs(r.op, op); }
  }

  /** Under a unary operator and in front of a postfix every binary operator and conditional is
      enclosed, in front of a postfix also every unary one; an index is never enclosed. */
  lemma OperandPrints(op: UnOp, x: Expr, n: string, i: Expr)
    ensures Body(Un(op, x)) == [UnToken(op)] + if x.Bin? || x.Mux? then Enclosed(x) else Body(x)
    ensures Body(Member(x, n)) == (if x.Bin? || x.Mux? || x.Un? then Enclosed(x) else Body(x)) + [Dot, Name(n)]
    ensures Body(Index(x, i)) ==
              (if x.Bin? || x.Mux? || x.Un? then Enclosed(x) else Body(x)) + [LBracket] + Body(i) + [RBracket]
  {
  }

  /** Of a conditional only a condition that is one itself is enclosed. */
  lemma MuxPrints(c: Expr, t: Expr, f: Expr)
    ensures Body(Mux(c, t, f)) ==
              (if c.Mux? then Enclosed(c) else Body(c)) + [Question] + Body(t) + [Colon] + Body(f)
  {
  }

  /** A statement gets a separator unless it is a constant; as an operand at the lowest level nothing is
      enclosed. */
  lemma TopPrints(e: Expr)
    ensures Print(e, 0) == if e.Const? then Body(e) else Body(e) + [Semi]
    ensures Print(e, PREC_LOW) == Body(e)
  {
  }

  /** A stream: the tokens so far and the flag word, whose low four bits are the precedence. */
  class Stream {
    var tokens: seq<Token>
    var flags: nat

    method Put(ts: seq<Token>)
      modifies this`tokens
      ensures tokens == old(tokens) + ts
    {
      tokens := tokens + ts;
    }

    /** `setprec`: writes the bits under the precedence mask, and only those. */
    method SetPrec(prec: nat)
      requires prec < 16
      modifies this`flags
      ensures flags == flags / 16 * 16 + prec && flags / 16 == old(flags) / 16 && flags % 16 == prec
    {
      flags := flags / 16 * 16 + prec;
    }

    method UnBody(op: UnOp, x: Expr)
      modifies this
      ensures tokens == old(tokens) + Body(Un(op, x)) && flags == old(flags)
      decreases Un(op, x), 0
    {
      var prec := flags % 16;
      Put([UnToken(op)]);
      SetPrec(PREC_PREFIX);
      Dbprint(x);
      SetPrec(prec);
      Joined(old(tokens), [UnToken(op)], Print(x, PREC_PREFIX));
    }

    method BinBody(op: BinOp, l: Expr, r: Expr)
      modifies this
      ensures tokens == old(tokens) + Body(Bin(op, l, r)) && flags == old(flags)
      decreases Bin(op, l, r), 0
    {
      var prec := flags % 16;
      SetPrec(Prec(op));
      Dbprint(l);
      Put([Operator(op)]);
      SetPrec(Prec(op) + 1);
      Dbprint(r);
      SetPrec(prec);
      Joined(old(tokens), Print(l, Prec(op)), [Operator(op)]);
      Joined(old(tokens), Print(l, Prec(op)) + [Operator(op)], Print(r, Prec(op) + 1));
    }

    method MuxBody(c: Expr, t: Expr, f: Expr)
      modifies this
      ensures tokens == old(tokens) + Body(Mux(c, t, f)) && flags == old(flags)
      decreases Mux(c, t, f), 0
    {
      var prec := flags % 16;
      SetPrec(PREC_COND + 1);
      Dbprint(c);
      Put([Question]);
      SetPrec(PREC_LOW);
      Dbprint(t);
      Put([Colon]);
      SetPrec(PREC_COND);
      Dbprint(f);
      SetPrec(prec);
      ghost var a := Print(c, PREC_COND + 1);
      ghost var b := Print(t, PREC_LOW);
      Joined(old(tokens), a, [Question]);
      Joined(old(tokens), a + [Question], b);
      Joined(old(tokens), a + [Question] + b, [Colon]);
      Joined(old(tokens), a + [Question] + b + [Colon], Print(f, PREC_COND));
    }

    method MemberBody(base: Expr, member: string)
      modifies this
      ensures tokens == old(tokens) + Body(Member(base, member)) && flags == old(flags)
      decreases Member(base, member), 0
    {
      var prec := flags % 16;
      SetPrec(PREC_POSTFIX);
      Dbprint(base);
      SetPrec(prec);
      Put([Dot, Name(member)]);
      Joined(old(tokens), Print(base, PREC_POSTFIX), [Dot, Name(member)]);
    }

    method IndexBody(base: Expr, index: Expr)
      modifies this
      ensures tokens == old(tokens) + Body(Index(base, index)) && flags == old(flags)
      decreases Index(base, index), 0
    {
      var prec := flags % 16;
      SetPrec(PREC_POSTFIX);
      Dbprint(base);
      Put([LBracket]);
      SetPrec(PREC_LOW);
      Dbprint(index);
      Put([RBracket]);
      SetPrec(prec);
      ghost var b := Print(base, PREC_POSTFIX);
      ghost var i := Print(index, PREC_LOW);
      Joined(old(tokens), b, [LBracket]);
      Joined(old(tokens), b + [LBracket], i);
      Joined(old(tokens), b + [LBracket] + i, [RBracket]);
    }

    method DbprintBody(e: Expr)
      modifies this
      ensures tokens == old(tokens) + Body(e) && flags == old(flags)
      decreases e, 1
    {
      match e
      case Const(v) => Put(Digits(v));
      case Path(n) => Put([Name(n)]);
      case Un(op, x) => UnBody(op, x);
      case Bin(op, l, r) => BinBody(op, l, r);
      case Mux(c, t, f) => MuxBody(c, t, f);
      case Member(b, n) => MemberBody(b, n);
      case Index(b, i) => IndexBody(b, i);
    }

    /** `dbprint`: appends what the expression prints at the level found in the stream, and leaves
        the whole flag word, the level included, as it was. */
    method Dbprint(e: Expr)
      modifies this
      ensures tokens == old(tokens) + Print(e, old(flags) % 16) && flags == old(flags)
      decreases e, 2
    {
      var prec := flags % 16;
      if prec > Level(e) {
        Put([LParen]);
        DbprintBody(e);
        Put([RParen]);
        Joined(old(tokens), [LParen], Body(e));
        Joined(old(tokens), [LParen] + Body(e), [RParen]);
      } else {
        DbprintBody(e);
        if prec == 0 && !e.Const? {
          Put([Semi]);
          Joined(old(tokens), Body(e), [Semi]);
        }
      }
    }
  }

  lemma Joined(a: seq<Token>, b: seq<Token>, c: seq<Token>)
    ensures a + b + c == a + (b + c)
  {
  }

  // ---------------------------------------------------------------- a reader

  datatype Reading = Fail | Got(expr: Expr, rest: seq<Token>)

  /** One expression whose operators bind at least as tightly as q. */
  function Read(ts: seq<Token>, q: nat): (r: Reading)
    ensures r.Got? ==> |r.rest| < |ts|
    decreases |ts|, 3
  {
    match ReadPrefix(ts)
    case Fail => Fail
    case Got(x, rest) => Climb(x, rest, q)
  }

  /** x has been read; go on while the next operator binds at least as tightly as q. */
  function Climb(x: Expr, ts: seq<Token>, q: nat): (r: Reading)
    ensures r.Got? ==> |r.rest| <= |ts|
    decreases |ts|, 0
  {
    if ts == [] then Got(x, ts)
    else match ts[0]
      case Operator(op) =>
        if Prec(op) < q then Got(x, ts)
        else (match Read(ts[1..], Prec(op) + 1)
          case Fail => Fail
          case Got(y, rest) => Climb(Bin(op, x, y), rest, q))
      case Question =>
        if PREC_COND < q then Got(x, ts)
        else (match Read(ts[1..], PREC_LOW)
          case Fail => Fail
          case Got(t, rest) =>
            if rest == [] || rest[0] != Colon then Fail
            else match Read(rest[1..], PREC_COND)
              case Fail => Fail
              case Got(f, rest') => Climb(Mux(x, t, f), rest', q))
      case _ => Got(x, ts)
  }

  function ReadPrefix(ts: seq<Token>): (r: Reading)
    ensures r.Got? ==> |r.rest| < |ts|
    decreases |ts|, 2
  {
    if ts == [] then Fail
    else match ts[0]
      case Operator(op) => if op == Sub then Prefixed(Neg, ReadPrefix(ts[1..])) else Fail
      case Tilde => Prefixed(Cmpl, ReadPrefix(ts[1..]))
      case Bang => Prefixed(LNot, ReadPrefix(ts[1..]))
      case Num(v) => ReadPostfix(Const(v), ts[1..])
      case Name(n) => ReadPostfix(Path(n), ts[1..])
      case LParen =>
        (match Read(ts[1..], PREC_LOW)
         case Fail => Fail
         case Got(x, rest) => if rest == [] || rest[0] != RParen then Fail else ReadPostfix(x, rest[1..]))
      case _ => Fail
  }

  function Prefixed(op: UnOp, r: Reading): Reading {
    match r
    case Fail => Fail
    case Got(x, rest) => Got(Un(op, x), rest)
  }

  function ReadPostfix(x: Expr, ts: seq<Token>): (r: Reading)
    ensures r.Got? ==> |r.rest| <= |ts|
    decreases |ts|, 0
  {
    if ts == [] then Got(x, ts)
    else match ts[0]
      case Dot => if |ts| > 1 && ts[1].Name? then ReadPostfix(Member(x, ts[1].name), ts[2..]) else Fail
      case LBracket =>
        (match Read(ts[1..], PREC_LOW)
         case Fail => Fail
         case Got(i, rest) => if rest == [] || rest[0] != RBracket then Fail else ReadPostfix(Index(x, i), rest[1..]))
      case _ => Got(x, ts)
  }

  // ---------------------------------------------------------------- reading back what was printed

  predicate NonNegative(e: Expr) {
    match e
    case Const(v) => v >= 0
    case Path(_) => true
    case Un(_, x) => NonNegative(x)
    case Bin(_, l, r) => NonNegative(l) && NonNegative(r)
    case Mux(c, t, f) => NonNegative(c) && NonNegative(t) && NonNegative(f)
    case Member(b, _) => NonNegative(b)
    case Index(b, i) => NonNegative(b) && NonNegative(i)
  }

  /** A reader at level k stops in front of ts. */
  predicate Stops(ts: seq<Token>, k: nat) {
    ts == [] ||
    match ts[0]
    case Operator(op) => Prec(op) < k
    case Question => PREC_COND < k
    case Dot | LBracket => false
    case _ => true
  }

  /** The level at which what follows an expression must stop a reader. */
  function Need(e: Expr): nat {
    match e
    case Bin(op, _, _) => Prec(op) + 1
    case Mux(_, _, _) => PREC_COND
    case _ => PREC_POSTFIX
  }

  lemma ClimbStops(x: Expr, ts: seq<Token>, q: nat)
    requires Stops(ts, q)
    ensures Climb(x, ts, q) == Got(x, ts)
  {
  }

  // How printed output followed by more tokens falls apart.

  lemma ParenSplit(a: seq<Token>, rest: seq<Token>)
    ensures [LParen] + a + [RParen] + rest == [LParen] + (a + ([RParen] + rest))
  {
  }

  lemma TwoSplit(a: seq<Token>, b: Token, c: seq<Token>, rest: seq<Token>)
    ensures a + [b] + c + rest == a + ([b] + (c + rest))
  {
  }

  lemma IndexSplit(a: seq<Token>, c: seq<Token>, rest: seq<Token>)
    ensures a + [LBracket] + c + [RBracket] + rest == a + ([LBracket] + (c + ([RBracket] + rest)))
  {
    TwoSplit(a, LBracket, c, [RBracket] + rest);
    Joined(a + [LBracket] + c, [RBracket], rest);
  }

  lemma ThreeSplit(a: seq<Token>, b: Token, c: seq<Token>, d: Token, e: seq<Token>, rest: seq<Token>)
    ensures a + [b] + c + [d] + e + rest == a + ([b] + (c + ([d] + (e + rest))))
  {
    TwoSplit(a, b, c, [d] + e + rest);
    assert a + [b] + c + [d] + e + rest == a + [b] + c + ([d] + e + rest);
    assert [d] + e + rest == [d] + (e + rest);
  }

  // One step of the reader for each thing it can meet.

  lemma PrefixStep(op: UnOp, ts: seq<Token>)
    ensures ReadPrefix([UnToken(op)] + ts) == Prefixed(op, ReadPrefix(ts))
  {
    assert ([UnToken(op)] + ts)[1..] == ts;
  }

  lemma AtomStep(e: Expr, ts: seq<Token>)
    requires (e.Const? && e.value >= 0) || e.Path?
    ensures ReadPrefix(Body(e) + ts) == ReadPostfix(e, ts)
  {
    assert |Body(e)| == 1;
    assert (Body(e) + ts)[1..] == ts;
  }

  lemma ParenStep(ts: seq<Token>, x: Expr, rest: seq<Token>)
    requires Read(ts, PREC_LOW) == Got(x, [RParen] + rest)
    ensures ReadPrefix([LParen] + ts) == ReadPostfix(x, rest)
  {
    assert ([LParen] + ts)[1..] == ts;
    assert ([RParen] + rest)[1..] == rest;
  }

  lemma DotStep(x: Expr, n: string, rest: seq<Token>)
    ensures ReadPostfix(x, [Dot, Name(n)] + rest) == ReadPostfix(Member(x, n), rest)
  {
    assert ([Dot, Name(n)] + rest)[2..] == rest;
  }

  lemma BracketStep(x: Expr, ts: seq<Token>, i: Expr, rest: seq<Token>)
    requires Read(ts, PREC_LOW) == Got(i, [RBracket] + rest)
    ensures ReadPostfix(x, [LBracket] + ts) == ReadPostfix(Index(x, i), rest)
  {
    assert ([LBracket] + ts)[1..] == ts;
    assert ([RBracket] + rest)[1..] == rest;
  }

  lemma OperatorStep(x: Expr, op: BinOp, ts: seq<Token>, y: Expr, rest: seq<Token>, q: nat)
    requires q <= Prec(op) && Read(ts, Prec(op) + 1) == Got(y, rest)
    ensures Climb(x, [Operator(op)] + ts, q) == Climb(Bin(op, x, y), rest, q)
  {
    assert ([Operator(op)] + ts)[1..] == ts;
  }

  lemma MuxStep(x: Expr, ts: seq<Token>, t: Expr, last: seq<Token>, f: Expr, rest: seq<Token>, q: nat)
    requires q <= PREC_COND && Read(ts, PREC_LOW) == Got(t, [Colon] + last) && Read(last, PREC_COND) == Got(f, rest)
    ensures Climb(x, [Question] + ts, q) == Climb(Mux(x, t, f), rest, q)
  {
    assert ([Question] + ts)[1..] == ts;
    assert ([Colon] + last)[1..] == last;
  }

  /** Parentheses around an expression that is printed below their level. */
  lemma {:induction false} ParenReads(e: Expr, rest: seq<Token>)
    requires NonNegative(e)
    ensures ReadPrefix([LParen] + Body(e) + [RParen] + rest) == ReadPostfix(e, rest)
    decreases e, 3
  {
    var tail := [RParen] + rest;
    BareReads(e, PREC_LOW, tail);
    ClimbStops(e, tail, PREC_LOW);
    ParenStep(Body(e) + tail, e, rest);
    ParenSplit(Body(e), rest);
  }

  lemma {:induction false} IndexReads(b: Expr, i: Expr, rest: seq<Token>)
    requires NonNegative(b) && NonNegative(i)
    ensures ReadPrefix(Body(Index(b, i)) + rest) == ReadPostfix(Index(b, i), rest)
    decreases Index(b, i), 0
  {
    var close := [RBracket] + rest;
    var tail := [LBracket] + (Print(i, PREC_LOW) + close);
    BaseReads(b, tail);
    PrintReads(i, PREC_LOW, PREC_LOW, close);
    ClimbStops(i, close, PREC_LOW);
    BracketStep(b, Print(i, PREC_LOW) + close, i, rest);
    IndexSplit(Print(b, PREC_POSTFIX), Print(i, PREC_LOW), rest);
  }

  /** An atom or a postfix expression, in front of more postfixes. */
  lemma {:induction false} ChainReads(e: Expr, rest: seq<Token>)
    requires NonNegative(e) && Level(e) == PREC_POSTFIX
    ensures ReadPrefix(Body(e) + rest) == ReadPostfix(e, rest)
    decreases e, 1
  {
    match e
    case Member(b, n) =>
      BaseReads(b, [Dot, Name(n)] + rest);
      DotStep(b, n, rest);
      Joined(Print(b, PREC_POSTFIX), [Dot, Name(n)], rest);
    case Index(b, i) =>
      IndexReads(b, i, rest);
    case _ =>
      AtomStep(e, rest);
  }

  /** The base of a postfix. */
  lemma {:induction false} BaseReads(e: Expr, rest: seq<Token>)
    requires NonNegative(e)
    ensures ReadPrefix(Print(e, PREC_POSTFIX) + rest) == ReadPostfix(e, rest)
    decreases e, 4
  {
    if Level(e) < PREC_POSTFIX {
      ParenReads(e, rest);
    } else {
      ChainReads(e, rest);
    }
  }

  /** The operand of a unary operator. */
  lemma {:induction false} OperandReads(e: Expr, rest: seq<Token>)
    requires NonNegative(e) && Stops(rest, PREC_POSTFIX)
    ensures ReadPrefix(Print(e, PREC_PREFIX) + rest) == Got(e, rest)
    decreases e, 5
  {
    if e.Un? {
      OperandReads(e.arg, rest);
      PrefixStep(e.uop, Print(e.arg, PREC_PREFIX) + rest);
      Joined([UnToken(e.uop)], Print(e.arg, PREC_PREFIX), rest);
    } else {
      BaseReads(e, rest);
    }
  }

  lemma {:induction false} BinReads(op: BinOp, l: Expr, r: Expr, q: nat, rest: seq<Token>)
    requires NonNegative(l) && NonNegative(r) && 1 <= q <= Prec(op) && Stops(rest, Prec(op) + 1)
    ensures Read(Body(Bin(op, l, r)) + rest, q) == Climb(Bin(op, l, r), rest, q)
    decreases Bin(op, l, r), 0
  {
    var k := Prec(op) + 1;
    var tail := [Operator(op)] + (Print(r, k) + rest);
    PrintReads(l, Prec(op), q, tail);
    PrintReads(r, k, k, rest);
    ClimbStops(r, rest, k);
    OperatorStep(l, op, Print(r, k) + rest, r, rest, q);
    TwoSplit(Print(l, Prec(op)), Operator(op), Print(r, k), rest);
  }

  lemma {:induction false} MuxReads(c: Expr, t: Expr, f: Expr, q: nat, rest: seq<Token>)
    requires NonNegative(c) && NonNegative(t) && NonNegative(f)
    requires 1 <= q <= PREC_COND && Stops(rest, PREC_COND)
    ensures Read(Body(Mux(c, t, f)) + rest, q) == Climb(Mux(c, t, f), rest, q)
    decreases Mux(c, t, f), 0
  {
    var last := Print(f, PREC_COND) + rest;
    var then_ := Print(t, PREC_LOW) + ([Colon] + last);
    PrintReads(c, PREC_COND + 1, q, [Question] + then_);
    PrintReads(t, PREC_LOW, PREC_LOW, [Colon] + last);
    ClimbStops(t, [Colon] + last, PREC_LOW);
    PrintReads(f, PREC_COND, PREC_COND, rest);
    ClimbStops(f, rest, PREC_COND);
    MuxStep(c, then_, t, last, f, rest, q);
    ThreeSplit(Print(c, PREC_COND + 1), Question, Print(t, PREC_LOW), Colon, Print(f, PREC_COND), rest);
  }

  /** An expression without parentheses. */
  lemma {:induction false} BareReads(e: Expr, q: nat, rest: seq<Token>)
    requires NonNegative(e) && 1 <= q <= Level(e) && Stops(rest, Need(e))
    ensures Read(Body(e) + rest, q) == Climb(e, rest, q)
    decreases e, 2
  {
    match e
    case Un(op, x) =>
      OperandReads(x, rest);
      PrefixStep(op, Print(x, PREC_PREFIX) + rest);
      Joined([UnToken(op)], Print(x, PREC_PREFIX), rest);
    case Bin(op, l, r) =>
      BinReads(op, l, r, q, rest);
    case Mux(c, t, f) =>
      MuxReads(c, t, f, q, rest);
    case _ =>
      ChainReads(e, rest);
  }

  /** An expression at any level. */
  lemma {:induction false} PrintReads(e: Expr, p: nat, q: nat, rest: seq<Token>)
    requires NonNegative(e) && 1 <= q <= p <= PREC_POSTFIX
    requires Stops(rest, if p > Level(e) then PREC_POSTFIX else Need(e))
    ensures Read(Print(e, p) + rest, q) == Climb(e, rest, q)
    decreases e, 4
  {
    if p > Level(e) {
      ParenReads(e, rest);
    } else {
      BareReads(e, q, rest);
    }
  }

  /** Reading what was printed at any level of the precedence field gives the expression back; at
      level zero the statement separator is left. */
  lemma ReadsBack(e: Expr, p: nat)
    requires NonNegative(e) && p <= PREC_POSTFIX
    ensures Read(Print(e, p), PREC_LOW) == Got(e, if p == 0 && !e.Const? then [Semi] else [])
  {
    var rest: seq<Token> := if p == 0 && !e.Const? then [Semi] else [];
    var q := if p == 0 then PREC_LOW else p;
    PrintReads(e, q, PREC_LOW, rest);
    ClimbStops(e, rest, PREC_LOW);
    assert Print(e, p) == Print(e, q) + rest;
  }

  /** Printing is injective on expressions without negative constants. */
  lemma Injective(a: Expr, b: Expr, p: nat)
    requires NonNegative(a) && NonNegative(b) && p <= PREC_POSTFIX && Print(a, p) == Print(b, p)
    ensures a == b
  {
    ReadsBack(a, p);
    ReadsBack(b, p);
  }

  // ---------------------------------------------------------------- negative constants

  /** A chain of postfixes whose innermost base is a negative constant. */
  predicate Signed(e: Expr) {
    match e
    case Const(v) => v < 0
    case Member(b, _) => Signed(b)
    case Index(b, _) => Signed(b)
    case _ => false
  }

  /** The expression a reader sees: the sign of a negative constant is a unary minus, applied to the
      whole chain of postfixes that the constant is the base of. */
  function Seen(e: Expr): (s: Expr)
    ensures NonNegative(s)
    ensures Level(e) < PREC_POSTFIX ==> Level(s) == Level(e)
    decreases e, 1
  {
    match e
    case Un(op, x) => Un(op, Seen(x))
    case Bin(op, l, r) => Bin(op, Seen(l), Seen(r))
    case Mux(c, t, f) => Mux(Seen(c), Seen(t), Seen(f))
    case _ => if Signed(e) then Un(Neg, Unsigned(e)) else Unsigned(e)
  }

  function Unsigned(e: Expr): (s: Expr)
    requires Level(e) == PREC_POSTFIX
    ensures NonNegative(s) && Level(s) == PREC_POSTFIX
    decreases e, 0
  {
    match e
    case Const(v) => Const(if v < 0 then -v else v)
    case Path(_) => e
    case Member(b, n) => Member(SeenBase(b), n)
    case Index(b, i) => Index(SeenBase(b), Seen(i))
  }

  /** What a reader sees of an expression in front of a postfix, the sign aside. */
  function SeenBase(e: Expr): (s: Expr)
    ensures NonNegative(s)
    decreases e, 2
  {
    if Level(e) < PREC_POSTFIX then Seen(e) else Unsigned(e)
  }

  function Sign(e: Expr): seq<Token> {
    if Signed(e) then [Operator(Sub)] else []
  }

  lemma {:induction false} UnsignedPrints(e: Expr)
    requires Level(e) == PREC_POSTFIX
    ensures Body(e) == Sign(e) + Body(Unsigned(e))
    decreases e, 0
  {
    match e
    case Const(_) =>
    case Path(_) =>
    case Member(b, n) =>
      BasePrints(b);
    case Index(b, i) =>
      BasePrints(b);
      SeenPrints(i, PREC_LOW);
  }

  lemma {:induction false} BasePrints(b: Expr)
    ensures Print(b, PREC_POSTFIX) == Sign(b) + Print(SeenBase(b), PREC_POSTFIX)
    decreases b, 3
  {
    if Level(b) < PREC_POSTFIX {
      SeenPrints(b, PREC_LOW);
    } else {
      UnsignedPrints(b);
    }
  }

  lemma NegPrints(u: Expr, p: nat)
    requires Level(u) == PREC_POSTFIX && 1 <= p <= PREC_PREFIX
    ensures Print(Un(Neg, u), p) == [Operator(Sub)] + Body(u)
  {
    assert Print(u, PREC_PREFIX) == Body(u);
    assert Level(Un(Neg, u)) == PREC_PREFIX;
  }

  lemma {:induction false} ChainPrints(e: Expr, p: nat)
    requires Level(e) == PREC_POSTFIX && 1 <= p <= PREC_PREFIX
    ensures Print(e, p) == Print(Seen(e), p)
    decreases e, 1
  {
    UnsignedPrints(e);
    var u := Unsigned(e);
    assert Print(e, p) == Body(e) && Print(u, p) == Body(u);
    assert Seen(e) == if Signed(e) then Un(Neg, u) else u;
    if Signed(e) {
      NegPrints(u, p);
    } else {
      assert [] + Body(u) == Body(u);
    }
  }

  /** An expression and what a reader sees of it print alike at every level below the postfix one. */
  lemma {:induction false} SeenPrints(e: Expr, p: nat)
    requires 1 <= p <= PREC_PREFIX
    ensures Print(e, p) == Print(Seen(e), p)
    decreases e, 2
  {
    match e
    case Un(op, x) =>
      SeenPrints(x, PREC_PREFIX);
    case Bin(op, l, r) =>
      SeenPrints(l, Prec(op));
      SeenPrints(r, Prec(op) + 1);
    case Mux(c, t, f) =>
      SeenPrints(c, PREC_COND + 1);
      SeenPrints(t, PREC_LOW);
      SeenPrints(f, PREC_COND);
    case _ =>
      ChainPrints(e, p);
  }

  /** Exactly which expressions print alike at the levels of operands, branches and indices. */
  lemma PrintAlike(a: Expr, b: Expr, p: nat)
    requires 1 <= p <= PREC_PREFIX
    ensures Print(a, p) == Print(b, p) <==> Seen(a) == Seen(b)
  {
    SeenPrints(a, p);
    SeenPrints(b, p);
    if Print(a, p) == Print(b, p) {
      Injective(Seen(a), Seen(b), p);
    }
  }

  lemma {:induction false} FirstOfBase(e: Expr)
    requires NonNegative(e)
    ensures Print(e, PREC_POSTFIX) != [] && Print(e, PREC_POSTFIX)[0] != Operator(Sub)
  {
    match e
    case Member(b, n) =>
      FirstOfBase(b);
      assert Body(e)[0] == Print(b, PREC_POSTFIX)[0];
    case Index(b, i) =>
      FirstOfBase(b);
      assert Body(e)[0] == Print(b, PREC_POSTFIX)[0];
    case _ =>
  }

  lemma SignsApart(s: seq<Token>, x: seq<Token>, t: seq<Token>, y: seq<Token>)
    requires s in {[], [Operator(Sub)]} && t in {[], [Operator(Sub)]}
    requires x != [] && x[0] != Operator(Sub) && y != [] && y[0] != Operator(Sub)
    ensures s + x == t + y <==> s == t && x == y
  {
    assert (s + x)[|s|..] == x && (t + y)[|t|..] == y;
    assert (s + x)[0] == (if s == [] then x[0] else s[0]) && (t + y)[0] == (if t == [] then y[0] else t[0]);
  }

  /** Exactly which expressions print alike in front of a postfix, where a unary minus gets parentheses
      and the sign of a constant does not. */
  lemma BasesAlike(a: Expr, b: Expr)
    ensures Print(a, PREC_POSTFIX) == Print(b, PREC_POSTFIX) <==> Signed(a) == Signed(b) && SeenBase(a) == SeenBase(b)
  {
    BasePrints(a);
    BasePrints(b);
    SignedAlike(Sign(a), SeenBase(a), Sign(b), SeenBase(b));
  }

  lemma SignedAlike(s: seq<Token>, u: Expr, t: seq<Token>, v: Expr)
    requires s in {[], [Operator(Sub)]} && t in {[], [Operator(Sub)]} && NonNegative(u) && NonNegative(v)
    ensures s + Print(u, PREC_POSTFIX) == t + Print(v, PREC_POSTFIX) <==> s == t && u == v
  {
    FirstOfBase(u);
    FirstOfBase(v);
    SignsApart(s, Print(u, PREC_POSTFIX), t, Print(v, PREC_POSTFIX));
    if Print(u, PREC_POSTFIX) == Print(v, PREC_POSTFIX) { Injective(u, v, PREC_POSTFIX); }
  }

  lemma LastOfStatement(e: Expr)
    ensures Print(e, 0) != [] && (Print(e, 0)[|Print(e, 0)| - 1] == Semi <==> !e.Const?)
    ensures e.Const? ==> Print(e, 0) == Print(e, PREC_LOW)
    ensures !e.Const? ==> Print(e, 0)[..|Print(e, 0)| - 1] == Print(e, PREC_LOW) && Print(e, 0) == Print(e, PREC_LOW) + [Semi]
  {
  }

  /** As a statement, a constant lacks the separator, so it is never taken for anything else. */
  lemma StatementsAlike(a: Expr, b: Expr)
    ensures Print(a, 0) == Print(b, 0) <==> Seen(a) == Seen(b) && (a.Const? <==> b.Const?)
  {
    PrintAlike(a, b, PREC_LOW);
    LastOfStatement(a);
    LastOfStatement(b);
  }

  /** What a reader sees is the expression itself exactly when it has no negative constant. */
  lemma {:induction false} SeenUnchanged(e: Expr)
    ensures Seen(e) == e <==> NonNegative(e)
    decreases e, 1
  {
    match e
    case Un(_, x) => SeenUnchanged(x);
    case Bin(_, l, r) => SeenUnchanged(l); SeenUnchanged(r);
    case Mux(c, t, f) => SeenUnchanged(c); SeenUnchanged(t); SeenUnchanged(f);
    case _ => if NonNegative(e) { UnsignedUnchanged(e); }
  }

  lemma {:induction false} UnsignedUnchanged(e: Expr)
    requires Level(e) == PREC_POSTFIX && NonNegative(e)
    ensures !Signed(e) && Unsigned(e) == e
    decreases e, 0
  {
    match e
    case Const(_) =>
    case Path(_) =>
    case Member(b, _) => if Level(b) < PREC_POSTFIX { SeenUnchanged(b); } else { UnsignedUnchanged(b); }
    case Index(b, i) =>
      SeenUnchanged(i);
      if Level(b) < PREC_POSTFIX { SeenUnchanged(b); } else { UnsignedUnchanged(b); }
  }

  /** Printing is not injective in general: a negative constant looks like a negated one, and a
      member of it like a negated member. */
  lemma NegativeCollides(v: int, n: string)
    requires v > 0
    ensures Print(Const(-v), PREC_LOW) == Print(Un(Neg, Const(v)), PREC_LOW)
    ensures Print(Member(Const(-v), n), PREC_LOW) == Print(Un(Neg, Member(Const(v), n)), PREC_LOW)
  {
    var c, m := Const(v), Member(Const(v), n);
    UnsignedUnchanged(m);
    assert SeenBase(Const(-v)) == c;
    assert Seen(Const(-v)) == Un(Neg, c) == Seen(Un(Neg, c));
    SeenUnchanged(m);
    assert Seen(Member(Const(-v), n)) == Un(Neg, m) == Seen(Un(Neg, m));
    PrintAlike(Const(-v), Un(Neg, c), PREC_LOW);
    PrintAlike(Member(Const(-v), n), Un(Neg, m), PREC_LOW);
  }
}
