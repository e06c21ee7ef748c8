/**
 Enumerators and constant expressions: an enumerator list binds each name to an expression, and
 a walker folds expressions over constants and enumerator names to a single leaf.  Arithmetic is
 that of a 32-bit unsigned integer.
 */
module Enums {
  import opened Basics
  import Words

  /** A 32-bit unsigned integer. */
  type Word = n: int | 0 <= n < 0x1_0000_0000

  /** The operators of C; `Other` stands for those without a meaning on constants. */
  datatype UnaryOp = Plus | Minus | Not | Flip | OtherUnary
  datatype BinaryOp =
    | Add | Sub | Mul | Div | Mod | BitAnd | BitOr | BitXor | Shl | Shr
    | Greater | Less | Equal | NotEqual | AtMost | AtLeast | And | Or | OtherBinary

  datatype Expr =
    | Num(value: Word)
    | Var(name: string)
    | Paren(inner: Expr)
    | Unary(uop: UnaryOp, arg: Expr)
    | Infix(left: Expr, op: BinaryOp, right: Expr)

  datatype Binding = Binding(name: string, expr: Expr)
  type Env = seq<Binding>

  // ----- the environment -----

  /** Where a name is bound, or the length when it is not. */
  function Find(env: Env, x: string): (j: nat)
    ensures j <= |env| && (j < |env| ==> env[j].name == x)
    ensures j == |env| ==> forall k :: 0 <= k < |env| ==> env[k].name != x
  {
    if env == [] then 0
    else if Last(env).name == x then |env| - 1
    else
      var j := Find(Front(env), x);
      if j < |env| - 1 then j else |env|
  }

  /** Of several bindings of a name the latest counts. */
  lemma {:induction false} FindLatest(env: Env, x: string, k: nat)
    requires k < |env| && env[k].name == x
    ensures k <= Find(env, x) < |env|
  {
    if Last(env).name != x {
      FindLatest(Front(env), x, k);
    }
  }

  /** One more than the latest binding an expression refers to. */
  function Level(e: Expr, env: Env): nat {
    match e
    case Num(_) => 0
    case Var(x) => if Find(env, x) < |env| then Find(env, x) + 1 else 0
    case Paren(a) => Level(a, env)
    case Unary(_, a) => Level(a, env)
    case Infix(l, _, r) => if Level(l, env) <= Level(r, env) then Level(r, env) else Level(l, env)
  }

  /** Bindings refer only to earlier ones. */
  ghost predicate Scoped(env: Env) { forall j :: 0 <= j < |env| ==> Level(env[j].expr, env) <= j }

  // ----- the meaning of an expression -----

  function Truth(b: bool): Word { if b then 1 else 0 }

  function Wrap(n: int): Word { n % 0x1_0000_0000 }

  predicate OneBit(op: BinaryOp, x: nat, y: nat) {
    match op
    case BitAnd => x == 1 && y == 1
    case BitOr => x == 1 || y == 1
    case _ => x != y
  }

  /** Bit by bit, from the right, as long as there are bits. */
  function Bitwise(op: BinaryOp, x: nat, y: nat): nat
    decreases x + y
  {
    if x == 0 && y == 0 then 0
    else 2 * Bitwise(op, x / 2, y / 2) + Truth(OneBit(op, x % 2, y % 2))
  }

  /** A binary operator on values; none where C leaves the result undefined. */
  function Meaning2(op: BinaryOp, x: Word, y: Word): Option<Word> {
    match op
    case Add => Some(Wrap(x + y))
    case Sub => Some(Wrap(x - y))
    case Mul => Some(Wrap(x * y))
    case Div => if y == 0 then None else Some(Wrap(x / y))
    case Mod => if y == 0 then None else Some(Wrap(x % y))
    case BitAnd => Some(Wrap(Bitwise(op, x, y)))
    case BitOr => Some(Wrap(Bitwise(op, x, y)))
    case BitXor => Some(Wrap(Bitwise(op, x, y)))
    case Shl => if y < 32 then Some(Wrap(x * Pow2(y))) else None
    case Shr => if y < 32 then Some(Wrap(x / Pow2(y))) else None
    case Greater => Some(Truth(x > y))
    case Less => Some(Truth(x < y))
    case Equal => Some(Truth(x == y))
    case NotEqual => Some(Truth(x != y))
    case AtMost => Some(Truth(x <= y))
    case AtLeast => Some(Truth(x >= y))
    case And => Some(Truth(x != 0 && y != 0))
    case Or => Some(Truth(x != 0 || y != 0))
    case OtherBinary => None
  }

  function Meaning1(op: UnaryOp, x: Word): Option<Word> {
    match op
    case Plus => Some(x)
    case Minus => Some(Wrap(0 - x))
    case Not => Some(Truth(x == 0))
    case Flip => Some(0xffff_ffff - x)
    case OtherUnary => None
  }

  /** The value of an expression, the logical operators evaluated from the left as far as needed. */
  ghost function Eval(e: Expr, env: Env): Option<Word>
    requires Scoped(env)
    decreases Level(e, env), e
  {
    match e
    case Num(n) => Some(n)
    case Var(x) => if Find(env, x) < |env| then Eval(env[Find(env, x)].expr, env) else None
    case Paren(a) => Eval(a, env)
    case Unary(op, a) =>
      var v := Eval(a, env);
      if v.None? then None else Meaning1(op, v.value)
    case Infix(l, op, r) => EvalInfix(op, Eval(l, env), Eval(r, env))
  }

  function EvalInfix(op: BinaryOp, l: Option<Word>, r: Option<Word>): Option<Word> {
    if l == Some(0) && op == And then Some(0)
    else if l.Some? && l.value != 0 && op == Or then Some(1)
    else if l.Some? && r.Some? then Meaning2(op, l.value, r.value)
    else None
  }

  // ----- the folder: ExprWalker -----

  /** The operators evalExpr has a case for: it knows no shifts. */
  predicate Known2(op: BinaryOp) { op != Shl && op != Shr && op != OtherBinary }

  predicate Known1(op: UnaryOp) { op != OtherUnary }

  function EvalExpr2(op: BinaryOp, x: Word, y: Word): Option<Word> { if Known2(op) then Meaning2(op, x, y) else None }

  function EvalExpr1(op: UnaryOp, x: Word): Option<Word> { if Known1(op) then Meaning1(op, x) else None }

  // ----- the arithmetic of the evaluator -----

  /** Sums and differences are those of the numbers, less or plus one turn of the word; each undoes the other. */
  lemma AddSubLaws(x: Word, y: Word)
    ensures
      var (a, d) := (EvalExpr2(Add, x, y), EvalExpr2(Sub, x, y));
      && a.Some? && a.value == (if x + y < 0x1_0000_0000 then x + y else x + y - 0x1_0000_0000)
      && d.Some? && d.value == (if x >= y then x - y else x - y + 0x1_0000_0000)
      && EvalExpr2(Sub, a.value, y) == Some(x) && EvalExpr2(Add, d.value, y) == Some(x)
  {
    WrapIs(x + y);
    WrapIs(x - y);
    var (a, d) := (EvalExpr2(Add, x, y).value, EvalExpr2(Sub, x, y).value);
    WrapIs(a - y);
    WrapIs(d + y);
  }

  lemma WrapIs(n: int)
    requires -0x1_0000_0000 <= n < 0x2_0000_0000
    ensures Wrap(n) == if n < 0 then n + 0x1_0000_0000 else if n < 0x1_0000_0000 then n else n - 0x1_0000_0000
  {
  }

  /** Multiplication is repeated addition. */
  lemma MulLaws(x: Word, y: Word)
    ensures EvalExpr2(Mul, x, 0) == Some(0)
    ensures y < 0xffff_ffff ==>
              EvalExpr2(Mul, x, y).Some? && EvalExpr2(Mul, x, y + 1) == EvalExpr2(Add, EvalExpr2(Mul, x, y).value, x)
  {
    if y < 0xffff_ffff {
      var p := x * y;
      assert x * (y + 1) == p + x;
      WrapSum(p, x);
    }
  }

  lemma WrapSum(p: int, x: int)
    ensures Wrap(Wrap(p) + x) == Wrap(p + x)
  {
    var m := 0x1_0000_0000;
    var (q, r) := ((Wrap(p) + x) / m, (Wrap(p) + x) % m);
    Words.RemainderIs(p + x, m, p / m + q, r);
  }

  /** Quotient and remainder. */
  lemma DivModLaws(x: Word, y: Word)
    ensures y == 0 ==> EvalExpr2(Div, x, y).None? && EvalExpr2(Mod, x, y).None?
    ensures y != 0 ==>
              var (q, r) := (EvalExpr2(Div, x, y), EvalExpr2(Mod, x, y));
              q.Some? && r.Some? && x == q.value * y + r.value && r.value < y
  {
    if y != 0 {
      assert 0 <= x / y <= x by {
        assert x == (x / y) * y + x % y;
        if x / y > x {
          Words.MulGrows(y, x / y);
        }
      }
    }
  }

  /** Bit `k` of a word, from the left. */
  function BitOf(x: Word, k: nat): bool
    requires k < 32
  {
    Words.FromNat(x, 32)[k]
  }

  lemma {:induction false} BitwiseBits(op: BinaryOp, x: nat, y: nat, n: nat, k: nat)
    requires k < n && (op == BitAnd || op == BitOr || op == BitXor)
    ensures Words.FromNat(Bitwise(op, x, y), n)[k] ==
            OneBit(op, Words.Bit(Words.FromNat(x, n)[k]), Words.Bit(Words.FromNat(y, n)[k]))
  {
    var z := Bitwise(op, x, y);
    BitwiseStep(op, x, y);
    Words.FromNatSnoc(x, n - 1);
    Words.FromNatSnoc(y, n - 1);
    Words.FromNatSnoc(z, n - 1);
    if k < n - 1 {
      BitwiseBits(op, x / 2, y / 2, n - 1, k);
    }
  }

  lemma BitwiseStep(op: BinaryOp, x: nat, y: nat)
    requires op == BitAnd || op == BitOr || op == BitXor
    ensures Bitwise(op, x, y) / 2 == Bitwise(op, x / 2, y / 2)
    ensures (Bitwise(op, x, y) % 2 == 1) == OneBit(op, x % 2, y % 2)
  {
  }

  /** The bitwise operators work bit by bit. */
  lemma BitLaws(x: Word, y: Word, k: nat)
    requires k < 32
    ensures
      var (a, o, d) := (EvalExpr2(BitAnd, x, y), EvalExpr2(BitOr, x, y), EvalExpr2(BitXor, x, y));
      && a.Some? && o.Some? && d.Some?
      && (BitOf(a.value, k) <==> BitOf(x, k) && BitOf(y, k))
      && (BitOf(o.value, k) <==> BitOf(x, k) || BitOf(y, k))
      && (BitOf(d.value, k) <==> BitOf(x, k) != BitOf(y, k))
  {
    BitLaw(BitAnd, x, y, k);
    BitLaw(BitOr, x, y, k);
    BitLaw(BitXor, x, y, k);
  }

  lemma WordSize() returns (n: nat)
    ensures n == 32 && Pow2(n) == 0x1_0000_0000
  {
    Words.Pow2Of32();
    n := 32;
  }

  lemma BitLaw(op: BinaryOp, x: Word, y: Word, k: nat)
    requires k < 32 && (op == BitAnd || op == BitOr || op == BitXor)
    ensures BitOf(Wrap(Bitwise(op, x, y)), k) == OneBit(op, Words.Bit(BitOf(x, k)), Words.Bit(BitOf(y, k)))
  {
    var n := WordSize();
    BitsRemain(op, x, y, n, 0x1_0000_0000, k);
  }

  lemma BitsRemain(op: BinaryOp, x: nat, y: nat, n: nat, m: nat, k: nat)
    requires k < n && m == Pow2(n) && (op == BitAnd || op == BitOr || op == BitXor)
    ensures Words.FromNat(Bitwise(op, x, y) % m, n)[k] ==
            OneBit(op, Words.Bit(Words.FromNat(x, n)[k]), Words.Bit(Words.FromNat(y, n)[k]))
  {
    Words.FromNatRemainder(Bitwise(op, x, y), n);
    BitwiseBits(op, x, y, n, k);
  }

  /** Comparisons are the order of the numbers, and come in pairs. */
  lemma OrderLaws(x: Word, y: Word)
    ensures EvalExpr2(Less, x, y) == Some(if x < y then 1 else 0)
    ensures EvalExpr2(Greater, x, y) == EvalExpr2(Less, y, x) && EvalExpr2(AtLeast, x, y) == EvalExpr2(AtMost, y, x)
    ensures EvalExpr2(AtMost, x, y) == EvalExpr1(Not, EvalExpr2(Greater, x, y).value)
  {
  }

  lemma EqualLaws(x: Word, y: Word)
    ensures EvalExpr2(Equal, x, y) == EvalExpr2(And, EvalExpr2(AtMost, x, y).value, EvalExpr2(AtLeast, x, y).value)
    ensures EvalExpr2(NotEqual, x, y) == EvalExpr1(Not, EvalExpr2(Equal, x, y).value)
  {
  }

  /** The logical operators ask which operands are zero. */
  lemma LogicLaws(x: Word, y: Word)
    ensures EvalExpr2(And, x, y) == Some(if x == 0 || y == 0 then 0 else 1)
    ensures EvalExpr2(Or, x, y) == Some(if x == 0 && y == 0 then 0 else 1)
    ensures EvalExpr1(Not, x) == Some(if x == 0 then 1 else 0)
  {
  }

  /** The sign changes to what adds up to zero. */
  lemma SignLaws(x: Word)
    ensures EvalExpr1(Plus, x) == Some(x)
    ensures EvalExpr1(Minus, x).Some? && EvalExpr2(Add, x, EvalExpr1(Minus, x).value) == Some(0)
  {
    WrapIs(0 - x);
    WrapIs(x + Wrap(0 - x));
  }

  /** The complement changes every bit. */
  lemma FlipLaw(x: Word, k: nat)
    requires k < 32
    ensures EvalExpr1(Flip, x).Some? && BitOf(EvalExpr1(Flip, x).value, k) == !BitOf(x, k)
  {
    var n := WordSize();
    FlipBits(x, n, 0x1_0000_0000, k);
  }

  lemma {:induction false} FlipBits(x: nat, n: nat, m: nat, k: nat)
    requires k < n && m == Pow2(n) && x < m
    ensures Words.FromNat(m - 1 - x, n)[k] == !Words.FromNat(x, n)[k]
  {
    var z := m - 1 - x;
    Words.FromNatSnoc(x, n - 1);
    Words.FromNatSnoc(z, n - 1);
    assert z / 2 == Pow2(n - 1) - 1 - x / 2;
    if k < n - 1 {
      FlipBits(x / 2, n - 1, Pow2(n - 1), k);
    }
  }

  /** Shifts, which only the meaning knows: the bits move, and those that leave the word are lost. */
  lemma ShiftMeans(x: Word, y: Word)
    requires y < 32
    ensures
      var (l, r) := (Meaning2(Shl, x, y), Meaning2(Shr, x, y));
      && l.Some? && Words.FromNat(l.value, 32) == Words.Shl(Words.FromNat(x, 32), y)
      && r.Some? && Words.FromNat(r.value, 32) == Words.Shr(Words.FromNat(x, 32), y)
  {
    var n := WordSize();
    ShiftsIn(x, y, n, 0x1_0000_0000);
  }

  /** Shifts of a whole word or more have no meaning. */
  lemma ShiftMeansNothing(x: Word, y: Word)
    requires y >= 32
    ensures Meaning2(Shl, x, y).None? && Meaning2(Shr, x, y).None?
  {
  }

  lemma ShiftsIn(x: nat, y: nat, n: nat, m: nat)
    requires y <= n && m == Pow2(n) && x < m
    ensures Words.FromNat((x * Pow2(y)) % m, n) == Words.Shl(Words.FromNat(x, n), y)
    ensures Words.FromNat((x / Pow2(y)) % m, n) == Words.Shr(Words.FromNat(x, n), y)
  {
    Words.FromNatRemainder(x * Pow2(y), n);
    Words.FromNatRemainder(x / Pow2(y), n);
    LeftBits(x, y, n);
    RightBits(x, y, n);
    Words.ShrIsDiv(x, y);
  }

  lemma {:induction false} LeftBits(x: nat, y: nat, n: nat)
    requires y <= n
    ensures Words.FromNat(x * Pow2(y), n) == Words.Shl(Words.FromNat(x, n), y)
    decreases y
  {
    if y > 0 {
      LeftBits(x, y - 1, n - 1);
      LeftStep(x, x * Pow2(y - 1), y, n);
      Words.Doubled(x, Pow2(y - 1));
    } else {
      assert x * Pow2(y) == x;
    }
  }

  lemma LeftStep(x: nat, z: nat, y: nat, n: nat)
    requires 0 < y <= n && Words.FromNat(z, n - 1) == Words.Shl(Words.FromNat(x, n - 1), y - 1)
    ensures Words.FromNat(2 * z, n) == Words.Shl(Words.FromNat(x, n), y)
  {
    Words.FromNatSnoc(2 * z, n - 1);
    Words.FromNatSplits(x, 1, n - 1);
    MoveLeft(Words.FromNat(x, n - 1), Words.FromNat(x, n), y);
  }

  lemma MoveLeft(a: Words.Word, b: Words.Word, y: nat)
    requires y > 0 && |b| == |a| + 1 && b[1..] == a
    ensures Words.Shl(b, y) == Words.Shl(a, y - 1) + [false]
  {
    assert forall k :: 0 <= k < |a| ==> b[1..][k] == b[k + 1];
  }

  lemma RightBits(x: nat, y: nat, n: nat)
    requires y <= n && x < Pow2(n)
    ensures Words.FromNat(Words.ShrNat(x, y), n) == Words.Shr(Words.FromNat(x, n), y)
  {
    RightHigh(x, y, n);
    Words.FromNatSplits(x, n - y, y);
    MoveRight(Words.FromNat(Words.ShrNat(x, y), n - y), Words.FromNat(x, y));
  }

  lemma RightHigh(x: nat, y: nat, n: nat)
    requires y <= n && x < Pow2(n)
    ensures
      var z := Words.ShrNat(x, y);
      Words.FromNat(z, n) == Words.Zeros(y) + Words.FromNat(z, n - y)
  {
    Words.FromNatSplits(Words.ShrNat(x, y), y, n - y);
    Words.ShrNatAdds(x, y, n - y);
    Words.ShrIsZero(x, n);
    Words.FromNatZero(y);
  }

  lemma MoveRight(a: Words.Word, b: Words.Word)
    ensures Words.Shr(a + b, |b|) == Words.Zeros(|b|) + a
  {
  }

  function ReduceUnary(op: UnaryOp, a: Expr): Expr {
    var v := if a.Num? then EvalExpr1(op, a.value) else None;
    if v.Some? then Num(v.value) else Unary(op, a)
  }

  function ReduceInfix(l: Expr, op: BinaryOp, r: Expr): Expr {
    var v := if l.Num? && r.Num? then EvalExpr2(op, l.value, r.value) else None;
    if v.Some? then Num(v.value) else Infix(l, op, r)
  }

  /** What folding comes to where it divides by no zero: parentheses go, names are looked up, operators applied to leaves. */
  function Reduce(e: Expr, env: Env): Expr
    requires Scoped(env)
    decreases Level(e, env), e
  {
    match e
    case Num(_) => e
    case Var(x) => if Find(env, x) < |env| then Reduce(env[Find(env, x)].expr, env) else e
    case Paren(a) => Reduce(a, env)
    case Unary(op, a) => ReduceUnary(op, Reduce(a, env))
    case Infix(l, op, r) => ReduceInfix(Reduce(l, env), op, Reduce(r, env))
  }

  /** Evaluating only as far as needed agrees with evaluating both sides. */
  lemma ShortIsMeaning(op: BinaryOp, x: Word, y: Word)
    ensures EvalInfix(op, Some(x), Some(y)) == Meaning2(op, x, y)
  {
  }

  lemma ReduceNums(x: Word, op: BinaryOp, y: Word, env: Env)
    requires Scoped(env)
    ensures Eval(ReduceInfix(Num(x), op, Num(y)), env) == EvalInfix(op, Some(x), Some(y))
  {
    ShortIsMeaning(op, x, y);
    ChosenKeeps(EvalExpr2(op, x, y), EvalInfix(op, Some(x), Some(y)), Infix(Num(x), op, Num(y)), env);
  }

  lemma ChosenKeeps(v: Option<Word>, m: Option<Word>, e: Expr, env: Env)
    requires Scoped(env) && Eval(e, env) == m && (v.Some? ==> v == m)
    ensures Eval(if v.Some? then Num(v.value) else e, env) == m
  {
  }

  lemma ReduceRest(l: Expr, op: BinaryOp, r: Expr)
    requires !(l.Num? && r.Num?)
    ensures ReduceInfix(l, op, r) == Infix(l, op, r)
  {
  }

  lemma EvalOfInfix(l: Expr, op: BinaryOp, r: Expr, env: Env, x: Option<Word>, y: Option<Word>)
    requires Scoped(env) && x == Eval(l, env) && y == Eval(r, env)
    ensures Eval(Infix(l, op, r), env) == EvalInfix(op, x, y)
  {
  }

  lemma ReduceInfixKeeps(l: Expr, op: BinaryOp, r: Expr, env: Env, x: Option<Word>, y: Option<Word>)
    requires Scoped(env) && x == Eval(l, env) && y == Eval(r, env)
    ensures Eval(ReduceInfix(l, op, r), env) == EvalInfix(op, x, y)
  {
    if l.Num? && r.Num? {
      ReduceNums(l.value, op, r.value, env);
    } else {
      ReduceRest(l, op, r);
      EvalOfInfix(l, op, r, env, x, y);
    }
  }

  lemma {:induction false} ReduceKeepsMeaning(e: Expr, env: Env)
    requires Scoped(env)
    ensures Eval(Reduce(e, env), env) == Eval(e, env)
    decreases Level(e, env), e
  {
    match e
    case Num(_) =>
    case Var(x) =>
      if Find(env, x) < |env| { ReduceKeepsMeaning(env[Find(env, x)].expr, env); }
    case Paren(a) => ReduceKeepsMeaning(a, env);
    case Unary(op, a) => ReduceKeepsMeaning(a, env);
    case Infix(l, op, r) =>
      ReduceKeepsMeaning(l, env);
      ReduceKeepsMeaning(r, env);
      ReduceInfixKeeps(Reduce(l, env), op, Reduce(r, env), env, Eval(l, env), Eval(r, env));
  }

  /** Built from constants and bound names with the operators the folder knows, never dividing by zero. */
  ghost predicate Foldable(e: Expr, env: Env)
    requires Scoped(env)
    decreases Level(e, env), e
  {
    match e
    case Num(_) => true
    case Var(x) => Find(env, x) < |env| && Foldable(env[Find(env, x)].expr, env)
    case Paren(a) => Foldable(a, env)
    case Unary(op, a) => Known1(op) && Foldable(a, env)
    case Infix(l, op, r) =>
      Known2(op) && Foldable(l, env) && Foldable(r, env) && (op == Div || op == Mod ==> Eval(r, env) != Some(0))
  }

  lemma KnownDefined(op: BinaryOp, x: Word, y: Word)
    ensures EvalExpr2(op, x, y).Some? <==> Known2(op) && (op == Div || op == Mod ==> y != 0)
  {
  }

  lemma {:induction false} ReduceLeafIff(e: Expr, env: Env)
    requires Scoped(env)
    ensures Reduce(e, env).Num? <==> Foldable(e, env)
    ensures Foldable(e, env) ==> Eval(e, env) == Some(Reduce(e, env).value)
    decreases Level(e, env), e
  {
    ReduceKeepsMeaning(e, env);
    match e
    case Num(_) =>
    case Var(x) =>
      if Find(env, x) < |env| { ReduceLeafIff(env[Find(env, x)].expr, env); }
    case Paren(a) => ReduceLeafIff(a, env);
    case Unary(op, a) =>
      ReduceLeafIff(a, env);
    case Infix(l, op, r) =>
      ReduceLeafIff(l, env);
      ReduceLeafIff(r, env);
      if Foldable(l, env) && Foldable(r, env) { KnownDefined(op, Reduce(l, env).value, Reduce(r, env).value); }
  }

  /** The folder itself: both sides of an operator are folded first, and a division of two leaves is carried out. */
  function Fold(e: Expr, env: Env): Result<Expr>
    requires Scoped(env)
    decreases Level(e, env), e
  {
    match e
    case Num(_) => Ok(e)
    case Var(x) => if Find(env, x) < |env| then Fold(env[Find(env, x)].expr, env) else Ok(e)
    case Paren(a) => Fold(a, env)
    case Unary(op, a) =>
      var v := Fold(a, env);
      if v.Error? then Error else Ok(ReduceUnary(op, v.value))
    case Infix(l, op, r) =>
      var (x, y) := (Fold(l, env), Fold(r, env));
      if x.Error? || y.Error? || ZeroDivision(x.value, op, y.value) then Error else Ok(ReduceInfix(x.value, op, y.value))
  }

  /** evalExpr divides without looking at the divisor. */
  predicate ZeroDivision(l: Expr, op: BinaryOp, r: Expr) { (op == Div || op == Mod) && l.Num? && r == Num(0) }

  /** Somewhere, through operators and bound names, two constants are divided and the right one is zero. */
  ghost predicate DividesByZero(e: Expr, env: Env)
    requires Scoped(env)
    decreases Level(e, env), e
  {
    match e
    case Num(_) => false
    case Var(x) => Find(env, x) < |env| && DividesByZero(env[Find(env, x)].expr, env)
    case Paren(a) => DividesByZero(a, env)
    case Unary(_, a) => DividesByZero(a, env)
    case Infix(l, op, r) =>
      || DividesByZero(l, env) || DividesByZero(r, env)
      || ((op == Div || op == Mod) && Foldable(l, env) && Foldable(r, env) && Eval(r, env) == Some(0))
  }

  /** The folder divides by zero exactly there, and else comes to the reduced expression. */
  lemma {:induction false} FoldOutcome(e: Expr, env: Env)
    requires Scoped(env)
    ensures Fold(e, env) == if DividesByZero(e, env) then Error else Ok(Reduce(e, env))
    decreases Level(e, env), e
  {
    match e
    case Num(_) =>
    case Var(x) =>
      if Find(env, x) < |env| { FoldOutcome(env[Find(env, x)].expr, env); }
    case Paren(a) => FoldOutcome(a, env);
    case Unary(op, a) => FoldOutcome(a, env);
    case Infix(l, op, r) =>
      FoldOutcome(l, env);
      FoldOutcome(r, env);
      ReduceLeafIff(l, env);
      ReduceLeafIff(r, env);
  }

  /** Folding divides by zero exactly on such expressions; on all others it preserves the value. */
  lemma FoldKeepsMeaning(e: Expr, env: Env)
    requires Scoped(env)
    ensures Fold(e, env).Error? <==> DividesByZero(e, env)
    ensures Fold(e, env).Ok? ==> Eval(Fold(e, env).value, env) == Eval(e, env)
  {
    FoldOutcome(e, env);
    ReduceKeepsMeaning(e, env);
  }

  lemma {:induction false} FoldableDivides(e: Expr, env: Env)
    requires Scoped(env) && Foldable(e, env)
    ensures !DividesByZero(e, env)
    decreases Level(e, env), e
  {
    match e
    case Num(_) =>
    case Var(x) => FoldableDivides(env[Find(env, x)].expr, env);
    case Paren(a) => FoldableDivides(a, env);
    case Unary(op, a) => FoldableDivides(a, env);
    case Infix(l, op, r) =>
      FoldableDivides(l, env);
      FoldableDivides(r, env);
  }

  /** The folder reaches a leaf exactly on the foldable expressions, and the leaf is the value. */
  lemma FoldLeafIff(e: Expr, env: Env)
    requires Scoped(env)
    ensures Fold(e, env).Ok? && Fold(e, env).value.Num? <==> Foldable(e, env)
    ensures Foldable(e, env) ==> Eval(e, env) == Some(Fold(e, env).value.value)
  {
    FoldOutcome(e, env);
    ReduceLeafIff(e, env);
    if Foldable(e, env) { FoldableDivides(e, env); }
  }

  /** A conjunction with a value, whose right side is divided out before the left side is looked at. */
  lemma DividesAnyway()
    ensures
      var e := Infix(Num(0), And, Infix(Num(1), Div, Num(0)));
      Eval(e, []) == Some(0) && Fold(e, []).Error?
  {
    var d := Infix(Num(1), Div, Num(0));
    assert Fold(d, []).Error?;
    assert Eval(Num(0), []) == Some(0);
  }

  /** A shift has a value but is not folded. */
  lemma ShiftStays(x: Word, y: Word, env: Env)
    requires Scoped(env) && y < 32
    ensures
      var e := Infix(Num(x), Shl, Num(y));
      Eval(e, env) == Some(Wrap(x * Pow2(y))) && Fold(e, env) == Ok(e)
  {
  }

  // ----- enumerator lists: AdlWalker::TranslateEnumSpec -----

  datatype Enumerator = Enumerator(name: string, value: Option<Expr>)

  function Plus1(v: Option<Word>): Option<Word> { if v.None? then None else Some(Wrap(v.value + 1)) }

  /** The enumerator rule: an explicit value, else zero for the first and one more than the previous one. */
  ghost function RuleValue(values: seq<Enumerator>, i: nat, env: Env): Option<Word>
    requires i < |values| && Scoped(env)
  {
    if values[i].value.Some? then Eval(values[i].value.value, env)
    else if i == 0 then Some(0)
    else
      Plus1(RuleValue(values, i - 1, env))
  }

  /** A counter incremented `n` times from zero, wrapping around. */
  function Count(n: nat): Word { if n == 0 then 0 else Wrap(Count(n - 1) + 1) }

  /** How many enumerators back the latest explicit value is, up to enumerator `i`; past the start if there is none. */
  function Since(values: seq<Enumerator>, i: nat): (d: nat)
    requires i < |values|
    ensures d <= i + 1
    ensures d <= i ==> values[i - d].value.Some?
  {
    if values[i].value.Some? then 0 else if i == 0 then 1 else 1 + Since(values, i - 1)
  }

  /** The expression bound to enumerator `i`. */
  function BoundExpr(values: seq<Enumerator>, i: nat): Expr
    requires i < |values|
  {
    var d := Since(values, i);
    if d == 0 then values[i].value.value
    else if d <= i then Infix(values[i - d].value.value, Add, Num(Count(d)))
    else Num(Count(i))
  }

  function Bindings(values: seq<Enumerator>, n: nat): (b: Env)
    requires n <= |values|
    ensures |b| == n
  {
    if n == 0 then [] else Bindings(values, n - 1) + [Binding(values[n - 1].name, BoundExpr(values, n - 1))]
  }

  lemma {:induction false} BindingAt(values: seq<Enumerator>, n: nat, i: nat)
    requires i < n <= |values|
    ensures Bindings(values, n)[i] == Binding(values[i].name, BoundExpr(values, i))
  {
    if i < n - 1 { BindingAt(values, n - 1, i); }
  }

  /** What the loop remembers after `i` enumerators. */
  ghost predicate Remembers(values: seq<Enumerator>, i: nat, last: Option<Expr>, count: Word)
    requires i <= |values|
  {
    if i == 0 then last == None && count == 0
    else
      var d := Since(values, i - 1);
      if d < i then last == values[i - 1 - d].value && count == Count(d + 1)
      else last == None && count == Count(i)
  }

  lemma RemembersImplicit(values: seq<Enumerator>, i: nat, last: Option<Expr>, count: Word)
    requires i < |values| && values[i].value.None? && Remembers(values, i, last, count)
    ensures BoundExpr(values, i) == if last.Some? then Infix(last.value, Add, Num(count)) else Num(count)
    ensures Remembers(values, i + 1, last, Wrap(count + 1))
  {
    if i > 0 {
      assert Since(values, i) == 1 + Since(values, i - 1);
    }
  }

  lemma RemembersExplicit(values: seq<Enumerator>, i: nat)
    requires i < |values| && values[i].value.Some?
    ensures BoundExpr(values, i) == values[i].value.value
    ensures Remembers(values, i + 1, values[i].value, 1)
  {
    assert Count(1) == Wrap(Count(0) + 1);
  }

  class AdlWalker {
    var env: Env

    constructor (env: Env)
      ensures this.env == env
    {
      this.env := env;
    }

    method TranslateEnumSpec(values: seq<Enumerator>)
      modifies this
      ensures env == old(env) + Bindings(values, |values|)
    {
      var count: Word, last: Option<Expr> := 0, None;
      for i := 0 to |values|
        invariant env == old(env) + Bindings(values, i)
        invariant Remembers(values, i, last, count)
      {
        var opt: Expr;
        if values[i].value.None? {
          RemembersImplicit(values, i, last, count);
          opt := if last.Some? then Infix(last.value, Add, Num(count)) else Num(count);
          count := Wrap(count + 1);
        } else {
          RemembersExplicit(values, i);
          opt := values[i].value.value;
          last, count := values[i].value, 1;
        }
        Associate(old(env), Bindings(values, i), [Binding(values[i].name, opt)]);
        env := env + [Binding(values[i].name, opt)];
      }
    }
  }

  lemma Associate(a: Env, b: Env, c: Env)
    ensures (a + b) + c == a + (b + c)
  {
  }

  lemma AddOne(x: Word, y: Word)
    ensures Wrap(Wrap(x + y) + 1) == Wrap(x + Wrap(y + 1))
  {
    WrapIs(x + y);
    WrapIs(Wrap(x + y) + 1);
    WrapIs(y + 1);
    WrapIs(x + Wrap(y + 1));
  }

  /** Without an explicit value so far the rule counts from zero. */
  lemma {:induction false} RuleCounts(values: seq<Enumerator>, i: nat, env: Env)
    requires i < |values| && Scoped(env) && Since(values, i) == i + 1
    ensures RuleValue(values, i, env) == Some(Count(i))
  {
    if i > 0 { RuleCounts(values, i - 1, env); }
  }

  function PlusCount(v: Option<Word>, n: Word): Option<Word> { if v.None? then None else Some(Wrap(v.value + n)) }

  lemma PlusCountStep(v: Option<Word>, n: Word)
    ensures Plus1(PlusCount(v, n)) == PlusCount(v, Wrap(n + 1))
  {
    if v.Some? { AddOne(v.value, n); }
  }

  lemma PlusZero(v: Option<Word>)
    ensures PlusCount(v, 0) == v
  {
    if v.Some? { WrapIs(v.value); }
  }

  lemma {:induction false} RuleSince(values: seq<Enumerator>, i: nat, d: nat, v: Option<Word>, env: Env)
    requires i < |values| && Scoped(env) && d <= i && Since(values, i) == d
    requires Eval(values[i - d].value.value, env) == v
    ensures RuleValue(values, i, env) == PlusCount(v, Count(d))
  {
    if d > 0 {
      RuleSince(values, i - 1, d - 1, v, env);
      PlusCountStep(v, Count(d - 1));
    } else {
      PlusZero(v);
    }
  }

  lemma EvalSum(e: Expr, n: Word, env: Env)
    requires Scoped(env)
    ensures Eval(Infix(e, Add, Num(n)), env) == PlusCount(Eval(e, env), n)
  {
  }

  /** Every bound expression has the value of the enumerator rule. */
  lemma BoundHasRuleValue(values: seq<Enumerator>, i: nat, env: Env)
    requires i < |values| && Scoped(env)
    ensures Eval(BoundExpr(values, i), env) == RuleValue(values, i, env)
  {
    var d := Since(values, i);
    if d == i + 1 {
      RuleCounts(values, i, env);
    } else if d > 0 {
      var e := values[i - d].value.value;
      RuleSince(values, i, d, Eval(e, env), env);
      EvalSum(e, Count(d), env);
    }
  }

  // ----- scope -----

  function Names(e: Expr): set<string> {
    match e
    case Num(_) => {}
    case Var(x) => {x}
    case Paren(a) => Names(a)
    case Unary(_, a) => Names(a)
    case Infix(l, _, r) => Names(l) + Names(r)
  }

  ghost predicate RefersBelow(e: Expr, env: Env, m: nat) {
    forall x :: x in Names(e) ==> Find(env, x) < m || Find(env, x) == |env|
  }

  lemma {:induction false} LevelBelow(e: Expr, env: Env, m: nat)
    ensures Level(e, env) <= m <==> RefersBelow(e, env, m)
  {
    match e
    case Num(_) =>
    case Var(x) => assert x in Names(e);
    case Paren(a) => LevelBelow(a, env, m);
    case Unary(_, a) => LevelBelow(a, env, m);
    case Infix(l, _, r) =>
      LevelBelow(l, env, m);
      LevelBelow(r, env, m);
  }

  ghost predicate DistinctNames(env: Env) { forall i, j :: 0 <= i < j < |env| ==> env[i].name != env[j].name }

  lemma FindIs(env: Env, x: string, j: nat)
    requires DistinctNames(env) && j < |env| && env[j].name == x
    ensures Find(env, x) == j
  {
  }

  lemma {:induction false} FindConcat(env: Env, more: Env, x: string)
    ensures Find(more, x) < |more| ==> Find(env + more, x) == |env| + Find(more, x)
    ensures Find(more, x) == |more| && Find(env, x) < |env| ==> Find(env + more, x) == Find(env, x)
    ensures Find(more, x) == |more| && Find(env, x) == |env| ==> Find(env + more, x) == |env + more|
  {
    if more == [] {
      assert env + more == env;
    } else {
      assert Front(env + more) == env + Front(more) && Last(env + more) == Last(more);
      FindConcat(env, Front(more), x);
    }
  }

  /** The declarations are in order: no name twice, and nothing mentions a name before it is declared. */
  ghost predicate InOrder(env: Env, values: seq<Enumerator>) {
    && DistinctNames(env + Bindings(values, |values|))
    && (forall j, k :: 0 <= j < |env| && 0 <= k < |values| ==> values[k].name !in Names(env[j].expr))
    && (forall i, k :: 0 <= i <= k < |values| && values[i].value.Some? ==>
          values[k].name !in Names(values[i].value.value))
  }

  /** No later enumerator than `i` has the name. */
  lemma FindBefore(values: seq<Enumerator>, i: nat, x: string)
    requires i <= |values| && forall k :: i <= k < |values| ==> values[k].name != x
    ensures var j := Find(Bindings(values, |values|), x); j < i || j == |values|
  {
    var b := Bindings(values, |values|);
    var j := Find(b, x);
    if j < |values| { BindingAt(values, |values|, j); }
  }

  lemma OldStaysBelow(env: Env, values: seq<Enumerator>, j: nat)
    requires Scoped(env) && InOrder(env, values) && j < |env|
    ensures RefersBelow(env[j].expr, env + Bindings(values, |values|), j)
  {
    LevelBelow(env[j].expr, env, j);
    forall x | x in Names(env[j].expr)
      ensures var all := env + Bindings(values, |values|); Find(all, x) < j || Find(all, x) == |all|
    {
      FindBefore(values, 0, x);
      FindConcat(env, Bindings(values, |values|), x);
    }
  }

  lemma ExplicitBelow(env: Env, values: seq<Enumerator>, i: nat)
    requires InOrder(env, values) && i < |values| && values[i].value.Some?
    ensures RefersBelow(values[i].value.value, env + Bindings(values, |values|), |env| + i)
  {
    forall x | x in Names(values[i].value.value)
      ensures var all := env + Bindings(values, |values|); Find(all, x) < |env| + i || Find(all, x) == |all|
    {
      FindBefore(values, i, x);
      FindConcat(env, Bindings(values, |values|), x);
    }
  }

  lemma SumBelow(e: Expr, n: Word, all: Env, m: nat, k: nat)
    requires RefersBelow(e, all, m) && m <= k
    ensures RefersBelow(e, all, k) && RefersBelow(Infix(e, Add, Num(n)), all, k)
  {
    assert Names(Infix(e, Add, Num(n))) == Names(e);
  }

  lemma BoundBelow(values: seq<Enumerator>, i: nat, all: Env, n: nat)
    requires i < |values|
    requires Since(values, i) <= i ==> RefersBelow(values[i - Since(values, i)].value.value, all, n + i - Since(values, i))
    ensures RefersBelow(BoundExpr(values, i), all, n + i)
  {
    var d := Since(values, i);
    if d <= i { SumBelow(values[i - d].value.value, Count(d), all, n + i - d, n + i); }
  }

  lemma NewStaysBelow(env: Env, values: seq<Enumerator>, i: nat)
    requires InOrder(env, values) && i < |values|
    ensures RefersBelow(BoundExpr(values, i), env + Bindings(values, |values|), |env| + i)
  {
    var d := Since(values, i);
    if d <= i { ExplicitBelow(env, values, i - d); }
    BoundBelow(values, i, env + Bindings(values, |values|), |env|);
  }

  lemma LevelAt(env: Env, values: seq<Enumerator>, all: Env, j: nat)
    requires Scoped(env) && InOrder(env, values) && all == env + Bindings(values, |values|) && j < |all|
    ensures Level(all[j].expr, all) <= j
  {
    if j < |env| {
      OldStaysBelow(env, values, j);
    } else {
      BindingAt(values, |values|, j - |env|);
      NewStaysBelow(env, values, j - |env|);
    }
    LevelBelow(all[j].expr, all, j);
  }

  /** Declarations in order keep the environment scoped, so folding comes to an end. */
  lemma StaysScoped(env: Env, values: seq<Enumerator>)
    requires Scoped(env) && InOrder(env, values)
    ensures Scoped(env + Bindings(values, |values|))
  {
    var all := env + Bindings(values, |values|);
    forall j | 0 <= j < |all|
      ensures Level(all[j].expr, all) <= j
    {
      LevelAt(env, values, all, j);
    }
  }

  /** After the declaration every enumerator name means its rule value, and folds to it or divides by zero. */
  lemma EnumeratorFolds(env: Env, values: seq<Enumerator>, i: nat)
    requires Scoped(env) && InOrder(env, values) && i < |values|
    ensures Scoped(env + Bindings(values, |values|))
    ensures
      var all := env + Bindings(values, |values|);
      var name := Var(values[i].name);
      && Eval(name, all) == RuleValue(values, i, all)
      && (Fold(name, all).Error? <==> DividesByZero(name, all))
      && (Fold(name, all).Ok? ==> Eval(Fold(name, all).value, all) == RuleValue(values, i, all))
      && (Foldable(name, all) ==>
            RuleValue(values, i, all).Some? && Fold(name, all) == Ok(Num(RuleValue(values, i, all).value)))
  {
    StaysScoped(env, values);
    var all := env + Bindings(values, |values|);
    BindingAt(values, |values|, i);
    assert all[|env| + i].name == values[i].name;
    FindIs(all, values[i].name, |env| + i);
    BoundHasRuleValue(values, i, all);
    FoldKeepsMeaning(Var(values[i].name), all);
    FoldLeafIff(Var(values[i].name), all);
  }
}
