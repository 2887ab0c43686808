/** Abstract syntax shared by the static checker and the evaluator of the salt core calculus. */
module Syntax {

  type Ident = string

  datatype Option<T> = None | Some(value: T)

  /** The 32-bit signed integer carried by integer literals. */
  newtype i32 = x: int | -0x8000_0000 <= x < 0x8000_0000

  /** A lexical scope, named by its nesting depth (0 is the outermost scope). */
  datatype Lifetime = Lifetime(ordinal: nat)

  function Global(): (l: Lifetime)
    ensures l.ordinal == 0
    ensures forall m: Lifetime :: m.ordinal == 0 ==> m == l
  {
    Lifetime(0)
  }

  /** Two lifetimes are the same scope exactly when their ordinals agree. */
  lemma LifetimeEquality(l: Lifetime, m: Lifetime)
    ensures l == m <==> l.ordinal == m.ordinal
  {
  }

  /** A place: start at variable `ident`, then dereference `derefs` times. */
  datatype Lval = Lval(ident: Ident, derefs: nat)

  function NewLval(ident: Ident, derefs: nat): (lv: Lval)
    ensures lv.ident == ident && lv.derefs == derefs
  {
    Lval(ident, derefs)
  }

  datatype Expr =
    | Unit
    | Int(n: i32)
    | LvalExpr(lval: Lval, copyable: bool)
    | BoxExpr(inner: Expr)
    | Borrow(lval: Lval, mutable: bool)
    | Block(stmts: seq<Stmt>, tail: Expr, lifetime: Lifetime)

  datatype Stmt =
    | Assign(place: Lval, rhs: Expr)
    | LetMut(name: Ident, init: Expr)
    | ExprStmt(expr: Expr)

  /** Sizes used as termination measures for walks over the syntax tree. */
  function ExprSize(e: Expr): (n: nat)
    ensures n >= 1
  {
    match e
    case Unit => 1
    case Int(_) => 1
    case LvalExpr(_, _) => 1
    case BoxExpr(inner) => 1 + ExprSize(inner)
    case Borrow(_, _) => 1
    case Block(stmts, tail, _) => 1 + StmtsSize(stmts) + ExprSize(tail)
  }

  function StmtSize(s: Stmt): (n: nat)
    ensures n >= 1
  {
    match s
    case Assign(_, rhs) => 1 + ExprSize(rhs)
    case LetMut(_, init) => 1 + ExprSize(init)
    case ExprStmt(e) => 1 + ExprSize(e)
  }

  function StmtsSize(ss: seq<Stmt>): nat
  {
    if ss == [] then 0 else StmtsSize(ss[..|ss| - 1]) + StmtSize(ss[|ss| - 1])
  }

  /** Every statement of a list is no larger than the whole list. */
  lemma {:induction false} StmtsSizeBound(ss: seq<Stmt>, i: nat)
    requires i < |ss|
    ensures StmtSize(ss[i]) <= StmtsSize(ss)
  {
    if i < |ss| - 1 {
      assert ss[..|ss| - 1][i] == ss[i];
      StmtsSizeBound(ss[..|ss| - 1], i);
    }
  }
}
