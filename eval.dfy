/** The evaluator of the salt core calculus: a store of locations and a tree-walking interpreter. */
module Eval {
  import opened Syntax

  /**
   * A storage location: a named variable, or the n-th box the evaluator allocated.
   * Keeping the two apart means a box can never be confused with a variable.
   */
  datatype Location = Var(name: Ident) | BoxLoc(n: nat)

  /** A runtime value; `owned` tells whether a reference owns what it points to. */
  datatype Value = Unit | Int(n: i32) | Ref(loc: Location, owned: bool)

  /** A stored value (None once it has been moved out) and the scope that owns it. */
  datatype Slot = Slot(value: Option<Value>, lifetime: Lifetime)

  type Slots = map<Location, Slot>

  /** Everything evaluation changes: the store and the number of boxes allocated so far. */
  datatype EvalState = EvalState(store: Slots, counter: nat)

  datatype Evaluated = Evaluated(value: Value, state: EvalState)

  // ---------------------------------------------------------------------------
  // Store operations as values
  // ---------------------------------------------------------------------------

  predicate IsRef(v: Option<Value>)
  {
    v.Some? && v.value.Ref?
  }

  /** The locations named by the references among `values`. */
  function RefTargets(values: seq<Option<Value>>): set<Location>
  {
    set i | 0 <= i < |values| && IsRef(values[i]) :: values[i].value.loc
  }

  /** The locations named by the references held in the slots at `keys`. */
  function HeldTargets(slots: Slots, keys: set<Location>): set<Location>
  {
    set k | k in keys && k in slots && IsRef(slots[k].value) :: slots[k].value.value.loc
  }

  /** `slots` with the value at `loc` replaced and its lifetime kept. */
  function Updated(slots: Slots, loc: Location, v: Option<Value>): (r: Slots)
    requires loc in slots
    ensures r.Keys == slots.Keys
    ensures r[loc] == Slot(v, slots[loc].lifetime)
    ensures forall k :: k in slots && k != loc ==> r[k] == slots[k]
  {
    slots[loc := Slot(v, slots[loc].lifetime)]
  }

  lemma RefTargetsSnoc(values: seq<Option<Value>>, v: Option<Value>)
    ensures RefTargets(values + [v]) == RefTargets(values) + (if IsRef(v) then {v.value.loc} else {})
  {
    var all := values + [v];
    forall loc | loc in RefTargets(all)
      ensures loc in RefTargets(values) + (if IsRef(v) then {v.value.loc} else {})
    {
      var i :| 0 <= i < |all| && IsRef(all[i]) && all[i].value.loc == loc;
      if i < |values| {
        assert all[i] == values[i];
      }
    }
    forall loc | loc in RefTargets(values)
      ensures loc in RefTargets(all)
    {
      var i :| 0 <= i < |values| && IsRef(values[i]) && values[i].value.loc == loc;
      assert all[i] == values[i];
    }
    if IsRef(v) {
      assert all[|values|] == v;
    }
  }

  lemma HeldTargetsAdd(slots: Slots, keys: set<Location>, k: Location)
    requires k in slots
    ensures HeldTargets(slots, keys + {k}) ==
              HeldTargets(slots, keys) + (if IsRef(slots[k].value) then {slots[k].value.value.loc} else {})
  {
  }

  // ---------------------------------------------------------------------------
  // The reference semantics
  //
  // Where the interpreter would panic (a dereferencing place, an unknown location,
  // a moved-out value) the result is None.
  // ---------------------------------------------------------------------------

  /** The result of evaluating `e` under the ambient lifetime `l`. */
  function Evaluate(st: EvalState, e: Expr, l: Lifetime): (r: Option<Evaluated>)
    ensures r.Some? ==> r.value.state.counter >= st.counter
    decreases ExprSize(e), 0
  {
    match e
    case Int(n) => Some(Evaluated(Value.Int(n), st))
    case Unit => Some(Evaluated(Value.Unit, st))
    case LvalExpr(lval, _) =>
      if lval.derefs != 0 || Var(lval.ident) !in st.store || st.store[Var(lval.ident)].value.None? then None
      else Some(Evaluated(st.store[Var(lval.ident)].value.value, st))
    case BoxExpr(inner) =>
      var r := Evaluate(st, inner, l);
      if r.None? then None
      else
        var loc := BoxLoc(r.value.state.counter);
        Some(Evaluated(Ref(loc, true),
                       EvalState(r.value.state.store[loc := Slot(Some(r.value.value), l)], r.value.state.counter + 1)))
    case Borrow(lval, _) =>
      if lval.derefs != 0 then None else Some(Evaluated(Ref(Var(lval.ident), false), st))
    case Block(stmts, tail, lifetime) =>
      var body := ExecuteAll(st, stmts, lifetime);
      if body.None? then None
      else
        var r := Evaluate(body.value, tail, lifetime);
        if r.None? then None
        else
          var after := r.value.state.store;
          var created := after.Keys - st.store.Keys;
          Some(Evaluated(r.value.value, EvalState(after - HeldTargets(after, created), r.value.state.counter)))
  }

  /** The state after executing `s` under the ambient lifetime `l`. */
  function Execute(st: EvalState, s: Stmt, l: Lifetime): (r: Option<EvalState>)
    ensures r.Some? ==> r.value.counter >= st.counter
    decreases StmtSize(s), 0
  {
    match s
    case LetMut(name, init) =>
      var v := Evaluate(st, init, l);
      if v.None? then None
      else Some(EvalState(v.value.state.store[Var(name) := Slot(Some(v.value.value), l)], v.value.state.counter))
    case Assign(place, rhs) =>
      var v := Evaluate(st, rhs, l);
      if v.None? || place.derefs != 0 || Var(place.ident) !in v.value.state.store then None
      else Some(EvalState(Updated(v.value.state.store, Var(place.ident), Some(v.value.value)), v.value.state.counter))
    case ExprStmt(e) =>
      var v := Evaluate(st, e, l);
      if v.None? then None else Some(v.value.state)
  }

  /** The state after executing `ss` in order. */
  function ExecuteAll(st: EvalState, ss: seq<Stmt>, l: Lifetime): (r: Option<EvalState>)
    ensures r.Some? ==> r.value.counter >= st.counter
    decreases StmtsSize(ss), 1
  {
    if ss == [] then Some(st)
    else
      var before := ExecuteAll(st, ss[..|ss| - 1], l);
      if before.None? then None else Execute(before.value, ss[|ss| - 1], l)
  }

  lemma {:induction false} ExecuteAllPrefix(st: EvalState, ss: seq<Stmt>, l: Lifetime, i: nat)
    requires i <= |ss| && ExecuteAll(st, ss, l).Some?
    ensures ExecuteAll(st, ss[..i], l).Some?
    decreases |ss|
  {
    if i < |ss| {
      assert ss[..|ss| - 1][..i] == ss[..i];
      ExecuteAllPrefix(st, ss[..|ss| - 1], l, i);
    } else {
      assert ss[..i] == ss;
    }
  }

  // ---------------------------------------------------------------------------
  // Properties of the semantics
  // ---------------------------------------------------------------------------

  /** The number of Box nodes in an expression, counting those in nested blocks. */
  function BoxCount(e: Expr): nat
    decreases ExprSize(e), 0
  {
    match e
    case BoxExpr(inner) => 1 + BoxCount(inner)
    case Block(stmts, tail, _) => StmtsBoxCount(stmts) + BoxCount(tail)
    case _ => 0
  }

  function StmtBoxCount(s: Stmt): nat
    decreases StmtSize(s), 0
  {
    match s
    case Assign(_, rhs) => BoxCount(rhs)
    case LetMut(_, init) => BoxCount(init)
    case ExprStmt(e) => BoxCount(e)
  }

  function StmtsBoxCount(ss: seq<Stmt>): nat
    decreases StmtsSize(ss), 1
  {
    if ss == [] then 0 else StmtsBoxCount(ss[..|ss| - 1]) + StmtBoxCount(ss[|ss| - 1])
  }

  /** Every box location in the store was numbered before `counter`. */
  ghost predicate BoxesBelow(st: EvalState)
  {
    forall k :: k in st.store && k.BoxLoc? ==> k.n < st.counter
  }

  /**
   * Evaluation allocates exactly one location per Box node it meets, and every
   * allocated number is fresh: the store never holds a box numbered at or above
   * the counter.
   */
  lemma {:induction false} EvaluateCounts(st: EvalState, e: Expr, l: Lifetime)
    requires Evaluate(st, e, l).Some?
    ensures Evaluate(st, e, l).value.state.counter == st.counter + BoxCount(e)
    ensures BoxesBelow(st) ==> BoxesBelow(Evaluate(st, e, l).value.state)
    decreases ExprSize(e), 0
  {
    match e
    case BoxExpr(inner) =>
      EvaluateCounts(st, inner, l);
    case Block(stmts, tail, lifetime) =>
      var body := ExecuteAll(st, stmts, lifetime).value;
      ExecuteAllCounts(st, stmts, lifetime);
      EvaluateCounts(body, tail, lifetime);
    case _ =>
  }

  lemma {:induction false} ExecuteCounts(st: EvalState, s: Stmt, l: Lifetime)
    requires Execute(st, s, l).Some?
    ensures Execute(st, s, l).value.counter == st.counter + StmtBoxCount(s)
    ensures BoxesBelow(st) ==> BoxesBelow(Execute(st, s, l).value)
    decreases StmtSize(s), 0
  {
    match s
    case LetMut(_, init) => EvaluateCounts(st, init, l);
    case Assign(_, rhs) => EvaluateCounts(st, rhs, l);
    case ExprStmt(e) => EvaluateCounts(st, e, l);
  }

  lemma {:induction false} ExecuteAllCounts(st: EvalState, ss: seq<Stmt>, l: Lifetime)
    requires ExecuteAll(st, ss, l).Some?
    ensures ExecuteAll(st, ss, l).value.counter == st.counter + StmtsBoxCount(ss)
    ensures BoxesBelow(st) ==> BoxesBelow(ExecuteAll(st, ss, l).value)
    decreases StmtsSize(ss), 1
  {
    if ss != [] {
      var prefix := ss[..|ss| - 1];
      ExecuteAllCounts(st, prefix, l);
      ExecuteCounts(ExecuteAll(st, prefix, l).value, ss[|ss| - 1], l);
    }
  }

  /** Literals, place reads and borrows change neither the store nor the counter. */
  lemma ReadsChangeNothing(st: EvalState, e: Expr, l: Lifetime)
    requires e.Int? || e.Unit? || e.LvalExpr? || e.Borrow?
    requires Evaluate(st, e, l).Some?
    ensures Evaluate(st, e, l).value.state == st
    ensures e.Int? ==> Evaluate(st, e, l).value.value == Value.Int(e.n)
    ensures e.Unit? ==> Evaluate(st, e, l).value.value == Value.Unit
    ensures e.LvalExpr? ==> Some(Evaluate(st, e, l).value.value) == st.store[Var(e.lval.ident)].value
    ensures e.Borrow? ==> Evaluate(st, e, l).value.value == Ref(Var(e.lval.ident), false)
  {
  }

  /**
   * Evaluating `Box(inner)` stores the inner value at a fresh box location tagged with
   * the ambient lifetime, numbered after every box the inner expression allocated,
   * and yields an owning reference to it.
   */
  lemma BoxAllocatesFresh(st: EvalState, inner: Expr, l: Lifetime)
    requires BoxesBelow(st)
    requires Evaluate(st, BoxExpr(inner), l).Some?
    ensures var r := Evaluate(st, BoxExpr(inner), l).value;
            var mid := Evaluate(st, inner, l).value;
            && r.value == Ref(BoxLoc(st.counter + BoxCount(inner)), true)
            && BoxLoc(st.counter + BoxCount(inner)) !in mid.state.store
            && r.state.store == mid.state.store[r.value.loc := Slot(Some(mid.value), l)]
            && r.state.counter == mid.state.counter + 1
  {
    EvaluateCounts(st, inner, l);
  }

  /** Two nested boxes: the inner one is numbered first and the outer one owns it. */
  lemma NestedBoxes(st: EvalState, n: i32, l: Lifetime)
    ensures Evaluate(st, BoxExpr(BoxExpr(Expr.Int(n))), l).Some?
    ensures var r := Evaluate(st, BoxExpr(BoxExpr(Expr.Int(n))), l).value;
            && BoxLoc(st.counter) in r.state.store
            && r.value == Ref(BoxLoc(st.counter + 1), true)
            && r.state.store[BoxLoc(st.counter + 1)] == Slot(Some(Ref(BoxLoc(st.counter), true)), l)
            && r.state.store[BoxLoc(st.counter)] == Slot(Some(Value.Int(n)), l)
            && r.state.counter == st.counter + 2
  {
    assert Evaluate(st, Expr.Int(n), l) == Some(Evaluated(Value.Int(n), st));
    var one := Evaluate(st, BoxExpr(Expr.Int(n)), l);
    assert one == Some(Evaluated(Ref(BoxLoc(st.counter), true),
                                 EvalState(st.store[BoxLoc(st.counter) := Slot(Some(Value.Int(n)), l)], st.counter + 1)));
  }

  /**
   * On leaving a block, exactly the locations that references held in the block's
   * new locations point to are removed. Locations that existed before are kept
   * unless such a reference points to them, and new locations nothing points to
   * survive the block.
   */
  lemma BlockExit(st: EvalState, stmts: seq<Stmt>, tail: Expr, bl: Lifetime, l: Lifetime)
    requires Evaluate(st, Block(stmts, tail, bl), l).Some?
    ensures var body := ExecuteAll(st, stmts, bl).value;
            var r := Evaluate(body, tail, bl).value;
            var after := Evaluate(st, Block(stmts, tail, bl), l).value;
            && after.value == r.value
            && after.state.counter == r.state.counter
            && forall loc :: loc in after.state.store <==>
                 && loc in r.state.store
                 && !(exists k :: k in r.state.store && k !in st.store && r.state.store[k].value == Some(Ref(loc, true)))
                 && !(exists k :: k in r.state.store && k !in st.store && r.state.store[k].value == Some(Ref(loc, false)))
  {
    var body := ExecuteAll(st, stmts, bl).value;
    var r := Evaluate(body, tail, bl).value;
    var post := r.state.store;
    var created := post.Keys - st.store.Keys;
    forall loc
      ensures loc in HeldTargets(post, created) <==>
                || (exists k :: k in post && k !in st.store && post[k].value == Some(Ref(loc, true)))
                || (exists k :: k in post && k !in st.store && post[k].value == Some(Ref(loc, false)))
    {
      if loc in HeldTargets(post, created) {
        var k :| k in created && k in post && IsRef(post[k].value) && post[k].value.value.loc == loc;
        assert post[k].value == Some(Ref(loc, post[k].value.value.owned));
      }
    }
  }

  /**
   * Block exit ignores the owned flag: in `{ let mut r = &x; }` the borrow held by the
   * block's own `r` releases the outer `x`, while `r` itself stays in the store.
   */
  lemma BorrowInBlockDropsOuter()
    ensures var st := EvalState(map[Var("x") := Slot(Some(Value.Int(1)), Lifetime(0))], 0);
            var block := Block([LetMut("r", Borrow(Lval("x", 0), false))], Expr.Unit, Lifetime(1));
            && Evaluate(st, block, Lifetime(0)).Some?
            && Var("x") !in Evaluate(st, block, Lifetime(0)).value.state.store
            && Var("r") in Evaluate(st, block, Lifetime(0)).value.state.store
  {
    var st := EvalState(map[Var("x") := Slot(Some(Value.Int(1)), Lifetime(0))], 0);
    var stmts := [LetMut("r", Borrow(Lval("x", 0), false))];
    var borrowed := Slot(Some(Ref(Var("x"), false)), Lifetime(1));
    var body := EvalState(st.store[Var("r") := borrowed], 0);
    assert stmts[..0] == [];
    assert ExecuteAll(st, stmts, Lifetime(1)) == Some(body);
    var post := body.store;
    assert post.Keys - st.store.Keys == {Var("r")};
    assert HeldTargets(post, {Var("r")}) == {Var("x")};
  }

  /** The values held at `keys`, in some order: the list a block hands to the store to drop. */
  method HeldValues(slots: Slots, keys: set<Location>) returns (values: seq<Option<Value>>)
    requires keys <= slots.Keys
    ensures |values| == |keys|
    ensures forall i :: 0 <= i < |values| ==> exists k :: k in keys && values[i] == slots[k].value
    ensures RefTargets(values) == HeldTargets(slots, keys)
  {
    values := [];
    var remaining := keys;
    while remaining != {}
      invariant remaining <= keys
      invariant |values| + |remaining| == |keys|
      invariant forall i :: 0 <= i < |values| ==> exists k :: k in keys && values[i] == slots[k].value
      invariant RefTargets(values) == HeldTargets(slots, keys - remaining)
      decreases |remaining|
    {
      var k :| k in remaining;
      RefTargetsSnoc(values, slots[k].value);
      HeldTargetsAdd(slots, keys - remaining, k);
      assert keys - (remaining - {k}) == (keys - remaining) + {k};
      values := values + [slots[k].value];
      remaining := remaining - {k};
    }
    assert keys - remaining == keys;
  }

  // ---------------------------------------------------------------------------
  // The runtime store
  // ---------------------------------------------------------------------------

  class Store {
    var slots: Slots

    constructor()
      ensures slots == map[]
    {
      slots := map[];
    }

    /** The location of a place; only places without dereferences are supported. */
    function Locate(w: Lval): (loc: Location)
      requires w.derefs == 0
      ensures loc.Var? && loc.name == w.ident
    {
      Var(w.ident)
    }

    function Read(x: Lval): (s: Slot)
      reads this
      requires x.derefs == 0 && Var(x.ident) in slots
      ensures Locate(x) in slots && s == slots[Locate(x)]
    {
      slots[Locate(x)]
    }

    /** Replaces the value stored at `x` and returns the one it held. */
    method Write(x: Lval, v: Option<Value>) returns (previous: Option<Value>)
      requires x.derefs == 0 && Var(x.ident) in slots
      modifies this
      ensures previous == old(slots)[Var(x.ident)].value
      ensures slots == Updated(old(slots), Var(x.ident), v)
    {
      previous := slots[Var(x.ident)].value;
      slots := Updated(slots, Var(x.ident), v);
    }

    /** Removes the location each reference in `values` points to. */
    method Drop(values: seq<Option<Value>>)
      modifies this
      ensures slots == old(slots) - RefTargets(values)
    {
      var i := 0;
      while i < |values|
        invariant i <= |values|
        invariant slots == old(slots) - RefTargets(values[..i])
      {
        RefTargetsSnoc(values[..i], values[i]);
        assert values[..i + 1] == values[..i] + [values[i]];
        if IsRef(values[i]) {
          slots := slots - {values[i].value.loc};
        }
        i := i + 1;
      }
      assert values[..i] == values;
    }
  }

  // ---------------------------------------------------------------------------
  // The interpreter
  // ---------------------------------------------------------------------------

  class Context {
    const store: Store
    var counter: nat

    function State(): EvalState
      reads this, store
    {
      EvalState(store.slots, counter)
    }

    constructor()
      ensures fresh(store) && store.slots == map[] && counter == 0
    {
      store := new Store();
      counter := 0;
    }

    /** Names the next box location and advances the counter. */
    method FreshLocation() returns (loc: Location)
      modifies this
      ensures loc == BoxLoc(old(counter)) && counter == old(counter) + 1
    {
      loc := BoxLoc(counter);
      counter := counter + 1;
    }

    method EvalExpr(e: Expr, l: Lifetime) returns (v: Value)
      requires Evaluate(State(), e, l).Some?
      modifies this, store
      ensures Evaluate(old(State()), e, l) == Some(Evaluated(v, State()))
      decreases ExprSize(e), 1
    {
      match e
      case Int(n) =>
        v := Value.Int(n);
      case Unit =>
        v := Value.Unit;
      case LvalExpr(lval, _) =>
        v := store.Read(lval).value.value;
      case BoxExpr(inner) =>
        var val := EvalExpr(inner, l);
        var loc := FreshLocation();
        store.slots := store.slots[loc := Slot(Some(val), l)];
        v := Ref(loc, true);
      case Borrow(lval, _) =>
        v := Ref(store.Locate(lval), false);
      case Block(stmts, tail, bl) =>
        v := EvalBlock(stmts, tail, bl, l);
    }

    /** Runs a block's statements and tail under its lifetime, then drops what its new locations own. */
    method EvalBlock(stmts: seq<Stmt>, tail: Expr, bl: Lifetime, l: Lifetime) returns (v: Value)
      requires Evaluate(State(), Block(stmts, tail, bl), l).Some?
      modifies this, store
      ensures Evaluate(old(State()), Block(stmts, tail, bl), l) == Some(Evaluated(v, State()))
      decreases ExprSize(Block(stmts, tail, bl)), 0
    {
      var preKeys := store.slots.Keys;
      RunStmts(stmts, bl);
      ghost var body := State();
      v := EvalExpr(tail, bl);
      ghost var last := State();
      assert Evaluate(body, tail, bl) == Some(Evaluated(v, last));
      var post := store.slots;
      var created := post.Keys - preKeys;
      var toDrop := HeldValues(post, created);
      store.Drop(toDrop);
      assert State() == EvalState(post - HeldTargets(post, created), last.counter);
    }

    /** Runs a statement list in order under lifetime `l`. */
    method RunStmts(stmts: seq<Stmt>, l: Lifetime)
      requires ExecuteAll(State(), stmts, l).Some?
      modifies this, store
      ensures ExecuteAll(old(State()), stmts, l) == Some(State())
      decreases StmtsSize(stmts), 2
    {
      ghost var start := State();
      var i := 0;
      while i < |stmts|
        invariant i <= |stmts|
        invariant ExecuteAll(start, stmts[..i], l) == Some(State())
      {
        ExecuteAllPrefix(start, stmts, l, i + 1);
        assert stmts[..i + 1][..i] == stmts[..i];
        StmtsSizeBound(stmts, i);
        EvalStmt(stmts[i], l);
        i := i + 1;
      }
      assert stmts[..i] == stmts;
    }

    method EvalStmt(s: Stmt, l: Lifetime)
      requires Execute(State(), s, l).Some?
      modifies this, store
      ensures Execute(old(State()), s, l) == Some(State())
      decreases StmtSize(s), 1
    {
      match s
      case LetMut(name, init) =>
        var v := EvalExpr(init, l);
        store.slots := store.slots[Var(name) := Slot(Some(v), l)];
      case Assign(place, rhs) =>
        var v := EvalExpr(rhs, l);
        var _ := store.Write(place, Some(v));
      case ExprStmt(e) =>
        var _ := EvalExpr(e, l);
    }
  }
}
