/** The static ownership and borrow checker: types, the typing environment and its operations. */
module Types {
  import opened Syntax

  datatype Type =
    | Unit
    | Int
    | Box(inner: Type)
    | Ref(target: Lval, mutable: bool)
    /** A layer whose value has been moved out; it keeps the shape of what was there. */
    | Undefined(inner: Type)

  datatype Slot = Slot(tipe: Type, lifetime: Lifetime)

  datatype Error =
    | UnknownVar(name: Ident)
    | CannotDeref(tipe: Type)
    | MovedOut(lval: Lval)
    | MoveBehindRef(lval: Lval)
    | UpdateBehindImmRef(lval: Lval)
    | CopyAfterMutBorrow(lval: Lval)
    | MoveAfterBorrow(lval: Lval)
    | MutBorrowBehindImmRef(lval: Lval)
    | MutBorrowAfterBorrow(lval: Lval)
    | BorrowAfterMutBorrow(lval: Lval)
    | Shadowing(name: Ident)
    | IncompatibleTypes(expected: Type, found: Type)
    | LifetimeTooShort(expr: Expr)
    | AssignAfterBorrow(lval: Lval)

  datatype Result<T> = Ok(value: T) | Err(error: Error)

  function Forget<T>(r: Result<T>): Result<()>
  {
    match r
    case Ok(_) => Ok(())
    case Err(e) => Err(e)
  }

  /** The contents of an environment: each variable's type and defining lifetime. */
  type Slots = map<Ident, Slot>

  // ---------------------------------------------------------------------------
  // Box layers
  // ---------------------------------------------------------------------------

  /** `t` under `k` Box layers. */
  function Boxes(k: nat, t: Type): Type
  {
    if k == 0 then t else Type.Box(Boxes(k - 1, t))
  }

  /** The layer reached by peeling `k` Box layers off `t`, if each of them is a Box. */
  function Unbox(t: Type, k: nat): (r: Option<Type>)
    ensures r.Some? ==> Boxes(k, r.value) == t
  {
    if k == 0 then Some(t)
    else if t.Box? then Unbox(t.inner, k - 1)
    else None
  }

  lemma {:induction false} UnboxStep(t: Type, k: nat, u: Type)
    requires Unbox(t, k) == Some(u)
    ensures u.Box? ==> Unbox(t, k + 1) == Some(u.inner)
    ensures !u.Box? ==> Unbox(t, k + 1) == None
  {
    if k > 0 {
      UnboxStep(t.inner, k - 1, u);
    }
  }

  lemma {:induction false} UnboxStuck(t: Type, k: nat, u: Type, n: nat)
    requires Unbox(t, k) == Some(u) && !u.Box? && k < n
    ensures Unbox(t, n) == None
  {
    if k == 0 {
      assert n > 0 && !t.Box?;
    } else {
      UnboxStuck(t.inner, k - 1, u, n - 1);
    }
  }

  lemma {:induction false} UnboxBoxes(k: nat, t: Type)
    ensures Unbox(Boxes(k, t), k) == Some(t)
  {
    if k > 0 {
      UnboxBoxes(k - 1, t);
    }
  }

  /** The number of Box layers on top of `t`. */
  function BoxDepth(t: Type): nat
  {
    if t.Box? then 1 + BoxDepth(t.inner) else 0
  }

  /** What lies under all the Box layers of `t`. */
  function Core(t: Type): (c: Type)
    ensures !c.Box?
    ensures Boxes(BoxDepth(t), c) == t
  {
    if t.Box? then Core(t.inner) else t
  }

  // ---------------------------------------------------------------------------
  // Acyclic environments
  //
  // Following a Ref in the source is not structural recursion: an environment
  // whose Refs lead back to where they started (`x: Ref(x.1)`) makes the
  // resolution loop forever. Every operation that chases Refs requires that
  // some ranking of the variables strictly decreases along each stored Ref.
  // ---------------------------------------------------------------------------

  /** One more than the largest rank among the bound referents of the Refs in `t`, or 0. */
  function RefBound(rank: map<Ident, nat>, slots: Slots, t: Type): nat
  {
    match t
    case Unit => 0
    case Int => 0
    case Box(inner) => RefBound(rank, slots, inner)
    case Undefined(inner) => RefBound(rank, slots, inner)
    case Ref(lv, _) => if lv.ident in slots && lv.ident in rank then rank[lv.ident] + 1 else 0
  }

  ghost predicate RankedBy(slots: Slots, rank: map<Ident, nat>)
  {
    && slots.Keys <= rank.Keys
    && forall x :: x in slots ==> RefBound(rank, slots, slots[x].tipe) <= rank[x]
  }

  ghost predicate Acyclic(slots: Slots)
  {
    exists rank :: RankedBy(slots, rank)
  }

  /**
   * `Acyclic` is stronger than termination needs: `x: Ref(x, 0)` is excluded although
   * resolving through it stops, since the target place is `x` itself with no dereference.
   */
  lemma SelfReferenceIsCyclic()
    ensures !Acyclic(map["x" := Slot(Ref(Lval("x", 0), false), Lifetime(0))])
  {
    var slots := map["x" := Slot(Ref(Lval("x", 0), false), Lifetime(0))];
    forall rank: map<Ident, nat> | "x" in rank
      ensures RefBound(rank, slots, slots["x"].tipe) > rank["x"]
    {
    }
  }

  ghost function Rank(slots: Slots): (rank: map<Ident, nat>)
    requires Acyclic(slots)
    ensures RankedBy(slots, rank)
  {
    var rank :| RankedBy(slots, rank); rank
  }

  /** The measure of a type: how far down the ranking its Refs may still lead. */
  ghost function Height(slots: Slots, t: Type): nat
    requires Acyclic(slots)
  {
    RefBound(Rank(slots), slots, t)
  }

  /** The measure of resolving a place based at `x`. */
  ghost function KeyRank(slots: Slots, x: Ident): nat
    requires Acyclic(slots)
  {
    if x in slots then Rank(slots)[x] + 1 else 0
  }

  lemma {:induction false} HeightBoxes(slots: Slots, k: nat, t: Type)
    requires Acyclic(slots)
    ensures Height(slots, Boxes(k, t)) == Height(slots, t)
  {
    if k > 0 {
      HeightBoxes(slots, k - 1, t);
    }
  }

  lemma HeightBelowKey(slots: Slots, x: Ident)
    requires Acyclic(slots) && x in slots
    ensures Height(slots, slots[x].tipe) < KeyRank(slots, x)
  {
  }

  // ---------------------------------------------------------------------------
  // Resolving a place
  // ---------------------------------------------------------------------------

  /** The errors resolution can report: an unbound variable, or a dereference of a non-pointer. */
  predicate ResolutionError(e: Error)
  {
    || e.UnknownVar?
    || (e.CannotDeref? && (e.tipe.Int? || e.tipe.Unit? || e.tipe.Undefined?))
  }

  /**
   * The slot a place denotes. A Box step keeps the current lifetime; a Ref step
   * fully resolves the referent and continues from the slot it yields.
   */
  function TypeLval(slots: Slots, lval: Lval): (r: Result<Slot>)
    requires Acyclic(slots)
    ensures lval.ident !in slots ==> r == Err(UnknownVar(lval.ident))
    ensures lval.ident in slots && lval.derefs == 0 ==> r == Ok(slots[lval.ident])
    ensures r.Err? ==> ResolutionError(r.error)
    ensures r.Ok? ==> Height(slots, r.value.tipe) < KeyRank(slots, lval.ident)
    decreases KeyRank(slots, lval.ident), 0, 0
  {
    if lval.ident !in slots then Err(UnknownVar(lval.ident))
    else Deref(slots, slots[lval.ident], lval.derefs)
  }

  /** Applies `n` dereference steps to the slot `s`. */
  function Deref(slots: Slots, s: Slot, n: nat): (r: Result<Slot>)
    requires Acyclic(slots)
    ensures r.Err? ==> ResolutionError(r.error)
    ensures r.Ok? ==> Height(slots, r.value.tipe) <= Height(slots, s.tipe)
    decreases Height(slots, s.tipe), 2, n
  {
    if n == 0 then Ok(s)
    else
      match Step(slots, s)
      case Err(e) => Err(e)
      case Ok(next) => Deref(slots, next, n - 1)
  }

  /** One dereference step. */
  function Step(slots: Slots, s: Slot): (r: Result<Slot>)
    requires Acyclic(slots)
    ensures r.Err? ==> ResolutionError(r.error)
    ensures r.Ok? ==> Height(slots, r.value.tipe) <= Height(slots, s.tipe)
    decreases Height(slots, s.tipe), 1, 0
  {
    match s.tipe
    case Box(inner) => Ok(Slot(inner, s.lifetime))
    case Ref(target, _) => TypeLval(slots, target)
    case _ => Err(CannotDeref(s.tipe))
  }

  /** Resolving one more dereference continues from where the shorter place stopped. */
  lemma {:induction false} DerefSplit(slots: Slots, s: Slot, n: nat)
    requires Acyclic(slots)
    ensures Deref(slots, s, n).Err? ==> Deref(slots, s, n + 1) == Deref(slots, s, n)
    ensures Deref(slots, s, n).Ok? ==> Deref(slots, s, n + 1) == Step(slots, Deref(slots, s, n).value)
    decreases n
  {
    if n > 0 {
      match Step(slots, s)
      case Err(_) =>
      case Ok(next) => DerefSplit(slots, next, n - 1);
    }
  }

  lemma TypeLvalOneMore(slots: Slots, x: Ident, d: nat)
    requires Acyclic(slots)
    ensures TypeLval(slots, Lval(x, d)).Err? ==> TypeLval(slots, Lval(x, d + 1)) == TypeLval(slots, Lval(x, d))
    ensures TypeLval(slots, Lval(x, d)).Ok? ==>
              TypeLval(slots, Lval(x, d + 1)) == Step(slots, TypeLval(slots, Lval(x, d)).value)
  {
    if x in slots {
      DerefSplit(slots, slots[x], d);
    }
  }

  /** Resolving through `k` Box layers lands on what they hold, under the same lifetime. */
  lemma {:induction false} DerefBoxes(slots: Slots, k: nat, t: Type, l: Lifetime)
    requires Acyclic(slots)
    ensures Deref(slots, Slot(Boxes(k, t), l), k) == Ok(Slot(t, l))
  {
    if k > 0 {
      DerefBoxes(slots, k - 1, t, l);
    }
  }

  function ReadProhibited(slots: Slots, lval: Lval): (b: bool)
    requires Acyclic(slots)
    ensures lval.ident !in slots ==> b
  {
    match TypeLval(slots, lval)
    case Err(_) => true
    case Ok(s) => s.tipe.Undefined?
  }

  function WriteProhibited(slots: Slots, lval: Lval): (b: bool)
    requires Acyclic(slots)
    ensures ReadProhibited(slots, lval) ==> b
  {
    match TypeLval(slots, lval)
    case Err(_) => true
    case Ok(s) => (s.tipe.Ref? && !s.tipe.mutable) || s.tipe.Undefined?
  }

  // ---------------------------------------------------------------------------
  // Moving out of a place
  // ---------------------------------------------------------------------------

  /**
   * The environment after moving out of `lval`: walk `derefs` Box layers and wrap
   * the layer reached in Undefined. Only Boxes may be walked, and a Ref cannot be
   * moved out of.
   */
  function Moved(slots: Slots, lval: Lval): (r: Result<Slots>)
    ensures r.Ok? ==> lval.ident in slots && r.value.Keys == slots.Keys && r.value[lval.ident].lifetime == slots[lval.ident].lifetime
    ensures r.Err? ==> r.error == UnknownVar(lval.ident) || r.error == MoveBehindRef(lval)
  {
    if lval.ident !in slots then Err(UnknownVar(lval.ident))
    else
      var slot := slots[lval.ident];
      var u := Unbox(slot.tipe, lval.derefs);
      if u.None? || u.value.Ref? then Err(MoveBehindRef(lval))
      else Ok(slots[lval.ident := Slot(Boxes(lval.derefs, Type.Undefined(u.value)), slot.lifetime)])
  }

  /** A move keeps every other binding, the lifetime and the outer Boxes, and marks one layer moved. */
  lemma MovedShape(slots: Slots, lval: Lval)
    requires Moved(slots, lval).Ok?
    ensures var after := Moved(slots, lval).value;
            var x := lval.ident;
            && x in slots
            && after.Keys == slots.Keys
            && (forall y :: y in slots && y != x ==> after[y] == slots[y])
            && after[x].lifetime == slots[x].lifetime
            && Unbox(slots[x].tipe, lval.derefs).Some?
            && var u := Unbox(slots[x].tipe, lval.derefs).value;
               && !u.Ref?
               && slots[x].tipe == Boxes(lval.derefs, u)
               && after[x].tipe == Boxes(lval.derefs, Type.Undefined(u))
  {
  }

  /** Moving fails exactly when the variable is unbound, the walk meets a non-Box, or it lands on a Ref. */
  lemma MovedFails(slots: Slots, lval: Lval)
    ensures Moved(slots, lval).Err? <==>
              || lval.ident !in slots
              || Unbox(slots[lval.ident].tipe, lval.derefs).None?
              || Unbox(slots[lval.ident].tipe, lval.derefs).value.Ref?
    ensures Moved(slots, lval).Err? && lval.ident in slots ==> Moved(slots, lval).error == MoveBehindRef(lval)
  {
  }

  lemma {:induction false} RefBoundSameKeys(rank: map<Ident, nat>, s1: Slots, s2: Slots, t: Type)
    requires s1.Keys == s2.Keys
    ensures RefBound(rank, s1, t) == RefBound(rank, s2, t)
  {
    match t
    case Box(inner) => RefBoundSameKeys(rank, s1, s2, inner);
    case Undefined(inner) => RefBoundSameKeys(rank, s1, s2, inner);
    case _ =>
  }

  lemma {:induction false} RefBoundBoxes(rank: map<Ident, nat>, slots: Slots, k: nat, t: Type)
    ensures RefBound(rank, slots, Boxes(k, t)) == RefBound(rank, slots, t)
  {
    if k > 0 {
      RefBoundBoxes(rank, slots, k - 1, t);
    }
  }

  /** Replacing one binding's type by one whose Refs lead no further keeps the environment acyclic. */
  lemma ReplaceKeepsAcyclic(slots: Slots, x: Ident, slot: Slot)
    requires Acyclic(slots) && x in slots
    requires RefBound(Rank(slots), slots, slot.tipe) <= RefBound(Rank(slots), slots, slots[x].tipe)
    ensures Acyclic(slots[x := slot])
  {
    var rank := Rank(slots);
    var after := slots[x := slot];
    forall y | y in after
      ensures RefBound(rank, after, after[y].tipe) <= rank[y]
    {
      RefBoundSameKeys(rank, slots, after, after[y].tipe);
    }
    assert RankedBy(after, rank);
  }

  /** After a successful move the place reads as moved out. */
  lemma MovedThenReadProhibited(slots: Slots, lval: Lval)
    requires Acyclic(slots) && Moved(slots, lval).Ok?
    ensures Acyclic(Moved(slots, lval).value)
    ensures ReadProhibited(Moved(slots, lval).value, lval)
  {
    var x, d := lval.ident, lval.derefs;
    var u := Unbox(slots[x].tipe, d).value;
    var after := Moved(slots, lval).value;
    var rank := Rank(slots);
    RefBoundBoxes(rank, slots, d, u);
    RefBoundBoxes(rank, slots, d, Type.Undefined(u));
    ReplaceKeepsAcyclic(slots, x, after[x]);
    DerefBoxes(after, d, Type.Undefined(u), slots[x].lifetime);
  }

  // ---------------------------------------------------------------------------
  // Compatibility of types
  // ---------------------------------------------------------------------------

  /** Whether two types agree in shape: Undefined wrappers are looked through and Ref targets ignored. */
  function Compatible(t1: Type, t2: Type): (c: bool)
    ensures c ==> Shape(t1) == Shape(t2)
  {
    match (t1, t2)
    case (Undefined(i1), _) => Compatible(i1, t2)
    case (_, Undefined(i2)) => Compatible(t1, i2)
    case (Int, Int) => true
    case (Unit, Unit) => true
    case (Box(a), Box(b)) => Compatible(a, b)
    case (Ref(_, m1), Ref(_, m2)) => m1 == m2
    case _ => false
  }

  /** The shape of a type: every Undefined wrapper removed and every Ref target forgotten. */
  function Shape(t: Type): (s: Type)
    ensures !s.Undefined?
  {
    match t
    case Undefined(inner) => Shape(inner)
    case Box(inner) => Type.Box(Shape(inner))
    case Ref(_, m) => Type.Ref(Lval("", 0), m)
    case _ => t
  }

  lemma {:induction false} CompatibleIffSameShape(t1: Type, t2: Type)
    ensures Compatible(t1, t2) <==> Shape(t1) == Shape(t2)
  {
    match (t1, t2)
    case (Undefined(i1), _) => CompatibleIffSameShape(i1, t2);
    case (_, Undefined(i2)) => CompatibleIffSameShape(t1, i2);
    case (Box(a), Box(b)) => CompatibleIffSameShape(a, b);
    case _ =>
  }

  /** Compatibility is an equivalence that ignores moved-out marks on either side. */
  lemma CompatibleEquivalence(t1: Type, t2: Type, t3: Type)
    ensures Compatible(t1, t1)
    ensures Compatible(t1, t2) ==> Compatible(t2, t1)
    ensures Compatible(t1, t2) && Compatible(t2, t3) ==> Compatible(t1, t3)
    ensures Compatible(t1, Type.Undefined(t2)) == Compatible(t1, t2)
  {
    CompatibleIffSameShape(t1, t1);
    CompatibleIffSameShape(t1, t2);
    CompatibleIffSameShape(t2, t1);
    CompatibleIffSameShape(t2, t3);
    CompatibleIffSameShape(t1, t3);
    CompatibleIffSameShape(t1, Type.Undefined(t2));
  }

  // ---------------------------------------------------------------------------
  // Mutable borrows
  // ---------------------------------------------------------------------------

  /**
   * Whether the chain that starts at layer `t`, with `rem` explicit dereferences
   * still to apply, allows a mutable borrow. Leftover Boxes are drilled through
   * after the dereferences run out; a Ref step restarts from the Ref's own target
   * place and drops whatever dereferences were still pending.
   */
  function MutWalk(slots: Slots, t: Type, rem: nat): bool
    requires Acyclic(slots)
    decreases Height(slots, t), t
  {
    match t
    case Box(inner) => MutWalk(slots, inner, if rem > 0 then rem - 1 else 0)
    case Ref(target, m) =>
      m && target.ident in slots && MutWalk(slots, slots[target.ident].tipe, target.derefs)
    case _ => rem == 0
  }

  predicate MutablePath(slots: Slots, lval: Lval)
    requires Acyclic(slots)
  {
    lval.ident in slots && MutWalk(slots, slots[lval.ident].tipe, lval.derefs)
  }

  // ---------------------------------------------------------------------------
  // Writing a type into a place
  // ---------------------------------------------------------------------------

  /** Layer `k` of `x`'s type is reached through Boxes only and is not a Ref. */
  predicate WritableLayer(slots: Slots, x: Ident, k: nat)
  {
    x in slots && Unbox(slots[x].tipe, k).Some? && !Unbox(slots[x].tipe, k).value.Ref?
  }

  /** The errors a write can report. */
  predicate WriteError(e: Error)
  {
    e.UnknownVar? || e.UpdateBehindImmRef?
  }

  /**
   * Where a write of `lval` lands: a variable and the number of Box layers over the
   * layer that gets replaced. Boxes are peeled; a mutable Ref, met while dereferences
   * remain or at the end, redirects the whole write to the Ref's target place.
   */
  function WriteTarget(slots: Slots, lval: Lval): (r: Result<(Ident, nat)>)
    requires Acyclic(slots)
    ensures lval.ident !in slots ==> r == Err(UnknownVar(lval.ident))
    ensures r.Err? ==> WriteError(r.error)
    ensures r.Ok? ==> WritableLayer(slots, r.value.0, r.value.1)
    decreases KeyRank(slots, lval.ident), 0, 0
  {
    if lval.ident !in slots then Err(UnknownVar(lval.ident))
    else WalkWrite(slots, lval, slots[lval.ident].tipe, lval.derefs, 0)
  }

  /** The walk of a write from layer `t`, found `depth` Boxes below the root of `lval`. */
  function WalkWrite(slots: Slots, lval: Lval, t: Type, rem: nat, depth: nat): (r: Result<(Ident, nat)>)
    requires Acyclic(slots) && lval.ident in slots
    requires Unbox(slots[lval.ident].tipe, depth) == Some(t)
    ensures r.Err? ==> WriteError(r.error)
    ensures r.Ok? ==> WritableLayer(slots, r.value.0, r.value.1)
    decreases Height(slots, t), 1, rem
  {
    if rem > 0 then
      if t.Box? then
        UnboxStep(slots[lval.ident].tipe, depth, t);
        WalkWrite(slots, lval, t.inner, rem - 1, depth + 1)
      else if t.Ref? && t.mutable then WriteTarget(slots, t.target)
      else Err(UpdateBehindImmRef(lval))
    else if t.Ref? then
      if t.mutable then WriteTarget(slots, t.target) else Err(UpdateBehindImmRef(lval))
    else Ok((lval.ident, depth))
  }

  /** The environment after writing `tipe` into `lval`: the reached layer is replaced, nothing else. */
  function Written(slots: Slots, lval: Lval, tipe: Type): (r: Result<Slots>)
    requires Acyclic(slots)
    ensures r.Err? ==> WriteError(r.error)
    ensures r.Ok? ==> r.value.Keys == slots.Keys
  {
    var w := WriteTarget(slots, lval);
    if w.Err? then Err(w.error)
    else
      var x := w.value.0;
      Ok(slots[x := Slot(Boxes(w.value.1, tipe), slots[x].lifetime)])
  }

  /**
   * A successful write keeps every other binding, the lifetime and the Boxes above
   * the reached layer, and puts exactly `tipe` where a non-Ref layer was.
   */
  lemma WrittenShape(slots: Slots, lval: Lval, tipe: Type)
    requires Acyclic(slots) && Written(slots, lval, tipe).Ok?
    ensures var after := Written(slots, lval, tipe).value;
            var x := WriteTarget(slots, lval).value.0;
            var k := WriteTarget(slots, lval).value.1;
            && (forall y :: y in slots && y != x ==> after[y] == slots[y])
            && after[x].lifetime == slots[x].lifetime
            && slots[x].tipe == Boxes(k, Unbox(slots[x].tipe, k).value)
            && !Unbox(slots[x].tipe, k).value.Ref?
            && Unbox(after[x].tipe, k) == Some(tipe)
  {
    UnboxBoxes(WriteTarget(slots, lval).value.1, tipe);
  }

  lemma {:induction false} MutWalkWritable(slots: Slots, lval: Lval, t: Type, rem: nat, depth: nat)
    requires Acyclic(slots) && lval.ident in slots
    requires Unbox(slots[lval.ident].tipe, depth) == Some(t)
    requires MutWalk(slots, t, rem)
    ensures WalkWrite(slots, lval, t, rem, depth).Ok?
    decreases Height(slots, t), rem
  {
    match t
    case Box(inner) =>
      if rem > 0 {
        UnboxStep(slots[lval.ident].tipe, depth, t);
        MutWalkWritable(slots, lval, inner, rem - 1, depth + 1);
      }
    case Ref(target, _) =>
      MutWalkWritable(slots, target, slots[target.ident].tipe, target.derefs, 0);
    case _ =>
  }

  /** A place that allows a mutable borrow can be written. */
  lemma MutablePathWritable(slots: Slots, lval: Lval)
    requires Acyclic(slots) && MutablePath(slots, lval)
    ensures WriteTarget(slots, lval).Ok?
    ensures Written(slots, lval, Type.Int).Ok?
  {
    MutWalkWritable(slots, lval, slots[lval.ident].tipe, lval.derefs, 0);
  }

  lemma {:induction false} WalkWriteBoxes(slots: Slots, lval: Lval, v: Type, rem: nat, depth: nat)
    requires Acyclic(slots) && lval.ident in slots
    requires Unbox(slots[lval.ident].tipe, depth) == Some(Boxes(rem, v))
    requires !v.Ref?
    ensures WalkWrite(slots, lval, Boxes(rem, v), rem, depth) == Ok((lval.ident, depth + rem))
  {
    if rem > 0 {
      UnboxStep(slots[lval.ident].tipe, depth, Boxes(rem, v));
      WalkWriteBoxes(slots, lval, v, rem - 1, depth + 1);
    }
  }

  /** Writing a moved-out place back with the type it had undoes the move exactly. */
  lemma MoveThenWriteRestores(slots: Slots, lval: Lval)
    requires Acyclic(slots) && Moved(slots, lval).Ok?
    ensures Acyclic(Moved(slots, lval).value)
    ensures Written(Moved(slots, lval).value, lval, Unbox(slots[lval.ident].tipe, lval.derefs).value) == Ok(slots)
  {
    var x, d := lval.ident, lval.derefs;
    var u := Unbox(slots[x].tipe, d).value;
    var after := Moved(slots, lval).value;
    MovedThenReadProhibited(slots, lval);
    UnboxBoxes(d, Type.Undefined(u));
    WalkWriteBoxes(after, lval, Type.Undefined(u), d, 0);
    assert WriteTarget(after, lval) == Ok((x, d));
    assert after[x := Slot(Boxes(d, u), after[x].lifetime)] == slots;
  }

  /** An instance: moving out of `**x` with `x: Box(Box(Box(Int)))` marks the third layer, and writing it back undoes that. */
  lemma MoveUnderTwoBoxes()
    ensures var slots := map["x" := Slot(Boxes(3, Type.Int), Lifetime(0))];
            var moved := map["x" := Slot(Boxes(2, Type.Undefined(Type.Box(Type.Int))), Lifetime(0))];
            && Acyclic(slots) && Acyclic(moved)
            && Moved(slots, Lval("x", 2)) == Ok(moved)
            && ReadProhibited(moved, Lval("x", 2))
            && Written(moved, Lval("x", 2), Type.Box(Type.Int)) == Ok(slots)
  {
    var slots := map["x" := Slot(Boxes(3, Type.Int), Lifetime(0))];
    assert RankedBy(slots, map["x" := 0]);
    UnboxBoxes(2, Type.Box(Type.Int));
    assert Boxes(3, Type.Int) == Boxes(2, Type.Box(Type.Int));
    assert Unbox(Boxes(3, Type.Int), 2) == Some(Type.Box(Type.Int));
    var moved := map["x" := Slot(Boxes(2, Type.Undefined(Type.Box(Type.Int))), Lifetime(0))];
    assert slots["x" := Slot(Boxes(2, Type.Undefined(Type.Box(Type.Int))), Lifetime(0))] == moved;
    assert Moved(slots, Lval("x", 2)) == Ok(moved);
    MoveThenWriteRestores(slots, Lval("x", 2));
    MovedThenReadProhibited(slots, Lval("x", 2));
  }

  // ---------------------------------------------------------------------------
  // Dropping a scope
  // ---------------------------------------------------------------------------

  /** The environment without the bindings tagged `l`. */
  function Dropped(slots: Slots, l: Lifetime): (after: Slots)
    ensures forall x :: x in after <==> x in slots && slots[x].lifetime != l
    ensures forall x :: x in after ==> after[x] == slots[x]
  {
    map x | x in slots && slots[x].lifetime != l :: slots[x]
  }

  lemma {:induction false} RefBoundSubset(rank: map<Ident, nat>, small: Slots, big: Slots, t: Type)
    requires small.Keys <= big.Keys
    ensures RefBound(rank, small, t) <= RefBound(rank, big, t)
  {
    match t
    case Box(inner) => RefBoundSubset(rank, small, big, inner);
    case Undefined(inner) => RefBoundSubset(rank, small, big, inner);
    case _ =>
  }

  /** Dropping a scope cannot create a cycle: Refs into the dropped bindings just dangle. */
  lemma DroppedKeepsAcyclic(slots: Slots, l: Lifetime)
    requires Acyclic(slots)
    ensures Acyclic(Dropped(slots, l))
  {
    var rank := Rank(slots);
    var after := Dropped(slots, l);
    forall y | y in after
      ensures RefBound(rank, after, after[y].tipe) <= rank[y]
    {
      RefBoundSubset(rank, after, slots, after[y].tipe);
    }
    assert RankedBy(after, rank);
  }

  // ---------------------------------------------------------------------------
  // Checking expressions and statements
  // ---------------------------------------------------------------------------

  /** The expression forms the checker implements: literals and place reads. */
  predicate Implemented(e: Expr)
  {
    e.Unit? || e.Int? || e.LvalExpr?
  }

  predicate ImplementedStmt(s: Stmt)
  {
    match s
    case Assign(_, rhs) => Implemented(rhs)
    case LetMut(_, init) => Implemented(init)
    case ExprStmt(e) => Implemented(e)
  }

  /** Marks a place expression as a copy; any other node is left as it is. */
  function MakeCopyable(e: Expr): (r: Expr)
    ensures e.LvalExpr? ==> r.LvalExpr? && r.lval == e.lval && r.copyable
    ensures !e.LvalExpr? ==> r == e
  {
    if e.LvalExpr? then e.(copyable := true) else e
  }

  /** The only errors the checker ever reports; the other variants are never constructed. */
  predicate ReportedError(e: Error)
  {
    e.MovedOut? || e.MoveBehindRef? || e.UpdateBehindImmRef? || e.UnknownVar?
  }

  /** What checking an expression yields: the type or error, the new environment, the updated node. */
  datatype ExprOutcome = ExprOutcome(result: Result<Type>, slots: Slots, expr: Expr)

  datatype StmtOutcome = StmtOutcome(result: Result<()>, slots: Slots, stmt: Stmt)

  /**
   * Checking an expression. A place that cannot be read is reported moved out; an
   * Int or Unit place is copied and its node marked copyable; any other place is
   * moved out of, and the type it had before the move is the result.
   */
  function CheckExpr(slots: Slots, e: Expr): (o: ExprOutcome)
    requires Acyclic(slots) && Implemented(e)
    ensures Acyclic(o.slots)
    ensures o.result.Err? ==> o.slots == slots && o.expr == e
    ensures o.result.Err? ==> o.result.error.MovedOut? || o.result.error.MoveBehindRef?
    ensures o.result.Ok? ==> !o.result.value.Undefined?
    ensures e.LvalExpr? ==> (o.result == Err(MovedOut(e.lval)) <==> ReadProhibited(slots, e.lval))
  {
    if e.Int? then ExprOutcome(Ok(Type.Int), slots, e)
    else if e.Unit? then ExprOutcome(Ok(Type.Unit), slots, e)
    else
      var lval := e.lval;
      if ReadProhibited(slots, lval) then ExprOutcome(Err(MovedOut(lval)), slots, e)
      else
        var t := TypeLval(slots, lval).value.tipe;
        if t.Int? || t.Unit? then ExprOutcome(Ok(t), slots, MakeCopyable(e))
        else
          var m := Moved(slots, lval);
          if m.Err? then ExprOutcome(Err(m.error), slots, e)
          else
            MovedThenReadProhibited(slots, lval);
            ExprOutcome(Ok(t), m.value, e)
  }

  /**
   * Checking a statement under a lifetime stack of height `depth`. A `let mut`
   * binds its variable at the fresh lifetime `depth` and then drops that lifetime
   * at once; an assignment checks its right-hand side before writing.
   */
  function CheckStmt(slots: Slots, depth: nat, s: Stmt): (o: StmtOutcome)
    requires Acyclic(slots) && ImplementedStmt(s)
    ensures o.result.Err? ==> ReportedError(o.result.error)
  {
    match s
    case LetMut(name, init) =>
      var c := CheckExpr(slots, init);
      if c.result.Err? then StmtOutcome(Err(c.result.error), c.slots, LetMut(name, c.expr))
      else
        var l := Lifetime(depth);
        StmtOutcome(Ok(()), Dropped(c.slots[name := Slot(c.result.value, l)], l), LetMut(name, c.expr))
    case Assign(place, rhs) =>
      var c := CheckExpr(slots, rhs);
      if c.result.Err? then StmtOutcome(Err(c.result.error), c.slots, Assign(place, c.expr))
      else
        var w := Written(c.slots, place, c.result.value);
        if w.Err? then StmtOutcome(Err(w.error), c.slots, Assign(place, c.expr))
        else StmtOutcome(Ok(()), w.value, Assign(place, c.expr))
    case ExprStmt(e) =>
      var c := CheckExpr(slots, e);
      StmtOutcome(Forget(c.result), c.slots, ExprStmt(c.expr))
  }

  /** Reading an Int or Unit place copies it: the environment is untouched and the check can be repeated. */
  lemma CopyIsRepeatable(slots: Slots, e: Expr)
    requires Acyclic(slots) && e.LvalExpr?
    requires CheckExpr(slots, e).result.Ok?
    requires CheckExpr(slots, e).result.value.Int? || CheckExpr(slots, e).result.value.Unit?
    ensures CheckExpr(slots, e).slots == slots
    ensures CheckExpr(slots, e).expr == e.(copyable := true)
    ensures CheckExpr(slots, CheckExpr(slots, e).expr) == CheckExpr(slots, e)
  {
  }

  /** Reading any other place moves out of it, so reading it again is reported as a use after move. */
  lemma MoveThenMovedOut(slots: Slots, e: Expr)
    requires Acyclic(slots) && e.LvalExpr?
    requires CheckExpr(slots, e).result.Ok?
    requires !CheckExpr(slots, e).result.value.Int? && !CheckExpr(slots, e).result.value.Unit?
    ensures Moved(slots, e.lval).Ok?
    ensures CheckExpr(slots, e).slots == Moved(slots, e.lval).value
    ensures CheckExpr(slots, e).result.value == TypeLval(slots, e.lval).value.tipe
    ensures CheckExpr(CheckExpr(slots, e).slots, e).result == Err(MovedOut(e.lval))
  {
    MovedThenReadProhibited(slots, e.lval);
  }

  /**
   * A successful `let mut` leaves no binding tagged with the fresh lifetime, and
   * not even its own variable: the scope it opens is dropped straight away.
   */
  lemma LetMutDropsItsScope(slots: Slots, depth: nat, name: Ident, init: Expr)
    requires Acyclic(slots) && Implemented(init)
    requires CheckStmt(slots, depth, LetMut(name, init)).result.Ok?
    ensures var before := CheckExpr(slots, init).slots;
            var after := CheckStmt(slots, depth, LetMut(name, init)).slots;
            && name !in after
            && (forall x :: x in after ==> after[x].lifetime != Lifetime(depth))
            && (forall x :: x in after <==> x in before && x != name && before[x].lifetime != Lifetime(depth))
            && (forall x :: x in after ==> after[x] == before[x])
  {
  }

  /** The right-hand side of an assignment is checked first, so a move it makes survives a failed write. */
  lemma AssignKeepsMoveOnFailedWrite(slots: Slots, depth: nat, place: Lval, rhs: Expr)
    requires Acyclic(slots) && Implemented(rhs)
    requires CheckExpr(slots, rhs).result.Ok?
    requires Written(CheckExpr(slots, rhs).slots, place, CheckExpr(slots, rhs).result.value).Err?
    ensures CheckStmt(slots, depth, Assign(place, rhs)).result.Err?
    ensures CheckStmt(slots, depth, Assign(place, rhs)).slots == CheckExpr(slots, rhs).slots
  {
  }

  /** An instance: `*r = a` with `r` an immutable reference moves `a` and then fails. */
  lemma AssignThroughImmRefStillMoves()
    ensures var slots := map["a" := Slot(Type.Box(Type.Int), Lifetime(0)),
                             "r" := Slot(Type.Ref(Lval("b", 0), false), Lifetime(0)),
                             "b" := Slot(Type.Int, Lifetime(0))];
            && Acyclic(slots)
            && CheckStmt(slots, 1, Assign(Lval("r", 1), LvalExpr(Lval("a", 0), false)))
               == StmtOutcome(Err(UpdateBehindImmRef(Lval("r", 1))),
                              slots["a" := Slot(Type.Undefined(Type.Box(Type.Int)), Lifetime(0))],
                              Assign(Lval("r", 1), LvalExpr(Lval("a", 0), false)))
  {
    var slots := map["a" := Slot(Type.Box(Type.Int), Lifetime(0)),
                     "r" := Slot(Type.Ref(Lval("b", 0), false), Lifetime(0)),
                     "b" := Slot(Type.Int, Lifetime(0))];
    assert RankedBy(slots, map["a" := 0, "b" := 0, "r" := 1]);
    var a := Lval("a", 0);
    assert TypeLval(slots, a) == Ok(slots["a"]);
    assert !ReadProhibited(slots, a);
    var moved := slots["a" := Slot(Type.Undefined(Type.Box(Type.Int)), Lifetime(0))];
    assert Moved(slots, a) == Ok(moved);
    var c := CheckExpr(slots, LvalExpr(a, false));
    assert c == ExprOutcome(Ok(Type.Box(Type.Int)), moved, LvalExpr(a, false));
    assert WalkWrite(moved, Lval("r", 1), moved["r"].tipe, 1, 0) == Err(UpdateBehindImmRef(Lval("r", 1)));
    assert Written(moved, Lval("r", 1), Type.Box(Type.Int)) == Err(UpdateBehindImmRef(Lval("r", 1)));
  }

  // ---------------------------------------------------------------------------
  // The environment
  // ---------------------------------------------------------------------------

  class Env {
    var slots: Slots

    constructor()
      ensures slots == map[]
    {
      slots := map[];
    }

    method Insert(name: Ident, tipe: Type, lifetime: Lifetime)
      modifies this
      ensures slots == old(slots)[name := Slot(tipe, lifetime)]
    {
      slots := slots[name := Slot(tipe, lifetime)];
    }

    /** The type under all the Box layers of `name`'s type, unless that layer has been moved out. */
    method Contained(name: Ident) returns (r: Option<Type>)
      ensures r.Some? <==> name in slots && !Core(slots[name].tipe).Undefined?
      ensures r.Some? ==> r.value == Core(slots[name].tipe) && !r.value.Box? && !r.value.Undefined?
    {
      if name !in slots {
        return None;
      }
      var t := slots[name].tipe;
      while t.Box?
        invariant Core(t) == Core(slots[name].tipe)
        decreases t
      {
        t := t.inner;
      }
      if t.Undefined? {
        r := None;
      } else {
        r := Some(t);
      }
    }

    /** Moves out of `lval`; on an error nothing changes. */
    method Moove(lval: Lval) returns (r: Result<()>)
      modifies this
      ensures r == Forget(Moved(old(slots), lval))
      ensures r.Ok? ==> slots == Moved(old(slots), lval).value
      ensures r.Err? ==> slots == old(slots)
    {
      if lval.ident !in slots {
        return Err(UnknownVar(lval.ident));
      }
      var slot := slots[lval.ident];
      var t := slot.tipe;
      var i := 0;
      while i < lval.derefs
        invariant i <= lval.derefs
        invariant Unbox(slot.tipe, i) == Some(t)
        invariant slots == old(slots)
      {
        if !t.Box? {
          UnboxStuck(slot.tipe, i, t, lval.derefs);
          return Err(MoveBehindRef(lval));
        }
        UnboxStep(slot.tipe, i, t);
        t := t.inner;
        i := i + 1;
      }
      if t.Ref? {
        return Err(MoveBehindRef(lval));
      }
      slots := slots[lval.ident := Slot(Boxes(lval.derefs, Type.Undefined(t)), slot.lifetime)];
      r := Ok(());
    }

    /** Whether `lval` may be borrowed mutably; the environment is only read. */
    method Muut(lval: Lval) returns (b: bool)
      requires Acyclic(slots)
      ensures b == MutablePath(slots, lval)
    {
      if lval.ident !in slots {
        return false;
      }
      var t := slots[lval.ident].tipe;
      var rem := lval.derefs;
      while true
        invariant MutWalk(slots, t, rem) == MutablePath(slots, lval)
        decreases Height(slots, t), t
      {
        match t
        case Box(inner) =>
          t := inner;
          if rem > 0 {
            rem := rem - 1;
          }
        case Ref(target, m) =>
          if !m || target.ident !in slots {
            return false;
          }
          t := slots[target.ident].tipe;
          rem := target.derefs;
        case _ =>
          return rem == 0;
      }
    }

    /** Writes `tipe` into the place `lval`, following mutable references; on an error nothing changes. */
    method Write(lval: Lval, tipe: Type) returns (r: Result<()>)
      requires Acyclic(slots)
      modifies this
      ensures r == Forget(Written(old(slots), lval, tipe))
      ensures r.Ok? ==> slots == Written(old(slots), lval, tipe).value
      ensures r.Err? ==> slots == old(slots)
      decreases KeyRank(slots, lval.ident)
    {
      if lval.ident !in slots {
        return Err(UnknownVar(lval.ident));
      }
      var slot := slots[lval.ident];
      var t := slot.tipe;
      var remaining := lval.derefs;
      var depth := 0;
      while remaining > 0
        invariant slots == old(slots)
        invariant Unbox(slot.tipe, depth) == Some(t)
        invariant WalkWrite(slots, lval, t, remaining, depth) == WriteTarget(slots, lval)
      {
        match t
        case Box(inner) =>
          UnboxStep(slot.tipe, depth, t);
          t := inner;
          remaining := remaining - 1;
          depth := depth + 1;
        case Ref(next, m) =>
          if !m {
            return Err(UpdateBehindImmRef(lval));
          }
          HeightBoxes(slots, depth, t);
          HeightBelowKey(slots, lval.ident);
          r := Write(next, tipe);
          return;
        case _ =>
          return Err(UpdateBehindImmRef(lval));
      }
      if t.Ref? {
        if !t.mutable {
          return Err(UpdateBehindImmRef(lval));
        }
        HeightBoxes(slots, depth, t);
        HeightBelowKey(slots, lval.ident);
        r := Write(t.target, tipe);
        return;
      }
      slots := slots[lval.ident := Slot(Boxes(depth, tipe), slot.lifetime)];
      r := Ok(());
    }

    /** Removes every binding tagged with lifetime `l`. */
    method Drop(l: Lifetime)
      modifies this
      ensures slots == Dropped(old(slots), l)
    {
      slots := Dropped(slots, l);
    }
  }

  // ---------------------------------------------------------------------------
  // The checker
  // ---------------------------------------------------------------------------

  class Context {
    const env: Env
    var lifetimeStack: seq<Lifetime>

    /** The stack holds the scopes 0, 1, 2, ... from the bottom up. */
    ghost predicate Valid()
      reads this
    {
      forall i :: 0 <= i < |lifetimeStack| ==> lifetimeStack[i].ordinal == i
    }

    constructor()
      ensures fresh(env) && env.slots == map[]
      ensures lifetimeStack == [] && Valid()
    {
      env := new Env();
      lifetimeStack := [];
    }

    /** The lifetime of a scope opened now: one deeper than every scope on the stack. */
    function FreshLifetime(): (l: Lifetime)
      reads this
      ensures l.ordinal == |lifetimeStack|
      ensures Valid() ==> l !in lifetimeStack
    {
      Lifetime(|lifetimeStack|)
    }

    method TypeExpr(e: Expr) returns (r: Result<Type>, e': Expr)
      requires Acyclic(env.slots) && Implemented(e)
      modifies env
      ensures ExprOutcome(r, env.slots, e') == CheckExpr(old(env.slots), e)
    {
      match e
      case Int(_) =>
        r, e' := Ok(Type.Int), e;
      case Unit =>
        r, e' := Ok(Type.Unit), e;
      case LvalExpr(lval, _) =>
        if ReadProhibited(env.slots, lval) {
          return Err(MovedOut(lval)), e;
        }
        var slot := TypeLval(env.slots, lval).value;
        if slot.tipe.Int? || slot.tipe.Unit? {
          return Ok(slot.tipe), MakeCopyable(e);
        }
        var moved := env.Moove(lval);
        if moved.Err? {
          return Err(moved.error), e;
        }
        r, e' := Ok(slot.tipe), e;
    }

    method TypeStmt(s: Stmt) returns (r: Result<()>, s': Stmt)
      requires Acyclic(env.slots) && ImplementedStmt(s)
      modifies this, env
      ensures StmtOutcome(r, env.slots, s') == CheckStmt(old(env.slots), |old(lifetimeStack)|, s)
      ensures lifetimeStack == old(lifetimeStack)
    {
      match s
      case LetMut(name, init) =>
        var t, init' := TypeExpr(init);
        if t.Err? {
          return Err(t.error), LetMut(name, init');
        }
        var lifetime := FreshLifetime();
        env.Insert(name, t.value, lifetime);
        lifetimeStack := lifetimeStack + [lifetime];
        lifetimeStack := lifetimeStack[..|lifetimeStack| - 1];
        env.Drop(lifetime);
        r, s' := Ok(()), LetMut(name, init');
      case Assign(place, rhs) =>
        var t, rhs' := TypeExpr(rhs);
        if t.Err? {
          return Err(t.error), Assign(place, rhs');
        }
        var w := env.Write(place, t.value);
        if w.Err? {
          return Err(w.error), Assign(place, rhs');
        }
        r, s' := Ok(()), Assign(place, rhs');
      case ExprStmt(e) =>
        var t, e' := TypeExpr(e);
        r, s' := Forget(t), ExprStmt(e');
    }
  }
}
