# salt and the Gödel encoder, in Dafny

This project models two pieces of a Rust course repository and proves properties about them.

**salt** is a small Rust-like core calculus with boxes, mutable and immutable references,
moves, copies and lexical lifetimes. The model has three parts:

- `syntax.dfy` (module `Syntax`) holds the abstract syntax: lifetimes, places (`Lval`),
  expressions and statements.
- `types.dfy` (module `Types`) holds the static ownership checker.
  - Each resolution, move, write and drop operation of the typing environment is a
    function over `map<Ident, Slot>`.
  - The class `Env` holds that map in a field. `Insert`, `Moove`, `Write` and `Drop` update
    it in place; `Contained` and `Muut` only read it. `Moove`, `Write`, `Drop` and `Muut` are
    proved equal to the functions `Moved`, `Written`, `Dropped` and `MutablePath`, and
    `Contained` to `Core`. `Insert` states the map update directly.
  - The class `Context` adds the lifetime stack. Its `TypeExpr` and `TypeStmt` are proved
    against the functions `CheckExpr` and `CheckStmt`.
- `eval.dfy` (module `Eval`) holds the evaluator.
  - `Evaluate`, `Execute` and `ExecuteAll` are a reference semantics over a state made of the
    store and the box counter.
  - The class `Store` holds the runtime store in a field. The class `Context` holds that store
    and the `counter` field. Its `EvalExpr` and `EvalStmt` are proved against the reference
    semantics.

**The Gödel encoder** is the mock midterm, in `godel.dfy` (module `Godel`):

- `TryFrom` builds the word table.
- `Primes` is a class holding a trial-division prime iterator.
- `Encode` turns a word sequence into a product of prime powers. `Decode` divides the
  primes back out.

Each method is proved against a specification function (`Codes`/`PowProduct` and
`Peel`/`DecodeWith`). Lemmas then prove what those functions mean:
- the exponent of each prime in an encoding is the code of the matching word, by Euclid's
  lemma;
- `decode`, as written, repeats the i-th word by the exponent of the i-th prime in `n`, and
  succeeds exactly when those prime powers make up `n`;
- decoding 1 gives the empty text;
- decoding by codes gives back the words that were encoded.

Choices that shape the model:

- **Ref chasing is modelled on acyclic environments.** `type_lval`, `muut` and `write`
  follow a `Ref` to its target place. On some cyclic environments, such as `x: Ref(x, 1)`,
  they loop forever. The model's operations require `Acyclic(slots)`: some ranking of the
  variables must strictly decrease along every stored `Ref`. The ranking supplies the
  termination measure. This is stronger than the code needs, and it is global: it also
  excludes cyclic environments on which the code stops, such as `x: Ref(x, 0)`
  (`SelfReferenceIsCyclic`), a cycle entered through an immutable Ref (where `muut` answers
  false and `write` fails), and a cycle the walk never reaches. Every Ref step in the model
  follows the code:
  - `type_lval` resolves the target completely, then applies the outer dereferences that
    remain.
  - `muut` and `write` restart from the target place and drop any dereferences still
    pending.
- **The unfinished checker arms are excluded.** The precondition `Implemented` covers Box,
  Borrow and Block expressions, where `type_expr` stops at `todo!()`.
- **The AST node is a value.** `make_copyable` returns the updated expression. `TypeExpr`
  and `TypeStmt` return the updated node next to the result.
- **Evaluator panics become preconditions.** They are a non-zero deref count, an unknown
  location, and a read of a moved-out value. The reference semantics returns `None` in these
  cases, and each interpreter method requires it to be `Some`.
- **Locations are a datatype.** A location is `Var(name)` or `BoxLoc(n)`. The code names box
  n with the string `"__box{n}"`, which a user variable of that name could collide with.
- **The Gödel file is modelled as its authors evidently meant it.** The file has slips that
  stop it compiling:
  - the missing `return` in `try_from`;
  - `w` written for `word`;
  - a missing brace;
  - `vec::new`;
  - `result` written for `res`.

  `BigUint` becomes `nat`. `Display::to_string` becomes a parameter `show: T -> string`.

The code implements less than the full calculus does, and the model follows the code:
- resolution does not report `MovedOut` under a Box;
- `write` makes no alias check and no compatibility check;
- `let mut` does not check shadowing;
- dropping a store location does not cascade;
- block exit ignores the `owned` flag, so a borrow made inside a block releases the outer
  variable it points to (`BorrowInBlockDropsOuter`).

## Model

| member | source | states |
|---|---|---|
| Syntax.Global | project/salt/src/utils.rs:8-12 | The global lifetime is scope 0, and it is the only lifetime with ordinal 0. |
| Syntax.LifetimeEquality | project/salt/src/utils.rs:5-6 | Two lifetimes are equal exactly when their ordinals are equal. |
| Syntax.NewLval | project/salt/src/utils.rs:20-27 | `Lval::new(s, d)` has ident `s` and `d` dereferences, a natural number. |
| Types.Unbox | project/salt/src/types.rs:120-128 | Peeling `k` Box layers, when each is a Box, reaches a layer that the `k` Boxes rebuild into the original type. |
| Types.Core | project/salt/src/types.rs:89-92 | Stripping all Box layers reaches a non-Box type, and re-wrapping that many Boxes gives back the type. |
| Types.TypeLval | project/salt/src/types.rs:65-83 | An unbound base fails `UnknownVar`. With 0 derefs the result is exactly the bound slot. Every error is `UnknownVar` or `CannotDeref` of Int, Unit or Undefined. A result never leads further down the ranking than its base. |
| Types.Step | project/salt/src/types.rs:74-80 | One dereference step. A Box keeps the slot's lifetime, and a Ref becomes the fully resolved target slot. It fails only with resolution errors. |
| Types.Deref | project/salt/src/types.rs:73-81 | Applying `n` steps fails only with resolution errors and never climbs the ranking. |
| Types.DerefSplit | project/salt/src/types.rs:73-81 | One more dereference either repeats the earlier error or applies one `Step` to the earlier result. |
| Types.TypeLvalOneMore | project/salt/src/types.rs:73-81 | Resolving `x` with `d+1` derefs is one `Step` after resolving `x` with `d` derefs, or the same error. |
| Types.DerefBoxes | project/salt/src/types.rs:75 | Dereferencing through `k` Boxes lands on the boxed type under the same lifetime. |
| Types.ReadProhibited | project/salt/src/types.rs:100-104 | An unbound variable can never be read. |
| Types.WriteProhibited | project/salt/src/types.rs:106-110 | A place that cannot be read cannot be written. |
| Types.SelfReferenceIsCyclic | project/salt/src/types.rs:73-81 | `x: Ref(x, 0)` is not acyclic, although resolving through it stops. |
| Types.Moved | project/salt/src/types.rs:113-136 | Moving out of a place: a success keeps every binding name and the moved variable's lifetime. The only errors are `UnknownVar` of the base and `MoveBehindRef` of the place. |
| Types.MovedShape | project/salt/src/types.rs:113-136 | A successful move changes only the moved variable and keeps its lifetime and outer Boxes. The layer reached, which is not a Ref, becomes Undefined of itself. |
| Types.MovedFails | project/salt/src/types.rs:113-136 | A move fails exactly when the base is unbound, the walk meets a non-Box, or it lands on a Ref. For a bound base the error is `MoveBehindRef`. |
| Types.MovedThenReadProhibited | project/salt/src/types.rs:113-136 | After a successful move the environment stays acyclic and the moved place can no longer be read. |
| Types.Compatible | project/salt/src/types.rs:194-205 | Compatibility looks through Undefined on either side and ignores Ref targets. Compatible types have the same `Shape`. |
| Types.CompatibleIffSameShape | project/salt/src/types.rs:194-205 | Two types are compatible exactly when they agree once Undefined wrappers are removed and Ref targets are ignored. |
| Types.CompatibleEquivalence | project/salt/src/types.rs:194-205 | Compatibility is reflexive, symmetric and transitive, and ignores an Undefined wrapper on the right. |
| Types.WriteTarget | project/salt/src/types.rs:207-251 | A write fails `UnknownVar` on an unbound base. Otherwise it fails only with `UnknownVar` or `UpdateBehindImmRef`. On success it lands on a layer reached through Boxes that is not a Ref. |
| Types.WalkWrite | project/salt/src/types.rs:218-251 | The walk peels Boxes and redirects at a mutable Ref. Its errors and landing layer are as for `WriteTarget`. |
| Types.Written | project/salt/src/types.rs:207-256 | A write fails only with `UnknownVar` or `UpdateBehindImmRef` and never adds or removes a binding. |
| Types.WrittenShape | project/salt/src/types.rs:243-253 | A successful write changes only the target variable. It keeps that variable's lifetime and the Boxes above, and puts exactly the written type where a non-Ref layer was. |
| Types.MutWalk | project/salt/src/types.rs:152-191 | The `muut` loop from one layer: Boxes consume a dereference or are drilled through, a mutable Ref restarts at its bound target with the target's own derefs, an immutable or dangling Ref answers false, and any other layer answers whether no dereference remains. |
| Types.MutablePath | project/salt/src/types.rs:139-150 | `muut`: false on an unbound base, otherwise the walk from the base's type. Every such place can be written (`MutablePathWritable`). |
| Types.MutablePathWritable | project/salt/src/types.rs:139-192 | Every place that `muut` accepts can be written. |
| Types.MoveThenWriteRestores | project/salt/src/types.rs:207-256 | Writing a moved-out place back with its old type restores the environment exactly. |
| Types.MoveUnderTwoBoxes | project/salt/src/types.rs:113-136 | In `x: Box(Box(Box(Int)))`, moving at 2 derefs gives `Box(Box(Undefined(Box(Int))))`. That place then reads as moved out, and writing `Box(Int)` back restores the environment. |
| Types.Dropped | project/salt/src/types.rs:258-260 | Dropping `l` keeps exactly the bindings not tagged `l`, each unchanged. |
| Types.DroppedKeepsAcyclic | project/salt/src/types.rs:258-260 | Dropping a scope cannot make the environment cyclic. |
| Types.MakeCopyable | project/salt/src/types.rs:363-368 | A place expression gets its copyable flag set and keeps its place. Any other node is unchanged. |
| Types.CheckExpr | project/salt/src/types.rs:299-324 | The environment stays acyclic. On an error the environment and node are unchanged and the error is `MovedOut` or `MoveBehindRef`. A type result is never Undefined. A place fails `MovedOut` exactly when it is read-prohibited. |
| Types.CheckStmt | project/salt/src/types.rs:326-356 | Statement checking reports only `MovedOut`, `MoveBehindRef`, `UpdateBehindImmRef` or `UnknownVar`. |
| Types.CopyIsRepeatable | project/salt/src/types.rs:311-315 | Reading an Int or Unit place leaves the environment unchanged and sets the copyable flag, so checking the updated node again gives the same outcome. |
| Types.MoveThenMovedOut | project/salt/src/types.rs:316-319 | Reading any other place returns its type from before the move and applies the move. Reading it again fails `MovedOut`. |
| Types.LetMutDropsItsScope | project/salt/src/types.rs:330-343 | A successful `let mut` leaves no binding tagged with the fresh lifetime, not even its own variable. Every other binding is as the initializer left it. |
| Types.AssignKeepsMoveOnFailedWrite | project/salt/src/types.rs:345-349 | When the write of an assignment fails, the move made by the right-hand side persists. |
| Types.AssignThroughImmRefStillMoves | project/salt/src/types.rs:345-349 | In an instance, `*r = a` with `r` an immutable reference fails `UpdateBehindImmRef` and still leaves `a` moved out. |
| Types.Env.constructor | project/salt/src/types.rs:37-38 | A new environment is empty. |
| Types.Env.Insert | project/salt/src/types.rs:61-63 | Insert binds or overwrites exactly one name with the given type and lifetime. |
| Types.Env.Contained | project/salt/src/types.rs:87-98 | The result is present exactly when the name is bound and its core under all Boxes is not Undefined. It is then that core. |
| Types.Env.Moove | project/salt/src/types.rs:113-136 | The in-place walk produces exactly the `Moved` environment or error. On an error nothing changes. |
| Types.Env.Muut | project/salt/src/types.rs:139-192 | The loop answers exactly `MutablePath` without changing the environment. That is false on an unbound base or referent, an immutable Ref anywhere on the chain, or a non-pointer while derefs remain. |
| Types.Env.Write | project/salt/src/types.rs:207-256 | The in-place write produces exactly the `Written` environment or error. On an error nothing changes. |
| Types.Env.Drop | project/salt/src/types.rs:258-260 | The environment becomes `Dropped(old, l)`. |
| Types.Context.constructor | project/salt/src/types.rs:269-273 | A new checker has an empty environment and an empty lifetime stack. |
| Types.Context.FreshLifetime | project/salt/src/types.rs:358-360 | The fresh lifetime's ordinal is the stack height, so it is not on a well-formed stack. |
| Types.Context.TypeExpr | project/salt/src/types.rs:299-324 | Checking in place gives the result, environment and node of `CheckExpr`. |
| Types.Context.TypeStmt | project/salt/src/types.rs:326-356 | Checking in place gives the outcome of `CheckStmt` at the current stack height and leaves the lifetime stack as it was. |
| Eval.Updated | project/salt/src/eval.rs:38-47 | A write keeps the key set and the slot's lifetime, stores the new value, and leaves every other slot unchanged. |
| Eval.Evaluate | project/salt/src/eval.rs:63-121 | The reference semantics of an expression. The box counter never decreases; `EvaluateCounts` gives the exact amount. |
| Eval.Execute | project/salt/src/eval.rs:123-145 | The reference semantics of a statement. The box counter never decreases. |
| Eval.ExecuteAll | project/salt/src/eval.rs:99-101 | The statements run in order. The box counter never decreases. |
| Eval.EvaluateCounts | project/salt/src/eval.rs:76-89 | Evaluation advances the counter by exactly the number of Box nodes evaluated, and no box location at or above the counter ever exists. |
| Eval.ExecuteCounts | project/salt/src/eval.rs:123-145 | The same holds for one statement. |
| Eval.ExecuteAllCounts | project/salt/src/eval.rs:99-101 | The same holds for a statement list. |
| Eval.ReadsChangeNothing | project/salt/src/eval.rs:65-94 | Literals, place reads and borrows leave store and counter unchanged. An Int yields itself, Unit yields Unit, a read yields the stored value, and a borrow yields a non-owning Ref to the variable. |
| Eval.BoxAllocatesFresh | project/salt/src/eval.rs:76-89 | A Box stores the inner value, tagged with the ambient lifetime, at a box location that did not exist. The location is numbered after every box the inner expression made. The Box returns an owning Ref and advances the counter by one. |
| Eval.NestedBoxes | project/salt/src/eval.rs:76-89 | In `Box(Box(n))` the inner box gets the lower number, and the outer box owns it. |
| Eval.BlockExit | project/salt/src/eval.rs:96-119 | A block yields its tail's value. On exit it removes exactly the locations that Refs held in its new locations point to. |
| Eval.BorrowInBlockDropsOuter | project/salt/src/eval.rs:96-119 | In `{ let mut r = &x; }` block exit removes the outer `x`, because the drop ignores the owned flag, and keeps `r`. |
| Eval.HeldValues | project/salt/src/eval.rs:105-114 | The values stored at the new keys, one per key and borrows included, reference exactly the locations those keys' Refs point to. |
| Eval.Store.constructor | project/salt/src/eval.rs:22-23 | A new store is empty. |
| Eval.Store.Locate | project/salt/src/eval.rs:26-29 | A place with no dereferences is located at its own variable. |
| Eval.Store.Read | project/salt/src/eval.rs:31-36 | Reading a present variable gives the slot stored there. |
| Eval.Store.Write | project/salt/src/eval.rs:38-47 | A write returns the previous value, stores the new one, and keeps the lifetime and all other slots. |
| Eval.Store.Drop | project/salt/src/eval.rs:49-55 | The store loses exactly the targets of the listed Refs. |
| Eval.Context.constructor | project/salt/src/eval.rs:58-61 | A new evaluator has an empty store and a box counter of 0. |
| Eval.Context.FreshLocation | project/salt/src/eval.rs:147-151 | The fresh location is box number `counter`, and the counter advances by one. |
| Eval.Context.EvalExpr | project/salt/src/eval.rs:63-121 | In-place evaluation gives the value, store and counter of `Evaluate`. |
| Eval.Context.EvalBlock | project/salt/src/eval.rs:96-119 | Running a block in place gives the value, store and counter of `Evaluate` on the block. |
| Eval.Context.RunStmts | project/salt/src/eval.rs:99-101 | Running statements in order gives the state of `ExecuteAll`. |
| Eval.Context.EvalStmt | project/salt/src/eval.rs:123-145 | In-place execution gives the state of `Execute`. |
| Godel.Primes.constructor | mock-midterm/src/main.rs:90-97 | A new iterator has recorded no primes, and `current` is 1. |
| Godel.Primes.Next | mock-midterm/src/main.rs:99-110 | The yielded number is prime and exceeds the previous one, and no prime lies between them. It is appended to the record, so the record stays exactly the first primes in order. |
| Godel.NextCandidatePrime | mock-midterm/src/main.rs:99-110 | The first number that no recorded prime divides is the next prime. |
| Godel.ProductSuccessor | mock-midterm/src/main.rs:99-110 | No recorded prime divides one more than their product, so trial division always finds a next prime. |
| Godel.FirstPrimesUnique | mock-midterm/src/main.rs:99-110 | Any two gap-free prime listings agree where both are defined. |
| Godel.TryFrom | mock-midterm/src/main.rs:62-77 | More than 100 words gives `Overflow`. Otherwise the words are kept in order, exactly its words are keys, and each maps to its last 1-based position. |
| Godel.Codes | mock-midterm/src/main.rs:119-126 | The codes of the known words of a sequence, in order. There are at most as many as words, and each is a value of the table. |
| Godel.PowProduct | mock-midterm/src/main.rs:117-129 | The product of each prime raised to its exponent. `PowProductPositive` proves it is at least 1. |
| Godel.Encode | mock-midterm/src/main.rs:117-129 | The result is the product over the first primes of the k-th prime raised to the code of the k-th known word. Unknown words use no prime. |
| Godel.EncodeExponent | mock-midterm/src/main.rs:112-129 | The exponent of the k-th prime in an encoding is the code of the k-th known word. |
| Godel.Strip | mock-midterm/src/main.rs:144-147 | What remains after dividing out `p` is positive and not divisible by `p`. |
| Godel.StripDecomposes | mock-midterm/src/main.rs:144-147 | The count and the remainder multiply back to the input: `n = p^count * rest`. |
| Godel.StripOut | mock-midterm/src/main.rs:142-148 | The division loop computes exactly `Strip`. |
| Godel.Repeat | mock-midterm/src/main.rs:149-151 | `s` repeated `c` times has length `c * |s|`. |
| Godel.Peel | mock-midterm/src/main.rs:140-152 | The text and the remainder after dividing out each prime in turn. The remainder is at least 1. |
| Godel.DecodeWith | mock-midterm/src/main.rs:137-158 | The text when only the given primes divide `n`, otherwise None. Decoding 1 gives the empty text. |
| Godel.StripCofactor | mock-midterm/src/main.rs:144-147 | Multiplying by a number the prime does not divide leaves the division count unchanged and scales the rest. |
| Godel.PeelFactors | mock-midterm/src/main.rs:140-152 | After dividing out distinct primes in turn, the text repeats the i-th word as often as the i-th prime divides `n`, and `n` is the product of those prime powers times what is left. |
| Godel.DecodeWithExponents | mock-midterm/src/main.rs:137-158 | For every `n`, decoding with the first primes gives the i-th word repeated by the exponent of the i-th prime in `n`. It succeeds exactly when those prime powers multiply back to `n`. |
| Godel.Decode | mock-midterm/src/main.rs:137-158 | Decoding divides out the first `|words|` primes in turn, repeating the i-th word once per factor. It succeeds exactly when 1 is left. With no words, 0 decodes to None. |
| Godel.DecodeIsNotInverse | mock-midterm/src/main.rs:131-151 | With words a, b, the sequence [b] encodes as 4, which `decode` reads as "aa" (an instance of `DecodeWithExponents`). Decoding by codes reads it as "b". |
| Godel.CodesText | mock-midterm/src/main.rs:131-136 | The words with the given codes, rendered and joined. It is present exactly when every entry is a code, between 1 and the number of words. |
| Godel.DecodeCodes | mock-midterm/src/main.rs:131-136 | Decoding as the comment describes: present exactly when `n` is the product of the given primes raised to its exponents and every exponent is a word code. |
| Godel.DecodeCodesOfEncode | mock-midterm/src/main.rs:131-136 | Decoding by codes, as the comment on `decode` describes, gives back exactly the known words of any encoded sequence. |

## Left out

- The `todo!()` arms of `type_expr` for Box, Borrow and Block (project/salt/src/types.rs:322) are excluded by the precondition `Implemented`. They are not reconstructed from the tests.
- Test expectations that the code contradicts are not modelled. These are the alias errors, shadowing, cascading drop, deref-based store access, moving out on read, and a block freeing its own let-bindings. The code is modelled instead.
- The error variants the code never constructs are declared but never produced.
- `lifetime_contains` and `well_formed` (project/salt/src/types.rs:277-297) are private and never called.
- `compatible` ignores its `self` receiver, so `Compatible` takes no environment.
- Types.TypeLval, Types.Deref, Types.Step, Types.ReadProhibited, Types.WriteProhibited, Types.MutWalk, Types.MutablePath, Types.WriteTarget, Types.Written, Types.CheckExpr, Types.CheckStmt, Types.Env.Muut, Types.Env.Write, Types.Context.TypeExpr, Types.Context.TypeStmt: these require `Acyclic` on the whole environment. The code loops on some cyclic environments, such as `x: Ref(x, 1)`. It stops on others, which the model does not cover: `x: Ref(x, 0)`, a cycle entered through an immutable Ref, and a cycle the walk never reaches.
- Godel.Decode: requires `n >= 1` or an empty word list. For `n = 0` and at least one word, the division loop (mock-midterm/src/main.rs:144-147) never ends, because 0 is a multiple of every prime and 0 divided by a prime is 0. With no words the loop does not run, and `decode(0)` returns None (main.rs:153-157); the model proves that case.
- Types.Context.TypeStmt: this requires acyclicity only on entry. A write through a mutable Ref can create a cycle, and nothing later in the same statement chases Refs.
- Eval.Context.EvalExpr, Eval.Context.EvalStmt: the code's panics become preconditions. The cases are a non-zero deref count, an unknown location and a moved-out value.
- The `usize` counter and lifetimes, and the `u32` exponent cast in `encode`, are unbounded here. Overflow is not modelled.
- HashMap iteration order is not modelled. Key sets are Dafny sets, and `HeldValues` picks keys in an unspecified order, which `Store.Drop` does not depend on.
- `Display::to_string` is the parameter `show`.
- Eval.Context.constructor: it stands for the `Context::default()` that the tests call (project/salt/src/part_1_tests.rs:238). The source's `Context` (project/salt/src/eval.rs:58-61) derives no `Default`, so that call does not compile as written.
- `RefStack` and `main` in the mock midterm, and the other exercises in the repository, are not part of this model.
- project/salt/src/lib.rs and the lexer and parser modules it names are not part of this model.

## Findings

| source | as written | input that shows it | evidently intended | confidence | as-written member | corrected member |
|---|---|---|---|---|---|---|
| mock-midterm/src/main.rs:141-151 | `decode` appends the i-th word once per factor of the i-th prime, so a code is read as a repeat count (`DecodeWithExponents`). | Words a, b (codes 1, 2) and the sequence [b]: `encode` gives 2^2 = 4, and `decode(4)` gives "aa". | The comment at lines 131-136 reads each exponent as a word code, so 4 decodes to "b" and decoding inverts `encode`. | high (proved; not executed) | Godel.DecodeIsNotInverse | Godel.DecodeCodesOfEncode |
