# chigusa front end: scopes, source locations and loop control, in Dafny

This project models two small cores of the chigusa compiler front end and
proves properties of them.

- **Symbol table** (`src/c0/ast.rs`). A `Scope` is an insertion-ordered map
  from names to symbol definitions, with an optional link to its enclosing
  scope. `insert_def` refuses a name the scope already binds
  (`NameConflict`). It then refuses a name that does not match
  `^[_a-zA-Z][_a-zA-Z0-9]*$` (`InvalidName`). Otherwise it appends the
  binding. `find_def_self` looks in the local map only. `find_def` looks
  locally and then up the chain, so the innermost binding wins. The
  operator enum `OpVar` has the classifiers `is_binary` and `is_unary`. The
  type definitions (`TypeDef` and its parts), `SymbolDef` and `ScopeError`
  are plain datatypes.
- **Prelude** (`src/prelude.rs`). `Pos` holds a line, a column and an
  absolute offset. It has pure advances (`bump`, `inc`, `lf`, `map_inc`)
  and in-place twins (`bump_self`, `inc_self`, `lf_self`). `Pos` is ordered
  by offset alone. `Span` has the checked constructor `from`, plus `point`,
  `zero` and union (`+`). `LoopCtrl<T>` converts from `Option`, and to and
  from `Result`. It drives the loops `loop_while` and `loop_while_check`.

Layout:

- `wrappers.dfy` (module `Wrappers`): Rust's `Option` and `Result`.
- `prelude.dfy` (module `Prelude`): `Pos`, `PosCell`, `Span`, `LoopCtrl` and the two drivers.
- `ast.dfy` (modules `Ast` and `Ops`): type data, the identifier pattern, scopes, and `OpVar`.

How the model is built:

- **Scope chain.** The chain is an arena. A `seq<Scope>` is addressed by
  index, and each scope's `last` is the index of its enclosing scope.
  `Linked` requires that index to be smaller than the scope's own, which
  makes every chain finite.
- **Scope.** A scope keeps its key order in `keys` and its bindings in
  `defs`. `ScopeValid` is the insertion-ordered map's own invariant.
- **insert_def.** It changes one scope in place. It is the method
  `ScopeArena.InsertDef`, whose new state is stated through the pure
  `TryInsert` and `InsertInto`. The lemmas about lookup work on those
  functions.
- **Closures.** The closure the loop drivers call is an `FnMut`. It is
  modelled as a total step `S -> (S, output)` on an explicit captured
  state `S`. The drivers return the final state beside the result.
- **Integers.** `usize` is modelled as `nat` and `isize` as `int`.

## Model

| member | source | states |
|---|---|---|
| `Prelude.PosZero` | src/prelude.rs:27-33 | all three fields are 0, and the result is `<=` every position |
| `Prelude.Bump` | src/prelude.rs:37-40 | only `index` grows, by 1; the result compares `Greater` than the input |
| `Prelude.Inc` | src/prelude.rs:44-48 | `pos` and `index` grow by 1, `ln` is kept; the result compares `Greater` |
| `Prelude.Lf` | src/prelude.rs:52-57 | `pos` becomes 0, `ln` and `index` grow by 1; the result compares `Greater` |
| `Prelude.Shift` | src/prelude.rs:61-65 | the two branches (add an offset of 0 or more, subtract the magnitude of a negative one) are signed addition; a result below zero is excluded, because it underflows `usize` (a panic with overflow checks on, a wrap without them) |
| `Prelude.MapInc` | src/prelude.rs:60-77 | each field moves by its own signed offset; no field may go below zero |
| `Prelude.AdvancesAreMapIncs` | src/prelude.rs:37-77 | `bump`, `inc` and `lf` equal `map_inc` with offsets (0,0,1), (1,0,1) and (-pos,1,1) |
| `Prelude.MapIncRoundTrip` | src/prelude.rs:60-77 | `map_inc` by the negated offsets restores the position |
| `Prelude.PosCell.IncSelf` | src/prelude.rs:80-83 | afterwards the stored position is `inc` of the old one |
| `Prelude.PosCell.LfSelf` | src/prelude.rs:86-90 | afterwards the stored position is `lf` of the old one |
| `Prelude.PosCell.BumpSelf` | src/prelude.rs:93-95 | afterwards the stored position is `bump` of the old one |
| `Prelude.Cmp` | src/prelude.rs:114-118 | `cmp` is `Less`, `Equal` or `Greater` exactly as the first offset is below, equal to or above the second; lines and columns play no part |
| `Prelude.Le` | src/prelude.rs:128 | the `<=` that `Span::from` asserts holds exactly when the first offset is at most the second |
| `Prelude.PartialCmp` | src/prelude.rs:108-112 | `partial_cmp` is always `Some` and agrees with `cmp` |
| `Prelude.CmpIsTotalPreorder` | src/prelude.rs:114-118 | `cmp` is reflexive, antisymmetric (swap the arguments and the ordering flips) and transitive; it is `Equal` exactly when the offsets are equal; `<=` is `<=` on offsets |
| `Prelude.CmpEqualIsNotEquality` | src/prelude.rs:15-118 | two positions can compare `Equal` and still differ under the derived `==` |
| `Prelude.MinPos` | src/prelude.rs:198 | `std::cmp::min` returns one argument, the smaller offset, and returns the second only when it is strictly smaller |
| `Prelude.MaxPos` | src/prelude.rs:199 | `std::cmp::max` returns one argument, the larger offset, and returns the first only when it is strictly greater |
| `Prelude.SpanFrom` | src/prelude.rs:127-130 | callers must give `start <= end` (the asserted invariant), and the span keeps both ends |
| `Prelude.Point` | src/prelude.rs:132-134 | a point span is well-formed, with both ends at the position |
| `Prelude.SpanZero` | src/prelude.rs:136-138 | the zero span is well-formed and is the point span at `Pos::zero` |
| `Prelude.Add` | src/prelude.rs:197-204 | the start with the smaller offset (ties keep the left start) and the end with the larger offset (ties keep the right end); the union covers both operands and is well-formed when both are |
| `Prelude.AddIsLeastCover` | src/prelude.rs:150-152 | every span that covers both operands also covers their union |
| `Prelude.AddAlgebra` | src/prelude.rs:197-204 | union is associative and idempotent, and commutative up to the offsets of its ends |
| `Prelude.AddTieKeepsLeftStart` | src/prelude.rs:198 | with equal start offsets but different lines, the two argument orders give different starts |
| `Prelude.AddDocExample` | src/prelude.rs:156-196 | the documented example: offsets 0..2 plus 4..8 give 0..8, in either order |
| `Prelude.Unwrap` | src/prelude.rs:287-292 | defined only on `Stop` (`Continue` panics), and the result is that `Stop`'s payload |
| `Prelude.IsContinue` | src/prelude.rs:294-299 | true exactly for `Continue` |
| `Prelude.FromOption` | src/prelude.rs:302-309 | `None` gives `Continue`; `Some(v)` gives a `Stop` whose payload is `v` |
| `Prelude.FromResult` | src/prelude.rs:311-318 | `Ok(())` gives `Continue`; `Err(e)` gives a `Stop` whose payload is `e` |
| `Prelude.IntoResult` | src/prelude.rs:320-334 | the conversion back to `Result` (also `into_result`) is undone by `FromResult` |
| `Prelude.ResultRoundTrip` | src/prelude.rs:311-327 | converting a `Result<(), T>` to `LoopCtrl` and back gives the same value |
| `Prelude.FromOptionInjective` | src/prelude.rs:302-309 | distinct options give distinct controls |
| `Prelude.IterShift` | src/prelude.rs:349-351 | one step followed by `k` steps is `k + 1` steps |
| `Prelude.FirstStopUnique` | src/prelude.rs:349-353 | a step sequence has at most one first `Stop`, with one payload |
| `Prelude.VariantHalts` | src/prelude.rs:343-354 | a step that lowers a natural-number measure whenever it continues always reaches a `Stop` |
| `Prelude.LoopWhile` | src/prelude.rs:343-354 | the step is called at least once; the result is the payload of the first `Stop`, every earlier call returned `Continue`, and the final state is the one after exactly that many calls |
| `Prelude.LoopWhileCheck` | src/prelude.rs:356-365 | the step is called at least once; every call before the last returned `Ok(Continue)`; the last call's `Err(e)` is returned as `Err(e)`, and its `Ok(Stop(x))` as `Ok(x)` |
| `Ast.IsIdent` | src/c0/ast.rs:73-74 | a name matches `^[_a-zA-Z][_a-zA-Z0-9]*$` exactly when it is non-empty, does not start with a digit, and every character is a letter, a digit or `_` |
| `Ast.IdentTailIsAllIdentChars` | src/c0/ast.rs:73-74 | the unrolled star `[_a-zA-Z0-9]*$` accepts exactly the strings made up of those characters |
| `Ast.IsIdentMatchesPattern` | src/c0/ast.rs:73-74 | the identifier predicate accepts exactly what the anchored pattern matches |
| `Ast.IdentExamples` | src/c0/ast.rs:73-74 | `_`, `x`, `_tmp0` and `Foo_Bar9` are accepted; the empty name, `1x`, `a-b` and a name ending in a line feed are refused |
| `Ast.FindDefSelf` | src/c0/ast.rs:56-58 | `find_def_self` finds a definition exactly when the local map binds the name, and returns that binding |
| `Ast.FindDef` | src/c0/ast.rs:48-54 | `find_def` returns the local binding when there is one; a root scope that lacks the name gives `None`; anything found is the binding of some scope at or before this one in the arena |
| `Ast.Chain` | src/c0/ast.rs:42-45 | the chain starts at the scope, follows each `last` link, only ever moves outward, and ends at a root |
| `Ast.FirstBinder` | src/c0/ast.rs:48-53 | the first position on a chain whose scope binds the name: no earlier scope binds it; the chain length when none does |
| `Ast.FindDefIsInnermost` | src/c0/ast.rs:48-54 | `find_def` returns the binding of the innermost scope on the chain that binds the name, and `None` when none does |
| `Ast.FindDefNoneIffUnbound` | src/c0/ast.rs:48-54 | `find_def` is `None` exactly when no scope on the chain binds the name |
| `Ast.FindDefUnfolds` | src/c0/ast.rs:48-53 | a local binding wins over everything further out; a local miss gives the enclosing scope's `find_def`, or `None` at a root |
| `Ast.FindDefSelfIgnoresAncestors` | src/c0/ast.rs:48-58 | for a name the scope lacks but its enclosing scope binds, `find_def_self` gives `None` while `find_def` gives the enclosing binding |
| `Ast.TryInsert` | src/c0/ast.rs:60-71 | `insert_def` as a value: `NameConflict` exactly when the name is already bound, then `InvalidName` exactly when it fails the pattern; an error leaves the scope unchanged; a success keeps the link, appends the name to the key order and binds it to the definition |
| `Ast.InsertOutcomes` | src/c0/ast.rs:60-71 | `NameConflict` exactly when the scope already binds the name; `InvalidName` exactly when it does not and the name fails the pattern; `Ok` otherwise; a failed insert leaves the scope unchanged |
| `Ast.InsertSuccess` | src/c0/ast.rs:64-66 | after a successful insert `find_def_self(name)` gives the new definition, the name is last in the key order, the link is kept, and every other name's lookup is unchanged |
| `Ast.InsertPreservesValid` | src/c0/ast.rs:64-66 | an insert keeps each key once, and keeps the key order equal to the map's domain |
| `Ast.SecondInsertConflicts` | src/c0/ast.rs:60-62 | inserting a name a second time is a `NameConflict`, and the first definition stays |
| `Ast.InsertInto` | src/c0/ast.rs:64-66 | an insert changes no scope's enclosing link and no arena length, so the chains stay finite |
| `Ast.InsertKeepsOtherNames` | src/c0/ast.rs:48-66 | after an insert, chained lookup of every other name is unchanged from every scope |
| `Ast.InsertInvisibleOutside` | src/c0/ast.rs:48-66 | after an insert into a scope, chained lookups from the scopes created before it are unchanged |
| `Ast.InnerDeclarationShadows` | src/c0/ast.rs:48-71 | a valid name bound only further out can still be declared in the inner scope; lookup from there gives the new definition, while lookup from the enclosing scope is unchanged |
| `Ast.ScopeArena.NewScope` | src/c0/ast.rs:42-45 | a new empty scope with the given enclosing scope is appended, and the arena stays linked and valid |
| `Ast.ScopeArena.InsertDef` | src/c0/ast.rs:60-71 | the conflict check comes before the pattern check; an error changes no scope; a success appends the name to the key order and binds it, and the arena stays valid |
| `Ops.IsBinary` | src/c0/ast.rs:359-365 | `is_binary` holds for no unary or parser-only operator; it is the documented binary group plus `_Asn`, minus `And`, `Or`, `Xor`, `Ban` and `Bor` |
| `Ops.IsUnary` | src/c0/ast.rs:368-374 | `is_unary` holds for no operator of the documented binary group, no parser-only operator and not `_Asn` |
| `Ops.ArityClassesDisjoint` | src/c0/ast.rs:357-375 | no operator is both binary and unary; `_Lpr`, `_Rpr`, `_Com`, `_Csn` and `_Dum` are neither |
| `Ops.LogicalAndBitwiseNotBinary` | src/c0/ast.rs:359-365 | as written, `And`, `Or`, `Xor`, `Ban` and `Bor` are documented as binary but are neither binary nor unary |
| `Ops.IntendedArityPartition` | src/c0/ast.rs:284-375 | with the five added to the binary class, every operator is exactly one of binary, unary or parser-only, and the classifier agrees with `is_binary` on every other operator |

## Left out

- `Ptr<T>` (`Rc<RefCell<T>>`), with its run-time borrow checks and `downgrade`, is left out. It is ownership plumbing. Definitions are stored as values and scopes as arena indices, so aliasing of shared definitions is not modelled.
- An enclosing scope is held through a strong `Ptr<Scope>` in `last`, not a weak one, so no failed upgrade exists to model. The arena index plays its part.
- The `Display` impls, the `set!` macro, `variant_eq` and the `AstNode` trait are left out. They are formatting and helpers with nothing to state.
- `Try::from_error` and `Try::from_ok` are left out (unstable trait plumbing). `into_result` is modelled as `IntoResult`.
- The `regex` crate is not modelled. The one pattern it compiles is modelled as the predicate `IsIdent`.
- The typed-AST node structs are not modelled: `Program`, `VarDef`, `Stmt`, `Expr`, `Literal`, `Block` and the rest. They are data declarations with no behaviour, and `ramp` big integers and floats appear only inside them.
- The commented-out `can_implicit_conv_to` and the commented-out `Span` subtraction are dead code and are left out.
- Type interning, struct layout and skip-n lookups are not implemented in `src/c0/ast.rs` or `src/prelude.rs`, so they are not part of this model.
- `InvalidSymbol` is declared, but `insert_def` never returns it.
- Widths: `usize` is unbounded `nat`, so overflow past 2^64 (a panic or a wrap in Rust) is not modelled. `isize` offsets are unbounded `int`, so negating `isize::MIN` in `map_inc` is not modelled.
- Prelude.MapInc: its `requires` excludes every field going below zero. In Rust that subtraction panics with overflow checks on (debug builds) and wraps modulo 2^64 without them (default release builds); neither the panic nor the wrap is modelled.
- Prelude.LoopWhile: modelled only for steps that eventually return `Stop` (`Halts`). The source also runs steps that never stop, and those loop forever with no result.
- Prelude.LoopWhileCheck: modelled only for steps that eventually return `Err` or `Ok(Stop(_))` (`HaltsCheck`), for the same reason.

## Findings

| source | as written | input that shows it | evidently intended | confidence | as-written member | corrected member |
|---|---|---|---|---|---|---|
| src/c0/ast.rs:359-365 | `is_binary` returns false for `And`, `Or`, `Xor`, `Ban` and `Bor`, although the enum's doc comments list them in the binary group. `is_unary` also returns false for them, so they receive no arity. | `OpVar::And` (`&&`) | the whole documented binary group, plus `_Asn`, is binary, so every operator has exactly one class | low, not executed | `Ops.LogicalAndBitwiseNotBinary` | `Ops.IntendedArityPartition` |

The operator classifiers are used by nothing else in this model. `IsBinary` is kept as written, and `IsBinaryIntended` is the corrected classifier.
