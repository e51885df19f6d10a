/** Source locations (`Pos`, `Span`) and the loop-control helper `LoopCtrl`
    with its two drivers, as the compiler's prelude defines them.
    Rust's `usize` is modelled as `nat` and `isize` as `int`. */
module Prelude {
  import opened Wrappers

  // ---------------------------------------------------------------------
  // Positions
  // ---------------------------------------------------------------------

  /** A position in the source text: line `ln`, column `pos` and absolute
      character offset `index`. `Pos::new(ln, pos, index)` is the datatype
      constructor. The derived equality compares all three fields. */
  datatype Pos = Pos(ln: nat, pos: nat, index: nat)

  /** `Pos::zero`: the start of the text, the least position of all. */
  function PosZero(): (p: Pos)
    ensures p.ln == 0 && p.pos == 0 && p.index == 0
    ensures forall q: Pos :: Le(p, q)
  {
    Pos(0, 0, 0)
  }

  /** `bump`: one raw offset forward, line and column unchanged. */
  function Bump(p: Pos): (r: Pos)
    ensures r.ln == p.ln && r.pos == p.pos && r.index == p.index + 1
    ensures Cmp(p, r) == Less
  {
    p.(index := p.index + 1)
  }

  /** `inc`: one column forward on the same line. */
  function Inc(p: Pos): (r: Pos)
    ensures r.ln == p.ln && r.pos == p.pos + 1 && r.index == p.index + 1
    ensures Cmp(p, r) == Less
  {
    p.(pos := p.pos + 1, index := p.index + 1)
  }

  /** `lf`: past a line feed, to column 0 of the next line. */
  function Lf(p: Pos): (r: Pos)
    ensures r.ln == p.ln + 1 && r.pos == 0 && r.index == p.index + 1
    ensures Cmp(p, r) == Less
  {
    p.(pos := 0, ln := p.ln + 1, index := p.index + 1)
  }

  /** One field of `map_inc`: a non-negative offset is added as `usize`, a
      negative one is subtracted by its magnitude. Subtraction below zero
      underflows `usize` in the source (a panic with overflow checks on, a
      wrap modulo 2^64 without them), so the caller must rule it out. */
  function Shift(x: nat, offset: int): (r: nat)
    requires x + offset >= 0
    ensures r == x + offset
  {
    if offset >= 0 then x + offset else x - (-offset)
  }

  /** `map_inc(pos_offset, ln_offset, index_offset)`: moves each field by a
      signed offset; no field may go below zero (see `Shift`). */
  function MapInc(p: Pos, posOffset: int, lnOffset: int, indexOffset: int): (r: Pos)
    requires p.pos + posOffset >= 0 && p.ln + lnOffset >= 0 && p.index + indexOffset >= 0
    ensures r.pos == p.pos + posOffset && r.ln == p.ln + lnOffset && r.index == p.index + indexOffset
  {
    Pos(ln := Shift(p.ln, lnOffset), pos := Shift(p.pos, posOffset), index := Shift(p.index, indexOffset))
  }

  /** The three single-step advances are instances of `map_inc`. */
  lemma AdvancesAreMapIncs(p: Pos)
    ensures Bump(p) == MapInc(p, 0, 0, 1)
    ensures Inc(p) == MapInc(p, 1, 0, 1)
    ensures Lf(p) == MapInc(p, -(p.pos as int), 1, 1)
  {
  }

  /** `map_inc` by the negated offsets undoes `map_inc`. */
  lemma MapIncRoundTrip(p: Pos, dp: int, dl: int, di: int)
    requires p.pos + dp >= 0 && p.ln + dl >= 0 && p.index + di >= 0
    ensures MapInc(MapInc(p, dp, dl, di), -dp, -dl, -di) == p
  {
  }

  /** The in-place twins `inc_self`, `lf_self` and `bump_self` act on a
      mutable `Pos` location, modelled as this cell. */
  class PosCell {
    var ln: nat
    var pos: nat
    var index: nat

    /** The position currently stored in the cell. */
    function Value(): (p: Pos)
      reads this
    {
      Pos(ln, pos, index)
    }

    constructor (p: Pos)
      ensures Value() == p
    {
      ln, pos, index := p.ln, p.pos, p.index;
    }

    /** `inc_self`: afterwards the cell holds what `inc` returns. */
    method IncSelf()
      modifies this
      ensures Value() == Inc(old(Value()))
    {
      pos := pos + 1;
      index := index + 1;
    }

    /** `lf_self`: afterwards the cell holds what `lf` returns. */
    method LfSelf()
      modifies this
      ensures Value() == Lf(old(Value()))
    {
      pos := 0;
      ln := ln + 1;
      index := index + 1;
    }

    /** `bump_self`: afterwards the cell holds what `bump` returns. */
    method BumpSelf()
      modifies this
      ensures Value() == Bump(old(Value()))
    {
      index := index + 1;
    }
  }

  // ---------------------------------------------------------------------
  // Ordering of positions
  // ---------------------------------------------------------------------

  datatype Ordering = Less | Equal | Greater

  /** The reverse of an ordering. */
  function Flip(o: Ordering): (r: Ordering)
    ensures r == Less <==> o == Greater
    ensures r == Greater <==> o == Less
  {
    match o
    case Less => Greater
    case Equal => Equal
    case Greater => Less
  }

  /** `usize::cmp`. */
  function CmpNat(x: nat, y: nat): (o: Ordering)
    ensures o == Less <==> x < y
    ensures o == Greater <==> y < x
  {
    if x < y then Less else if x == y then Equal else Greater
  }

  /** `Ord::cmp` for `Pos`: compares `index`, nothing else. */
  function Cmp(a: Pos, b: Pos): (o: Ordering)
    ensures o == Less <==> a.index < b.index
    ensures o == Equal <==> a.index == b.index
    ensures o == Greater <==> b.index < a.index
  {
    CmpNat(a.index, b.index)
  }

  /** `PartialOrd::partial_cmp` for `Pos`: always defined, and in agreement
      with `cmp` as Rust requires of the two implementations. */
  function PartialCmp(a: Pos, b: Pos): (o: Option<Ordering>)
    ensures o == Some(Cmp(a, b))
  {
    Some(CmpNat(a.index, b.index))
  }

  /** Rust's `<=` on `Pos`, derived from `partial_cmp`. */
  predicate Le(a: Pos, b: Pos)
    ensures Le(a, b) <==> a.index <= b.index
  {
    PartialCmp(a, b) == Some(Less) || PartialCmp(a, b) == Some(Equal)
  }

  /** `cmp` is a total preorder on positions and is determined by `index`. */
  lemma CmpIsTotalPreorder(a: Pos, b: Pos, c: Pos)
    ensures Cmp(a, a) == Equal
    ensures Cmp(b, a) == Flip(Cmp(a, b))
    ensures Cmp(a, b) != Greater && Cmp(b, c) != Greater ==> Cmp(a, c) != Greater
    ensures Cmp(a, b) == Equal <==> a.index == b.index
    ensures Le(a, b) <==> a.index <= b.index
  {
  }

  /** Equality under `cmp` is weaker than the derived `==`: two positions
      on different lines with the same offset compare `Equal`. */
  lemma CmpEqualIsNotEquality()
    ensures Cmp(Pos(0, 3, 7), Pos(1, 0, 7)) == Equal && Pos(0, 3, 7) != Pos(1, 0, 7)
  {
  }

  /** `std::cmp::min`: the second argument only if it is strictly smaller. */
  function MinPos(a: Pos, b: Pos): (r: Pos)
    ensures r == a || r == b
    ensures r.index <= a.index && r.index <= b.index
    ensures b.index < a.index <==> r != a
  {
    if Cmp(a, b) == Greater then b else a
  }

  /** `std::cmp::max`: the first argument only if it is strictly greater. */
  function MaxPos(a: Pos, b: Pos): (r: Pos)
    ensures r == a || r == b
    ensures a.index <= r.index && b.index <= r.index
    ensures a.index > b.index <==> r != b
  {
    if Cmp(a, b) == Greater then a else b
  }

  // ---------------------------------------------------------------------
  // Spans
  // ---------------------------------------------------------------------

  /** A stretch of source text from `start` to `end`. */
  datatype Span = Span(start: Pos, end: Pos)

  /** The invariant `Span::from` asserts: the start is not after the end. */
  predicate WellFormed(s: Span)
  {
    Le(s.start, s.end)
  }

  /** `outer` reaches at least as far as `inner` on both sides. */
  predicate Covers(outer: Span, inner: Span)
  {
    outer.start.index <= inner.start.index && inner.end.index <= outer.end.index
  }

  /** `Span::from`: a failed `assert!(start <= end)` is a panic, so the
      caller must supply ordered ends. */
  function SpanFrom(start: Pos, end: Pos): (s: Span)
    requires Le(start, end)
    ensures WellFormed(s) && s.start == start && s.end == end
  {
    Span(start, end)
  }

  /** `Span::point`: the empty span at one position. */
  function Point(p: Pos): (s: Span)
    ensures WellFormed(s) && s.start == p && s.end == p
  {
    SpanFrom(p, p)
  }

  /** `Span::zero`: the empty span at the start of the text. */
  function SpanZero(): (s: Span)
    ensures WellFormed(s) && s == Point(PosZero())
  {
    SpanFrom(PosZero(), PosZero())
  }

  /** Span `+`: the union of two spans, filling any gap between them.
      On equal offsets the start comes from `a` and the end from `b`. */
  function Add(a: Span, b: Span): (r: Span)
    ensures r.start == (if b.start.index < a.start.index then b.start else a.start)
    ensures r.end == (if a.end.index > b.end.index then a.end else b.end)
    ensures Covers(r, a) && Covers(r, b)
    ensures WellFormed(a) && WellFormed(b) ==> WellFormed(r)
  {
    Span(MinPos(a.start, b.start), MaxPos(a.end, b.end))
  }

  /** The union is the least span covering both operands. */
  lemma AddIsLeastCover(a: Span, b: Span, c: Span)
    requires Covers(c, a) && Covers(c, b)
    ensures Covers(c, Add(a, b))
  {
  }

  /** Union is associative and idempotent, and commutative up to the
      offsets of its ends. */
  lemma AddAlgebra(a: Span, b: Span, c: Span)
    ensures Add(Add(a, b), c) == Add(a, Add(b, c))
    ensures Add(a, a) == a
    ensures Add(a, b).start.index == Add(b, a).start.index
    ensures Add(a, b).end.index == Add(b, a).end.index
  {
  }

  /** Commutativity fails in full when two starts share an offset but not
      their line and column: the left operand's start wins. */
  lemma AddTieKeepsLeftStart()
    ensures Add(Span(Pos(0, 4, 4), Pos(0, 6, 6)), Span(Pos(1, 0, 4), Pos(1, 1, 5))).start == Pos(0, 4, 4)
    ensures Add(Span(Pos(1, 0, 4), Pos(1, 1, 5)), Span(Pos(0, 4, 4), Pos(0, 6, 6))).start == Pos(1, 0, 4)
  {
  }

  /** The documented example: offsets 0..2 plus 4..8 give 0..8, in either order. */
  lemma AddDocExample()
    ensures Add(Span(Pos(1, 1, 0), Pos(1, 3, 2)), Span(Pos(1, 5, 4), Pos(1, 9, 8)))
            == Span(Pos(1, 1, 0), Pos(1, 9, 8))
    ensures Add(Span(Pos(1, 5, 4), Pos(1, 9, 8)), Span(Pos(1, 1, 0), Pos(1, 3, 2)))
            == Span(Pos(1, 1, 0), Pos(1, 9, 8))
  {
  }

  // ---------------------------------------------------------------------
  // Loop control
  // ---------------------------------------------------------------------

  /** `LoopCtrl<T>`: stop with a payload, or go round again. */
  datatype LoopCtrl<+T> = Stop(payload: T) | Continue

  /** `unwrap`: the payload of a `Stop`; on `Continue` the source panics. */
  function Unwrap<T>(c: LoopCtrl<T>): (x: T)
    requires c.Stop?
    ensures c == Stop(x)
  {
    match c
    case Stop(x) => x
  }

  /** `is_continue`. */
  predicate IsContinue<T>(c: LoopCtrl<T>)
    ensures IsContinue(c) <==> c == Continue
  {
    match c
    case Continue => true
    case _ => false
  }

  /** `From<Option<T>>`: a value stops the loop, its absence continues it. */
  function FromOption<T>(o: Option<T>): (c: LoopCtrl<T>)
    ensures IsContinue(c) <==> o.None?
    ensures o.Some? ==> Unwrap(c) == o.value
  {
    match o
    case Some(v) => Stop(v)
    case None => Continue
  }

  /** `From<Result<(), T>>`: success continues, an error stops with it. */
  function FromResult<T>(r: Result<(), T>): (c: LoopCtrl<T>)
    ensures IsContinue(c) <==> r.Ok?
    ensures r.Err? ==> Unwrap(c) == r.error
  {
    match r
    case Ok(_) => Continue
    case Err(e) => Stop(e)
  }

  /** `Into<Result<(), T>>`, also `Try::into_result`: the inverse of `FromResult`. */
  function IntoResult<T>(c: LoopCtrl<T>): (r: Result<(), T>)
    ensures FromResult(r) == c
  {
    match c
    case Continue => Ok(())
    case Stop(x) => Err(x)
  }

  /** Converting a `Result<(), T>` to `LoopCtrl` and back is the identity. */
  lemma ResultRoundTrip<T>(r: Result<(), T>)
    ensures IntoResult(FromResult(r)) == r
  {
    match r
    case Ok(u) => assert u == ();
    case Err(_) =>
  }

  /** `FromOption` loses nothing: distinct options give distinct controls. */
  lemma FromOptionInjective<T>(o1: Option<T>, o2: Option<T>)
    ensures FromOption(o1) == FromOption(o2) ==> o1 == o2
  {
  }

  // ---------------------------------------------------------------------
  // Loop drivers
  // ---------------------------------------------------------------------

  // The closure the drivers call is an `FnMut`: it may change what it
  // captured. It is modelled as a total step on an explicit state `S`,
  // returning the next state and the step's output.

  /** The state after `n` calls of `step`, starting from `s`. */
  function Iter<S, O>(step: S -> (S, O), s: S, n: nat): (s': S)
  {
    if n == 0 then s else step(Iter(step, s, n - 1)).0
  }

  /** The output of call number `n` (counting from 0). */
  function Out<S, O>(step: S -> (S, O), s: S, n: nat): (o: O)
  {
    step(Iter(step, s, n)).1
  }

  /** Calling `step` first in `step(s)` and then `k` more times is `k + 1` calls from `s`. */
  lemma {:induction false} IterShift<S, O>(step: S -> (S, O), s: S, k: nat)
    ensures Iter(step, step(s).0, k) == Iter(step, s, k + 1)
  {
    if k > 0 {
      IterShift(step, s, k - 1);
    }
  }

  /** Some call of `step` from `s` stops the loop. */
  ghost predicate Halts<S, T>(step: S -> (S, LoopCtrl<T>), s: S)
  {
    exists k: nat :: Out(step, s, k).Stop?
  }

  /** Call number `k` is the first to stop, and it stops with `x`. */
  ghost predicate FirstStop<S, T>(step: S -> (S, LoopCtrl<T>), s: S, k: nat, x: T)
  {
    && (forall j: nat :: j < k ==> Out(step, s, j).Continue?)
    && Out(step, s, k) == Stop(x)
  }

  /** The first stop is unique. */
  lemma FirstStopUnique<S, T>(step: S -> (S, LoopCtrl<T>), s: S, k1: nat, x1: T, k2: nat, x2: T)
    requires FirstStop(step, s, k1, x1) && FirstStop(step, s, k2, x2)
    ensures k1 == k2 && x1 == x2
  {
  }

  /** A step that lowers a natural-number measure of the state whenever it
      continues halts from every state. */
  lemma {:induction false} VariantHalts<S, T>(step: S -> (S, LoopCtrl<T>), measure: S -> nat, s0: S)
    requires forall s :: step(s).1.Continue? ==> measure(step(s).0) < measure(s)
    ensures Halts(step, s0)
    decreases measure(s0)
  {
    if step(s0).1.Continue? {
      var s1 := step(s0).0;
      VariantHalts(step, measure, s1);
      var k: nat :| Out(step, s1, k).Stop?;
      IterShift(step, s0, k);
      assert Out(step, s0, k + 1).Stop?;
    } else {
      assert Out(step, s0, 0).Stop?;
    }
  }

  /** `loop_while`: calls `step` at least once and until it returns `Stop`,
      and returns that first `Stop`'s payload together with the final state
      of the closure: the state after call number `k`, that is after
      `k + 1` calls. */
  method LoopWhile<S, T>(step: S -> (S, LoopCtrl<T>), s0: S) returns (s: S, x: T)
    requires Halts(step, s0)
    ensures exists k: nat :: FirstStop(step, s0, k, x) && s == Iter(step, s0, k + 1)
  {
    var c: LoopCtrl<T> := Continue;
    s := s0;
    ghost var calls: nat := 0;
    ghost var k: nat :| Out(step, s0, k).Stop?;
    while IsContinue(c)
      invariant s == Iter(step, s0, calls)
      invariant calls == 0 ==> c.Continue?
      invariant calls > 0 ==> c == Out(step, s0, calls - 1)
      invariant forall j: nat :: j + 1 < calls ==> Out(step, s0, j).Continue?
      invariant c.Continue? ==> calls <= k
      decreases k + 1 - calls
    {
      var next := step(s);
      s, c := next.0, next.1;
      calls := calls + 1;
    }
    x := Unwrap(c);
    assert FirstStop(step, s0, calls - 1, x) && s == Iter(step, s0, (calls - 1) + 1);
  }

  /** The output of a fallible step ends the loop: an error or a `Stop`. */
  ghost predicate Decides<T, E>(r: Result<LoopCtrl<T>, E>)
  {
    r.Err? || r.value.Stop?
  }

  /** Some call of the fallible `step` from `s` ends the loop. */
  ghost predicate HaltsCheck<S, T, E>(step: S -> (S, Result<LoopCtrl<T>, E>), s: S)
  {
    exists k: nat :: Decides(Out(step, s, k))
  }

  /** Call number `k` is the first whose output ends the loop, and `r` is
      what the loop then returns: `Err(e)` for an `Err(e)`, `Ok(x)` for an
      `Ok(Stop(x))`. */
  ghost predicate FirstDecision<S, T, E>(step: S -> (S, Result<LoopCtrl<T>, E>), s: S, k: nat, r: Result<T, E>)
  {
    && (forall j: nat :: j < k ==> Out(step, s, j).Ok? && Out(step, s, j).value.Continue?)
    && ((Out(step, s, k).Err? && r == Err(Out(step, s, k).error))
        || (Out(step, s, k).Ok? && Out(step, s, k).value.Stop? && r == Ok(Out(step, s, k).value.payload)))
  }

  /** `loop_while_check`: calls `step` at least once; `Ok(Continue)` goes
      round again, the first `Err(e)` is returned at once as `Err(e)`, and
      the first `Ok(Stop(x))` ends the loop with `Ok(x)`. */
  method LoopWhileCheck<S, T, E>(step: S -> (S, Result<LoopCtrl<T>, E>), s0: S) returns (s: S, r: Result<T, E>)
    requires HaltsCheck(step, s0)
    ensures exists k: nat :: FirstDecision(step, s0, k, r) && s == Iter(step, s0, k + 1)
  {
    var next := step(s0);
    s := next.0;
    ghost var calls: nat := 1;
    if next.1.Err? {
      r := Err(next.1.error);
      assert FirstDecision(step, s0, 0, r) && s == Iter(step, s0, 0 + 1);
      return;
    }
    var c := next.1.value;
    ghost var k: nat :| Decides(Out(step, s0, k));
    while IsContinue(c)
      invariant calls >= 1 && s == Iter(step, s0, calls)
      invariant Out(step, s0, calls - 1) == Ok(c)
      invariant forall j: nat :: j + 1 < calls ==> Out(step, s0, j).Ok? && Out(step, s0, j).value.Continue?
      invariant c.Continue? ==> calls <= k
      decreases k + 1 - calls
    {
      next := step(s);
      s, calls := next.0, calls + 1;
      if next.1.Err? {
        r := Err(next.1.error);
        assert FirstDecision(step, s0, calls - 1, r) && s == Iter(step, s0, (calls - 1) + 1);
        return;
      }
      c := next.1.value;
    }
    r := Ok(Unwrap(c));
    assert FirstDecision(step, s0, calls - 1, r) && s == Iter(step, s0, (calls - 1) + 1);
  }
}
