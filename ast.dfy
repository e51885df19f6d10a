/** The symbol table of the compiler's AST: the type definitions that
    entries carry, lexical scopes with their local lookup, chained lookup and
    insertion, and the identifier pattern that insertion enforces. */
module Ast {
  import opened Wrappers

  // ---------------------------------------------------------------------
  // Type definitions (plain data)
  // ---------------------------------------------------------------------

  /** `TypeIdent = u64`. */
  newtype TypeIdent = x: int | 0 <= x < 0x1_0000_0000_0000_0000

  datatype PrimitiveTypeVar = SignedInt | UnsignedInt | Float

  /** An integer or IEEE-754 float primitive of `occupyBytes` bytes. */
  datatype PrimitiveType = PrimitiveType(occupyBytes: nat, kind: PrimitiveTypeVar)

  /** Fields of a struct as type identities, with their byte offsets. */
  datatype StructType = StructType(fieldTypes: seq<TypeIdent>, fieldOffsets: seq<nat>, occupyBytes: nat)

  datatype FunctionType = FunctionType(params: seq<TypeIdent>, returnType: TypeIdent)

  datatype RefType = RefType(target: TypeIdent)

  datatype ArrayType = ArrayType(target: TypeIdent, length: nat)

  datatype TypeDef =
    | Primitive(primitive: PrimitiveType)
    | Struct(structType: StructType)
    | Function(functionType: FunctionType)
    | Ref(refType: RefType)
    | Array(arrayType: ArrayType)
    | Unit
    | Unknown
    | TypeErr

  /** What a scope binds a name to: a type, or a variable (possibly constant,
      possibly callable) of some type. */
  datatype SymbolDef =
    | Typ(def: TypeDef)
    | Var(typ: TypeDef, isConst: bool, isCallable: bool)

  datatype ScopeError = NameConflict | InvalidSymbol | InvalidName

  type ScopeResult<T> = Result<T, ScopeError>

  // ---------------------------------------------------------------------
  // The identifier pattern ^[_a-zA-Z][_a-zA-Z0-9]*$
  // ---------------------------------------------------------------------

  /** The first character class `[_a-zA-Z]`. */
  predicate IsIdentStart(c: char)
  {
    c == '_' || 'a' <= c <= 'z' || 'A' <= c <= 'Z'
  }

  /** The repeated character class `[_a-zA-Z0-9]`. */
  predicate IsIdentChar(c: char)
  {
    IsIdentStart(c) || '0' <= c <= '9'
  }

  /** `ident_regex.is_match(name)`: the pattern is anchored at both ends
      and `$` matches only at the end of the text, so the whole name must
      match. */
  predicate IsIdent(name: string)
    ensures IsIdent(name) <==>
              && name != []
              && !('0' <= name[0] <= '9')
              && forall i :: 0 <= i < |name| ==> IsIdentChar(name[i])
  {
    && |name| > 0
    && IsIdentStart(name[0])
    && forall i :: 1 <= i < |name| ==> IsIdentChar(name[i])
  }

  /** The star `[_a-zA-Z0-9]*$`, unrolled one character at a time. */
  predicate MatchesIdentTail(s: string)
  {
    s == [] || (IsIdentChar(s[0]) && MatchesIdentTail(s[1..]))
  }

  /** The pattern read as a regular expression: one start character, then
      the star up to the end of the text. */
  predicate MatchesIdentPattern(s: string)
  {
    s != [] && IsIdentStart(s[0]) && MatchesIdentTail(s[1..])
  }

  lemma {:induction false} IdentTailIsAllIdentChars(s: string)
    ensures MatchesIdentTail(s) <==> forall i :: 0 <= i < |s| ==> IsIdentChar(s[i])
  {
    if s != [] {
      IdentTailIsAllIdentChars(s[1..]);
      assert forall i :: 1 <= i < |s| ==> s[i] == s[1..][i - 1];
    }
  }

  /** The predicate accepts exactly the strings the pattern matches. */
  lemma IsIdentMatchesPattern(s: string)
    ensures IsIdent(s) <==> MatchesIdentPattern(s)
  {
    if s != [] {
      IdentTailIsAllIdentChars(s[1..]);
      assert forall i :: 1 <= i < |s| ==> s[i] == s[1..][i - 1];
    }
  }

  /** Accepted and rejected names: the empty name, a leading digit, a
      character outside the classes, and a trailing line feed are all
      rejected. */
  lemma IdentExamples()
    ensures IsIdent("_") && IsIdent("x") && IsIdent("_tmp0") && IsIdent("Foo_Bar9")
    ensures !IsIdent("") && !IsIdent("1x") && !IsIdent("a-b") && !IsIdent("a\n")
  {
    assert "a-b"[1] == '-';
    assert "a\n"[1] == '\n';
  }

  // ---------------------------------------------------------------------
  // Scopes
  // ---------------------------------------------------------------------

  /** One lexical scope: the index of its enclosing scope (`last`), and an
      insertion-ordered map from names to definitions, kept as the key
      order `keys` and the map `defs`. */
  datatype Scope = Scope(last: Option<nat>, keys: seq<string>, defs: map<string, SymbolDef>)

  /** The insertion-ordered map's own invariant: each key once, and the
      keys are exactly the names the map binds. */
  ghost predicate ScopeValid(sc: Scope)
  {
    && (forall i, j :: 0 <= i < j < |sc.keys| ==> sc.keys[i] != sc.keys[j])
    && (forall n :: n in sc.defs <==> n in sc.keys)
  }

  /** The scopes of a program, each enclosing-scope link pointing to an
      earlier scope, so every chain ends at a root. */
  ghost predicate Linked(arena: seq<Scope>)
  {
    forall i :: 0 <= i < |arena| && arena[i].last.Some? ==> arena[i].last.value < i
  }

  /** `find_def_self`: the local map only. */
  function FindDefSelf(sc: Scope, name: string): (r: Option<SymbolDef>)
    ensures r.Some? <==> name in sc.defs
    ensures r.Some? ==> r.value == sc.defs[name]
  {
    if name in sc.defs then Some(sc.defs[name]) else None
  }

  /** `find_def`: the local map first, then the enclosing scope's
      `find_def`; a root scope that lacks the name gives `None`. */
  function FindDef(arena: seq<Scope>, id: nat, name: string): (r: Option<SymbolDef>)
    requires Linked(arena) && id < |arena|
    ensures name in arena[id].defs ==> r == Some(arena[id].defs[name])
    ensures name !in arena[id].defs && arena[id].last.None? ==> r.None?
    ensures r.Some? ==> exists j :: 0 <= j <= id && name in arena[j].defs && r.value == arena[j].defs[name]
    decreases id
  {
    match FindDefSelf(arena[id], name)
    case Some(d) => Some(d)
    case None =>
      match arena[id].last
      case None => None
      case Some(p) => FindDef(arena, p, name)
  }

  /** The scope chain from `id` out to its root: each scope followed by the
      one it links to, ending at a scope with no enclosing scope. */
  function Chain(arena: seq<Scope>, id: nat): (c: seq<nat>)
    requires Linked(arena) && id < |arena|
    ensures |c| >= 1 && c[0] == id
    ensures forall k :: 0 <= k < |c| ==> c[k] <= id
    ensures forall k :: 0 <= k < |c| - 1 ==> arena[c[k]].last == Some(c[k + 1])
    ensures arena[c[|c| - 1]].last.None?
    decreases id
  {
    match arena[id].last
    case None => [id]
    case Some(p) => [id] + Chain(arena, p)
  }

  /** The position in `chain` of the first scope that binds `name`, or
      `|chain|` when none does. */
  function FirstBinder(arena: seq<Scope>, chain: seq<nat>, name: string): (k: nat)
    requires forall j :: 0 <= j < |chain| ==> chain[j] < |arena|
    ensures k <= |chain|
    ensures forall j :: 0 <= j < k ==> name !in arena[chain[j]].defs
    ensures k < |chain| ==> name in arena[chain[k]].defs
  {
    if chain == [] then 0
    else if name in arena[chain[0]].defs then 0
    else 1 + FirstBinder(arena, chain[1..], name)
  }

  /** Chained lookup returns the binding of the innermost scope on the
      chain that binds the name, and `None` when no scope on it does. */
  lemma {:induction false} FindDefIsInnermost(arena: seq<Scope>, id: nat, name: string)
    requires Linked(arena) && id < |arena|
    ensures var c := Chain(arena, id);
            var k := FirstBinder(arena, c, name);
            FindDef(arena, id, name) == if k < |c| then Some(arena[c[k]].defs[name]) else None
    decreases id
  {
    if name !in arena[id].defs {
      match arena[id].last
      case None =>
      case Some(p) =>
        FindDefIsInnermost(arena, p, name);
        assert Chain(arena, id)[1..] == Chain(arena, p);
    }
  }

  /** `find_def` finds nothing exactly when no scope on the chain binds the name. */
  lemma FindDefNoneIffUnbound(arena: seq<Scope>, id: nat, name: string)
    requires Linked(arena) && id < |arena|
    ensures FindDef(arena, id, name).None?
            <==> forall j :: 0 <= j < |Chain(arena, id)| ==> name !in arena[Chain(arena, id)[j]].defs
  {
    FindDefIsInnermost(arena, id, name);
  }

  /** Shadowing: a local binding wins whatever the enclosing scopes bind;
      a local miss is the enclosing scope's answer, or `None` at a root. */
  lemma FindDefUnfolds(arena: seq<Scope>, id: nat, name: string)
    requires Linked(arena) && id < |arena|
    ensures FindDefSelf(arena[id], name).Some? ==> FindDef(arena, id, name) == FindDefSelf(arena[id], name)
    ensures FindDefSelf(arena[id], name).None? && arena[id].last.Some?
            ==> FindDef(arena, id, name) == FindDef(arena, arena[id].last.value, name)
    ensures FindDefSelf(arena[id], name).None? && arena[id].last.None? ==> FindDef(arena, id, name).None?
  {
  }

  /** `find_def_self` never consults the enclosing scopes: a name bound only
      further out is not found locally. */
  lemma FindDefSelfIgnoresAncestors(arena: seq<Scope>, id: nat, name: string)
    requires Linked(arena) && id < |arena|
    requires name !in arena[id].defs && arena[id].last.Some?
    requires name in arena[arena[id].last.value].defs
    ensures FindDefSelf(arena[id], name).None?
    ensures FindDef(arena, id, name) == Some(arena[arena[id].last.value].defs[name])
  {
  }

  /** `insert_def` on one scope, as a value: the result and the new scope.
      A name already present is a conflict before the name is checked
      against the identifier pattern. */
  function TryInsert(sc: Scope, name: string, def: SymbolDef): (res: (ScopeResult<()>, Scope))
    ensures res.0 == Err(NameConflict) <==> name in sc.defs
    ensures res.0 == Err(InvalidName) <==> name !in sc.defs && !IsIdent(name)
    ensures res.0.Err? ==> res.1 == sc
    ensures res.0.Ok? ==> && res.1.last == sc.last
                          && res.1.keys == sc.keys + [name]
                          && res.1.defs == sc.defs[name := def]
  {
    if name in sc.defs then (Err(NameConflict), sc)
    else if IsIdent(name) then (Ok(()), sc.(keys := sc.keys + [name], defs := sc.defs[name := def]))
    else (Err(InvalidName), sc)
  }

  /** The three outcomes of an insert, and that a failed insert changes nothing. */
  lemma InsertOutcomes(sc: Scope, name: string, def: SymbolDef)
    ensures TryInsert(sc, name, def).0 == Err(NameConflict) <==> name in sc.defs
    ensures TryInsert(sc, name, def).0 == Err(InvalidName) <==> name !in sc.defs && !IsIdent(name)
    ensures TryInsert(sc, name, def).0 == Ok(()) <==> name !in sc.defs && IsIdent(name)
    ensures TryInsert(sc, name, def).0.Err? ==> TryInsert(sc, name, def).1 == sc
  {
  }

  /** A successful insert binds the name locally, appends it to the key
      order, keeps the enclosing link and leaves every other name alone. */
  lemma InsertSuccess(sc: Scope, name: string, def: SymbolDef)
    requires TryInsert(sc, name, def).0.Ok?
    ensures var sc' := TryInsert(sc, name, def).1;
            && FindDefSelf(sc', name) == Some(def)
            && sc'.keys == sc.keys + [name]
            && sc'.last == sc.last
            && forall n :: n != name ==> FindDefSelf(sc', n) == FindDefSelf(sc, n)
  {
  }

  /** Inserting keeps the insertion-ordered map's invariant. */
  lemma InsertPreservesValid(sc: Scope, name: string, def: SymbolDef)
    requires ScopeValid(sc)
    ensures ScopeValid(TryInsert(sc, name, def).1)
  {
    var sc' := TryInsert(sc, name, def).1;
    if TryInsert(sc, name, def).0.Ok? {
      assert name !in sc.keys;
      forall i, j | 0 <= i < j < |sc'.keys| ensures sc'.keys[i] != sc'.keys[j] {
        if j == |sc.keys| {
          assert sc.keys[i] in sc.keys;
        }
      }
    }
  }

  /** Inserting a name twice into one scope: the second insert is a
      conflict and the first definition stays. */
  lemma SecondInsertConflicts(sc: Scope, name: string, d1: SymbolDef, d2: SymbolDef)
    requires TryInsert(sc, name, d1).0.Ok?
    ensures var sc1 := TryInsert(sc, name, d1).1;
            && TryInsert(sc1, name, d2) == (Err(NameConflict), sc1)
            && FindDefSelf(TryInsert(sc1, name, d2).1, name) == Some(d1)
  {
  }

  /** The arena after `insert_def(name, def)` on scope `id`. */
  function InsertInto(arena: seq<Scope>, id: nat, name: string, def: SymbolDef): (arena': seq<Scope>)
    requires id < |arena|
    ensures |arena'| == |arena|
    ensures forall j :: 0 <= j < |arena| ==> arena'[j].last == arena[j].last
    ensures Linked(arena) ==> Linked(arena')
  {
    arena[id := TryInsert(arena[id], name, def).1]
  }

  /** After an insert into one scope, no lookup of another name changes,
      from any scope. */
  lemma {:induction false} InsertKeepsOtherNames(arena: seq<Scope>, id: nat, name: string, def: SymbolDef,
                                                 j: nat, n: string)
    requires Linked(arena) && id < |arena| && j < |arena| && n != name
    ensures FindDef(InsertInto(arena, id, name, def), j, n) == FindDef(arena, j, n)
    decreases j
  {
    var arena' := InsertInto(arena, id, name, def);
    assert FindDefSelf(arena'[j], n) == FindDefSelf(arena[j], n);
    if arena[j].last.Some? {
      InsertKeepsOtherNames(arena, id, name, def, arena[j].last.value, n);
    }
  }

  /** A scope created before `id` (an enclosing scope, or one beside it)
      sees no change from an insert into `id`. */
  lemma {:induction false} InsertInvisibleOutside(arena: seq<Scope>, id: nat, name: string, def: SymbolDef,
                                                  j: nat, n: string)
    requires Linked(arena) && id < |arena| && j < id
    ensures FindDef(InsertInto(arena, id, name, def), j, n) == FindDef(arena, j, n)
    decreases j
  {
    var arena' := InsertInto(arena, id, name, def);
    assert arena'[j] == arena[j];
    if arena[j].last.Some? {
      InsertInvisibleOutside(arena, id, name, def, arena[j].last.value, n);
    }
  }

  /** Shadowing an outer declaration: inserting a valid name that the
      inner scope lacks succeeds even if an enclosing scope binds it; then
      lookup from the inner scope gives the new definition and lookup from
      the enclosing scope gives what it gave before. */
  lemma InnerDeclarationShadows(arena: seq<Scope>, id: nat, name: string, def: SymbolDef)
    requires Linked(arena) && id < |arena|
    requires name !in arena[id].defs && IsIdent(name)
    ensures TryInsert(arena[id], name, def).0 == Ok(())
    ensures FindDef(InsertInto(arena, id, name, def), id, name) == Some(def)
    ensures arena[id].last.Some? ==>
              FindDef(InsertInto(arena, id, name, def), arena[id].last.value, name)
              == FindDef(arena, arena[id].last.value, name)
  {
    if arena[id].last.Some? {
      InsertInvisibleOutside(arena, id, name, def, arena[id].last.value, name);
    }
  }

  /** The scopes of one program, held in an arena and addressed by index. */
  class ScopeArena {
    var scopes: seq<Scope>

    ghost predicate Valid()
      reads this
    {
      Linked(scopes) && forall i :: 0 <= i < |scopes| ==> ScopeValid(scopes[i])
    }

    constructor ()
      ensures Valid() && scopes == []
    {
      scopes := [];
    }

    /** A new, empty scope enclosed by `last` (a root scope when `None`). */
    method NewScope(last: Option<nat>) returns (id: nat)
      requires Valid() && (last.Some? ==> last.value < |scopes|)
      modifies this
      ensures Valid()
      ensures id == old(|scopes|) && scopes == old(scopes) + [Scope(last, [], map[])]
    {
      id := |scopes|;
      scopes := scopes + [Scope(last, [], map[])];
    }

    /** `insert_def` on scope `id`: a name the scope already binds is a
      `NameConflict`, then a name outside the identifier pattern is an
      `InvalidName`; both leave every scope as it was. Otherwise the name
      is appended to the scope's key order and bound to `def`. */
    method InsertDef(id: nat, name: string, def: SymbolDef) returns (r: ScopeResult<()>)
      requires Valid() && id < |scopes|
      modifies this
      ensures Valid()
      ensures r == TryInsert(old(scopes[id]), name, def).0
      ensures scopes == InsertInto(old(scopes), id, name, def)
      ensures r == Err(NameConflict) <==> name in old(scopes[id].defs)
      ensures r == Err(InvalidName) <==> name !in old(scopes[id].defs) && !IsIdent(name)
      ensures r.Err? ==> scopes == old(scopes)
      ensures r.Ok? ==> && scopes[id].keys == old(scopes[id].keys) + [name]
                        && scopes[id].defs == old(scopes[id].defs)[name := def]
    {
      InsertPreservesValid(scopes[id], name, def);
      var sc := scopes[id];
      if name in sc.defs {
        r := Err(NameConflict);
      } else if IsIdent(name) {
        scopes := scopes[id := sc.(keys := sc.keys + [name], defs := sc.defs[name := def])];
        r := Ok(());
      } else {
        r := Err(InvalidName);
      }
    }
  }
}

/** The operators of the expression language. */
module Ops {

  /** `OpVar`. The source's parser-internal variants `_Lpr`, `_Rpr`, `_Com`,
      `_Asn`, `_Csn` and `_Dum` appear here without the leading underscore. */
  datatype OpVar =
    // the doc comments' binary group
    | Add | Sub | Mul | Div | And | Or | Xor | Ban | Bor
    | Gt | Lt | Eq | Gte | Lte | Neq
    // the unary group
    | Neg | Inv | Bin | Ref | Der | Ina | Inb | Dea | Deb
    // used by the parser: parentheses, comma, assignment, constant
    // assignment and a dummy
    | Lpr | Rpr | Com | Asn | Csn | Dum

  /** `is_binary`, as written. */
  predicate IsBinary(op: OpVar)
    ensures IsBinary(op) ==> !IsUnary(op) && !IsParserOnly(op)
    ensures IsBinary(op) <==> IsBinaryIntended(op) && !(op == And || op == Or || op == Xor || op == Ban || op == Bor)
  {
    match op
    case Add | Sub | Mul | Div | Gt | Lt | Eq | Gte | Lte | Neq | Asn => true
    case _ => false
  }

  /** `is_unary`. */
  predicate IsUnary(op: OpVar)
    ensures IsUnary(op) ==> !InBinaryGroup(op) && !IsParserOnly(op) && op != Asn
  {
    match op
    case Neg | Inv | Bin | Ref | Der | Ina | Inb | Dea | Deb => true
    case _ => false
  }

  /** The operators the doc comments list under "Binary". */
  predicate InBinaryGroup(op: OpVar)
  {
    match op
    case Add | Sub | Mul | Div | And | Or | Xor | Ban | Bor | Gt | Lt | Eq | Gte | Lte | Neq => true
    case _ => false
  }

  /** The operators that only ever sit on the parser's operator stack. */
  predicate IsParserOnly(op: OpVar)
  {
    match op
    case Lpr | Rpr | Com | Csn | Dum => true
    case _ => false
  }

  /** No operator is both binary and unary, and the parser-only ones are neither. */
  lemma ArityClassesDisjoint(op: OpVar)
    ensures !(IsBinary(op) && IsUnary(op))
    ensures IsParserOnly(op) ==> !IsBinary(op) && !IsUnary(op)
  {
  }

  /** As written, `&&`, `||`, `^`, `&` and `|` are listed as binary but
      `is_binary` rejects them, and they are not unary either. */
  lemma LogicalAndBitwiseNotBinary(op: OpVar)
    requires op == And || op == Or || op == Xor || op == Ban || op == Bor
    ensures InBinaryGroup(op) && !IsBinary(op) && !IsUnary(op) && !IsParserOnly(op)
  {
  }

  /** `is_binary` as the doc comments' grouping intends it: the binary
      group, plus assignment. */
  predicate IsBinaryIntended(op: OpVar)
  {
    InBinaryGroup(op) || op == Asn
  }

  /** With the intended classification every operator is exactly one of
      binary, unary or parser-only, and it agrees with `is_binary` outside
      the five logical and bitwise operators. */
  lemma IntendedArityPartition(op: OpVar)
    ensures IsBinaryIntended(op) || IsUnary(op) || IsParserOnly(op)
    ensures !(IsBinaryIntended(op) && IsUnary(op))
    ensures !(IsBinaryIntended(op) && IsParserOnly(op))
    ensures !(IsUnary(op) && IsParserOnly(op))
    ensures InBinaryGroup(op) ==> IsBinaryIntended(op)
    ensures !(op == And || op == Or || op == Xor || op == Ban || op == Bor) ==> (IsBinaryIntended(op) <==> IsBinary(op))
  {
  }
}
