// What the walk builds, for all compilation units of a program, is in the shape
// that the rest of the pipeline needs: the tables can be resolved, written, and
// read back.
module DieTables {
  import opened Words
  import opened SymbolTables
  import opened AsciiText
  import opened DieWalk
  import T = TypeResolution

  // ------------------------------------------------------------------ units

  // The entry of a compilation unit.
  datatype UnitDie = UnitDie(path: Key, lowPc: u64, highPc: u64, children: seq<Die>)

  datatype UnitRec = UnitRec(lowPc: u64, highPc: u64, types: Table<nat>)

  // Every unit begins with a type table that knows void. The variable tables and
  // the scopes go on.
  function NewUnit(s: State): State {
    PutType(s.(types := []), VOID, NEW_TYPE.(name := Some(VOID), size := WORD_SIZE))
  }

  // `process_cu_die`.
  function WalkUnit(s: State, cus: Table<UnitRec>, u: UnitDie): (r: Option<(State, Table<UnitRec>)>)
    requires s.stack != []
    ensures r.Some? ==> r.value.0.stack == s.stack
  {
    var s' :- VisitAll(NewUnit(s), u.children);
    Some((s', Put(cus, u.path, UnitRec(u.lowPc, u.highPc, s'.types))))
  }

  function WalkUnits(s: State, cus: Table<UnitRec>, us: seq<UnitDie>): (r: Option<(State, Table<UnitRec>)>)
    requires s.stack != []
    ensures r.Some? ==> r.value.0.stack == s.stack
    decreases |us|
  {
    if us == [] then Some((s, cus))
    else
      var (s', cus') :- WalkUnit(s, cus, us[0]);
      WalkUnits(s', cus', us[1..])
  }

  // ------------------------------------------------------------------ the shape of the tables

  function Count(b: bool): nat { if b then 1 else 0 }

  // A type is at most one of array, pointer, struct, typedef and const; a struct
  // has a member table, and no other type has; a const has no name yet, and every
  // other type has one; arrays, pointers and consts have a base type, and no other
  // type has.
  ghost predicate TypeShape(n: nat, r: TypeRec) {
    && Count(r.isArray) + Count(r.isPointer) + Count(r.isStruct) + Count(r.isTypedef) + Count(r.isConst) <= 1
    && (r.isStruct <==> r.members.Some?)
    && (r.members.Some? ==> r.members.value < n)
    && (r.name.None? <==> r.isConst)
    && (r.base.Some? <==> r.isArray || r.isPointer || r.isConst)
  }

  // A subprogram has a table of its own, made after the one it is in, and no other
  // variable has one; nothing is a local variable and a parameter at once, and no
  // subprogram is either; among the globals there is no local variable.
  ghost predicate VarShape(t: TableId, n: nat, r: VarRec) {
    && (r.isSubprog <==> r.local.Some?)
    && (r.local.Some? ==> t < r.local.value < n)
    && !(r.isLocal && r.isParam)
    && (r.isSubprog ==> !r.isLocal && !r.isParam)
    && (t == GLOBALS ==> !r.isLocal)
  }

  ghost predicate TableShape(t: TableId, n: nat, tab: Table<VarRec>) {
    Sorted(tab) && forall e <- tab :: VarShape(t, n, e.rec)
  }

  ghost predicate VarsShape(ts: seq<Table<VarRec>>) {
    forall t :: 0 <= t < |ts| ==> TableShape(t, |ts|, ts[t])
  }

  ghost predicate RecsShape(n: nat, recs: seq<TypeRec>) { forall r <- recs :: TypeShape(n, r) }

  ghost predicate TypesShape(types: Table<nat>, n: nat) { Sorted(types) && forall e <- types :: e.rec < n }

  // The scopes: the globals at the bottom, other tables above.
  ghost predicate StackShape(stack: seq<TableId>, n: nat) {
    && stack != [] && stack[|stack| - 1] == GLOBALS
    && (forall i :: 0 <= i < |stack| ==> stack[i] < n)
    && (forall i :: 0 <= i < |stack| - 1 ==> stack[i] != GLOBALS)
  }

  ghost predicate Shape(s: State) {
    && StackShape(s.stack, |s.tables|)
    && VarsShape(s.tables)
    && RecsShape(|s.tables|, s.recs)
    && TypesShape(s.types, |s.recs|)
    && (s.lastArray.Some? ==> s.lastArray.value < |s.recs| && s.recs[s.lastArray.value].isArray)
  }

  lemma ShapeStack(s: State)
    requires Shape(s)
    ensures s.stack != []
  {}

  lemma StartShape()
    ensures Shape(START)
  {}

  // One more table.
  lemma MoreTables(ts: seq<Table<VarRec>>)
    requires VarsShape(ts)
    ensures VarsShape(ts + [[]])
  {
    forall t | 0 <= t < |ts| + 1 ensures TableShape(t, |ts| + 1, (ts + [[]])[t]) {
      if t < |ts| {
        assert TableShape(t, |ts|, ts[t]);
      }
    }
  }

  lemma PutVarShape(ts: seq<Table<VarRec>>, t: TableId, k: Key, r: VarRec)
    requires VarsShape(ts) && t < |ts| && VarShape(t, |ts|, r)
    ensures VarsShape(ts[t := Put(ts[t], k, r)])
  {
    hide VarShape, Put;
    assert TableShape(t, |ts|, ts[t]);
    PutSorted(ts[t], k, r);
    PutMembers(ts[t], k, r);
    var ts' := ts[t := Put(ts[t], k, r)];
    forall u | 0 <= u < |ts'| ensures TableShape(u, |ts'|, ts'[u]) {
      assert TableShape(u, |ts|, ts[u]);
    }
  }

  lemma PutTypeShape(s: State, k: Key, r: TypeRec)
    requires Shape(s) && TypeShape(|s.tables|, r)
    ensures Shape(PutType(s, k, r))
  {
    hide TypeShape, Put, StackShape, VarsShape;
    PutSorted<nat>(s.types, k, |s.recs|);
    PutMembers<nat>(s.types, k, |s.recs|);
  }

  lemma WithTable(s: State)
    requires Shape(s)
    ensures Shape(s.(tables := s.tables + [[]]))
  {
    hide VarsShape, Sorted;
    MoreTables(s.tables);
  }

  lemma FileShape(s: State, t: TableId, k: Key, r: VarRec)
    requires Shape(s) && t < |s.tables| && VarShape(t, |s.tables|, r)
    ensures Shape(PutVar(s, t, k, r))
  {
    hide VarsShape, VarShape, TypeShape;
    PutVarShape(s.tables, t, k, r);
  }

  lemma SubprogramShape(s: State, d: Die)
    requires Shape(s) && d.tag.Subprogram?
    ensures Shape(Enter(s, d).value)
  {
    var local := |s.tables|;
    WithTable(s);
    var s1 := s.(tables := s.tables + [[]]);
    FileShape(s1, s.stack[0], Name(d), SubprogramRec(d, local));
  }

  lemma VariableShape(s: State, d: Die, isParam: bool)
    requires Shape(s)
    ensures Shape(EnterVariable(s, d, isParam))
  {
    if d.location.Some? {
      FileShape(s, s.stack[0], Name(d), VariableRec(d, isParam, |s.stack| > 1 && !isParam, d.location.value));
    }
  }

  lemma StructShape(s: State, d: Die)
    requires Shape(s) && d.tag.StructType?
    ensures Shape(Enter(s, d).value)
  {
    WithTable(s);
    var s1 := s.(tables := s.tables + [[]]);
    var r := NEW_TYPE.(name := Some(Ascii("struct ") + Name(d)), isStruct := true,
                       size := d.byteSize.GetOr(WORD_SIZE), members := Some(|s.tables|));
    PutTypeShape(s1, d.offset, r);
  }

  lemma MemberShape(s: State, d: Die)
    requires Shape(s) && d.tag.Member? && Enter(s, d).Some?
    ensures Shape(Enter(s, d).value)
  {
    var m := LastMembers(s).value;
    assert s.recs[s.lastStruct.value] in s.recs;
    FileShape(s, m, Name(d), VariableRec(d, false, false, d.location.GetOr(0)));
  }

  lemma BoundShape(s: State, d: Die)
    requires Shape(s) && d.tag.SubrangeType? && Enter(s, d).Some?
    ensures Shape(Enter(s, d).value)
  {
    hide VarsShape, StackShape, TypesShape, Decimal, Ascii;
    assert s.recs[s.lastArray.value] in s.recs;
  }

  lemma ArrayShape(s: State, d: Die)
    requires Shape(s) && d.tag.ArrayType?
    ensures Shape(Enter(s, d).value)
  {
    hide VarsShape, StackShape, TypesShape, RecsShape;
    PutTypeShape(s, d.offset, ArrayRec(d));
  }

  lemma EnterShape(s: State, d: Die)
    requires Shape(s) && Enter(s, d).Some?
    ensures Shape(Enter(s, d).value)
  {
    hide Shape, Put;
    match d.tag
    case BaseType => PutTypeShape(s, d.offset, NEW_TYPE.(name := Some(Name(d)), size := d.byteSize.GetOr(WORD_SIZE)));
    case ArrayType => ArrayShape(s, d);
    case Subprogram => SubprogramShape(s, d);
    case Variable => VariableShape(s, d, false);
    case FormalParameter => VariableShape(s, d, true);
    case SubrangeType => BoundShape(s, d);
    case PointerType => PutTypeShape(s, d.offset, PointerRec(d));
    case StructType => StructShape(s, d);
    case Member => MemberShape(s, d);
    case Typedef =>
      PutTypeShape(s, d.offset,
                   NEW_TYPE.(name := Some(Name(d)), size := d.byteSize.GetOr(WORD_SIZE), isTypedef := true));
    case ConstType => PutTypeShape(s, d.offset, NEW_TYPE.(base := Some(TypeOf(d)), isConst := true));
    case OtherTag =>
  }

  // The walk keeps the shape, on every tree of entries.
  lemma {:induction false} VisitShape(s: State, d: Die)
    requires Shape(s) && Visit(s, d).Some?
    ensures Shape(Visit(s, d).value)
    decreases d, 1
  {
    hide Enter;
    EnterShape(s, d);
    VisitAllShape(Enter(s, d).value, d.children);
  }

  lemma {:induction false} VisitAllShape(s: State, ds: seq<Die>)
    requires Shape(s) && VisitAll(s, ds).Some?
    ensures Shape(VisitAll(s, ds).value)
    decreases ds, 0
  {
    hide Visit;
    if ds != [] {
      VisitShape(s, ds[0]);
      VisitAllShape(Visit(s, ds[0]).value, ds[1..]);
    }
  }

  // ------------------------------------------------------------------ the strings

  // A string that is not empty and has no NUL.
  ghost predicate Clean(s: seq<byte>) { s != [] && 0 !in s }

  // What the debugging information of a compiler looks like: no empty names, no
  // NUL in a string.
  ghost predicate CleanDie(d: Die)
    decreases d
  {
    && Clean(d.offset) && Clean(d.declFile)
    && (d.name.Some? ==> Clean(d.name.value)) && (d.typ.Some? ==> Clean(d.typ.value))
    && forall i :: 0 <= i < |d.children| ==> CleanDie(d.children[i])
  }

  ghost predicate CleanVar(e: Entry<VarRec>) { Clean(e.key) && Clean(e.rec.declFile) && Clean(e.rec.typ) }

  ghost predicate CleanType(r: TypeRec) {
    (r.name.Some? ==> Clean(r.name.value)) && (r.base.Some? ==> Clean(r.base.value))
  }

  ghost predicate CleanVars(ts: seq<Table<VarRec>>) {
    forall t :: 0 <= t < |ts| ==> forall e <- ts[t] :: CleanVar(e)
  }

  ghost predicate CleanState(s: State) {
    && CleanVars(s.tables)
    && (forall r <- s.recs :: CleanType(r))
    && (forall e <- s.types :: Clean(e.key))
  }

  lemma CleanAppend(a: seq<byte>, b: seq<byte>)
    requires 0 !in a && 0 !in b && (a != [] || b != [])
    ensures Clean(a + b)
  {}

  lemma {:induction false} DecimalClean(n: nat)
    ensures Clean(Decimal(n))
  {
    if n >= 10 {
      DecimalClean(n / 10);
    }
  }

  lemma FileClean(s: State, t: TableId, k: Key, r: VarRec)
    requires CleanState(s) && CleanVar(Entry(k, r))
    ensures CleanState(PutVar(s, t, k, r))
  {
    hide CleanVar, CleanType;
    if t < |s.tables| {
      PutMembers(s.tables[t], k, r);
    }
  }

  lemma TypeClean(s: State, k: Key, r: TypeRec)
    requires CleanState(s) && CleanType(r) && Clean(k)
    ensures CleanState(PutType(s, k, r))
  {
    hide CleanVars, CleanType, Clean;
    PutMembers<nat>(s.types, k, |s.recs|);
  }

  lemma Constants()
    ensures Clean(VOID) && Clean(Ascii("<none>")) && Clean(Ascii("<array>")) && Clean(Ascii("<pointer>"))
    ensures Clean(Ascii("struct ")) && Clean(Ascii("[")) && Clean(Ascii("]"))
  {}

  lemma NamesClean(d: Die)
    requires CleanDie(d)
    ensures Clean(Name(d)) && Clean(TypeOf(d)) && Clean(d.offset) && Clean(d.declFile)
  {
    Constants();
  }

  lemma BoundClean(r: TypeRec, ub: u64)
    requires CleanType(r)
    ensures CleanType(Bounded(r, ub))
  {
    hide Ascii, Decimal;
    Constants();
    DecimalClean(ub);
    CleanAppend(r.name.GetOr([]), Ascii("["));
    CleanAppend(r.name.GetOr([]) + Ascii("["), Decimal(ub));
    CleanAppend(r.name.GetOr([]) + Ascii("[") + Decimal(ub), Ascii("]"));
  }

  lemma EnterClean(s: State, d: Die)
    requires CleanState(s) && s.stack != [] && CleanDie(d) && Enter(s, d).Some?
    ensures CleanState(Enter(s, d).value)
  {
    hide CleanState, CleanDie, Clean, Ascii, Name, TypeOf, Put, PutVar, PutType, Bounded;
    NamesClean(d);
    Constants();
    match d.tag
    case BaseType => TypeClean(s, d.offset, NEW_TYPE.(name := Some(Name(d)), size := d.byteSize.GetOr(WORD_SIZE)));
    case ArrayType =>
      TypeClean(s, d.offset, ArrayRec(d));
      SameClean(PutType(s, d.offset, ArrayRec(d)), Enter(s, d).value);
    case Subprogram => SubprogramClean(s, d);
    case Variable =>
      if d.location.Some? {
        FileClean(s, s.stack[0], Name(d), VariableRec(d, false, |s.stack| > 1, d.location.value));
      }
    case FormalParameter =>
      if d.location.Some? {
        FileClean(s, s.stack[0], Name(d), VariableRec(d, true, false, d.location.value));
      }
    case SubrangeType => BoundedClean(s, d);
    case PointerType => TypeClean(s, d.offset, PointerRec(d));
    case StructType => StructClean(s, d);
    case Member => FileClean(s, LastMembers(s).value, Name(d), VariableRec(d, false, false, d.location.GetOr(0)));
    case Typedef =>
      TypeClean(s, d.offset, NEW_TYPE.(name := Some(Name(d)), size := d.byteSize.GetOr(WORD_SIZE), isTypedef := true));
    case ConstType => TypeClean(s, d.offset, NEW_TYPE.(base := Some(TypeOf(d)), isConst := true));
    case OtherTag =>
  }

  lemma SameClean(s: State, s': State)
    requires CleanState(s) && s'.tables == s.tables && s'.recs == s.recs && s'.types == s.types
    ensures CleanState(s')
  {}

  lemma TableClean(s: State)
    requires CleanState(s)
    ensures CleanState(s.(tables := s.tables + [[]]))
  {}

  lemma SubprogramClean(s: State, d: Die)
    requires CleanState(s) && s.stack != [] && CleanDie(d) && d.tag.Subprogram?
    ensures CleanState(Enter(s, d).value)
  {
    hide CleanState, Clean, Name, TypeOf, PutVar;
    NamesClean(d);
    TableClean(s);
    var s1 := s.(tables := s.tables + [[]]);
    FileClean(s1, s.stack[0], Name(d), SubprogramRec(d, |s.tables|));
    SameClean(PutVar(s1, s.stack[0], Name(d), SubprogramRec(d, |s.tables|)), Enter(s, d).value);
  }

  lemma StructClean(s: State, d: Die)
    requires CleanState(s) && s.stack != [] && CleanDie(d) && d.tag.StructType?
    ensures CleanState(Enter(s, d).value)
  {
    hide CleanState, Clean, Name, TypeOf, PutType, Ascii;
    NamesClean(d);
    Constants();
    StructName(d);
    TableClean(s);
    var r := NEW_TYPE.(name := Some(Ascii("struct ") + Name(d)), isStruct := true,
                       size := d.byteSize.GetOr(WORD_SIZE), members := Some(|s.tables|));
    TypeClean(s.(tables := s.tables + [[]]), d.offset, r);
    SameClean(PutType(s.(tables := s.tables + [[]]), d.offset, r), Enter(s, d).value);
  }

  lemma StructName(d: Die)
    requires CleanDie(d)
    ensures Clean(Ascii("struct ") + Name(d))
  {
    hide Ascii, Name;
    NamesClean(d);
    Constants();
  }

  lemma BoundedClean(s: State, d: Die)
    requires CleanState(s) && s.stack != [] && d.tag.SubrangeType? && Enter(s, d).Some?
    ensures CleanState(Enter(s, d).value)
  {
    hide CleanType, Bounded, CleanVars, Clean;
    assert s.recs[s.lastArray.value] in s.recs;
    BoundClean(s.recs[s.lastArray.value], d.upperBound.GetOr(1));
  }

  lemma {:induction false} VisitClean(s: State, d: Die)
    requires CleanState(s) && s.stack != [] && CleanDie(d) && Visit(s, d).Some?
    ensures CleanState(Visit(s, d).value)
    decreases d, 1
  {
    hide Enter, CleanState;
    EnterClean(s, d);
    EnterGrows(s, d);
    VisitAllClean(Enter(s, d).value, d.children);
    SameClean(VisitAll(Enter(s, d).value, d.children).value, Visit(s, d).value);
  }

  lemma {:induction false} VisitAllClean(s: State, ds: seq<Die>)
    requires CleanState(s) && s.stack != [] && VisitAll(s, ds).Some?
    requires forall i :: 0 <= i < |ds| ==> CleanDie(ds[i])
    ensures CleanState(VisitAll(s, ds).value)
    decreases ds, 0
  {
    hide Visit, CleanState, CleanDie;
    if ds != [] {
      VisitClean(s, ds[0]);
      VisitAllClean(Visit(s, ds[0]).value, ds[1..]);
    }
  }

  // ------------------------------------------------------------------ the first names

  // No pointer has a name with a star at its end yet, and no array one with brackets.
  ghost predicate PlainRec(r: TypeRec) {
    && (r.isPointer && r.name.Some? ==> !T.EndsWith(r.name.value, T.STAR))
    && (r.isArray && r.name.Some? ==> !T.EndsWith(r.name.value, T.BRACKETS))
  }

  ghost predicate PlainRecs(s: State) { forall r <- s.recs :: PlainRec(r) }

  lemma EndsOtherwise(s: seq<byte>, end: seq<byte>, k: nat)
    requires 0 < k <= |end| && k <= |s| && s[|s| - k] != end[|end| - k]
    ensures !T.EndsWith(s, end)
  {}

  lemma BoundedPlain(r: TypeRec, ub: u64)
    requires r.isArray && !r.isPointer
    ensures PlainRec(Bounded(r, ub))
  {
    var before := r.name.GetOr([]) + Ascii("[");
    var name := before + Decimal(ub) + Ascii("]");
    assert name[|name| - 2] == Decimal(ub)[|Decimal(ub)| - 1];
    assert T.BRACKETS[0] == 91;
    EndsOtherwise(name, T.BRACKETS, 2);
  }

  lemma NewPlain(d: Die)
    ensures PlainRec(ArrayRec(d)) && PlainRec(PointerRec(d))
  {
    var a, p := Ascii("<array>"), Ascii("<pointer>");
    assert a[|a| - 1] == 62 && p[|p| - 1] == 62 && T.STAR[0] == 42 && T.BRACKETS[1] == 93;
    EndsOtherwise(a, T.BRACKETS, 1);
    EndsOtherwise(p, T.STAR, 1);
  }

  lemma EnterPlain(s: State, d: Die)
    requires Shape(s) && s.stack != [] && PlainRecs(s) && Enter(s, d).Some?
    ensures PlainRecs(Enter(s, d).value)
  {
    hide Put, Bounded, ArrayRec, PointerRec, StackShape, VarsShape, TypesShape, Ascii, Name, TypeOf, T.EndsWith;
    NewPlain(d);
    if d.tag.SubrangeType? {
      var r := s.recs[s.lastArray.value];
      assert r in s.recs && TypeShape(|s.tables|, r);
      BoundedPlain(r, d.upperBound.GetOr(1));
    }
  }

  lemma {:induction false} VisitPlain(s: State, d: Die)
    requires Shape(s) && s.stack != [] && PlainRecs(s) && Visit(s, d).Some?
    ensures PlainRecs(Visit(s, d).value)
    decreases d, 1
  {
    hide Enter, Shape;
    EnterPlain(s, d);
    EnterShape(s, d);
    EnterGrows(s, d);
    VisitAllPlain(Enter(s, d).value, d.children);
  }

  // The walk gives no pointer and no array a name that looks like a spelling.
  lemma {:induction false} VisitAllPlain(s: State, ds: seq<Die>)
    requires Shape(s) && s.stack != [] && PlainRecs(s) && VisitAll(s, ds).Some?
    ensures PlainRecs(VisitAll(s, ds).value)
    decreases ds, 0
  {
    hide Visit, Shape, PlainRecs;
    if ds != [] {
      VisitPlain(s, ds[0]);
      VisitShape(s, ds[0]);
      VisitAllPlain(Visit(s, ds[0]).value, ds[1..]);
    }
  }

  // ------------------------------------------------------------------ all units

  ghost predicate CleanUnit(u: UnitDie) {
    Clean(u.path) && forall i :: 0 <= i < |u.children| ==> CleanDie(u.children[i])
  }

  // The units' type tables are in shape, over the records made so far.
  ghost predicate UnitsShape(cus: Table<UnitRec>, n: nat) {
    && Sorted(cus)
    && forall c <- cus :: Clean(c.key) && TypesShape(c.rec.types, n) && forall e <- c.rec.types :: Clean(e.key)
  }

  // Nothing that was made goes away.
  ghost predicate Grows(s: State, s': State) { |s.tables| <= |s'.tables| && |s.recs| <= |s'.recs| }

  lemma {:induction false} VisitGrows(s: State, d: Die)
    requires s.stack != [] && Visit(s, d).Some?
    ensures Grows(s, Visit(s, d).value)
    decreases d, 1
  {
    EnterGrows(s, d);
    hide Enter;
    VisitAllGrows(Enter(s, d).value, d.children);
  }

  lemma EnterGrows(s: State, d: Die)
    requires s.stack != [] && Enter(s, d).Some?
    ensures Grows(s, Enter(s, d).value) && Enter(s, d).value.stack != []
  {}

  lemma {:induction false} VisitAllGrows(s: State, ds: seq<Die>)
    requires s.stack != [] && VisitAll(s, ds).Some?
    ensures Grows(s, VisitAll(s, ds).value)
    decreases ds, 0
  {
    hide Visit;
    if ds != [] {
      VisitGrows(s, ds[0]);
      VisitAllGrows(Visit(s, ds[0]).value, ds[1..]);
    }
  }

  lemma NewUnitShape(s: State)
    requires Shape(s) && CleanState(s)
    ensures Shape(NewUnit(s)) && CleanState(NewUnit(s)) && NewUnit(s).stack == s.stack && Grows(s, NewUnit(s))
    ensures PlainRecs(s) ==> PlainRecs(NewUnit(s))
  {
    hide Ascii, VarsShape, StackShape, CleanVars, Put;
    Constants();
    var s1 := s.(types := []);
    var r := NEW_TYPE.(name := Some(VOID), size := WORD_SIZE);
    PutTypeShape(s1, VOID, r);
    TypeClean(s1, VOID, r);
  }

  lemma WalkUnitShape(s: State, cus: Table<UnitRec>, u: UnitDie)
    requires Shape(s) && CleanState(s) && UnitsShape(cus, |s.recs|) && CleanUnit(u) && WalkUnit(s, cus, u).Some?
    requires PlainRecs(s)
    ensures var (s', cus') := WalkUnit(s, cus, u).value;
            Shape(s') && CleanState(s') && UnitsShape(cus', |s'.recs|) && PlainRecs(s')
  {
    hide NewUnit, CleanVars, VarsShape, StackShape, CleanDie;
    NewUnitShape(s);
    ShapeStack(s);
    VisitAllShape(NewUnit(s), u.children);
    VisitAllClean(NewUnit(s), u.children);
    VisitAllPlain(NewUnit(s), u.children);
    VisitAllGrows(NewUnit(s), u.children);
    var s' := VisitAll(NewUnit(s), u.children).value;
    var c := UnitRec(u.lowPc, u.highPc, s'.types);
    PutSorted(cus, u.path, c);
    PutMembers(cus, u.path, c);
  }

  // The walk over all units of a program builds nothing but tables in shape.
  lemma {:induction false} WalkUnitsShape(s: State, cus: Table<UnitRec>, us: seq<UnitDie>)
    requires Shape(s) && CleanState(s) && UnitsShape(cus, |s.recs|) && WalkUnits(s, cus, us).Some?
    requires PlainRecs(s) && forall u <- us :: CleanUnit(u)
    ensures var (s', cus') := WalkUnits(s, cus, us).value;
            Shape(s') && CleanState(s') && UnitsShape(cus', |s'.recs|) && PlainRecs(s')
    decreases |us|
  {
    hide PlainRecs, WalkUnit, Shape, CleanState, UnitsShape, CleanUnit;
    ShapeStack(s);
    if us != [] {
      WalkUnitShape(s, cus, us[0]);
      var (s', cus') := WalkUnit(s, cus, us[0]).value;
      WalkUnitsShape(s', cus', us[1..]);
    }
  }
}
