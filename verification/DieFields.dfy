// What becomes of the attributes of an entry: every record that the walk leaves, field by
// field, is that of some entry of the program.
module DieFields {
  import opened Words
  import opened SymbolTables
  import opened AsciiText
  import opened DieWalk
  import opened DieTables
  import S = DieScopes

  // ------------------------------------------------------------------ fields

  predicate Called(d: Die, name: seq<byte>) {
    name == if d.name.Some? then d.name.value else Ascii("<none>")
  }

  // The type of the entry, which is void where it has none.
  predicate Typed(d: Die, typ: Key) { typ == if d.typ.Some? then d.typ.value else Ascii("void") }

  // The record is that of this variable, parameter, member or subprogram. Whether a
  // variable is local is not for the entry to say.
  predicate VarFields(d: Die, key: Key, r: VarRec) {
    && Called(d, key) && Typed(d, r.typ) && r.declFile == d.declFile
    && r.declLine == (if d.declLine.Some? then d.declLine.value else 0)
    && (r.isSubprog <==> d.tag.Subprogram?) && (r.isParam <==> d.tag.FormalParameter?)
    && (r.isLocal ==> d.tag.Variable?) && (r.local.Some? <==> d.tag.Subprogram?)
    && match d.tag
       case Subprogram =>
         && r.lowPc == (if d.lowPc.Some? then d.lowPc.value else 0)
         && r.highPc == (if d.highPc.Some? then d.highPc.value else 0)
         && r.startPc == d.startPc && r.location == 0
       case Variable => d.location == Some(r.location) && NoCode(r)
       case FormalParameter => d.location == Some(r.location) && NoCode(r)
       case Member => r.location == (if d.location.Some? then d.location.value else 0) && NoCode(r)
       case _ => false
  }

  predicate NoCode(r: VarRec) { r.lowPc == 0xFFFF_FFFF_FFFF_FFFF == r.highPc && r.startPc == 0 }

  predicate Sized(d: Die, size: u64) { size == if d.byteSize.Some? then d.byteSize.value else 8 }

  // The record is that of this type. The bounds of an array are entries of their own.
  predicate TypeFields(d: Die, r: TypeRec) {
    && (r.isArray <==> d.tag.ArrayType?) && (r.isPointer <==> d.tag.PointerType?)
    && (r.isStruct <==> d.tag.StructType?) && (r.isConst <==> d.tag.ConstType?)
    && (r.isTypedef <==> d.tag.Typedef?) && (r.members.Some? <==> d.tag.StructType?)
    && (r.upperBound == 0xFFFF_FFFF_FFFF_FFFF || r.isArray)
    && match d.tag
       case BaseType => r.name.Some? && Called(d, r.name.value) && Sized(d, r.size) && r.base == None
       case Typedef => r.name.Some? && Called(d, r.name.value) && Sized(d, r.size) && r.base == None
       case StructType =>
         && r.name.Some? && Ascii("struct ") <= r.name.value && Called(d, r.name.value[7..])
         && Sized(d, r.size) && r.base == None
       case PointerType =>
         r.name == Some(Ascii("<pointer>")) && Sized(d, r.size) && r.base.Some? && Typed(d, r.base.value)
       case ArrayType => r.name.Some? && Ascii("<array>") <= r.name.value && r.base.Some? && Typed(d, r.base.value)
       case ConstType => r.name == None && r.size == 0xFFFF_FFFF_FFFF_FFFF && r.base.Some? && Typed(d, r.base.value)
       case _ => false
  }

  // The type that every unit knows without an entry.
  predicate IsVoid(r: TypeRec) {
    && r.name == Some(Ascii("void")) && r.size == 8 && r.base == None && r.members == None
    && !r.isArray && !r.isPointer && !r.isStruct && !r.isConst && !r.isTypedef
  }

  // ------------------------------------------------------------------ one entry

  predicate MakesVar(d: Die) {
    d.tag.Subprogram? || d.tag.Member? || ((d.tag.Variable? || d.tag.FormalParameter?) && d.location.Some?)
  }

  // A variable, a parameter, a member or a subprogram with a new name is found in its
  // table with its own attributes; it is local exactly when it is a variable and some
  // subprogram is open. Under a name that is taken nothing changes.
  lemma VarEntered(s: State, d: Die, t: TableId, name: Key)
    requires s.stack != [] && s.stack[0] < |s.tables| && Enter(s, d).Some? && MakesVar(d) && Called(d, name)
    requires if d.tag.Member? then LastMembers(s) == Some(t) && t < |s.tables| else t == s.stack[0]
    requires Sorted(s.tables[t])
    ensures var s' := Enter(s, d).value;
            && t < |s'.tables|
            && if Lookup(s.tables[t], name).Some? then s'.tables[t] == s.tables[t]
               else
                 && Lookup(s'.tables[t], name).Some?
                 && var r := Lookup(s'.tables[t], name).value;
                    VarFields(d, name, r) && (r.isLocal <==> d.tag.Variable? && |s.stack| > 1)
  {
    hide Put, Lookup, Ascii;
    var ts := s.tables;
    var r := MadeVar(s, d);
    assert Enter(s, d).value.tables[t] == Put(ts[t], name, r);
    PutLookup(ts[t], name, r, name);
    if Lookup(ts[t], name).Some? {
      PutPresent(ts[t], name, r);
    }
  }

  // The record that the walk makes of such an entry.
  function MadeVar(s: State, d: Die): VarRec
    requires MakesVar(d)
  {
    if d.tag.Subprogram? then SubprogramRec(d, |s.tables|)
    else if d.tag.Member? then VariableRec(d, false, false, d.location.GetOr(0))
    else VariableRec(d, d.tag.FormalParameter?, |s.stack| > 1 && !d.tag.FormalParameter?, d.location.value)
  }

  lemma MadeVarFields(s: State, d: Die)
    requires MakesVar(d)
    ensures VarFields(d, Name(d), MadeVar(s, d))
  {
    hide Ascii;
  }

  predicate MakesType(d: Die) {
    d.tag.BaseType? || d.tag.Typedef? || d.tag.StructType? || d.tag.PointerType? || d.tag.ArrayType? || d.tag.ConstType?
  }

  // A type with a new offset is found under it with its own attributes; an array begins
  // with the size of a word, and no bound.
  lemma TypeEntered(s: State, d: Die)
    requires s.stack != [] && MakesType(d) && Sorted(s.types)
    ensures Enter(s, d).Some?
    ensures var s' := Enter(s, d).value;
            && |s'.recs| == |s.recs| + 1 && s'.recs[..|s.recs|] == s.recs
            && (if Lookup(s.types, d.offset).Some? then s'.types == s.types
                else Lookup(s'.types, d.offset) == Some(|s.recs|))
            && var r := s'.recs[|s.recs|];
               && TypeFields(d, r) && (r.isArray ==> r.size == 8 && r.upperBound == 0xFFFF_FFFF_FFFF_FFFF)
               && (r.isArray ==> s'.lastArray == Some(|s.recs|)) && (r.isStruct ==> s'.lastStruct == Some(|s.recs|))
  {
    hide Put, Lookup;
    PutLookup<nat>(s.types, d.offset, |s.recs|, d.offset);
    if Lookup(s.types, d.offset).Some? {
      PutPresent<nat>(s.types, d.offset, |s.recs|);
    }
    StructName(Name(d));
  }

  lemma StructName(name: seq<byte>)
    ensures var all := Ascii("struct ") + name; Ascii("struct ") <= all && all[7..] == name
  {}

  // A bound, 1 where it is not given, goes to the array that came last: its elements
  // become that many more, modulo 2^64, and the name shows it.
  lemma BoundEntered(s: State, d: Die)
    requires s.stack != [] && d.tag.SubrangeType? && s.lastArray.Some? && s.lastArray.value < |s.recs|
    ensures Enter(s, d).Some?
    ensures var k := s.lastArray.value; var ub := if d.upperBound.Some? then d.upperBound.value else 1;
            var r, r' := s.recs[k], Enter(s, d).value.recs[k];
            && r'.upperBound == ub
            && r'.size == (r.size * ((ub + 1) % 0x1_0000_0000_0000_0000)) % 0x1_0000_0000_0000_0000
            && r'.name == Some(r.name.GetOr([]) + Ascii("[") + Decimal(ub) + Ascii("]"))
            && r' == r.(upperBound := r'.upperBound, size := r'.size, name := r'.name)
            && forall j :: 0 <= j < |s.recs| && j != k ==> Enter(s, d).value.recs[j] == s.recs[j]
  {}

  // ------------------------------------------------------------------ whole trees

  // All entries of a tree.
  function Entries(ds: seq<Die>): set<Die>
    decreases ds, 0
  {
    if ds == [] then {} else EntriesOf(ds[0]) + Entries(ds[1..])
  }

  function EntriesOf(d: Die): set<Die>
    decreases d, 1
  {
    {d} + Entries(d.children)
  }

  ghost predicate VarFrom(dies: set<Die>, e: Entry<VarRec>) { exists d :: d in dies && VarFields(d, e.key, e.rec) }

  ghost predicate TypeFrom(dies: set<Die>, r: TypeRec) { exists d :: d in dies && TypeFields(d, r) }

  // The type under this key is that of the entry with this offset, or the void that every
  // unit knows.
  ghost predicate KeyFrom(dies: set<Die>, recs: seq<TypeRec>, e: Entry<nat>) {
    && e.rec < |recs|
    && ((exists d :: d in dies && d.offset == e.key && TypeFields(d, recs[e.rec])) ||
        (e.key == Ascii("void") && IsVoid(recs[e.rec])))
  }

  ghost predicate TypesFrom(dies: set<Die>, recs: seq<TypeRec>, types: Table<nat>) {
    forall e <- types :: KeyFrom(dies, recs, e)
  }

  ghost predicate VarsFrom(dies: set<Die>, ts: seq<Table<VarRec>>) {
    forall t, e :: 0 <= t < |ts| && e in ts[t] ==> VarFrom(dies, e)
  }

  // Everything in the tables comes from these entries; the array and the struct seen last
  // are such.
  ghost predicate Sourced(dies: set<Die>, s: State) {
    && VarsFrom(dies, s.tables) && TypesFrom(dies, s.recs, s.types)
    && (forall r <- s.recs :: TypeFrom(dies, r) || IsVoid(r))
    && (s.lastArray.Some? ==> s.lastArray.value < |s.recs| && s.recs[s.lastArray.value].isArray)
    && Sorted(s.types)
  }

  // Only bounds change a record, and those of arrays only.
  ghost predicate Keeps(r: TypeRec, r': TypeRec) {
    (forall d :: TypeFields(d, r) ==> TypeFields(d, r')) && (IsVoid(r) ==> r' == r)
  }

  ghost predicate AllKept(rs: seq<TypeRec>, rs': seq<TypeRec>) {
    |rs| <= |rs'| && forall i :: 0 <= i < |rs| ==> Keeps(rs[i], rs'[i])
  }

  lemma KeptOn(rs: seq<TypeRec>, rs': seq<TypeRec>, rs'': seq<TypeRec>)
    requires AllKept(rs, rs') && AllKept(rs', rs'')
    ensures AllKept(rs, rs'')
  {
    hide TypeFields, IsVoid;
    forall i | 0 <= i < |rs| ensures Keeps(rs[i], rs''[i]) {
      assert Keeps(rs[i], rs'[i]) && Keeps(rs'[i], rs''[i]);
    }
  }

  lemma TypesKept(dies: set<Die>, dies': set<Die>, rs: seq<TypeRec>, rs': seq<TypeRec>, types: Table<nat>)
    requires TypesFrom(dies, rs, types) && dies <= dies' && AllKept(rs, rs')
    ensures TypesFrom(dies', rs', types)
  {
    hide TypeFields, IsVoid, Ascii;
    forall e | e in types ensures KeyFrom(dies', rs', e) {
      assert KeyFrom(dies, rs, e) && Keeps(rs[e.rec], rs'[e.rec]);
    }
  }

  lemma RecsKept(dies: set<Die>, dies': set<Die>, rs: seq<TypeRec>, rs': seq<TypeRec>)
    requires dies <= dies' && AllKept(rs, rs') && forall r <- rs :: TypeFrom(dies, r) || IsVoid(r)
    requires forall i :: |rs| <= i < |rs'| ==> TypeFrom(dies', rs'[i]) || IsVoid(rs'[i])
    ensures forall r <- rs' :: TypeFrom(dies', r) || IsVoid(r)
  {
    hide TypeFields, IsVoid;
    forall r | r in rs' ensures TypeFrom(dies', r) || IsVoid(r) {
      var i :| 0 <= i < |rs'| && rs'[i] == r;
      if i < |rs| {
        assert Keeps(rs[i], r) && rs[i] in rs;
      }
    }
  }

  lemma SameRecs(rs: seq<TypeRec>, more: seq<TypeRec>)
    ensures AllKept(rs, rs + more)
  {
    hide TypeFields, IsVoid;
    forall i | 0 <= i < |rs| ensures Keeps(rs[i], (rs + more)[i]) {
    }
  }

  lemma BoundKept(s: State, d: Die)
    requires s.stack != [] && d.tag.SubrangeType? && Enter(s, d).Some? && s.recs[s.lastArray.value].isArray
    ensures AllKept(s.recs, Enter(s, d).value.recs)
    ensures Enter(s, d).value.recs[s.lastArray.value].isArray && |Enter(s, d).value.recs| == |s.recs|
  {
    var rs, rs' := s.recs, Enter(s, d).value.recs;
    forall i | 0 <= i < |rs| ensures Keeps(rs[i], rs'[i]) {
      if i == s.lastArray.value {
        var name := rs[i].name.GetOr([]);
        assert Ascii("<array>") <= name ==> Ascii("<array>") <= rs'[i].name.value;
      }
    }
  }

  lemma VarsPut(dies: set<Die>, ts: seq<Table<VarRec>>, t: nat, k: Key, r: VarRec)
    requires VarsFrom(dies, ts) && t < |ts| && VarFrom(dies, Entry(k, r))
    ensures VarsFrom(dies, ts[t := Put(ts[t], k, r)])
  {
    hide VarFields, Put;
    PutMembers(ts[t], k, r);
  }

  lemma VarsMore(dies: set<Die>, dies': set<Die>, ts: seq<Table<VarRec>>)
    requires VarsFrom(dies, ts) && dies <= dies'
    ensures VarsFrom(dies', ts) && VarsFrom(dies', ts + [[]])
  {
    hide VarFields;
    forall t, e | 0 <= t < |ts| && e in ts[t] ensures VarFrom(dies', e) {
      assert VarFrom(dies, e);
    }
  }

  lemma EnterVars(dies: set<Die>, s: State, d: Die)
    requires s.stack != [] && VarsFrom(dies, s.tables) && Enter(s, d).Some?
    ensures VarsFrom(dies + {d}, Enter(s, d).value.tables)
  {
    hide VarFields, Put, SubprogramRec, VariableRec, Name, Ascii, ArrayRec, PointerRec, VarsFrom;
    var dies' := dies + {d};
    var ts := s.tables;
    VarsMore(dies, dies', ts);
    if MakesVar(d) {
      MadeVarFields(s, d);
      assert VarFrom(dies', Entry(Name(d), MadeVar(s, d)));
      var t := if d.tag.Member? then LastMembers(s).value else s.stack[0];
      var ts' := if d.tag.Subprogram? then ts + [[]] else ts;
      if t < |ts'| {
        VarsPut(dies', ts', t, Name(d), MadeVar(s, d));
      }
    }
  }

  lemma EnterTypes(dies: set<Die>, s: State, d: Die)
    requires s.stack != [] && Sourced(dies, s) && Enter(s, d).Some? && MakesType(d)
    ensures var s' := Enter(s, d).value;
            && AllKept(s.recs, s'.recs) && TypesFrom(dies + {d}, s'.recs, s'.types)
            && (forall r <- s'.recs :: TypeFrom(dies + {d}, r) || IsVoid(r))
            && (s'.lastArray.Some? ==> s'.lastArray.value < |s'.recs| && s'.recs[s'.lastArray.value].isArray)
            && Sorted(s'.types)
  {
    hide Put, Ascii, TypesFrom, AllKept, IsVoid, VarsFrom;
    var s' := Enter(s, d).value;
    var n := |s.recs|;
    TypeEntered(s, d);
    assert s'.recs == s.recs + [s'.recs[n]];
    SameRecs(s.recs, [s'.recs[n]]);
    TypesKept(dies, dies + {d}, s.recs, s'.recs, s.types);
    assert TypeFrom(dies + {d}, s'.recs[n]);
    RecsKept(dies, dies + {d}, s.recs, s'.recs);
    PutMembers<nat>(s.types, d.offset, n);
    PutSorted<nat>(s.types, d.offset, n);
    NewKey(dies + {d}, s'.recs, s.types, s'.types, d, n);
  }

  lemma NewKey(dies: set<Die>, rs: seq<TypeRec>, types: Table<nat>, types': Table<nat>, d: Die, n: nat)
    requires TypesFrom(dies, rs, types) && d in dies && n < |rs| && TypeFields(d, rs[n])
    requires forall e <- types' :: e in types || e == Entry(d.offset, n)
    ensures TypesFrom(dies, rs, types')
  {
    hide TypeFields, IsVoid, Ascii;
  }

  lemma EnterSourced(dies: set<Die>, s: State, d: Die)
    requires s.stack != [] && Sourced(dies, s) && Enter(s, d).Some?
    ensures Sourced(dies + {d}, Enter(s, d).value) && AllKept(s.recs, Enter(s, d).value.recs)
  {
    hide Put, Ascii, TypesFrom, AllKept, IsVoid, VarsFrom, TypeFields, Sorted, Bounded, SubprogramRec, VariableRec;
    var s' := Enter(s, d).value;
    EnterVars(dies, s, d);
    if MakesType(d) {
      EnterTypes(dies, s, d);
    } else {
      if d.tag.SubrangeType? {
        BoundKept(s, d);
      } else {
        assert s.recs + [] == s.recs;
        SameRecs(s.recs, []);
      }
      TypesKept(dies, dies + {d}, s.recs, s'.recs, s.types);
      RecsKept(dies, dies + {d}, s.recs, s'.recs);
    }
  }

  lemma {:induction false} VisitSourced(dies: set<Die>, s: State, d: Die)
    requires s.stack != [] && Sourced(dies, s) && Visit(s, d).Some?
    ensures Sourced(dies + EntriesOf(d), Visit(s, d).value) && AllKept(s.recs, Visit(s, d).value.recs)
    decreases d, 1
  {
    hide Enter, Sourced, AllKept;
    EnterSourced(dies, s, d);
    var s1 := Enter(s, d).value;
    VisitAllSourced(dies + {d}, s1, d.children);
    assert (dies + {d}) + Entries(d.children) == dies + EntriesOf(d);
    var s2 := VisitAll(s1, d.children).value;
    SameSourced(dies + EntriesOf(d), s2, Visit(s, d).value);
    KeptOn(s.recs, s1.recs, s2.recs);
  }

  lemma SameSourced(dies: set<Die>, s: State, s': State)
    requires Sourced(dies, s) && s' == s.(stack := s'.stack)
    ensures Sourced(dies, s')
  {}

  // Whatever the entries: all that the walk leaves comes from them, field by field.
  lemma {:induction false} VisitAllSourced(dies: set<Die>, s: State, ds: seq<Die>)
    requires s.stack != [] && Sourced(dies, s) && VisitAll(s, ds).Some?
    ensures Sourced(dies + Entries(ds), VisitAll(s, ds).value) && AllKept(s.recs, VisitAll(s, ds).value.recs)
    decreases ds, 0
  {
    if ds == [] {
      assert dies + {} == dies && s.recs + [] == s.recs;
      SameRecs(s.recs, []);
    } else {
      hide Visit, Sourced, AllKept;
      VisitSourced(dies, s, ds[0]);
      var s1 := Visit(s, ds[0]).value;
      VisitAllSourced(dies + EntriesOf(ds[0]), s1, ds[1..]);
      assert (dies + EntriesOf(ds[0])) + Entries(ds[1..]) == dies + Entries(ds);
      KeptOn(s.recs, s1.recs, VisitAll(s1, ds[1..]).value.recs);
    }
  }

  // ------------------------------------------------------------------ whole programs

  function ProgramEntries(us: seq<UnitDie>): set<Die> {
    if us == [] then {} else Entries(us[0].children) + ProgramEntries(us[1..])
  }

  lemma NewUnitSourced(dies: set<Die>, s: State)
    requires Sourced(dies, s)
    ensures Sourced(dies, NewUnit(s)) && AllKept(s.recs, NewUnit(s).recs)
  {
    hide TypeFields, VarsFrom, Ascii;
    var s' := NewUnit(s);
    var r := s'.recs[|s.recs|];
    assert IsVoid(r) by { VoidMade(s); }
    assert s'.recs == s.recs + [r];
    SameRecs(s.recs, [r]);
    RecsKept(dies, dies, s.recs, s'.recs);
    assert s'.types == [Entry(VOID, |s.recs|)];
    assert KeyFrom(dies, s'.recs, s'.types[0]);
  }

  lemma VoidMade(s: State)
    ensures IsVoid(NewUnit(s).recs[|s.recs|])
  {}

  ghost predicate UnitsFrom(dies: set<Die>, recs: seq<TypeRec>, cus: Table<UnitRec>) {
    forall c <- cus :: TypesFrom(dies, recs, c.rec.types)
  }

  lemma UnitsKept(dies: set<Die>, dies': set<Die>, rs: seq<TypeRec>, rs': seq<TypeRec>, cus: Table<UnitRec>)
    requires UnitsFrom(dies, rs, cus) && dies <= dies' && AllKept(rs, rs')
    ensures UnitsFrom(dies', rs', cus)
  {
    hide AllKept, TypesFrom;
    forall c | c in cus ensures TypesFrom(dies', rs', c.rec.types) {
      TypesKept(dies, dies', rs, rs', c.rec.types);
    }
  }

  // The tables of all units together, and the types of each unit.
  lemma {:induction false} WalkUnitsSourced(dies: set<Die>, s: State, cus: Table<UnitRec>, us: seq<UnitDie>)
    requires s.stack != [] && Sourced(dies, s) && UnitsFrom(dies, s.recs, cus) && WalkUnits(s, cus, us).Some?
    ensures var (s', cus') := WalkUnits(s, cus, us).value;
            Sourced(dies + ProgramEntries(us), s') && UnitsFrom(dies + ProgramEntries(us), s'.recs, cus')
    decreases |us|
  {
    if us == [] {
      assert dies + {} == dies;
    } else {
      hide Sourced, AllKept, VisitAll, NewUnit, TypesFrom;
      var s1 := NewUnit(s);
      var dies' := dies + Entries(us[0].children);
      NewUnitSourced(dies, s);
      VisitAllSourced(dies, s1, us[0].children);
      var s2 := VisitAll(s1, us[0].children).value;
      KeptOn(s.recs, s1.recs, s2.recs);
      UnitsKept(dies, dies', s.recs, s2.recs, cus);
      assert TypesFrom(dies', s2.recs, s2.types) by { SourcedTypes(dies', s2); }
      PutMembers(cus, us[0].path, UnitRec(us[0].lowPc, us[0].highPc, s2.types));
      var cus' := Put(cus, us[0].path, UnitRec(us[0].lowPc, us[0].highPc, s2.types));
      WalkUnitsSourced(dies', s2, cus', us[1..]);
      assert dies' + ProgramEntries(us[1..]) == dies + ProgramEntries(us);
    }
  }

  lemma SourcedTypes(dies: set<Die>, s: State)
    requires Sourced(dies, s)
    ensures TypesFrom(dies, s.recs, s.types)
  {}

  // From the start of the walk over a program: a variable in any table, and a type in any
  // unit, is that of an entry of the program.
  lemma WalkFields(us: seq<UnitDie>)
    requires WalkUnits(START, [], us).Some?
    ensures var (s, cus) := WalkUnits(START, [], us).value;
            VarsFrom(ProgramEntries(us), s.tables) && UnitsFrom(ProgramEntries(us), s.recs, cus)
  {
    hide WalkUnits;
    assert Sourced({}, START);
    assert {} + ProgramEntries(us) == ProgramEntries(us);
    WalkUnitsSourced({}, START, [], us);
  }

  // Each unit has its path and its range.
  lemma {:induction false} WalkUnitsRanges(s: State, cus: Table<UnitRec>, us: seq<UnitDie>)
    requires s.stack != [] && WalkUnits(s, cus, us).Some?
    ensures forall c <- WalkUnits(s, cus, us).value.1 ::
              c in cus || exists u :: u in us && c.key == u.path && c.rec.lowPc == u.lowPc && c.rec.highPc == u.highPc
    decreases |us|
  {
    hide VisitAll, NewUnit;
    if us != [] {
      var s' := VisitAll(NewUnit(s), us[0].children).value;
      var rec := UnitRec(us[0].lowPc, us[0].highPc, s'.types);
      PutMembers(cus, us[0].path, rec);
      WalkUnitsRanges(s', Put(cus, us[0].path, rec), us[1..]);
      assert us[0] in us && forall u <- us[1..] :: u in us;
    }
  }

  // ------------------------------------------------------------------ the reading from the top down

  // What a reading that hands every entry its scope files for one entry: in the table of
  // the nearest enclosing subprogram, or of the struct seen last, a record with the
  // attributes of the entry, local exactly for a variable inside a subprogram.
  lemma OwnFields(c: S.Context, sc: S.Scope, d: Die)
    ensures forall e <- S.Own(c, sc, d) :: e.File? ==>
              && VarFields(d, e.key, e.rec) && (e.rec.isLocal <==> d.tag.Variable? && sc.inSubprogram)
              && (if d.tag.Member? then c.members == Some(e.table) else e.table == sc.table)
    ensures (exists e :: e in S.Own(c, sc, d) && e.File?) <==> MakesVar(d) && (d.tag.Member? ==> c.members.Some?)
  {
    hide Ascii;
    var own := S.Own(c, sc, d);
    if MakesVar(d) && (d.tag.Member? ==> c.members.Some?) {
      assert own[|own| - 1] in own && own[|own| - 1].File?;
    }
  }

  ghost predicate FiledFrom(dies: set<Die>, es: seq<S.Event>) {
    forall e <- es :: e.File? ==> VarFrom(dies, Entry(e.key, e.rec))
  }

  lemma {:induction false} FilingsFields(c: S.Context, sc: S.Scope, d: Die)
    ensures FiledFrom(EntriesOf(d), S.Filings(c, sc, d).0)
    decreases d, 1
  {
    hide S.Own, VarFields;
    OwnFields(c, sc, d);
    FilingsAllFields(S.Entered(c, d), S.InnerScope(c, sc, d), d.children);
    FiledAgain(Entries(d.children), EntriesOf(d), S.FilingsAll(S.Entered(c, d), S.InnerScope(c, sc, d), d.children).0);
    assert d in EntriesOf(d);
  }

  lemma {:induction false} FilingsAllFields(c: S.Context, sc: S.Scope, ds: seq<Die>)
    ensures FiledFrom(Entries(ds), S.FilingsAll(c, sc, ds).0)
    decreases ds, 0
  {
    if ds != [] {
      hide S.Filings, VarFields;
      var (es, c') := S.Filings(c, sc, ds[0]);
      FilingsFields(c, sc, ds[0]);
      FilingsAllFields(c', sc, ds[1..]);
      FiledAgain(EntriesOf(ds[0]), Entries(ds), es);
      FiledAgain(Entries(ds[1..]), Entries(ds), S.FilingsAll(c', sc, ds[1..]).0);
    }
  }

  lemma FiledAgain(dies: set<Die>, dies': set<Die>, es: seq<S.Event>)
    requires FiledFrom(dies, es) && dies <= dies'
    ensures FiledFrom(dies', es)
  {
    hide VarFields;
    forall e | e in es && e.File? ensures VarFrom(dies', Entry(e.key, e.rec)) {
      assert VarFrom(dies, Entry(e.key, e.rec));
    }
  }

  lemma {:induction false} FiledTable(dies: set<Die>, es: seq<S.Event>, t: TableId)
    requires FiledFrom(dies, es)
    ensures forall e <- S.FiledIn(t, es) :: VarFrom(dies, e)
  {
    hide VarFrom;
    if es != [] {
      FiledTable(dies, es[1..], t);
    }
  }

  // So what a name finds in a table, which is the record filed first for it, is that of
  // an entry with that name, with its attributes.
  lemma FoundFields(ds: seq<Die>, t: TableId, k: Key)
    requires VisitAll(START, ds).Some? && t < |VisitAll(START, ds).value.tables|
    ensures var found := Lookup(VisitAll(START, ds).value.tables[t], k);
            found.Some? ==> exists d :: d in Entries(ds) && VarFields(d, k, found.value)
  {
    hide VarFields, VisitAll, Lookup, Entries, S.FiledIn, S.FilingsAll;
    S.TablesOf(ds, t, k);
    var es := S.FilingsAll(S.Context(1, None), S.TOP, ds).0;
    FilingsAllFields(S.Context(1, None), S.TOP, ds);
    FiledTable(Entries(ds), es, t);
    var filed := S.FiledIn(t, es);
    LookupIn(filed, k);
    if Lookup(filed, k).Some? {
      assert VarFrom(Entries(ds), Entry(k, Lookup(filed, k).value));
    }
  }

  lemma {:induction false} LookupIn<V>(t: Table<V>, k: Key)
    ensures Lookup(t, k).Some? ==> Entry(k, Lookup(t, k).value) in t
  {
    if t != [] {
      LookupIn(t[1..], k);
      assert t == [t[0]] + t[1..];
    }
  }
}
