// Reading a `.vdw` file back: what the reader keeps of each table the writer
// printed, and how the tables of several compilation units come together.
module DebugFileRoundTrip {
  import opened Words
  import opened Bytes
  import opened SymbolTables
  import opened DebugFile

  // ------------------------------------------------------------------ well-formed tables

  // A string that can be written and seen again as a C string.
  ghost predicate Text(s: seq<byte>) { |s| < TWO_64 && 0 !in s }

  // The size of a table fits the word in front of it, and its keys increase.
  ghost predicate WfTable<V>(t: Table<V>) { |t| < TWO_64 && Sorted(t) }

  ghost predicate WfVar(e: Entry<VarRec>)
    decreases e, 1
  {
    && Text(e.key) && Text(e.rec.declFile) && Text(e.rec.typ)
    && (e.rec.isSubprog <==> e.rec.local.HasTable?)
    && WfSubTable(e.rec.local)
  }

  ghost predicate WfSubTable(t: SubTable)
    decreases t, 2
  {
    t.HasTable? ==> WfTable(t.vars) && WfVars(t.vars)
  }

  ghost predicate WfVars(es: Table<VarRec>)
    decreases es, 0
  {
    es == [] || (WfVar(es[0]) && WfVars(es[1..]))
  }

  ghost predicate WfType(e: Entry<TypeRec>) {
    var r := e.rec;
    && Text(e.key)
    && r.name.Some? && Text(r.name.value)
    && (r.base.Some? ==> Text(r.base.value) && r.base.value != [])
    && (r.isArray || r.isPointer ==> r.base.Some?)
    && (r.isStruct <==> r.members.HasTable?)
    && WfSubTable(r.members)
  }

  ghost predicate WfTypes(es: Table<TypeRec>) { forall e <- es :: WfType(e) }

  ghost predicate WfCu(e: Entry<CuRec>) {
    && Text(e.key)
    && WfTable(e.rec.types) && WfTypes(e.rec.types)
    && WfTable(e.rec.vars) && WfVars(e.rec.vars)
  }

  ghost predicate WfCus(es: Table<CuRec>) { WfTable(es) && forall e <- es :: WfCu(e) }

  // ------------------------------------------------------------------ what the reader keeps

  // The reader drops the base type unless it is an array's or a pointer's and
  // the bound unless it is an array's, and it takes `is_const` for `is_typedef`
  // and the other way round: the two are written in one order and read in the
  // other.
  function Kept(r: TypeRec): LoadedType {
    LoadedType(r.size, r.name.GetOr([]), r.isArray, if r.isArray then r.upperBound else MINUS_ONE, r.isPointer,
               r.isStruct,
               r.isTypedef, r.isConst, if r.isArray || r.isPointer then r.base else None, r.members)
  }

  function KeptTypes(es: Table<TypeRec>): (ks: Table<LoadedType>)
    ensures |ks| == |es| && forall i :: 0 <= i < |es| ==> ks[i] == Entry(es[i].key, Kept(es[i].rec))
  {
    if es == [] then [] else [Entry(es[0].key, Kept(es[0].rec))] + KeptTypes(es[1..])
  }

  function KeptCus(es: Table<CuRec>): (ks: Table<LoadedCu>)
    ensures |ks| == |es|
    ensures forall i :: 0 <= i < |es| ==> ks[i] == Entry(es[i].key, LoadedCu(es[i].rec.lowPc, es[i].rec.highPc))
  {
    if es == [] then [] else [Entry(es[0].key, LoadedCu(es[0].rec.lowPc, es[0].rec.highPc))] + KeptCus(es[1..])
  }

  // All type (variable) entries of a file in the order in which they lie there.
  function AllTypes(es: Table<CuRec>): Table<LoadedType> {
    if es == [] then [] else KeptTypes(es[0].rec.types) + AllTypes(es[1..])
  }

  function AllVars(es: Table<CuRec>): Table<VarRec> {
    if es == [] then [] else es[0].rec.vars + AllVars(es[1..])
  }

  // ------------------------------------------------------------------ round trips

  lemma {:induction false} VarRoundTrip(e: Entry<VarRec>, rest: seq<byte>)
    requires WfVar(e)
    ensures ParseVar(VarBytes(e, rest)) == Some((e, rest))
    decreases e, 1
  {
    hide PutWord, PutText, PutFlag, TakeWord, TakeU64, TakeFlag, TakeText, ParseSubTable, SubTableBytes;
    FieldRoundTrips();
    SubTableRoundTrip(e.rec.local, rest);
  }

  lemma {:induction false} SubTableRoundTrip(t: SubTable, rest: seq<byte>)
    requires WfSubTable(t)
    ensures ParseSubTable(t.HasTable?, SubTableBytes(t, rest)) == Some((t, rest))
    decreases t, 2
  {
    if t.HasTable? {
      hide PutWord, TakeWord, TakeU64, ParseVars, VarsBytes;
      FieldRoundTrips();
      VarsRoundTrip([], t.vars, rest);
      PutAllInOrder([], t.vars);
      assert [] + t.vars == t.vars;
    }
  }

  lemma {:induction false} VarsRoundTrip(t: Table<VarRec>, es: Table<VarRec>, rest: seq<byte>)
    requires WfVars(es)
    ensures ParseVars(|es|, t, VarsBytes(es, rest)) == Some((PutAll(t, es), rest))
    decreases es, 0
  {
    if es != [] {
      VarRoundTrip(es[0], VarsBytes(es[1..], rest));
      VarsRoundTrip(Put(t, es[0].key, es[0].rec), es[1..], rest);
    }
  }

  // A variable table read into one that already has entries adds those whose
  // names are new, and the cursor passes the others all the same.
  lemma {:induction false} VarTableRoundTrip(t: Table<VarRec>, es: Table<VarRec>, rest: seq<byte>)
    requires WfVars(es) && WfTable(es)
    ensures ParseVarTable(t, VarTableBytes(es, rest)) == Some((PutAll(t, es), rest))
  {
    hide PutWord, TakeWord, TakeU64, ParseVars, VarsBytes;
    FieldRoundTrips();
    VarsRoundTrip(t, es, rest);
  }

  lemma BaseRoundTrip(base: Option<seq<byte>>, rest: seq<byte>)
    requires base.Some? ==> Text(base.value) && base.value != []
    ensures TakeBase(PutText(base.GetOr([]), rest)) == Some((base, rest))
  {
    var s := base.GetOr([]);
    WidthBounds();
    TakePutWord(8, |s|, PutRaw(s, rest));
    TakePutText(s, 0, rest);
    UpToNulIdentity(s);
  }

  lemma {:induction false} TypeRoundTrip(e: Entry<TypeRec>, rest: seq<byte>)
    requires WfType(e)
    ensures ParseType(TypeBytes(e, rest)) == Some((Entry(e.key, Kept(e.rec)), rest))
  {
    hide PutWord, PutText, PutFlag, TakeWord, TakeU64, TakeFlag, TakeText, TakeBase, ParseSubTable, SubTableBytes;
    FieldRoundTrips();
    UpToNulIdentity(e.rec.name.value);
    BaseRoundTrip(e.rec.base, SubTableBytes(e.rec.members, rest));
    SubTableRoundTrip(e.rec.members, rest);
  }

  lemma {:induction false} TypesRoundTrip(t: Table<LoadedType>, es: Table<TypeRec>, rest: seq<byte>)
    requires WfTypes(es)
    ensures ParseTypes(|es|, t, TypesBytes(es, rest)) == Some((PutAll(t, KeptTypes(es)), rest))
    decreases |es|
  {
    if es != [] {
      TypeRoundTrip(es[0], TypesBytes(es[1..], rest));
      TypesRoundTrip(Put(t, es[0].key, Kept(es[0].rec)), es[1..], rest);
      assert KeptTypes(es)[1..] == KeptTypes(es[1..]);
    }
  }

  lemma {:induction false} TypeTableRoundTrip(t: Table<LoadedType>, es: Table<TypeRec>, rest: seq<byte>)
    requires WfTypes(es) && WfTable(es)
    ensures ParseTypeTable(t, TypeTableBytes(es, rest)) == Some((PutAll(t, KeptTypes(es)), rest))
  {
    hide PutWord, TakeWord, TakeU64, ParseTypes, TypesBytes;
    FieldRoundTrips();
    TypesRoundTrip(t, es, rest);
  }

  lemma {:induction false} CuRoundTrip(st: Loaded, e: Entry<CuRec>, rest: seq<byte>)
    requires WfCu(e)
    ensures ParseCu(st, CuBytes(e, rest)) ==
            Some((Loaded(Put(st.cus, e.key, LoadedCu(e.rec.lowPc, e.rec.highPc)),
                         PutAll(st.types, KeptTypes(e.rec.types)), PutAll(st.vars, e.rec.vars)), rest))
  {
    hide PutWord, PutText, TakeWord, TakeU64, TakeText, ParseTypeTable, ParseVarTable, TypeTableBytes, VarTableBytes;
    FieldRoundTrips();
    TypeTableRoundTrip(st.types, e.rec.types, VarTableBytes(e.rec.vars, rest));
    VarTableRoundTrip(st.vars, e.rec.vars, rest);
  }

  lemma {:induction false} CusRoundTrip(st: Loaded, es: Table<CuRec>, rest: seq<byte>)
    requires forall e <- es :: WfCu(e)
    ensures ParseCus(|es|, st, CusBytes(es, rest)) ==
            Some((Loaded(PutAll(st.cus, KeptCus(es)), PutAll(st.types, AllTypes(es)), PutAll(st.vars, AllVars(es))),
                  rest))
    decreases |es|
  {
    hide ParseCu, CuBytes;
    if es != [] {
      var e := es[0];
      CuRoundTrip(st, e, CusBytes(es[1..], rest));
      var st' := Loaded(Put(st.cus, e.key, LoadedCu(e.rec.lowPc, e.rec.highPc)),
                        PutAll(st.types, KeptTypes(e.rec.types)), PutAll(st.vars, e.rec.vars));
      CusRoundTrip(st', es[1..], rest);
      PutAllAppend(st.types, KeptTypes(e.rec.types), AllTypes(es[1..]));
      PutAllAppend(st.vars, e.rec.vars, AllVars(es[1..]));
      assert KeptCus(es)[1..] == KeptCus(es[1..]);
    }
  }

  // The whole file: every byte is consumed; the units come back as they were,
  // the types as the first-wins union of all type tables, and the variables
  // as the first-wins union of all variable tables.
  lemma {:induction false} FileRoundTrip(es: Table<CuRec>)
    requires WfCus(es)
    ensures ParseFile(FileBytes(es)) ==
            Read(Loaded(KeptCus(es), PutAll([], AllTypes(es)), PutAll([], AllVars(es))), [])
  {
    hide PutWord, TakeWord, TakeU64, ParseCus, CusBytes;
    FieldRoundTrips();
    CusRoundTrip(EMPTY, es, []);
    var ks := KeptCus(es);
    assert [] + ks == ks;
    PutAllInOrder([], ks);
  }

  // ------------------------------------------------------------------ several units

  // A loaded type or variable is the one of the first unit that has its key.
  lemma {:induction false} FirstUnitWins(es: Table<CuRec>, k: Key)
    ensures Lookup(PutAll([], AllTypes(es)), k) == FirstType(es, k)
    ensures Lookup(PutAll([], AllVars(es)), k) == FirstVar(es, k)
  {
    PutAllLookup([], AllTypes(es), k);
    PutAllLookup([], AllVars(es), k);
    FirstInOrder(es, k);
  }

  function FirstType(es: Table<CuRec>, k: Key): Option<LoadedType> {
    if es == [] then None
    else match Lookup(es[0].rec.types, k)
         case Some(r) => Some(Kept(r))
         case None => FirstType(es[1..], k)
  }

  function FirstVar(es: Table<CuRec>, k: Key): Option<VarRec> {
    if es == [] then None else OrElse(Lookup(es[0].rec.vars, k), FirstVar(es[1..], k))
  }

  lemma {:induction false} LookupAppend<V>(a: Table<V>, b: Table<V>, k: Key)
    ensures Lookup(a + b, k) == OrElse(Lookup(a, k), Lookup(b, k))
  {
    if a == [] {
      assert a + b == b;
    } else {
      assert (a + b)[1..] == a[1..] + b;
      LookupAppend(a[1..], b, k);
    }
  }

  lemma {:induction false} LookupKept(es: Table<TypeRec>, k: Key)
    ensures Lookup(KeptTypes(es), k) ==
            match Lookup(es, k)
            case None => None
            case Some(r) => Some(Kept(r))
  {
    if es != [] {
      assert KeptTypes(es)[1..] == KeptTypes(es[1..]);
      LookupKept(es[1..], k);
    }
  }

  lemma {:induction false} FirstInOrder(es: Table<CuRec>, k: Key)
    ensures Lookup(AllTypes(es), k) == FirstType(es, k)
    ensures Lookup(AllVars(es), k) == FirstVar(es, k)
  {
    if es != [] {
      LookupAppend(KeptTypes(es[0].rec.types), AllTypes(es[1..]), k);
      LookupAppend(es[0].rec.vars, AllVars(es[1..]), k);
      LookupKept(es[0].rec.types, k);
      FirstInOrder(es[1..], k);
    }
  }

  // All units of a program are written with one and the same variable table;
  // reading it once per unit gives that table.
  lemma {:induction false} SharedVariablesReadOnce(es: Table<CuRec>, vars: Table<VarRec>)
    requires es != [] && WfTable(vars) && forall e <- es :: e.rec.vars == vars
    ensures PutAll([], AllVars(es)) == vars
  {
    hide PutAll, Lookup, Put;
    PutAllAppend([], vars, AllVars(es[1..]));
    assert [] + vars == vars;
    PutAllInOrder([], vars);
    MembersFound(vars);
    AllVarsFrom(es[1..], vars);
    PutAllPresent(vars, AllVars(es[1..]));
  }

  lemma {:induction false} AllVarsFrom(es: Table<CuRec>, vars: Table<VarRec>)
    requires forall e <- es :: e.rec.vars == vars
    ensures forall v <- AllVars(es) :: v in vars
  {
    if es != [] {
      AllVarsFrom(es[1..], vars);
    }
  }
}
