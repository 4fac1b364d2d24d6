// From the debugging information to the tables of the analyser: the walk, the
// resolution of types, the `.vdw` file, and its reader, one after the other.
module DebugPipeline {
  import opened Words
  import opened Bytes
  import opened SymbolTables
  import opened AsciiText
  import opened DieWalk
  import opened DieTables
  import D = DebugFile
  import R = DebugFileRoundTrip
  import W = DebugFileWriter
  import T = TypeResolution
  import L = LoadedTypes

  // ------------------------------------------------------------------ tables as trees

  // A variable table with the tables that its subprograms refer to.
  function Tree(ts: seq<Table<VarRec>>, t: TableId): Table<D.VarRec>
    decreases if t < |ts| then |ts| - t else 0, 1, 0
  {
    if t < |ts| then Trees(ts, t, ts[t]) else []
  }

  function Trees(ts: seq<Table<VarRec>>, t: TableId, es: Table<VarRec>): (out: Table<D.VarRec>)
    requires t < |ts|
    ensures |out| == |es| && forall i :: 0 <= i < |es| ==> out[i].key == es[i].key
    decreases |ts| - t, 0, |es|
  {
    if es == [] then []
    else
      var r := es[0].rec;
      var local := match r.local
                   case None => D.NoTable
                   case Some(u) => D.HasTable(if t < u < |ts| then Tree(ts, u) else []);
      [Entry(es[0].key, D.VarRec(r.isLocal, r.isParam, r.declFile, r.declLine, r.lowPc, r.highPc, r.startPc,
                                 r.location, r.typ, r.isSubprog, local))] + Trees(ts, t, es[1..])
  }

  function TypeTree(ts: seq<Table<VarRec>>, r: TypeRec): D.TypeRec {
    D.TypeRec(r.size, r.name, r.isArray, r.upperBound, r.isPointer, r.isStruct, r.isConst, r.isTypedef, r.base,
              match r.members
              case None => D.NoTable
              case Some(m) => D.HasTable(Tree(ts, m)))
  }

  function TypeTrees(s: State, types: Table<nat>): (out: Table<D.TypeRec>)
    requires forall e <- types :: e.rec < |s.recs|
    ensures |out| == |types|
    ensures forall i :: 0 <= i < |types| ==>
              out[i] == Entry(types[i].key, TypeTree(s.tables, s.recs[types[i].rec]))
  {
    seq(|types|, i requires 0 <= i < |types| => Entry(types[i].key, TypeTree(s.tables, s.recs[types[i].rec])))
  }

  // ------------------------------------------------------------------ tables can be written

  ghost predicate Short(s: seq<byte>) { |s| < TWO_64 }

  // Tables and strings are shorter than memory.
  ghost predicate ShortVar(e: Entry<VarRec>) { Short(e.key) && Short(e.rec.declFile) && Short(e.rec.typ) }

  ghost predicate ShortTables(ts: seq<Table<VarRec>>) {
    forall t :: 0 <= t < |ts| ==> |ts[t]| < TWO_64 && forall e <- ts[t] :: ShortVar(e)
  }

  lemma {:induction false} TreeWf(ts: seq<Table<VarRec>>, t: TableId)
    requires VarsShape(ts) && CleanVars(ts) && ShortTables(ts) && t < |ts|
    ensures R.WfTable(Tree(ts, t)) && R.WfVars(Tree(ts, t)) && W.WritableVars(Tree(ts, t))
    decreases |ts| - t, 1, 0
  {
    hide VarShape, CleanVar, ShortVar;
    assert TableShape(t, |ts|, ts[t]);
    TreesWf(ts, t, ts[t]);
    var out := Tree(ts, t);
    forall i, j | 0 <= i < j < |out| ensures Less(out[i].key, out[j].key) {
      assert out[i].key == ts[t][i].key && out[j].key == ts[t][j].key;
    }
  }

  lemma {:induction false} TreesWf(ts: seq<Table<VarRec>>, t: TableId, es: Table<VarRec>)
    requires VarsShape(ts) && CleanVars(ts) && ShortTables(ts) && t < |ts|
    requires forall e <- es :: VarShape(t, |ts|, e.rec) && CleanVar(e) && ShortVar(e)
    ensures R.WfVars(Trees(ts, t, es)) && W.WritableVars(Trees(ts, t, es))
    decreases |ts| - t, 0, |es|
  {
    if es != [] {
      var e := es[0];
      assert e in es && forall x <- es[1..] :: x in es;
      if e.rec.local.Some? {
        assert VarShape(t, |ts|, e.rec);
        TreeWf(ts, e.rec.local.value);
      }
      TreesWf(ts, t, es[1..]);
      hide VarsShape, CleanVars, ShortTables, TableShape, R.WfVars, W.WritableVars, Tree;
      HeadWf(ts, t, es);
      AllWf(Trees(ts, t, es));
    }
  }

  lemma HeadWf(ts: seq<Table<VarRec>>, t: TableId, es: Table<VarRec>)
    requires es != [] && t < |ts| && VarShape(t, |ts|, es[0].rec) && CleanVar(es[0]) && ShortVar(es[0])
    requires es[0].rec.local.Some? ==>
               var u := es[0].rec.local.value;
               u < |ts| && R.WfTable(Tree(ts, u)) && R.WfVars(Tree(ts, u)) && W.WritableVars(Tree(ts, u))
    ensures var out := Trees(ts, t, es);
            && |out| == |es| && out[1..] == Trees(ts, t, es[1..]) && R.WfVar(out[0]) && W.WritableVar(out[0])
  {
    hide R.WfVars, W.WritableVars, Tree;
  }

  lemma AllWf(out: Table<D.VarRec>)
    requires out != [] && R.WfVar(out[0]) && W.WritableVar(out[0])
    requires R.WfVars(out[1..]) && W.WritableVars(out[1..])
    ensures R.WfVars(out) && W.WritableVars(out)
  {}

  // ------------------------------------------------------------------ types can be resolved

  // A type as the walk leaves it, with its member table.
  ghost predicate TypeOk(e: Entry<D.TypeRec>) {
    var r := e.rec;
    && Count(r.isArray) + Count(r.isPointer) + Count(r.isStruct) + Count(r.isTypedef) + Count(r.isConst) <= 1
    && Clean(e.key) && Short(e.key)
    && (r.name.None? <==> r.isConst) && (r.name.Some? ==> Clean(r.name.value))
    && (r.base.Some? <==> r.isArray || r.isPointer || r.isConst)
    && MembersOk(r)
  }

  ghost predicate MembersOk(r: D.TypeRec) {
    (r.isStruct <==> r.members.HasTable?) && R.WfSubTable(r.members) && W.WritableSubTable(r.members)
  }

  ghost predicate TypesOk(t: Table<D.TypeRec>) { Sorted(t) && |t| < TWO_64 && forall e <- t :: TypeOk(e) }

  lemma TypeTreesOk(s: State, types: Table<nat>)
    requires Shape(s) && CleanState(s) && ShortTables(s.tables)
    requires TypesShape(types, |s.recs|) && |types| < TWO_64
    requires forall e <- types :: Clean(e.key) && Short(e.key)
    ensures TypesOk(TypeTrees(s, types))
  {
    var t := TypeTrees(s, types);
    forall i | 0 <= i < |t| ensures TypeOk(t[i]) {
      assert types[i] in types;
      var r := s.recs[types[i].rec];
      assert r in s.recs && TypeShape(|s.tables|, r);
      MembersTree(s, r);
    }
    forall i, j | 0 <= i < j < |t| ensures Less(t[i].key, t[j].key) {
      assert t[i].key == types[i].key && t[j].key == types[j].key;
    }
  }

  lemma MembersTree(s: State, r: TypeRec)
    requires Shape(s) && CleanState(s) && ShortTables(s.tables) && TypeShape(|s.tables|, r)
    ensures MembersOk(TypeTree(s.tables, r))
  {
    if r.members.Some? {
      TreeWf(s.tables, r.members.value);
    }
  }

  // Every type that another one is made of is in the table, and no chain of consts
  // goes round in a circle.
  ghost predicate ChainsEnd(t: Table<D.TypeRec>) {
    forall i :: 0 <= i < |t| && t[i].rec.base.Some? ==> T.Ends(t, t[i].rec.base.value)
  }

  lemma CanBeResolved(t: Table<D.TypeRec>)
    requires TypesOk(t) && ChainsEnd(t)
    ensures T.Closed(t) && forall i :: 0 <= i < |t| ==> (t[i].rec.name.Some? <==> !t[i].rec.isConst)
  {
    forall i | 0 <= i < |t| ensures T.ClosedRec(t, t[i].rec) && (t[i].rec.name.Some? <==> !t[i].rec.isConst) {
      assert t[i] in t && TypeOk(t[i]);
    }
  }

  // What `resolve_base_types` makes of a table, by way of the rebased table u.
  ghost predicate ResolvedBy(t: Table<D.TypeRec>, u: Table<D.TypeRec>, out: Table<D.TypeRec>) {
    && T.Closed(t) && T.IsRebased(t, u) && T.Ready(u) && T.ConstsInOrder(u, |u|)
    && |out| == |u| && forall i :: 0 <= i < |u| ==> out[i] == Entry(u[i].key, T.Final(u, i))
  }

  // The resolution of types keeps the kind of a type, its base and its members.
  lemma FinalKeeps(u: Table<D.TypeRec>, i: nat)
    requires T.Ready(u) && i < |u|
    ensures var r := u[i].rec; var f := T.Final(u, i);
            f == r.(name := f.name, size := f.size)
  {}

  // The names that it builds are clean.
  lemma {:induction false} FinalClean(u: Table<D.TypeRec>, i: nat)
    requires T.Ready(u) && T.ConstsInOrder(u, |u|) && i < |u|
    requires forall j :: 0 <= j < |u| && u[j].rec.name.Some? ==> Clean(u[j].rec.name.value)
    ensures T.Final(u, i).name.Some? && Clean(T.Final(u, i).name.value)
    decreases i
  {
    T.FinalNamed(u, i);
    var r := u[i].rec;
    Suffixes();
    if T.Named(r) {
      var b := T.BaseIndex(u, i);
      if b < i {
        FinalClean(u, b);
      } else {
        assert u[b].rec.name.Some?;
      }
    }
  }

  lemma Suffixes()
    ensures Clean(T.STAR) && Clean(T.BRACKETS) && Clean(T.CONST_SPACE) && Clean(T.TYPEDEF_SPACE)
  {}

  // A resolved table can be written and read back.
  lemma ResolvedWf(t: Table<D.TypeRec>, u: Table<D.TypeRec>, out: Table<D.TypeRec>)
    requires TypesOk(t) && ResolvedBy(t, u, out)
    requires forall e <- out :: e.rec.name.Some? ==> Short(e.rec.name.value)
    ensures R.WfTable(out) && R.WfTypes(out) && W.WritableTypes(out)
  {
    forall j | 0 <= j < |u| && u[j].rec.name.Some? ensures Clean(u[j].rec.name.value) {
      assert t[j] in t && TypeOk(t[j]);
    }
    forall i, j | 0 <= i < j < |out| ensures Less(out[i].key, out[j].key) {
      assert out[i].key == t[i].key && out[j].key == t[j].key;
    }
    forall i | 0 <= i < |out| ensures R.WfType(out[i]) && W.WritableType(out[i]) {
      assert out[i] in out;
      ResolvedTypeWf(t, u, out[i], i);
    }
    AllWritable(out);
  }

  lemma {:induction false} AllWritable(out: Table<D.TypeRec>)
    requires forall i :: 0 <= i < |out| ==> W.WritableType(out[i])
    ensures W.WritableTypes(out)
  {
    if out != [] {
      AllWritable(out[1..]);
    }
  }

  lemma ResolvedTypeWf(t: Table<D.TypeRec>, u: Table<D.TypeRec>, e: Entry<D.TypeRec>, i: nat)
    requires TypesOk(t) && T.Closed(t) && T.IsRebased(t, u) && T.Ready(u) && T.ConstsInOrder(u, |u|) && i < |u|
    requires forall j :: 0 <= j < |u| && u[j].rec.name.Some? ==> Clean(u[j].rec.name.value)
    requires e == Entry(u[i].key, T.Final(u, i)) && (e.rec.name.Some? ==> Short(e.rec.name.value))
    ensures R.WfType(e) && W.WritableType(e)
  {
    hide T.Final, T.ConstsInOrder;
    FinalKeeps(u, i);
    FinalClean(u, i);
    assert t[i] in t && TypeOk(t[i]);
    if u[i].rec.base.Some? {
      BaseIsKey(t, u, i);
    }
    UpToNulIdentity(e.rec.name.value);
  }

  lemma BaseIsKey(t: Table<D.TypeRec>, u: Table<D.TypeRec>, i: nat)
    requires TypesOk(t) && T.Closed(t) && T.IsRebased(t, u) && T.Ready(u) && i < |u| && u[i].rec.base.Some?
    ensures Clean(u[i].rec.base.value) && Short(u[i].rec.base.value)
  {
    assert t[i] in t && TypeOk(t[i]);
    assert T.Named(u[i].rec);
    var b := T.BaseIndex(u, i);
    assert u[b].key == u[i].rec.base.value && u[b].key == t[b].key;
    assert t[b] in t && TypeOk(t[b]);
  }

  // ------------------------------------------------------------------ the whole way

  // The table of units that is written: for every unit its resolved types, and the
  // one variable table of the program.
  ghost predicate WrittenUnits(s: State, cus: Table<UnitRec>, es: Table<D.CuRec>) {
    && |es| == |cus|
    && forall i :: 0 <= i < |cus| ==> WrittenUnit(s, cus[i], es[i])
  }

  ghost predicate WrittenUnit(s: State, c: Entry<UnitRec>, e: Entry<D.CuRec>) {
    && (forall k <- c.rec.types :: k.rec < |s.recs|)
    && e.key == c.key && e.rec.lowPc == c.rec.lowPc && e.rec.highPc == c.rec.highPc
    && e.rec.vars == Tree(s.tables, GLOBALS)
    && exists u: Table<D.TypeRec> :: ResolvedBy(TypeTrees(s, c.rec.types), u, e.rec.types)
  }

  // All of it is shorter than memory.
  ghost predicate ShortUnits(s: State, cus: Table<UnitRec>, es: Table<D.CuRec>) {
    && ShortTables(s.tables) && |cus| < TWO_64
    && (forall c <- cus :: Short(c.key) && |c.rec.types| < TWO_64 && forall k <- c.rec.types :: Short(k.key))
    && (forall e <- es :: forall k <- e.rec.types :: k.rec.name.Some? ==> Short(k.rec.name.value))
  }

  lemma WrittenUnitWf(s: State, cus: Table<UnitRec>, es: Table<D.CuRec>, i: nat)
    requires Shape(s) && CleanState(s) && UnitsShape(cus, |s.recs|)
    requires WrittenUnits(s, cus, es) && ShortUnits(s, cus, es) && i < |cus|
    ensures R.WfCu(es[i]) && W.WritableCu(es[i])
  {
    hide ResolvedBy, TypesOk, ShortTables, R.WfVars, R.WfTypes, W.WritableTypes, W.WritableVars, CleanVars, VarsShape,
         StackShape;
    assert cus[i] in cus && es[i] in es && WrittenUnit(s, cus[i], es[i]);
    var c := cus[i].rec;
    var u: Table<D.TypeRec> :| ResolvedBy(TypeTrees(s, c.types), u, es[i].rec.types);
    TypeTreesOk(s, c.types);
    ResolvedWf(TypeTrees(s, c.types), u, es[i].rec.types);
    GlobalsThere(s);
    TreeWf(s.tables, GLOBALS);
  }

  lemma GlobalsThere(s: State)
    requires Shape(s)
    ensures GLOBALS < |s.tables|
  {
    assert s.stack[|s.stack| - 1] == GLOBALS;
  }

  // ------------------------------------------------------------------ stdout

  const FILE_TYPE := Ascii("FILE*")
  const STDOUT := Ascii("stdout")
  const NO_SOURCE := Ascii("__NOCSOURCE__")

  function FileRec(): D.TypeRec {
    D.TypeRec(WORD_SIZE, Some(FILE_TYPE), false, MINUS_ONE, false, false, false, false, None, D.NoTable)
  }

  // A variable for every symbol of that name, with its value as the location.
  function StdoutEntries(values: seq<u64>): Table<D.VarRec> {
    if values == [] then []
    else
      [Entry(STDOUT, D.VarRec(false, false, NO_SOURCE, 0, MINUS_ONE, MINUS_ONE, 0, values[0], FILE_TYPE, false,
                              D.NoTable))] +
      StdoutEntries(values[1..])
  }

  // The first unit gets the type, and the one variable table gets the variable.
  function WithStdout(es: Table<D.CuRec>, values: seq<u64>): (out: Table<D.CuRec>)
    ensures |out| == |es|
    ensures forall i :: 0 <= i < |es| ==>
              out[i] == Entry(es[i].key, es[i].rec.(
                          types := if i == 0 then Put(es[i].rec.types, FILE_TYPE, FileRec()) else es[i].rec.types,
                          vars := PutAll(es[i].rec.vars, StdoutEntries(values))))
  {
    seq(|es|, i requires 0 <= i < |es| =>
      Entry(es[i].key, es[i].rec.(
              types := if i == 0 then Put(es[i].rec.types, FILE_TYPE, FileRec()) else es[i].rec.types,
              vars := PutAll(es[i].rec.vars, StdoutEntries(values)))))
  }

  lemma {:induction false} VarsWf(es: Table<D.VarRec>)
    ensures R.WfVars(es) && W.WritableVars(es) <==> forall e <- es :: R.WfVar(e) && W.WritableVar(e)
  {
    hide R.WfVar, W.WritableVar;
    if es != [] {
      VarsWf(es[1..]);
      assert es[0] in es && forall e :: e in es <==> e == es[0] || e in es[1..];
    }
  }

  lemma {:induction false} PutAllMembers<V>(t: Table<V>, es: Table<V>)
    ensures forall e <- PutAll(t, es) :: e in t || e in es
    decreases |es|
  {
    if es != [] {
      PutMembers(t, es[0].key, es[0].rec);
      PutAllMembers(Put(t, es[0].key, es[0].rec), es[1..]);
    }
  }

  lemma StdoutNames()
    ensures Clean(FILE_TYPE) && Clean(STDOUT) && Clean(NO_SOURCE)
    ensures |FILE_TYPE| < 100 && |STDOUT| < 100 && |NO_SOURCE| < 100
  {}

  lemma {:induction false} StdoutWf(values: seq<u64>)
    ensures forall e <- StdoutEntries(values) :: R.WfVar(e) && W.WritableVar(e)
  {
    hide Ascii;
    StdoutNames();
    if values != [] {
      StdoutWf(values[1..]);
    }
  }

  lemma WithStdoutVars(vars: Table<D.VarRec>, values: seq<u64>)
    requires R.WfTable(vars) && R.WfVars(vars) && W.WritableVars(vars)
    requires |PutAll(vars, StdoutEntries(values))| < TWO_64
    ensures var out := PutAll(vars, StdoutEntries(values));
            R.WfTable(out) && R.WfVars(out) && W.WritableVars(out)
  {
    hide R.WfVars, W.WritableVars, R.WfVar, W.WritableVar, StdoutEntries, PutAll;
    var more := StdoutEntries(values);
    PutAllSorted(vars, more);
    PutAllMembers(vars, more);
    StdoutWf(values);
    VarsWf(vars);
    VarsWf(PutAll(vars, more));
  }

  lemma WithStdoutTypes(types: Table<D.TypeRec>)
    requires R.WfTable(types) && R.WfTypes(types) && W.WritableTypes(types)
    requires |Put(types, FILE_TYPE, FileRec())| < TWO_64
    ensures var out := Put(types, FILE_TYPE, FileRec());
            R.WfTable(out) && R.WfTypes(out) && W.WritableTypes(out)
  {
    hide Put, Ascii;
    PutSorted(types, FILE_TYPE, FileRec());
    PutMembers(types, FILE_TYPE, FileRec());
    FileRecWf();
    TypesWritable(types);
    var out := Put(types, FILE_TYPE, FileRec());
    forall i | 0 <= i < |out| ensures W.WritableType(out[i]) {
      assert out[i] in out;
    }
    AllWritable(out);
  }

  lemma FileRecWf()
    ensures R.WfType(Entry(FILE_TYPE, FileRec())) && W.WritableType(Entry(FILE_TYPE, FileRec()))
  {
    hide Ascii;
    StdoutNames();
    UpToNulIdentity(FILE_TYPE);
  }

  lemma {:induction false} TypesWritable(types: Table<D.TypeRec>)
    requires W.WritableTypes(types)
    ensures forall e <- types :: W.WritableType(e)
  {
    if types != [] {
      TypesWritable(types[1..]);
      assert types == [types[0]] + types[1..];
    }
  }

  // With the type and the variable, the tables still fit their counts.
  ghost predicate RoomForStdout(es: Table<D.CuRec>, values: seq<u64>) {
    forall i :: 0 <= i < |es| ==>
      && |Put(es[i].rec.types, FILE_TYPE, FileRec())| < TWO_64
      && |PutAll(es[i].rec.vars, StdoutEntries(values))| < TWO_64
  }

  lemma StdoutUnitWf(es: Table<D.CuRec>, values: seq<u64>, i: nat)
    requires RoomForStdout(es, values) && i < |es| && R.WfCu(es[i]) && W.WritableCu(es[i])
    ensures R.WfCu(WithStdout(es, values)[i]) && W.WritableCu(WithStdout(es, values)[i])
  {
    hide R.WfVars, R.WfTypes, R.WfTable, W.WritableTypes, W.WritableVars, PutAll, Put, StdoutEntries, FileRec;
    WithStdoutVars(es[i].rec.vars, values);
    WithStdoutTypes(es[i].rec.types);
  }

  // ------------------------------------------------------------------ the result

  // Whatever entries the compiler wrote: if the walk over them completes and the
  // types can be resolved, the file is written in full, with the type and the variable
  // for stdout added, and reading it gives the analyser every global, local and member
  // that the walk filed, and of the types the first-wins union over the units of what
  // the reader keeps.
  lemma AnalyserSeesTheWalk(us: seq<UnitDie>, es: Table<D.CuRec>, values: seq<u64>)
    requires WalkUnits(START, [], us).Some? && forall u <- us :: CleanUnit(u)
    requires var (s, cus) := WalkUnits(START, [], us).value;
             cus != [] && WrittenUnits(s, cus, es) && ShortUnits(s, cus, es)
    requires RoomForStdout(es, values)
    ensures var (s, cus) := WalkUnits(START, [], us).value;
            var out := WithStdout(es, values);
            && W.WritableCus(out)
            && D.ParseFile(D.FileBytes(out)) ==
               D.Read(D.Loaded(R.KeptCus(es), PutAll([], R.AllTypes(out)),
                               PutAll(Tree(s.tables, GLOBALS), StdoutEntries(values))), [])
  {
    hide *;
    StartShape();
    ShapeStack(START);
    StartClean();
    WalkUnitsShape(START, [], us);
    var (s, cus) := WalkUnits(START, [], us).value;
    StdoutUnitsWf(s, cus, es, values);
    R.FileRoundTrip(WithStdout(es, values));
  }

  // The units that are written, with the type and the variable added.
  lemma StdoutUnitsWf(s: State, cus: Table<UnitRec>, es: Table<D.CuRec>, values: seq<u64>)
    requires Shape(s) && CleanState(s) && UnitsShape(cus, |s.recs|) && cus != []
    requires WrittenUnits(s, cus, es) && ShortUnits(s, cus, es) && RoomForStdout(es, values)
    ensures var out := WithStdout(es, values);
            && W.WritableCus(out) && R.WfCus(out) && R.KeptCus(out) == R.KeptCus(es)
            && PutAll([], R.AllVars(out)) == PutAll(Tree(s.tables, GLOBALS), StdoutEntries(values))
  {
    hide *;
    var out := WithStdout(es, values);
    Nonempty(s, cus, es);
    forall i | 0 <= i < |out| ensures R.WfCu(out[i]) && W.WritableCu(out[i]) {
      WrittenUnitWf(s, cus, es, i);
      StdoutUnitWf(es, values, i);
    }
    SameUnits(s, cus, es, values);
    UnitsWf(out);
    UnitsWritable(out);
    SharedVars(out, PutAll(Tree(s.tables, GLOBALS), StdoutEntries(values)));
    R.SharedVariablesReadOnce(out, PutAll(Tree(s.tables, GLOBALS), StdoutEntries(values)));
  }

  lemma Nonempty(s: State, cus: Table<UnitRec>, es: Table<D.CuRec>)
    requires WrittenUnits(s, cus, es) && ShortUnits(s, cus, es) && cus != []
    ensures 0 < |es| == |cus| < TWO_64
  {}

  // The units have their keys and ranges, and share one variable table.
  lemma SameUnits(s: State, cus: Table<UnitRec>, es: Table<D.CuRec>, values: seq<u64>)
    requires UnitsShape(cus, |s.recs|) && |cus| < TWO_64 && WrittenUnits(s, cus, es)
    ensures var out := WithStdout(es, values);
            && R.WfTable(out) && R.KeptCus(out) == R.KeptCus(es)
            && forall e <- out :: e.rec.vars == PutAll(Tree(s.tables, GLOBALS), StdoutEntries(values))
  {
    hide PutAll, WrittenUnit, TypesShape, Put, FileRec, StdoutEntries, Clean;
    var out := WithStdout(es, values);
    forall i | 0 <= i < |out| ensures out[i].key == cus[i].key && es[i].rec.vars == Tree(s.tables, GLOBALS) {
      SameKey(s, cus[i], es[i]);
    }
    assert R.KeptCus(out) == R.KeptCus(es);
  }

  lemma UnitsWf(es: Table<D.CuRec>)
    requires R.WfTable(es) && forall i :: 0 <= i < |es| ==> R.WfCu(es[i])
    ensures R.WfCus(es)
  {
    hide R.WfCu;
  }

  lemma SharedVars(es: Table<D.CuRec>, vars: Table<D.VarRec>)
    requires es != [] && R.WfCu(es[0]) && es[0] in es && forall e <- es :: e.rec.vars == vars
    ensures R.WfTable(vars)
  {}

  lemma SameKey(s: State, c: Entry<UnitRec>, e: Entry<D.CuRec>)
    requires WrittenUnit(s, c, e)
    ensures e.key == c.key && e.rec.vars == Tree(s.tables, GLOBALS)
  {}

  lemma StartClean()
    ensures CleanState(START) && UnitsShape([], |START.recs|) && PlainRecs(START)
  {}

  lemma {:induction false} UnitsWritable(es: Table<D.CuRec>)
    requires forall i :: 0 <= i < |es| ==> W.WritableCu(es[i])
    ensures W.WritableCus(es)
  {
    if es != [] {
      UnitsWritable(es[1..]);
    }
  }

  // ------------------------------------------------------------------ names and sizes of what the walk made

  // The names that are built for the types of the walk are their spellings exactly along
  // the chains in which renamed types come first.
  lemma WalkSpelledExactly(s: State, types: Table<nat>, u: Table<D.TypeRec>, i: nat, n: nat)
    requires PlainRecs(s) && forall e <- types :: e.rec < |s.recs|
    requires var t := TypeTrees(s, types); T.Closed(t) && T.IsRebased(t, u)
    requires T.Ready(u) && T.ConstsInOrder(u, |u|) && i < |u| && T.Grounded(u, i, n)
    ensures T.Final(u, i).name == Some(T.Spell(u, i, n)) <==> T.InOrder(u, i, n)
  {
    hide T.EndsWith, T.Final, T.Ready, T.ConstsInOrder;
    var t := TypeTrees(s, types);
    forall j | 0 <= j < |u| ensures T.PlainName(u[j].rec) {
      assert types[j] in types;
      var r := s.recs[types[j].rec];
      assert r in s.recs && PlainRec(r);
      assert T.ClosedRec(t, t[j].rec);
    }
    T.SpelledExactly(u, i, n);
  }

  // An array entry with bounds below it: resolution takes the element size as often as
  // the last bound says, and that is the size of the array exactly when all other bounds
  // are 0.
  lemma DimensionsExactly(ts: seq<Table<VarRec>>, d: Die, t: Table<D.TypeRec>, u: Table<D.TypeRec>, i: nat)
    requires d.tag.ArrayType? && AreBounds(d.children) && d.children != []
    requires T.Closed(t) && i < |t| && t[i].rec == TypeTree(ts, BoundedAll(ArrayRec(d), Bounds(d.children)))
    requires T.IsRebased(t, u) && T.Ready(u) && T.Named(u[i].rec) && L.SizedBefore(u, i)
    ensures var ubs := Bounds(d.children);
            var element := T.Final(u, T.BaseIndex(u, i)).size;
            && |ubs| == |d.children|
            && T.Final(u, i).size == Mul(element, Add(ubs[|ubs| - 1], 1))
            && (element > 0 && element * ElementCount(ubs) < TWO_64 ==>
                  (T.Final(u, i).size == element * ElementCount(ubs) <==>
                   forall k :: 0 <= k < |ubs| - 1 ==> ubs[k] == 0))
  {
    hide T.Final, T.Ready, BoundedAll, L.SizedBefore;
    var ubs := Bounds(d.children);
    BoundsLength(d.children);
    SeveralBounds(ArrayRec(d), ubs);
    assert T.ClosedRec(t, t[i].rec);
    L.ArraySize(u, i);
    LastCountsExactly(ubs);
    var element: nat := T.Final(u, T.BaseIndex(u, i)).size;
    if element > 0 && element * ElementCount(ubs) < TWO_64 {
      SizeExactly(element, ubs[|ubs| - 1], LastCount(ubs), ElementCount(ubs));
    }
  }

  lemma {:induction false} BoundsLength(ds: seq<Die>)
    ensures |Bounds(ds)| == |ds|
  {
    if ds != [] {
      BoundsLength(ds[1..]);
    }
  }

  lemma SizeExactly(element: u64, last: u64, few: nat, all: nat)
    requires element > 0 && few == last + 1 && few <= all && element * all < TWO_64
    ensures Mul(element, Add(last, 1)) == element * all <==> few == all
  {
    TimesMono(element, few, all);
    TimesMono(all, 1, element);
    assert few < TWO_64 && Add(last, 1) == few;
    assert Mul(element, few) == element * few;
  }

  lemma TimesMono(n: nat, a: nat, b: nat)
    requires n > 0 && a <= b
    ensures n * a <= n * b && (n * a == n * b <==> a == b)
  {}

  // ------------------------------------------------------------------ arrays in the loaded tables

  // A key means the same type in all units that have it: it is the place of the type in
  // the debugging information.
  ghost predicate OneMeaning(es: Table<D.CuRec>) {
    forall e, e', k :: e in es && e' in es && Lookup(e.rec.types, k).Some? && Lookup(e'.rec.types, k).Some? ==>
      R.Kept(Lookup(e.rec.types, k).value) == R.Kept(Lookup(e'.rec.types, k).value)
  }

  // The types of every unit have been resolved, and that of stdout added to some.
  ghost predicate AllResolved(es: Table<D.CuRec>) {
    forall e <- es ::
      exists t: Table<D.TypeRec>, u: Table<D.TypeRec>, out: Table<D.TypeRec> :: ResolvedUnit(t, u, out, e.rec.types)
  }

  ghost predicate ResolvedUnit(t: Table<D.TypeRec>, u: Table<D.TypeRec>, out: Table<D.TypeRec>,
                               types: Table<D.TypeRec>) {
    ResolvedBy(t, u, out) && (types == out || types == Put(out, FILE_TYPE, FileRec()))
  }

  // So it is of what is written.
  lemma WrittenResolved(s: State, cus: Table<UnitRec>, es: Table<D.CuRec>, values: seq<u64>)
    requires WrittenUnits(s, cus, es)
    ensures AllResolved(WithStdout(es, values))
  {
    hide ResolvedBy, Put, PutAll, StdoutEntries, FileRec;
    var out := WithStdout(es, values);
    forall i | 0 <= i < |out|
      ensures exists t: Table<D.TypeRec>, u: Table<D.TypeRec>, res: Table<D.TypeRec> ::
                ResolvedUnit(t, u, res, out[i].rec.types)
    {
      assert WrittenUnit(s, cus[i], es[i]);
      var u: Table<D.TypeRec> :| ResolvedBy(TypeTrees(s, cus[i].rec.types), u, es[i].rec.types);
      assert ResolvedUnit(TypeTrees(s, cus[i].rec.types), u, es[i].rec.types, out[i].rec.types);
    }
  }

  lemma {:induction false} FirstUnitWith(es: Table<D.CuRec>, k: Key)
    ensures R.FirstType(es, k).Some? <==> exists e :: e in es && Lookup(e.rec.types, k).Some?
    ensures R.FirstType(es, k).Some? ==>
              exists e :: e in es && Lookup(e.rec.types, k).Some? &&
                          R.FirstType(es, k) == Some(R.Kept(Lookup(e.rec.types, k).value))
  {
    if es != [] {
      FirstUnitWith(es[1..], k);
      assert es == [es[0]] + es[1..];
      if Lookup(es[0].rec.types, k).Some? {
        assert es[0] in es;
      }
    }
  }

  lemma ResolvedSorted(t: Table<D.TypeRec>, u: Table<D.TypeRec>, out: Table<D.TypeRec>)
    requires ResolvedBy(t, u, out)
    ensures Sorted(out)
  {
    hide T.Final;
    forall j, k | 0 <= j < k < |out| ensures Less(out[j].key, out[k].key) {
      assert out[j].key == u[j].key && out[k].key == u[k].key;
    }
  }

  // Where the types of a unit are found.
  lemma ResolvedLookup(t: Table<D.TypeRec>, u: Table<D.TypeRec>, out: Table<D.TypeRec>, types: Table<D.TypeRec>, k: Key)
    requires ResolvedUnit(t, u, out, types) && Lookup(types, k).Some? && Lookup(types, k).value.isArray
    ensures exists i :: 0 <= i < |u| && u[i].key == k && Lookup(types, k) == Some(T.Final(u, i))
  {
    hide T.Final, Lookup, Put;
    ResolvedSorted(t, u, out);
    PutLookup(out, FILE_TYPE, FileRec(), k);
    var i := T.IndexOf(out, k);
    assert out[i] == Entry(u[i].key, T.Final(u, i));
  }

  lemma ResolvedAt(t: Table<D.TypeRec>, u: Table<D.TypeRec>, out: Table<D.TypeRec>, types: Table<D.TypeRec>, i: nat)
    requires ResolvedUnit(t, u, out, types) && i < |u|
    ensures Lookup(types, u[i].key) == Some(T.Final(u, i))
  {
    hide T.Final, Lookup, Put;
    ResolvedSorted(t, u, out);
    PutLookup(out, FILE_TYPE, FileRec(), u[i].key);
    LookupAt(out, i);
  }

  // In the types that the analyser loads, every array of elements that are no arrays is
  // there with its element type, just as resolution left the two.
  lemma LoadedArray(es: Table<D.CuRec>, k: Key)
    requires AllResolved(es) && OneMeaning(es)
    requires var r := R.FirstType(es, k); r.Some? && r.value.isArray && !r.value.isPointer
    ensures var types := PutAll([], R.AllTypes(es)); var t := Lookup(types, k);
            && t == R.FirstType(es, k) && t.value.base.Some?
            && var et := Lookup(types, t.value.base.value);
               && et.Some?
               && (!et.value.isArray || et.value.isPointer ==>
                     && L.FromResolution(t.value, et.value)
                     && t.value.size == Mul(et.value.size, Add(t.value.upperBound, 1)))
  {
    hide T.Final, T.Ready, R.AllTypes, PutAll, Lookup, R.FirstType, OneMeaning, L.FromResolution, T.IsRebased;
    FirstUnitWith(es, k);
    var e :| e in es && Lookup(e.rec.types, k).Some?
             && R.FirstType(es, k) == Some(R.Kept(Lookup(e.rec.types, k).value));
    var t0: Table<D.TypeRec>, u: Table<D.TypeRec>, out: Table<D.TypeRec> :| ResolvedUnit(t0, u, out, e.rec.types);
    ResolvedLookup(t0, u, out, e.rec.types, k);
    var i :| 0 <= i < |u| && u[i].key == k && Lookup(e.rec.types, k) == Some(T.Final(u, i));
    ArrayParts(t0, u, i);
    var b := T.BaseIndex(u, i);
    ResolvedAt(t0, u, out, e.rec.types, b);
    LoadedAs(es, e, k);
    LoadedAs(es, e, u[b].key);
    FinalKeeps(u, b);
    if !u[b].rec.isArray || u[b].rec.isPointer {
      ArrayLeft(u, i);
    }
  }

  lemma ArrayLeft(u: Table<D.TypeRec>, i: nat)
    requires T.Ready(u) && i < |u| && u[i].rec.isArray && !u[i].rec.isPointer
    requires var b := T.BaseIndex(u, i); !u[b].rec.isArray || u[b].rec.isPointer
    ensures var t := R.Kept(T.Final(u, i)); var et := R.Kept(T.Final(u, T.BaseIndex(u, i)));
            L.FromResolution(t, et) && t.size == Mul(et.size, Add(t.upperBound, 1))
  {
    hide T.Final, T.Ready;
    var t, et := R.Kept(T.Final(u, i)), R.Kept(T.Final(u, T.BaseIndex(u, i)));
    assert L.ResolvedArray(u, i, t, et);
    L.ArrayExtent(t, et);
  }

  // The loaded type under a key is what is kept of that in any unit that has the key.
  lemma LoadedAs(es: Table<D.CuRec>, e: Entry<D.CuRec>, k: Key)
    requires OneMeaning(es) && e in es && Lookup(e.rec.types, k).Some?
    ensures Lookup(PutAll([], R.AllTypes(es)), k) == Some(R.Kept(Lookup(e.rec.types, k).value)) == R.FirstType(es, k)
  {
    hide R.AllTypes, PutAll, Lookup, R.FirstType, OneMeaning, R.Kept;
    R.FirstUnitWins(es, k);
    FirstUnitWith(es, k);
    var e' :| e' in es && Lookup(e'.rec.types, k).Some? &&
              R.FirstType(es, k) == Some(R.Kept(Lookup(e'.rec.types, k).value));
    SameMeaning(es, e, e', k);
  }

  lemma SameMeaning(es: Table<D.CuRec>, e: Entry<D.CuRec>, e': Entry<D.CuRec>, k: Key)
    requires OneMeaning(es) && e in es && e' in es
    requires Lookup(e.rec.types, k).Some? && Lookup(e'.rec.types, k).Some?
    ensures R.Kept(Lookup(e.rec.types, k).value) == R.Kept(Lookup(e'.rec.types, k).value)
  {}

  lemma ArrayParts(t: Table<D.TypeRec>, u: Table<D.TypeRec>, i: nat)
    requires T.Closed(t) && T.IsRebased(t, u) && T.Ready(u) && i < |u|
    requires T.Final(u, i).isArray && !T.Final(u, i).isPointer
    ensures u[i].rec.isArray && !u[i].rec.isPointer && T.Named(u[i].rec)
    ensures T.Final(u, i).base == Some(u[T.BaseIndex(u, i)].key)
  {
    FinalKeeps(u, i);
  }
}
