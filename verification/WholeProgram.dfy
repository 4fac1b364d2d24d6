// From the debugging information of an executable to a program that is monitored: the
// walk, the debug file, the loader, and the premises of everything behind it.
module WholeProgram {
  import opened Words
  import opened SymbolTables
  import opened DieWalk
  import opened DieTables
  import opened DebugPipeline
  import D = DebugFile
  import R = DebugFileRoundTrip
  import T = TypeResolution
  import L = LoadedTypes
  import S = ShadowStack
  import A = AddressTranslation
  import V = LoadedViews
  import M = Monitor
  import O = ShadowRuns

  // No type is an array and a pointer at once.
  ghost predicate OneKind(es: Table<D.CuRec>) {
    forall e, k :: e in es && Lookup(e.rec.types, k).Some? ==>
      !(Lookup(e.rec.types, k).value.isArray && Lookup(e.rec.types, k).value.isPointer)
  }

  lemma ResolvedKind(s: State, types: Table<nat>, out: Table<D.TypeRec>, i: nat)
    requires (forall e <- types :: e.rec < |s.recs|) && TypesOk(TypeTrees(s, types))
    requires exists u: Table<D.TypeRec> :: ResolvedBy(TypeTrees(s, types), u, out)
    requires i < |out|
    ensures !(out[i].rec.isArray && out[i].rec.isPointer)
  {
    hide T.Final, T.ConstsInOrder;
    var t := TypeTrees(s, types);
    var u: Table<D.TypeRec> :| ResolvedBy(t, u, out);
    FinalKeeps(u, i);
    assert t[i] in t && TypeOk(t[i]);
  }

  lemma UnitKind(s: State, types: Table<nat>, out: Table<D.TypeRec>, file: bool, k: Key)
    requires (forall e <- types :: e.rec < |s.recs|) && TypesOk(TypeTrees(s, types))
    requires exists u: Table<D.TypeRec> :: ResolvedBy(TypeTrees(s, types), u, out)
    ensures var all := if file then Put(out, FILE_TYPE, FileRec()) else out;
            Lookup(all, k).Some? ==> !(Lookup(all, k).value.isArray && Lookup(all, k).value.isPointer)
  {
    hide TypesOk, ResolvedBy, Lookup, Put;
    var u: Table<D.TypeRec> :| ResolvedBy(TypeTrees(s, types), u, out);
    ResolvedSorted(TypeTrees(s, types), u, out);
    PutLookup(out, FILE_TYPE, FileRec(), k);
    if Lookup(out, k).Some? {
      FoundAt(out, k);
      var i :| 0 <= i < |out| && Lookup(out, k) == Some(out[i].rec);
      ResolvedKind(s, types, out, i);
    }
  }

  lemma {:induction false} FoundAt<W>(t: Table<W>, k: Key)
    requires Lookup(t, k).Some?
    ensures exists i :: 0 <= i < |t| && Lookup(t, k) == Some(t[i].rec)
  {
    if t[0].key == k {
      assert Lookup(t, k) == Some(t[0].rec);
    } else {
      FoundAt(t[1..], k);
      var i :| 0 <= i < |t[1..]| && Lookup(t[1..], k) == Some(t[1..][i].rec);
      assert t[i + 1] == t[1..][i];
    }
  }

  lemma WrittenOneKind(s: State, cus: Table<UnitRec>, es: Table<D.CuRec>, values: seq<u64>)
    requires Shape(s) && CleanState(s) && UnitsShape(cus, |s.recs|)
    requires WrittenUnits(s, cus, es) && ShortUnits(s, cus, es)
    ensures OneKind(WithStdout(es, values))
  {
    hide ResolvedBy, TypesOk, Put, PutAll, FileRec, StdoutEntries, Lookup, Shape, CleanState, ShortTables;
    var out := WithStdout(es, values);
    forall e, k | e in out && Lookup(e.rec.types, k).Some?
      ensures !(Lookup(e.rec.types, k).value.isArray && Lookup(e.rec.types, k).value.isPointer)
    {
      var i :| 0 <= i < |out| && out[i] == e;
      assert cus[i] in cus && es[i] in es && WrittenUnit(s, cus[i], es[i]);
      TypeTreesOk(s, cus[i].rec.types);
      UnitKind(s, cus[i].rec.types, es[i].rec.types, i == 0, k);
    }
  }

  // What is asked of arrays whose elements are arrays, for which resolution may take the
  // size of the elements too early.
  ghost predicate NestedArraysSized(env: S.Env) {
    forall k <- env.types ::
      S.KindOf(env, env.types[k]).AsArray? && IsNested(env, env.types[k]) ==> V.ElementsSized(env, k)
  }

  predicate IsNested(env: S.Env, t: D.LoadedType) {
    t.base.Some? && t.base.value in env.types && env.types[t.base.value].isArray && !env.types[t.base.value].isPointer
  }

  // All other arrays that have come through resolution, writer and reader have elements
  // of some size or no bytes.
  lemma OthersSized(es: Table<D.CuRec>, env: S.Env, k: Key)
    requires AllResolved(es) && OneMeaning(es) && OneKind(es)
    requires env.types == V.TypeMap(PutAll([], R.AllTypes(es))) && k in env.types && !IsNested(env, env.types[k])
    ensures V.ElementsSized(env, k)
  {
    hide R.AllTypes, PutAll, Lookup, R.FirstType, OneMeaning, L.FromResolution, AllResolved, OneKind;
    if S.KindOf(env, env.types[k]).AsArray? {
      R.FirstUnitWins(es, k);
      FirstKind(es, k);
      LoadedArray(es, k);
      NothingTimes(Add(env.types[k].upperBound, 1));
    }
  }

  lemma NothingTimes(x: u64)
    ensures Mul(0, x) == 0
  {}

  lemma FirstKind(es: Table<D.CuRec>, k: Key)
    requires OneKind(es) && R.FirstType(es, k).Some?
    ensures !(R.FirstType(es, k).value.isArray && R.FirstType(es, k).value.isPointer)
  {
    hide R.FirstType, Lookup;
    FirstUnitWith(es, k);
  }

  // Whatever the debugging information: if the walk completes, its types can be resolved,
  // a key means one type, and the types in the tables are there, then the file that is
  // written is loaded, and the program can be monitored through whatever events. Of
  // arrays it is asked only that they have fewer than 2^32 elements and, where elements
  // are arrays themselves, that these have some size.
  lemma WalkCanBeMonitored(us: seq<UnitDie>, es: Table<D.CuRec>, values: seq<u64>, env: S.Env, textBase: u64, n: nat,
                           ids: V.Ids, events: seq<M.Event>)
    requires WalkUnits(START, [], us).Some? && forall u <- us :: CleanUnit(u)
    requires var (s, cus) := WalkUnits(START, [], us).value;
             && cus != [] && WrittenUnits(s, cus, es) && ShortUnits(s, cus, es) && RoomForStdout(es, values)
             && OneMeaning(WithStdout(es, values))
             && env.types == V.TypeMap(PutAll([], R.AllTypes(WithStdout(es, values))))
             && V.TypedVars(V.LayoutTypes(env.types), PutAll(Tree(s.tables, GLOBALS), StdoutEntries(values)), n)
    requires NestedArraysSized(env) && forall k <- env.types :: V.ElementsCounted(env, k)
    ensures var file := D.ParseFile(D.FileBytes(WithStdout(es, values)));
            && file.Read? && file.rest == [] && V.ShapedVars(file.tables.vars)
            && V.TypedVars(V.LayoutTypes(env.types), file.tables.vars, n)
            && var p := M.Program(env, textBase, V.UnitsOf(V.LayoutTypes(env.types), n, ids, file.tables));
               && A.AllLinked(env, p.cus) && S.AllKnown(env, A.GlobalRecords(p.cus))
               && O.OpsKnown(env, M.OpsOf(p, events))
  {
    hide *;
    StartShape();
    ShapeStack(START);
    StartClean();
    WalkUnitsShape(START, [], us);
    var (s, cus) := WalkUnits(START, [], us).value;
    var out := WithStdout(es, values);
    AnalyserSeesTheWalk(us, es, values);
    WrittenResolved(s, cus, es, values);
    WrittenOneKind(s, cus, es, values);
    AllSized(out, env);
    M.LoadedCanBeMonitored(D.FileBytes(out), env, textBase, n, ids, events);
  }

  lemma AllSized(es: Table<D.CuRec>, env: S.Env)
    requires AllResolved(es) && OneMeaning(es) && OneKind(es)
    requires env.types == V.TypeMap(PutAll([], R.AllTypes(es)))
    requires NestedArraysSized(env) && forall k <- env.types :: V.ElementsCounted(env, k)
    ensures V.ArraysSized(env)
  {
    hide AllResolved, OneMeaning, OneKind, R.AllTypes, PutAll, V.ElementsCounted;
    forall k | k in env.types ensures V.ElementsSized(env, k) {
      if !IsNested(env, env.types[k]) {
        OthersSized(es, env, k);
      }
    }
  }
}
