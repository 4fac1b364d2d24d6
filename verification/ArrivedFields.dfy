// What the analyser has of the attributes of an entry, behind the walk, the resolution of
// types, the file and its reader.
module ArrivedFields {
  import opened Words
  import opened SymbolTables
  import opened AsciiText
  import opened DieWalk
  import opened DieTables
  import opened DieFields
  import opened DebugPipeline
  import D = DebugFile
  import R = DebugFileRoundTrip
  import T = TypeResolution

  // ------------------------------------------------------------------ variables

  // The loaded record is that of this variable, parameter, member or subprogram.
  predicate LoadedVarOf(d: Die, key: Key, r: D.VarRec) {
    && Called(d, key) && Typed(d, r.typ) && r.declFile == d.declFile
    && r.declLine == (if d.declLine.Some? then d.declLine.value else 0)
    && (r.isSubprog <==> d.tag.Subprogram?) && (r.isParam <==> d.tag.FormalParameter?)
    && (r.isLocal ==> d.tag.Variable?) && (r.local.HasTable? <==> d.tag.Subprogram?)
    && match d.tag
       case Subprogram =>
         && r.lowPc == (if d.lowPc.Some? then d.lowPc.value else 0)
         && r.highPc == (if d.highPc.Some? then d.highPc.value else 0)
         && r.startPc == d.startPc && r.location == 0
       case Variable => d.location == Some(r.location)
       case FormalParameter => d.location == Some(r.location)
       case Member => r.location == (if d.location.Some? then d.location.value else 0)
       case _ => false
  }

  ghost predicate LoadedVarFrom(dies: set<Die>, e: Entry<D.VarRec>)
    decreases e, 1
  {
    && (exists d :: d in dies && LoadedVarOf(d, e.key, e.rec))
    && (e.rec.local.HasTable? ==> LoadedVarsFrom(dies, e.rec.local.vars))
  }

  // All records of the table, and of the tables in it, come from these entries.
  ghost predicate LoadedVarsFrom(dies: set<Die>, es: Table<D.VarRec>)
    decreases es, 0
  {
    forall i :: 0 <= i < |es| ==> LoadedVarFrom(dies, es[i])
  }

  lemma {:induction false} TreeFrom(dies: set<Die>, ts: seq<Table<VarRec>>, t: TableId)
    requires VarsFrom(dies, ts)
    ensures LoadedVarsFrom(dies, Tree(ts, t))
    decreases if t < |ts| then |ts| - t else 0, 1, 0
  {
    if t < |ts| {
      TreesFrom(dies, ts, t, ts[t]);
    }
  }

  lemma {:induction false} TreesFrom(dies: set<Die>, ts: seq<Table<VarRec>>, t: TableId, es: Table<VarRec>)
    requires VarsFrom(dies, ts) && t < |ts| && forall e <- es :: VarFrom(dies, e)
    ensures LoadedVarsFrom(dies, Trees(ts, t, es))
    decreases |ts| - t, 0, |es|
  {
    if es != [] {
      hide VarsFrom, VarFields, LoadedVarOf;
      var e := es[0];
      if e.rec.local.Some? && t < e.rec.local.value < |ts| {
        TreeFrom(dies, ts, e.rec.local.value);
      }
      TreesFrom(dies, ts, t, es[1..]);
      assert VarFrom(dies, e);
      var d :| d in dies && VarFields(d, e.key, e.rec);
      var out := Trees(ts, t, es);
      SameFields(d, e.key, e.rec, out[0].rec);
      assert out[1..] == Trees(ts, t, es[1..]);
      forall i | 0 <= i < |out| ensures LoadedVarFrom(dies, out[i]) {
        assert i > 0 ==> out[i] == out[1..][i - 1];
      }
    }
  }

  lemma SameFields(d: Die, key: Key, r: VarRec, r': D.VarRec)
    requires VarFields(d, key, r)
    requires r' == D.VarRec(r.isLocal, r.isParam, r.declFile, r.declLine, r.lowPc, r.highPc, r.startPc, r.location,
                            r.typ, r.isSubprog, r'.local)
    requires r'.local.HasTable? <==> r.local.Some?
    ensures LoadedVarOf(d, key, r')
  {}

  // ------------------------------------------------------------------ types

  // The loaded type is that of this entry. The reader takes const for typedef and typedef
  // for const. The size of an array, and the names of types that are named after others,
  // are not for the entry to say.
  predicate LoadedTypeOf(d: Die, t: D.LoadedType) {
    && (t.isArray <==> d.tag.ArrayType?) && (t.isPointer <==> d.tag.PointerType?)
    && (t.isStruct <==> d.tag.StructType?) && (t.isTypedef <==> d.tag.ConstType?) && (t.isConst <==> d.tag.Typedef?)
    && (t.members.HasTable? <==> d.tag.StructType?) && (t.base.Some? <==> d.tag.ArrayType? || d.tag.PointerType?)
    && (t.isArray || t.upperBound == 0xFFFF_FFFF_FFFF_FFFF)
    && match d.tag
       case BaseType => Called(d, t.name) && Sized(d, t.size)
       case Typedef => Ascii("typedef ") <= t.name && Called(d, t.name[8..]) && Sized(d, t.size)
       case StructType => Ascii("struct ") <= t.name && Called(d, t.name[7..]) && Sized(d, t.size)
       case PointerType => Sized(d, t.size)
       case ArrayType => true
       case ConstType => t.size == 0xFFFF_FFFF_FFFF_FFFF
       case _ => false
  }

  predicate LoadedVoid(t: D.LoadedType) {
    && t.name == Ascii("void") && t.size == 8 && t.base == None && !t.members.HasTable?
    && !t.isArray && !t.isPointer && !t.isStruct && !t.isConst && !t.isTypedef
  }

  ghost predicate LoadedTypeFrom(dies: set<Die>, k: Key, t: D.LoadedType) {
    (exists d :: d in dies && d.offset == k && LoadedTypeOf(d, t)) || (k == Ascii("void") && LoadedVoid(t))
  }

  // A resolved type keeps all but its name, and an array also its size; a typedef and a
  // type that is not named after another keep their own.
  lemma ResolvedFields(t: Table<D.TypeRec>, u: Table<D.TypeRec>, i: nat)
    requires T.Closed(t) && T.IsRebased(t, u) && T.Ready(u) && i < |u|
    ensures var r, f := t[i].rec, T.Final(u, i);
            && f == r.(name := f.name, size := f.size, base := f.base)
            && (f.base.Some? <==> r.base.Some?)
            && (!r.isArray || r.isPointer ==> f.size == r.size)
            && (!r.isArray && !r.isPointer && !r.isConst ==>
                  f.name == if r.isTypedef then Some(Ascii("typedef ") + r.name.GetOr([])) else r.name)
  {
    assert T.ClosedRec(t, t[i].rec);
  }

  lemma TypeArrives(s: State, r: TypeRec, f: D.TypeRec, d: Die)
    requires TypeFields(d, r)
    requires var t := TypeTree(s.tables, r);
             && f == t.(name := f.name, size := f.size, base := f.base) && (f.base.Some? <==> t.base.Some?)
             && (!t.isArray || t.isPointer ==> f.size == t.size)
             && (!t.isArray && !t.isPointer && !t.isConst ==>
                   f.name == if t.isTypedef then Some(Ascii("typedef ") + t.name.GetOr([])) else t.name)
    ensures LoadedTypeOf(d, R.Kept(f))
  {
    TypedefName(r.name.GetOr([]));
  }

  lemma TypedefName(name: seq<byte>)
    ensures var all := Ascii("typedef ") + name; Ascii("typedef ") <= all && all[8..] == name
  {}

  lemma VoidArrives(s: State, r: TypeRec, f: D.TypeRec)
    requires IsVoid(r)
    requires var t := TypeTree(s.tables, r);
             && f == t.(name := f.name, size := f.size, base := f.base) && (f.base.Some? <==> t.base.Some?)
             && f.size == t.size && f.name == t.name
    ensures LoadedVoid(R.Kept(f))
  {}

  lemma UnitTypeArrives(dies: set<Die>, s: State, types: Table<nat>, u: Table<D.TypeRec>, out: Table<D.TypeRec>, i: nat)
    requires TypesFrom(dies, s.recs, types) && ResolvedBy(TypeTrees(s, types), u, out) && i < |out|
    ensures LoadedTypeFrom(dies, out[i].key, R.Kept(out[i].rec))
  {
    hide T.Final, T.ConstsInOrder, T.Ready, TypeFields, IsVoid, LoadedTypeOf, LoadedVoid, Ascii, R.Kept, T.Closed;
    var t := TypeTrees(s, types);
    var e := types[i];
    assert e in types && KeyFrom(dies, s.recs, e);
    var r := s.recs[e.rec];
    if d :| d in dies && d.offset == e.key && TypeFields(d, r) {
      ResolvedFields(t, u, i);
      TypeArrives(s, r, T.Final(u, i), d);
    } else {
      ResolvedFields(t, u, i);
      VoidPlain(r);
      VoidArrives(s, r, T.Final(u, i));
    }
  }

  lemma VoidPlain(r: TypeRec)
    requires IsVoid(r)
    ensures !r.isArray && !r.isPointer && !r.isConst && !r.isTypedef
  {}

  // ------------------------------------------------------------------ all of it

  // The standard stream that is added to the globals, and its type.
  predicate IsStdout(values: seq<u64>, k: Key, r: D.VarRec) {
    && k == Ascii("stdout") && r.typ == Ascii("FILE*") && r.location in values
    && !r.isLocal && !r.isParam && !r.isSubprog && !r.local.HasTable?
  }

  predicate IsFile(k: Key, t: D.LoadedType) {
    && k == Ascii("FILE*") && t.name == Ascii("FILE*") && t.size == 8
    && !t.isArray && !t.isPointer && !t.isStruct && !t.isConst && !t.isTypedef && t.base == None
  }

  lemma FileFields()
    ensures IsFile(FILE_TYPE, R.Kept(FileRec()))
  {}

  lemma {:induction false} StdoutFields(values: seq<u64>)
    ensures forall e <- StdoutEntries(values) :: IsStdout(values, e.key, e.rec)
  {
    if values != [] {
      StdoutFields(values[1..]);
      assert forall x <- values[1..] :: x in values;
    }
  }

  lemma GlobalsArrive(dies: set<Die>, ts: seq<Table<VarRec>>, values: seq<u64>, k: Key)
    requires VarsFrom(dies, ts)
    ensures var r := Lookup(PutAll(Tree(ts, GLOBALS), StdoutEntries(values)), k);
            r.Some? ==> LoadedVarFrom(dies, Entry(k, r.value)) || IsStdout(values, k, r.value)
  {
    hide PutAll, Tree, StdoutEntries, IsStdout, VarsFrom, Lookup;
    var tree := Tree(ts, GLOBALS);
    var all := PutAll(tree, StdoutEntries(values));
    TreeFrom(dies, ts, GLOBALS);
    StdoutFields(values);
    PutAllMembers(tree, StdoutEntries(values));
    LookupIn(all, k);
    if Lookup(all, k).Some? {
      var e := Entry(k, Lookup(all, k).value);
      if e in tree {
        var i :| 0 <= i < |tree| && tree[i] == e;
        assert LoadedVarFrom(dies, tree[i]);
      }
    }
  }

  // The types of one unit, with the one that is added to the first.
  lemma UnitArrives(dies: set<Die>, s: State, types: Table<nat>, out: Table<D.TypeRec>, file: bool, k: Key)
    requires TypesFrom(dies, s.recs, types) && forall e <- types :: e.rec < |s.recs|
    requires exists u: Table<D.TypeRec> :: ResolvedBy(TypeTrees(s, types), u, out)
    ensures var all := if file then Put(out, FILE_TYPE, FileRec()) else out; var x := Lookup(all, k);
            x.Some? ==> LoadedTypeFrom(dies, k, R.Kept(x.value)) || IsFile(k, R.Kept(x.value))
  {
    hide Lookup, Put, R.Kept, FileRec, LoadedTypeFrom, IsFile, TypesFrom, ResolvedBy, TypeTrees;
    var all := if file then Put(out, FILE_TYPE, FileRec()) else out;
    PutMembers(out, FILE_TYPE, FileRec());
    LookupIn(all, k);
    if Lookup(all, k).Some? {
      var x := Entry(k, Lookup(all, k).value);
      if x in out {
        var j :| 0 <= j < |out| && out[j] == x;
        var u: Table<D.TypeRec> :| ResolvedBy(TypeTrees(s, types), u, out);
        UnitTypeArrives(dies, s, types, u, out, j);
      } else {
        FileFields();
      }
    }
  }

  lemma TypesArrive(dies: set<Die>, s: State, cus: Table<UnitRec>, es: Table<D.CuRec>, values: seq<u64>, k: Key)
    requires UnitsFrom(dies, s.recs, cus) && WrittenUnits(s, cus, es)
    ensures var t := R.FirstType(WithStdout(es, values), k);
            t.Some? ==> LoadedTypeFrom(dies, k, t.value) || IsFile(k, t.value)
  {
    hide R.FirstType, Lookup, Put, PutAll, R.Kept, FileRec, StdoutEntries, LoadedTypeFrom, IsFile, UnitsFrom,
      WrittenUnits;
    var out := WithStdout(es, values);
    FirstUnitWith(out, k);
    if R.FirstType(out, k).Some? {
      var e :| e in out && Lookup(e.rec.types, k).Some? &&
               R.FirstType(out, k) == Some(R.Kept(Lookup(e.rec.types, k).value));
      var i :| 0 <= i < |out| && out[i] == e;
      OneUnitArrives(dies, s, cus, es, values, i, k);
    }
  }

  lemma OneUnitArrives(dies: set<Die>, s: State, cus: Table<UnitRec>, es: Table<D.CuRec>, values: seq<u64>, i: nat,
                       k: Key)
    requires UnitsFrom(dies, s.recs, cus) && WrittenUnits(s, cus, es) && i < |es|
    ensures var x := Lookup(WithStdout(es, values)[i].rec.types, k);
            x.Some? ==> LoadedTypeFrom(dies, k, R.Kept(x.value)) || IsFile(k, R.Kept(x.value))
  {
    hide Lookup, Put, PutAll, R.Kept, FileRec, StdoutEntries, LoadedTypeFrom, IsFile, TypesFrom, ResolvedBy, TypeTrees;
    assert cus[i] in cus && WrittenUnit(s, cus[i], es[i]);
    UnitArrives(dies, s, cus[i].rec.types, es[i].rec.types, i == 0, k);
  }

  // From the debugging information to the analyser: whatever variable a name finds in its
  // table of globals, and through it in the tables of subprograms, and whatever type an
  // offset finds, is that of an entry of the program, field by field; but for void, and
  // the standard stream and its type.
  lemma FieldsArrive(us: seq<UnitDie>, es: Table<D.CuRec>, values: seq<u64>, k: Key)
    requires WalkUnits(START, [], us).Some? && forall u <- us :: CleanUnit(u)
    requires var (s, cus) := WalkUnits(START, [], us).value;
             cus != [] && WrittenUnits(s, cus, es) && ShortUnits(s, cus, es)
    requires RoomForStdout(es, values)
    ensures var file := D.ParseFile(D.FileBytes(WithStdout(es, values))); var dies := ProgramEntries(us);
            && file.Read?
            && var r, t := Lookup(file.tables.vars, k), Lookup(file.tables.types, k);
               && (r.Some? ==> LoadedVarFrom(dies, Entry(k, r.value)) || IsStdout(values, k, r.value))
               && (t.Some? ==> LoadedTypeFrom(dies, k, t.value) || IsFile(k, t.value))
               && forall c <- file.tables.cus ::
                    exists u :: u in us && c.key == u.path && c.rec.lowPc == u.lowPc && c.rec.highPc == u.highPc
  {
    hide *;
    StartStack();
    AnalyserSeesTheWalk(us, es, values);
    WalkFields(us);
    var (s, cus) := WalkUnits(START, [], us).value;
    R.FirstUnitWins(WithStdout(es, values), k);
    TypesArrive(ProgramEntries(us), s, cus, es, values, k);
    GlobalsArrive(ProgramEntries(us), s.tables, values, k);
    WalkUnitsRanges(START, [], us);
    RangesArrive(s, cus, es);
  }

  lemma StartStack()
    ensures START.stack != []
  {}

  lemma RangesArrive(s: State, cus: Table<UnitRec>, es: Table<D.CuRec>)
    requires WrittenUnits(s, cus, es)
    ensures forall c <- R.KeptCus(es) ::
              exists x :: x in cus && x.key == c.key && x.rec.lowPc == c.rec.lowPc && x.rec.highPc == c.rec.highPc
  {
    hide ResolvedBy, Tree;
    forall c | c in R.KeptCus(es)
      ensures exists x :: x in cus && x.key == c.key && x.rec.lowPc == c.rec.lowPc && x.rec.highPc == c.rec.highPc
    {
      var i :| 0 <= i < |es| && R.KeptCus(es)[i] == c;
      assert WrittenUnit(s, cus[i], es[i]) && cus[i] in cus;
    }
  }
}
