// From the tables that the loader has read to what the rest of the analyser sees of
// them: the layout of structs, the static tables, the types of the shadow stack.
module LoadedViews {
  import opened Words
  import opened SymbolTables
  import opened StructLayout
  import Bytes
  import D = DebugFile
  import S = ShadowStack
  import A = AddressTranslation
  import R = ShadowRuns

  // ------------------------------------------------------------------ what any file gives

  // A table behind every subprogram and nowhere else, at every depth.
  ghost predicate ShapedVar(r: D.VarRec)
    decreases r, 1
  {
    (r.isSubprog <==> r.local.HasTable?) && (r.local.HasTable? ==> ShapedVars(r.local.vars))
  }

  ghost predicate ShapedVars(es: Table<D.VarRec>)
    decreases es, 0
  {
    forall i :: 0 <= i < |es| ==> ShapedVar(es[i].rec)
  }

  // A member table behind every struct and nowhere else.
  ghost predicate ShapedType(t: D.LoadedType) {
    (t.isStruct <==> t.members.HasTable?) && (t.members.HasTable? ==> ShapedVars(t.members.vars))
  }

  ghost predicate ShapedTypes(es: Table<D.LoadedType>) { forall e <- es :: ShapedType(e.rec) }

  ghost predicate ShapedTables(l: D.Loaded) { ShapedTypes(l.types) && ShapedVars(l.vars) }

  lemma PutShaped(t: Table<D.VarRec>, k: Key, r: D.VarRec)
    requires ShapedVars(t) && ShapedVar(r)
    ensures ShapedVars(Put(t, k, r))
  {
    hide ShapedVar;
    PutMembers(t, k, r);
    var u := Put(t, k, r);
    forall i | 0 <= i < |u| ensures ShapedVar(u[i].rec) {
      assert u[i] in u;
      if u[i] in t {
        var j :| 0 <= j < |t| && t[j] == u[i];
      }
    }
  }

  lemma {:induction false} ParsedVar(bs: seq<byte>)
    ensures D.ParseVar(bs).Some? ==> ShapedVar(D.ParseVar(bs).value.0.rec)
    decreases |bs|, 1
  {
    hide D.ParseVarHead;
    var h := D.ParseVarHead(bs);
    if h.Some? {
      ParsedSubTable(h.value.0.rec.isSubprog, h.value.1);
    }
  }

  lemma {:induction false} ParsedSubTable(present: bool, bs: seq<byte>)
    ensures var r := D.ParseSubTable(present, bs);
            r.Some? ==> r.value.0.HasTable? == present && (present ==> ShapedVars(r.value.0.vars))
    decreases |bs|, 4
  {
    if present {
      ParsedVarTable([], bs);
    }
  }

  lemma {:induction false} ParsedVarTable(t: Table<D.VarRec>, bs: seq<byte>)
    requires ShapedVars(t)
    ensures D.ParseVarTable(t, bs).Some? ==> ShapedVars(D.ParseVarTable(t, bs).value.0)
    decreases |bs|, 3
  {
    hide D.ParseVars;
    var id := Bytes.TakeWord(4, bs);
    if id.Some? && id.value.0 == D.VAR {
      var n := Bytes.TakeU64(id.value.1);
      if n.Some? {
        ParsedVars(n.value.0, t, n.value.1);
      }
    }
  }

  lemma {:induction false} ParsedVars(n: nat, t: Table<D.VarRec>, bs: seq<byte>)
    requires ShapedVars(t)
    ensures D.ParseVars(n, t, bs).Some? ==> ShapedVars(D.ParseVars(n, t, bs).value.0)
    decreases |bs|, 2
  {
    hide D.ParseVar, ShapedVars, ShapedVar;
    if n > 0 {
      var e := D.ParseVar(bs);
      if e.Some? {
        ParsedVar(bs);
        PutShaped(t, e.value.0.key, e.value.0.rec);
        ParsedVars(n - 1, Put(t, e.value.0.key, e.value.0.rec), e.value.1);
      }
    }
  }

  lemma ParsedType(bs: seq<byte>)
    ensures D.ParseType(bs).Some? ==> ShapedType(D.ParseType(bs).value.0.rec)
  {
    hide D.ParseTypeHead, D.ParseSubTable;
    var h := D.ParseTypeHead(bs);
    if h.Some? {
      ParsedSubTable(h.value.0.rec.isStruct, h.value.1);
    }
  }

  lemma {:induction false} ParsedTypes(n: nat, t: Table<D.LoadedType>, bs: seq<byte>)
    requires ShapedTypes(t)
    ensures D.ParseTypes(n, t, bs).Some? ==> ShapedTypes(D.ParseTypes(n, t, bs).value.0)
    decreases |bs|
  {
    hide D.ParseType, ShapedType;
    if n > 0 {
      var e := D.ParseType(bs);
      if e.Some? {
        ParsedType(bs);
        PutMembers(t, e.value.0.key, e.value.0.rec);
        ParsedTypes(n - 1, Put(t, e.value.0.key, e.value.0.rec), e.value.1);
      }
    }
  }

  lemma ParsedTypeTable(t: Table<D.LoadedType>, bs: seq<byte>)
    requires ShapedTypes(t)
    ensures D.ParseTypeTable(t, bs).Some? ==> ShapedTypes(D.ParseTypeTable(t, bs).value.0)
  {
    hide D.ParseTypes;
    var id := Bytes.TakeWord(4, bs);
    if id.Some? && id.value.0 == D.TYPE {
      var n := Bytes.TakeU64(id.value.1);
      if n.Some? {
        ParsedTypes(n.value.0, t, n.value.1);
      }
    }
  }

  lemma ParsedCu(l: D.Loaded, bs: seq<byte>)
    requires ShapedTables(l)
    ensures D.ParseCu(l, bs).Some? ==> ShapedTables(D.ParseCu(l, bs).value.0)
  {
    hide D.ParseTypeTable, D.ParseVarTable, ShapedTypes, ShapedVars, Bytes.TakeWord, Bytes.TakeU64, Bytes.TakeText;
    forall b: seq<byte> {:trigger D.ParseTypeTable(l.types, b)}
      ensures D.ParseTypeTable(l.types, b).Some? ==> ShapedTypes(D.ParseTypeTable(l.types, b).value.0)
    {
      ParsedTypeTable(l.types, b);
    }
    forall b: seq<byte> {:trigger D.ParseVarTable(l.vars, b)}
      ensures D.ParseVarTable(l.vars, b).Some? ==> ShapedVars(D.ParseVarTable(l.vars, b).value.0)
    {
      ParsedVarTable(l.vars, b);
    }
  }

  lemma {:induction false} ParsedCus(n: nat, l: D.Loaded, bs: seq<byte>)
    requires ShapedTables(l)
    ensures D.ParseCus(n, l, bs).Some? ==> ShapedTables(D.ParseCus(n, l, bs).value.0)
    decreases |bs|
  {
    hide D.ParseCu, ShapedTables;
    if n > 0 && D.ParseCu(l, bs).Some? {
      ParsedCu(l, bs);
      ParsedCus(n - 1, D.ParseCu(l, bs).value.0, D.ParseCu(l, bs).value.1);
    }
  }

  // Whatever is in the file: what the loader reads is in shape.
  lemma ParsedShape(bs: seq<byte>)
    ensures D.ParseFile(bs).Read? ==> ShapedTables(D.ParseFile(bs).tables)
  {
    hide D.ParseCus;
    var id := Bytes.TakeWord(4, bs);
    if id.Some? && id.value.0 == D.CU {
      var n := Bytes.TakeU64(id.value.1);
      if n.Some? {
        ParsedCus(n.value.0, D.EMPTY, n.value.1);
      }
    }
  }

  // ------------------------------------------------------------------ layout

  // A loaded record, before any member table has been made for it.
  function ViewOf(r: D.VarRec): VarView
    decreases r, 1
  {
    VarView(r.typ, r.isSubprog, r.isLocal, r.isParam, r.declFile, r.declLine, r.lowPc, r.highPc, r.location, true,
            if r.local.HasTable? then HasTable(ViewsOf(r.local.vars)) else NoTable, NoTable)
  }

  function ViewsOf(es: Table<D.VarRec>): (vs: Table<VarView>)
    ensures |vs| == |es| && forall i :: 0 <= i < |es| ==> vs[i] == Entry(es[i].key, ViewOf(es[i].rec))
    decreases es, 0
  {
    if es == [] then [] else [Entry(es[0].key, ViewOf(es[0].rec))] + ViewsOf(es[1..])
  }

  // The types by their keys.
  function TypeMap(t: Table<D.LoadedType>): (m: map<Key, D.LoadedType>)
    ensures forall k :: if k in m then Lookup(t, k) == Some(m[k]) else Lookup(t, k) == None
  {
    if t == [] then map[] else TypeMap(t[1..])[t[0].key := t[0].rec]
  }

  function LayoutTypes(types: map<Key, D.LoadedType>): Types {
    map k | k in types ::
      if types[k].isStruct && types[k].members.HasTable? then Struct(ViewsOf(types[k].members.vars)) else Plain
  }

  // The members of a loaded type have no members of their own yet.
  lemma LayoutFlat(types: map<Key, D.LoadedType>)
    ensures Flat(LayoutTypes(types))
  {
    var lay := LayoutTypes(types);
    forall k | k in lay && lay[k].Struct? ensures forall e <- lay[k].members :: e.rec.members.NoTable? {
      forall i | 0 <= i < |lay[k].members| ensures lay[k].members[i].rec.members.NoTable? {
        assert lay[k].members == ViewsOf(types[k].members.vars);
      }
    }
  }

  // Every variable has a type that is there, with structs at most n deep in one another.
  ghost predicate TypedVars(lay: Types, es: Table<D.VarRec>, n: nat)
    decreases es, 0
  {
    forall i :: 0 <= i < |es| ==> TypedVar(lay, es[i].rec, n)
  }

  ghost predicate TypedVar(lay: Types, r: D.VarRec, n: nat)
    decreases r, 1
  {
    if r.isSubprog then r.local.HasTable? ==> TypedVars(lay, r.local.vars, n) else Nested(lay, r.typ, n)
  }

  lemma {:induction false} ViewWf(lay: Types, r: D.VarRec, n: nat)
    requires ShapedVar(r) && TypedVar(lay, r, n)
    ensures WfVar(lay, ViewOf(r), n)
    decreases r, 1
  {
    if r.isSubprog {
      ViewsWf(lay, r.local.vars, n);
    }
  }

  lemma {:induction false} ViewsWf(lay: Types, es: Table<D.VarRec>, n: nat)
    requires ShapedVars(es) && TypedVars(lay, es, n)
    ensures WfVars(lay, ViewsOf(es), n)
    decreases es, 0
  {
    if es != [] {
      hide ShapedVar, TypedVar, ViewOf, WfVar;
      assert ShapedVar(es[0].rec) && TypedVar(lay, es[0].rec, n);
      ViewWf(lay, es[0].rec, n);
      ViewsWf(lay, es[1..], n);
      assert ViewsOf(es)[1..] == ViewsOf(es[1..]);
    }
  }

  // ------------------------------------------------------------------ the static tables

  // Which identity the record at a path of names has.
  type Ids = seq<Key> -> nat

  function VarOf(ids: Ids, path: seq<Key>, v: VarView): S.Var
    decreases v, 1
  {
    S.Var(ids(path), v.typ, v.isLocal, v.isParam, v.location,
          if v.members.HasTable? then MembersOf(ids, path, v.members.entries) else [])
  }

  function MembersOf(ids: Ids, path: seq<Key>, es: Table<VarView>): (ms: Table<S.Var>)
    ensures |ms| == |es| && forall i :: 0 <= i < |es| ==> ms[i].key == es[i].key && ms[i].rec.typ == es[i].rec.typ
    decreases es, 0
  {
    if es == [] then []
    else [Entry(es[0].key, VarOf(ids, path + [es[0].key], es[0].rec))] + MembersOf(ids, path, es[1..])
  }

  // The loaded records after the member tables have been made.
  ghost function StaticOf(lay: Types, n: nat, ids: Ids, path: seq<Key>, r: D.VarRec): A.Static
    requires ShapedVar(r) && TypedVar(lay, r, n)
    decreases r, 1
  {
    ViewWf(lay, r, n);
    A.Static(VarOf(ids, path, Created(lay, ViewOf(r), n)), r.isSubprog, r.lowPc, r.highPc, r.startPc,
             if r.isSubprog then Some(StaticsOf(lay, n, ids, path, r.local.vars)) else None)
  }

  ghost function StaticsOf(lay: Types, n: nat, ids: Ids, path: seq<Key>, es: Table<D.VarRec>): (out: Table<A.Static>)
    requires ShapedVars(es) && TypedVars(lay, es, n)
    ensures |out| == |es|
    ensures forall i :: 0 <= i < |es| ==>
              out[i] == Entry(es[i].key, StaticOf(lay, n, ids, path + [es[i].key], es[i].rec))
    decreases es, 0
  {
    if es == [] then []
    else
      assert ShapedVar(es[0].rec) && TypedVar(lay, es[0].rec, n);
      [Entry(es[0].key, StaticOf(lay, n, ids, path + [es[0].key], es[0].rec))] + StaticsOf(lay, n, ids, path, es[1..])
  }

  // All units have the one variable table.
  ghost function UnitsOf(lay: Types, n: nat, ids: Ids, l: D.Loaded): (cus: Table<A.CuView>)
    requires ShapedVars(l.vars) && TypedVars(lay, l.vars, n)
    ensures |cus| == |l.cus|
    ensures forall i :: 0 <= i < |cus| ==>
              cus[i] == Entry(l.cus[i].key, A.CuView(l.cus[i].rec.lowPc, l.cus[i].rec.highPc,
                                                     StaticsOf(lay, n, ids, [], l.vars)))
  {
    seq(|l.cus|, i requires 0 <= i < |l.cus| =>
      Entry(l.cus[i].key, A.CuView(l.cus[i].rec.lowPc, l.cus[i].rec.highPc, StaticsOf(lay, n, ids, [], l.vars))))
  }

  // ------------------------------------------------------------------ what the shadow stack takes for granted

  // The elements of an array have some size, unless it has no bytes at all.
  ghost predicate ElementsSized(env: S.Env, k: Key)
    requires k in env.types
  {
    S.KindOf(env, env.types[k]).AsArray? ==>
      env.types[env.types[k].base.value].size > 0 || env.types[k].size == 0
  }

  // There are few enough of them.
  ghost predicate ElementsCounted(env: S.Env, k: Key)
    requires k in env.types
  {
    S.KindOf(env, env.types[k]).AsArray? ==> env.types[k].upperBound < 0xFFFF_FFFF
  }

  ghost predicate ArraysSized(env: S.Env) { forall k <- env.types :: ElementsSized(env, k) && ElementsCounted(env, k) }

  lemma VariableKnown(env: S.Env, n: nat, ids: Ids, path: seq<Key>, r: D.VarRec)
    requires var lay := LayoutTypes(env.types); ShapedVar(r) && TypedVar(lay, r, n) && !r.isSubprog
    requires ArraysSized(env)
    ensures S.Known(env, StaticOf(LayoutTypes(env.types), n, ids, path, r).v)
  {
    hide Mul, Add, S.Occurs, MembersOf;
    var lay := LayoutTypes(env.types);
    ViewWf(lay, r, n);
    var v := Created(lay, ViewOf(r), n);
    var t := env.types[r.typ];
    assert v.typ == r.typ && r.typ in lay;
    assert ElementsSized(env, r.typ) && ElementsCounted(env, r.typ);
    if v.members.HasTable? {
      var members := lay[r.typ].members;
      var made := v.members.entries;
      forall i | 0 <= i < |made| ensures made[i].rec.typ in env.types {
        assert members[i] in members && Nested(lay, members[i].rec.typ, n - 1);
        PlacedType(lay, Copied(members[i].rec), r.location, r.isLocal, r.isParam, n - 1);
      }
    }
  }

  lemma PlacedType(lay: Types, v: VarView, location: u64, isLocal: bool, isParam: bool, n: nat)
    requires Nested(lay, v.typ, n)
    ensures Propagated(lay, v, location, isLocal, isParam, n).typ == v.typ
  {}

  lemma TableKnown(env: S.Env, n: nat, ids: Ids, path: seq<Key>, es: Table<D.VarRec>)
    requires ShapedVars(es) && TypedVars(LayoutTypes(env.types), es, n) && ArraysSized(env)
    ensures forall e <- StaticsOf(LayoutTypes(env.types), n, ids, path, es) ::
              !e.rec.isSubprog ==> S.Known(env, e.rec.v)
    ensures A.Typed(env, StaticsOf(LayoutTypes(env.types), n, ids, path, es))
  {
    hide S.Known, StaticOf, ArraysSized, LayoutTypes;
    var lay := LayoutTypes(env.types);
    var out := StaticsOf(lay, n, ids, path, es);
    forall i | 0 <= i < |out|
      ensures !out[i].rec.isSubprog ==> S.Known(env, out[i].rec.v) && out[i].rec.v.typ in env.types
    {
      assert ShapedVar(es[i].rec) && TypedVar(lay, es[i].rec, n);
      SubprogKept(lay, n, ids, path + [es[i].key], es[i].rec);
      if !es[i].rec.isSubprog {
        VariableKnown(env, n, ids, path + [es[i].key], es[i].rec);
        KnownTyped(env, out[i].rec.v);
      }
    }
  }

  lemma SubprogKept(lay: Types, n: nat, ids: Ids, path: seq<Key>, r: D.VarRec)
    requires ShapedVar(r) && TypedVar(lay, r, n)
    ensures var st := StaticOf(lay, n, ids, path, r);
            && st.isSubprog == r.isSubprog
            && (r.isSubprog ==> r.local.HasTable? && ShapedVars(r.local.vars) && TypedVars(lay, r.local.vars, n) &&
                                st.locals == Some(StaticsOf(lay, n, ids, path, r.local.vars)))
  {}

  lemma KnownTyped(env: S.Env, v: S.Var)
    requires S.Known(env, v)
    ensures v.typ in env.types
  {}

  lemma {:induction false} OwnKnown(env: S.Env, t: Table<A.Static>)
    requires forall e <- t :: !e.rec.isSubprog ==> S.Known(env, e.rec.v)
    ensures forall e <- A.OwnVariables(t) :: S.Known(env, e.rec)
  {
    hide S.Known;
    if t != [] {
      OwnKnown(env, t[1..]);
      assert t[0] in t;
    }
  }

  // The tables of a function hold known variables only.
  ghost predicate LocalsKnown(env: S.Env, t: Table<A.Static>) {
    forall e <- t :: e.rec.isSubprog ==> S.AllKnown(env, R.NewRecords(A.OwnVariables(A.LocalsOf(e.rec))))
  }

  lemma TableLinked(env: S.Env, n: nat, ids: Ids, es: Table<D.VarRec>)
    requires ShapedVars(es) && TypedVars(LayoutTypes(env.types), es, n) && ArraysSized(env)
    ensures A.Linked(env, StaticsOf(LayoutTypes(env.types), n, ids, [], es))
    ensures LocalsKnown(env, StaticsOf(LayoutTypes(env.types), n, ids, [], es))
  {
    hide S.Known, StaticOf, ArraysSized, LayoutTypes, A.Typed, A.OwnVariables;
    var lay := LayoutTypes(env.types);
    var out := StaticsOf(lay, n, ids, [], es);
    TableKnown(env, n, ids, [], es);
    forall i | 0 <= i < |out| && out[i].rec.isSubprog
      ensures out[i].rec.locals.Some? && A.Typed(env, out[i].rec.locals.value)
      ensures S.AllKnown(env, R.NewRecords(A.OwnVariables(A.LocalsOf(out[i].rec))))
    {
      assert ShapedVar(es[i].rec) && TypedVar(lay, es[i].rec, n);
      SubprogKept(lay, n, ids, [] + [es[i].key], es[i].rec);
      TableKnown(env, n, ids, [] + [es[i].key], es[i].rec.local.vars);
      OwnKnown(env, out[i].rec.locals.value);
      RecordsKnown(env, A.OwnVariables(out[i].rec.locals.value));
    }
  }

  lemma RecordsKnown(env: S.Env, vars: seq<Entry<S.Var>>)
    requires forall e <- vars :: S.Known(env, e.rec)
    ensures S.AllKnown(env, R.NewRecords(vars)) && S.AllKnown(env, A.GlobalOf(vars))
  {
    hide S.Known;
  }

  // Whatever file has been read: if all types are there, structs do not lie in themselves
  // and arrays are sized, then all that the making of member tables, the translation of
  // addresses and the shadow stack take for granted is so.
  lemma LoadedPremises(bs: seq<byte>, env: S.Env, n: nat, ids: Ids)
    requires D.ParseFile(bs).Read?
    requires var l := D.ParseFile(bs).tables;
             env.types == TypeMap(l.types) && TypedVars(LayoutTypes(env.types), l.vars, n) && ArraysSized(env)
    ensures var l := D.ParseFile(bs).tables; var lay := LayoutTypes(env.types);
            && ShapedVars(l.vars) && Flat(lay) && WfVars(lay, ViewsOf(l.vars), n)
            && var cus := UnitsOf(lay, n, ids, l);
               && A.AllLinked(env, cus) && S.AllKnown(env, A.GlobalRecords(cus))
               && forall c <- cus :: LocalsKnown(env, c.rec.vars)
  {
    hide S.Known, ArraysSized, LayoutTypes, A.Linked, A.OwnVariables, D.ParseFile;
    hide LocalsKnown, Flat, WfVars, ShapedTypes;
    var l := D.ParseFile(bs).tables;
    var lay := LayoutTypes(env.types);
    ParsedShape(bs);
    LayoutFlat(env.types);
    ViewsWf(lay, l.vars, n);
    TableLinked(env, n, ids, l.vars);
    TableKnown(env, n, ids, [], l.vars);
    var cus := UnitsOf(lay, n, ids, l);
    OwnKnown(env, StaticsOf(lay, n, ids, [], l.vars));
    UnitsKnown(env, cus, StaticsOf(lay, n, ids, [], l.vars));
    RecordsKnown(env, A.UnitVariables(cus));
  }

  lemma {:induction false} UnitsKnown(env: S.Env, cus: Table<A.CuView>, vars: Table<A.Static>)
    requires forall i :: 0 <= i < |cus| ==> cus[i].rec.vars == vars
    requires forall e <- A.OwnVariables(vars) :: S.Known(env, e.rec)
    ensures forall e <- A.UnitVariables(cus) :: S.Known(env, e.rec)
  {
    hide S.Known, A.OwnVariables;
    if cus != [] {
      UnitsKnown(env, cus[1..], vars);
    }
  }
}
