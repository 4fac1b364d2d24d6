// The records and tables that the loader makes as objects, and the member tables that
// are then made for every variable.
module LoadedObjects {
  import opened Words
  import opened SymbolTables
  import opened StructLayout
  import opened StructTables
  import Bytes
  import D = DebugFile
  import R = DebugFileReader
  import V = LoadedViews

  method MakeRecord(r: D.VarRec) returns (v: VarRecord)
    ensures v.Valid() && fresh(v.Repr) && v.view == V.ViewOf(r)
    decreases r, 1
  {
    hide VarTable.Valid, V.ViewsOf;
    var local: VarTable? := null;
    if r.local.HasTable? {
      local := MakeTable(r.local.vars);
    }
    v := new VarRecord(r.typ, r.isSubprog, r.isLocal, r.isParam, r.declFile, r.declLine, r.lowPc, r.highPc, r.location,
                       local);
  }

  method MakeTable(es: Table<D.VarRec>) returns (t: VarTable)
    ensures t.Valid() && fresh(t.Repr) && t.view == V.ViewsOf(es)
    decreases es, 0
  {
    hide VarTable.Valid, VarRecord.Valid, V.ViewOf, V.ViewsOf;
    t := new VarTable();
    var i := 0;
    while i < |es|
      invariant i <= |es| && t.Valid() && fresh(t.Repr)
      invariant |t.view| == i && forall k :: 0 <= k < i ==> t.view[k] == Entry(es[k].key, V.ViewOf(es[k].rec))
    {
      var r := MakeRecord(es[i].rec);
      t.Append(es[i].key, r);
      i := i + 1;
    }
  }

  method MakeInfo(t: D.LoadedType) returns (info: TypeInfo)
    ensures info.isStruct == (t.isStruct && t.members.HasTable?)
    ensures info.isStruct ==>
              info.members != null && info.members.Valid() && fresh(info.members.Repr) &&
              info.members.view == V.ViewsOf(t.members.vars)
  {
    if t.isStruct && t.members.HasTable? {
      var m := MakeTable(t.members.vars);
      info := TypeInfo(true, m);
    } else {
      info := TypeInfo(false, null);
    }
  }

  // The types of a table, of which the first with a key counts.
  method MakeTypes(ts: Table<D.LoadedType>) returns (ttab: TypeTable)
    ensures ttab.Valid() && fresh(ttab.Repr) && ttab.view == V.LayoutTypes(V.TypeMap(ts))
  {
    hide VarTable.Valid, V.ViewsOf, V.LayoutTypes, Describes;
    NoTypes();
    var recs: map<Key, TypeInfo> := map[];
    ghost var owned: set<object> := {};
    var i: nat := |ts|;
    while i > 0
      invariant i <= |ts| && fresh(owned)
      invariant Describes(V.LayoutTypes(V.TypeMap(ts[i..])), recs, owned)
    {
      i := i - 1;
      var info := MakeInfo(ts[i].rec);
      assert ts[i..][1..] == ts[i + 1..];
      MoreTypes(V.TypeMap(ts[i + 1..]), recs, owned, ts[i].key, ts[i].rec, info);
      recs := recs[ts[i].key := info];
      owned := owned + if info.isStruct then info.members.Repr else {};
    }
    assert ts[0..] == ts;
    ttab := new TypeTable(recs, V.LayoutTypes(V.TypeMap(ts)), owned);
  }

  lemma MoreTypes(types: map<Key, D.LoadedType>, recs: map<Key, TypeInfo>, owned: set<object>, k: Key,
                  t: D.LoadedType, info: TypeInfo)
    requires Describes(V.LayoutTypes(types), recs, owned)
    requires info.isStruct == (t.isStruct && t.members.HasTable?)
    requires info.isStruct ==>
               info.members != null && info.members.Valid() && info.members.view == V.ViewsOf(t.members.vars)
    ensures Describes(V.LayoutTypes(types[k := t]), recs[k := info],
                      owned + if info.isStruct then info.members.Repr else {})
  {
    hide VarTable.Valid, V.ViewsOf, V.LayoutTypes;
    LayoutMore(types, k, t);
  }

  lemma LayoutMore(types: map<Key, D.LoadedType>, k: Key, t: D.LoadedType)
    ensures V.LayoutTypes(types[k := t]) ==
            V.LayoutTypes(types)[k := if t.isStruct && t.members.HasTable? then Struct(V.ViewsOf(t.members.vars))
                                      else Plain]
  {
    hide V.ViewsOf;
  }

  lemma NoTypes()
    ensures Describes(V.LayoutTypes(V.TypeMap([])), map[], {})
  {}

  // From the bytes of a debug file to the objects that the rest of the analyser uses: the
  // file is read, its records are made, and the member tables are created once for every
  // unit. A struct variable of any scope then has exactly the members of its type, at
  // every depth, each where it lies.
  method LoadProgram(bs: seq<byte>, ghost n: nat) returns (ok: bool, vars: VarTable, ttab: TypeTable)
    requires D.ParseFile(bs).Read? ==>
               var l := D.ParseFile(bs).tables; V.TypedVars(V.LayoutTypes(V.TypeMap(l.types)), l.vars, n)
    ensures ok <==> D.ParseFile(bs).Read?
    ensures vars.Valid() && ttab.Valid() && vars.Repr !! ttab.Repr
    ensures ok ==>
              var l := D.ParseFile(bs).tables; var es := V.ViewsOf(l.vars);
              var lay := V.LayoutTypes(V.TypeMap(l.types));
              && ttab.view == lay && Flat(lay) && WfVars(lay, es, n)
              && vars.view == (if l.cus == [] then es else CreatedAll(lay, es, n))
  {
    hide *;
    var file := new Bytes.InFile(bs);
    var rd := new R.DwReader(file);
    var r := rd.ReadInfo();
    ok := r.Read?;
    if ok {
      V.ParsedShape(bs);
      Loadable(r.tables, n);
      vars := MakeTable(r.tables.vars);
      ttab := MakeTypes(r.tables.types);
      CreateForUnits(|r.tables.cus|, vars, ttab, n);
    } else {
      vars := new VarTable();
      ttab := MakeTypes([]);
    }
  }

  lemma Loadable(l: D.Loaded, n: nat)
    requires V.ShapedTables(l) && V.TypedVars(V.LayoutTypes(V.TypeMap(l.types)), l.vars, n)
    ensures var lay := V.LayoutTypes(V.TypeMap(l.types)); Flat(lay) && WfVars(lay, V.ViewsOf(l.vars), n)
  {
    hide V.LayoutTypes, V.TypedVars, Flat, WfVars, V.ViewsOf, V.ShapedVars;
    V.LayoutFlat(V.TypeMap(l.types));
    V.ViewsWf(V.LayoutTypes(V.TypeMap(l.types)), l.vars, n);
  }
}
