// What becomes of a record of a variable on its way from the debug file to the frames,
// field by field and at every depth: in the loader, in a copy, in the member tables, in the
// static tables, and in the records of a frame.
module ViewFields {
  import opened Words
  import opened SymbolTables
  import opened StructLayout
  import opened LoadedViews
  import D = DebugFile
  import S = ShadowStack
  import A = AddressTranslation
  import R = ShadowRuns

  // ------------------------------------------------------------------ loading and copying

  // The record as an object has the fields of the loaded one, and so have the local
  // variables of a subprogram; no member table has been made for it.
  ghost predicate IsView(r: D.VarRec, v: VarView)
    decreases r, 1
  {
    && v.typ == r.typ && v.isSubprog == r.isSubprog && v.isLocal == r.isLocal && v.isParam == r.isParam
    && v.declFile == r.declFile && v.declLine == r.declLine && v.lowPc == r.lowPc && v.highPc == r.highPc
    && v.location == r.location && v.firstAccess && v.members.NoTable?
    && (v.local.HasTable? <==> r.local.HasTable?) && (r.local.HasTable? ==> AreViews(r.local.vars, v.local.entries))
  }

  ghost predicate AreViews(es: Table<D.VarRec>, vs: Table<VarView>)
    decreases es, 0
  {
    |vs| == |es| && forall i :: 0 <= i < |es| ==> vs[i].key == es[i].key && IsView(es[i].rec, vs[i].rec)
  }

  lemma {:induction false} ViewFields(r: D.VarRec)
    ensures IsView(r, ViewOf(r))
    decreases r, 1
  {
    if r.local.HasTable? {
      ViewsFields(r.local.vars);
    }
  }

  lemma {:induction false} ViewsFields(es: Table<D.VarRec>)
    ensures AreViews(es, ViewsOf(es))
    decreases es, 0
  {
    hide ViewOf, IsView;
    forall i | 0 <= i < |es| ensures IsView(es[i].rec, ViewsOf(es)[i].rec) {
      ViewFields(es[i].rec);
    }
  }

  // A copy has everything but the declaring file, and it is a parameter if the record is
  // local; and so have its tables.
  ghost predicate IsCopy(v: VarView, c: VarView)
    decreases v, 1
  {
    && c.typ == v.typ && c.isSubprog == v.isSubprog && c.isLocal == v.isLocal && c.isParam == v.isLocal
    && c.declFile == [] && c.declLine == v.declLine && c.lowPc == v.lowPc && c.highPc == v.highPc
    && c.location == v.location && c.firstAccess == v.firstAccess
    && (c.local.HasTable? <==> v.local.HasTable?) && (v.local.HasTable? ==> AreCopies(v.local.entries, c.local.entries))
    && (c.members.HasTable? <==> v.members.HasTable?)
    && (v.members.HasTable? ==> AreCopies(v.members.entries, c.members.entries))
  }

  ghost predicate AreCopies(es: Table<VarView>, cs: Table<VarView>)
    decreases es, 0
  {
    |cs| == |es| && forall i :: 0 <= i < |es| ==> cs[i].key == es[i].key && IsCopy(es[i].rec, cs[i].rec)
  }

  lemma {:induction false} CopyFields(v: VarView)
    ensures IsCopy(v, Copied(v))
    decreases v, 1
  {
    hide AreCopies, CopiedEntries;
    if v.local.HasTable? {
      CopiesFields(v.local.entries);
    }
    if v.members.HasTable? {
      CopiesFields(v.members.entries);
    }
  }

  lemma {:induction false} CopiesFields(es: Table<VarView>)
    ensures AreCopies(es, CopiedEntries(es))
    decreases es, 0
  {
    hide Copied, IsCopy;
    forall i | 0 <= i < |es| ensures IsCopy(es[i].rec, CopiedEntries(es)[i].rec) {
      CopyFields(es[i].rec);
    }
  }

  // ------------------------------------------------------------------ member tables

  // The record that the type has for the member at the end of a path.
  function RecordInType(types: Types, typ: Key, path: seq<Key>): Option<VarView>
    requires path != []
    decreases |path|
  {
    if typ !in types || types[typ].Plain? then None
    else
      var m :- Lookup(types[typ].members, path[0]);
      if |path| == 1 then Some(m) else RecordInType(types, m.typ, path[1..])
  }

  // Everything but the place, the flags and the declaring file of a member is what its type
  // says of it.
  ghost predicate SameButPlace(m: VarView, v: VarView) {
    && v.typ == m.typ && v.isSubprog == m.isSubprog && v.declFile == [] && v.declLine == m.declLine
    && v.lowPc == m.lowPc && v.highPc == m.highPc && v.firstAccess == m.firstAccess
  }

  lemma {:induction false} MemberFields(types: Types, v: VarView, location: u64, isLocal: bool, isParam: bool, n: nat,
                                        path: seq<Key>)
    requires Nested(types, v.typ, n) && v.members.NoTable? && path != [] && Flat(types)
    ensures var m := MemberAt(Propagated(types, v, location, isLocal, isParam, n), path);
            var t := RecordInType(types, v.typ, path);
            (m.Some? <==> t.Some?) && (m.Some? ==> SameButPlace(t.value, m.value))
    decreases |path|
  {
    hide Instance, Flat, Copied;
    hide SameButPlace;
    if types[v.typ].Struct? {
      var members := types[v.typ].members;
      LookupInstance(types, members, Add(v.location, location), isLocal, isParam, n - 1, path[0]);
      var m := Lookup(members, path[0]);
      if m.Some? {
        FlatMember(types, v.typ, path[0]);
        CopyFields(m.value);
        PlacedSame(types, m.value, Add(v.location, location), isLocal, isParam, n - 1);
        if |path| > 1 {
          MemberFields(types, Copied(m.value), Add(v.location, location), isLocal, isParam, n - 1, path[1..]);
        }
      }
    }
  }

  lemma PlacedSame(types: Types, m: VarView, location: u64, isLocal: bool, isParam: bool, n: nat)
    requires Nested(types, m.typ, n)
    ensures Copied(m).typ == m.typ && SameButPlace(m, Propagated(types, Copied(m), location, isLocal, isParam, n))
  {
    hide Instance, CopiedEntries;
  }

  // A variable keeps its own fields, gets a member table exactly if it is of a struct type,
  // and every member in it, at every depth, is what its type says of it.
  lemma CreatedFields(types: Types, v: VarView, n: nat, path: seq<Key>)
    requires Flat(types) && !v.isSubprog && v.members.NoTable? && WfVar(types, v, n) && path != []
    ensures var c := Created(types, v, n);
            && c.(members := NoTable) == v && (c.members.HasTable? <==> types[v.typ].Struct?)
            && (c.members.HasTable? ==>
                  && |c.members.entries| == |types[v.typ].members|
                  && forall i :: 0 <= i < |c.members.entries| ==>
                       c.members.entries[i].key == types[v.typ].members[i].key)
            && var m := MemberAt(c, path); var t := RecordInType(types, v.typ, path);
               (m.Some? <==> t.Some?) && (m.Some? ==> SameButPlace(t.value, m.value))
  {
    hide MemberAt, Flat, Created, Propagated, SameButPlace, RecordInType;
    CreatedShape(types, v, n);
    MemberFields(types, v, 0, v.isLocal, v.isParam, n, path);
  }

  lemma CreatedShape(types: Types, v: VarView, n: nat)
    requires !v.isSubprog && v.members.NoTable? && WfVar(types, v, n)
    ensures Nested(types, v.typ, n)
    ensures var c := Created(types, v, n);
            && c == Propagated(types, v, 0, v.isLocal, v.isParam, n)
            && c.(members := NoTable) == v && (c.members.HasTable? <==> types[v.typ].Struct?)
            && (c.members.HasTable? ==>
                  && |c.members.entries| == |types[v.typ].members|
                  && forall i :: 0 <= i < |c.members.entries| ==>
                       c.members.entries[i].key == types[v.typ].members[i].key)
  {
    hide Instance, Copied, Propagated;
    CreatedHere(types, v, n);
    if types[v.typ].Struct? {
      var made := Instance(types, types[v.typ].members, v.location, v.isLocal, v.isParam, n - 1);
      assert Created(types, v, n) == v.(members := HasTable(made));
    }
  }

  lemma CreatedHere(types: Types, v: VarView, n: nat)
    requires !v.isSubprog && WfVar(types, v, n)
    ensures Nested(types, v.typ, n)
    ensures Created(types, v, n) == Propagated(types, v, 0, v.isLocal, v.isParam, n)
  {
    hide Instance, Copied;
  }

  // ------------------------------------------------------------------ static tables

  // The variable has these fields, and the members that the loaded types give it, each so
  // far behind its first byte as they say, and with its own flags.
  ghost predicate IsPlaced(types: map<Key, D.LoadedType>, ids: Ids, path: seq<Key>, typ: Key, location: u64,
                           isLocal: bool, isParam: bool, v: S.Var)
    decreases v
  {
    && v.id == ids(path) && v.typ == typ && v.location == location && v.isLocal == isLocal && v.isParam == isParam
    && if typ in types && types[typ].isStruct && types[typ].members.HasTable? then
         var ms := types[typ].members.vars;
         && |v.members| == |ms|
         && forall i :: 0 <= i < |ms| ==>
              && v.members[i].key == ms[i].key
              && IsPlaced(types, ids, path + [ms[i].key], ms[i].rec.typ,
                          (location + ms[i].rec.location) % 0x1_0000_0000_0000_0000, isLocal, isParam, v.members[i].rec)
       else v.members == []
  }

  // The static record has the fields of the loaded one, and so have those of its local
  // variables.
  ghost predicate IsStatic(types: map<Key, D.LoadedType>, ids: Ids, path: seq<Key>, r: D.VarRec, s: A.Static)
    decreases r, 1
  {
    && s.isSubprog == r.isSubprog && s.lowPc == r.lowPc && s.highPc == r.highPc && s.startPc == r.startPc
    && (!r.isSubprog ==> IsPlaced(types, ids, path, r.typ, r.location, r.isLocal, r.isParam, s.v))
    && (s.locals.Some? <==> r.isSubprog)
    && (r.isSubprog ==> r.local.HasTable? && AreStatics(types, ids, path, r.local.vars, s.locals.value))
  }

  ghost predicate AreStatics(types: map<Key, D.LoadedType>, ids: Ids, path: seq<Key>, es: Table<D.VarRec>,
                             ss: Table<A.Static>)
    decreases es, 0
  {
    |ss| == |es| && forall i :: 0 <= i < |es| ==>
                      ss[i].key == es[i].key && IsStatic(types, ids, path + [es[i].key], es[i].rec, ss[i].rec)
  }

  lemma {:induction false} MemberOfTable(ids: Ids, path: seq<Key>, es: Table<VarView>, i: nat)
    requires i < |es|
    ensures MembersOf(ids, path, es)[i] == Entry(es[i].key, VarOf(ids, path + [es[i].key], es[i].rec))
    decreases i
  {
    if i > 0 {
      MemberOfTable(ids, path, es[1..], i - 1);
    }
  }

  lemma {:induction false} PlacedFields(types: map<Key, D.LoadedType>, n: nat, ids: Ids, path: seq<Key>, v: VarView,
                                        location: u64, isLocal: bool, isParam: bool)
    requires Nested(LayoutTypes(types), v.typ, n) && v.members.NoTable?
    ensures IsPlaced(types, ids, path, v.typ, (v.location + location) % 0x1_0000_0000_0000_0000, isLocal, isParam,
                     VarOf(ids, path, Propagated(LayoutTypes(types), v, location, isLocal, isParam, n)))
    decreases n
  {
    hide IsPlaced, MembersOf, ViewOf, Copied, Instance, Propagated, VarOf, Wrap;
    var lay := LayoutTypes(types);
    var here := Add(v.location, location);
    if lay[v.typ].Struct? {
      var members := lay[v.typ].members;
      var ms := types[v.typ].members.vars;
      var made := Instance(lay, members, here, isLocal, isParam, n - 1);
      forall i | 0 <= i < |ms|
        ensures IsPlaced(types, ids, path + [ms[i].key], ms[i].rec.typ, Add(here, ms[i].rec.location), isLocal, isParam,
                         VarOf(ids, path + [ms[i].key], made[i].rec))
      {
        assert members[i] == Entry(ms[i].key, ViewOf(ms[i].rec)) && members[i] in members;
        ViewFields(ms[i].rec);
        CopyFields(members[i].rec);
        PlacedFields(types, n - 1, ids, path + [ms[i].key], Copied(members[i].rec), here, isLocal, isParam);
        Swapped(here, ms[i].rec.location);
      }
      PlacedStruct(types, n, ids, path, v, location, isLocal, isParam);
    } else {
      PlacedPlain(types, n, ids, path, v, location, isLocal, isParam);
    }
  }

  lemma Swapped(a: u64, b: u64)
    ensures (b + a) % 0x1_0000_0000_0000_0000 == Add(a, b)
  {}

  lemma PlacedPlain(types: map<Key, D.LoadedType>, n: nat, ids: Ids, path: seq<Key>, v: VarView, location: u64,
                    isLocal: bool, isParam: bool)
    requires Nested(LayoutTypes(types), v.typ, n) && v.members.NoTable? && LayoutTypes(types)[v.typ].Plain?
    ensures IsPlaced(types, ids, path, v.typ, (v.location + location) % 0x1_0000_0000_0000_0000, isLocal, isParam,
                     VarOf(ids, path, Propagated(LayoutTypes(types), v, location, isLocal, isParam, n)))
  {
    hide ViewsOf;
  }

  lemma PlacedStruct(types: map<Key, D.LoadedType>, n: nat, ids: Ids, path: seq<Key>, v: VarView, location: u64,
                     isLocal: bool, isParam: bool)
    requires Nested(LayoutTypes(types), v.typ, n) && v.members.NoTable? && LayoutTypes(types)[v.typ].Struct?
    requires var lay := LayoutTypes(types); var here := Add(v.location, location); var ms := types[v.typ].members.vars;
             var made := Instance(lay, lay[v.typ].members, here, isLocal, isParam, n - 1);
             forall i :: 0 <= i < |ms| ==>
               IsPlaced(types, ids, path + [ms[i].key], ms[i].rec.typ, Add(here, ms[i].rec.location), isLocal, isParam,
                        VarOf(ids, path + [ms[i].key], made[i].rec))
    ensures IsPlaced(types, ids, path, v.typ, (v.location + location) % 0x1_0000_0000_0000_0000, isLocal, isParam,
                     VarOf(ids, path, Propagated(LayoutTypes(types), v, location, isLocal, isParam, n)))
  {
    hide ViewOf, Copied, IsPlaced, Instance, MembersOf;
    var lay := LayoutTypes(types);
    var here := Add(v.location, location);
    var ms := types[v.typ].members.vars;
    var made := Instance(lay, lay[v.typ].members, here, isLocal, isParam, n - 1);
    var placed := VarOf(ids, path, Propagated(lay, v, location, isLocal, isParam, n));
    assert |made| == |ms| && placed.members == MembersOf(ids, path, made);
    forall i | 0 <= i < |ms|
      ensures placed.members[i].key == ms[i].key
      ensures IsPlaced(types, ids, path + [ms[i].key], ms[i].rec.typ, Add(here, ms[i].rec.location), isLocal, isParam,
                       placed.members[i].rec)
    {
      assert lay[v.typ].members[i] == Entry(ms[i].key, ViewOf(ms[i].rec));
      MemberOfTable(ids, path, made, i);
    }
    FromMembers(types, ids, path, v.typ, here, isLocal, isParam, placed);
  }

  lemma FromMembers(types: map<Key, D.LoadedType>, ids: Ids, path: seq<Key>, typ: Key, location: u64, isLocal: bool,
                    isParam: bool, v: S.Var)
    requires v.id == ids(path) && v.typ == typ && v.location == location && v.isLocal == isLocal && v.isParam == isParam
    requires typ in types && types[typ].isStruct && types[typ].members.HasTable?
    requires var ms := types[typ].members.vars;
             && |v.members| == |ms|
             && forall i :: 0 <= i < |ms| ==>
                  && v.members[i].key == ms[i].key
                  && IsPlaced(types, ids, path + [ms[i].key], ms[i].rec.typ, Add(location, ms[i].rec.location), isLocal,
                              isParam, v.members[i].rec)
    ensures IsPlaced(types, ids, path, typ, location, isLocal, isParam, v)
  {}

  lemma {:induction false} StaticFields(types: map<Key, D.LoadedType>, n: nat, ids: Ids, path: seq<Key>, r: D.VarRec)
    requires ShapedVar(r) && TypedVar(LayoutTypes(types), r, n)
    ensures IsStatic(types, ids, path, r, StaticOf(LayoutTypes(types), n, ids, path, r))
    decreases r, 1
  {
    hide IsPlaced, VarOf, LayoutTypes;
    if r.isSubprog {
      StaticsFields(types, n, ids, path, r.local.vars);
    } else {
      VariableFields(types, n, ids, path, r);
    }
  }

  lemma VariableFields(types: map<Key, D.LoadedType>, n: nat, ids: Ids, path: seq<Key>, r: D.VarRec)
    requires ShapedVar(r) && TypedVar(LayoutTypes(types), r, n) && !r.isSubprog
    ensures IsPlaced(types, ids, path, r.typ, r.location, r.isLocal, r.isParam,
                     StaticOf(LayoutTypes(types), n, ids, path, r).v)
  {
    hide IsPlaced, VarOf, LayoutTypes, Instance;
    var v := ViewOf(r);
    ViewFields(r);
    ViewWf(LayoutTypes(types), r, n);
    PlacedFields(types, n, ids, path, v, 0, r.isLocal, r.isParam);
    assert Created(LayoutTypes(types), v, n) == Propagated(LayoutTypes(types), v, 0, r.isLocal, r.isParam, n);
  }

  lemma {:induction false} StaticsFields(types: map<Key, D.LoadedType>, n: nat, ids: Ids, path: seq<Key>,
                                         es: Table<D.VarRec>)
    requires ShapedVars(es) && TypedVars(LayoutTypes(types), es, n)
    ensures AreStatics(types, ids, path, es, StaticsOf(LayoutTypes(types), n, ids, path, es))
    decreases es, 0
  {
    hide IsStatic, StaticOf, LayoutTypes;
    forall i | 0 <= i < |es|
      ensures IsStatic(types, ids, path + [es[i].key], es[i].rec,
                       StaticsOf(LayoutTypes(types), n, ids, path, es)[i].rec)
    {
      assert ShapedVar(es[i].rec) && TypedVar(LayoutTypes(types), es[i].rec, n);
      StaticFields(types, n, ids, path + [es[i].key], es[i].rec);
    }
  }

  // The program that is made of a loaded file has its units, in order, with their ranges;
  // each has the loaded variables and subprograms, with the members of their types.
  lemma UnitFields(types: map<Key, D.LoadedType>, n: nat, ids: Ids, l: D.Loaded, i: nat)
    requires ShapedVars(l.vars) && TypedVars(LayoutTypes(types), l.vars, n) && i < |l.cus|
    ensures var cus := UnitsOf(LayoutTypes(types), n, ids, l);
            && |cus| == |l.cus| && cus[i].key == l.cus[i].key
            && cus[i].rec.lowPc == l.cus[i].rec.lowPc && cus[i].rec.highPc == l.cus[i].rec.highPc
            && AreStatics(types, ids, [], l.vars, cus[i].rec.vars)
  {
    hide AreStatics, StaticsOf;
    StaticsFields(types, n, ids, [], l.vars);
  }

  // ------------------------------------------------------------------ records of frames

  // The variables of a table are its entries that are no subprograms, in order.
  lemma {:induction false} OwnInOrder(t: Table<A.Static>, u: Table<A.Static>)
    ensures A.OwnVariables(t + u) == A.OwnVariables(t) + A.OwnVariables(u)
  {
    if t == [] {
      assert t + u == u;
    } else {
      assert (t + u)[1..] == t[1..] + u;
      OwnInOrder(t[1..], u);
    }
  }

  lemma OwnOfOne(s: Entry<A.Static>)
    ensures A.OwnVariables([s]) == if s.rec.isSubprog then [] else [Entry(s.key, s.rec.v)]
  {
    assert [s][1..] == [];
  }

  // The globals are the variables of one unit after the other.
  lemma {:induction false} UnitsInOrder(cus: Table<A.CuView>, more: Table<A.CuView>)
    ensures A.UnitVariables(cus + more) == A.UnitVariables(cus) + A.UnitVariables(more)
  {
    hide A.OwnVariables;
    if cus == [] {
      assert cus + more == more;
    } else {
      assert (cus + more)[1..] == cus[1..] + more;
      UnitsInOrder(cus[1..], more);
    }
  }

  lemma UnitsOfOne(c: Entry<A.CuView>)
    ensures A.UnitVariables([c]) == A.OwnVariables(c.rec.vars)
  {
    assert [c][1..] == [];
  }

  // The frame of a function that is called has a record for each, with no value yet; the
  // frame of the globals has empty values.
  lemma RecordFields(vars: seq<Entry<S.Var>>, i: nat)
    requires i < |vars|
    ensures var rs, gs := R.NewRecords(vars), A.GlobalOf(vars);
            && |rs| == |vars| == |gs| && rs[i].place == i == gs[i].place
            && rs[i].name == vars[i].key == gs[i].name && rs[i].v == vars[i].rec == gs[i].v
            && rs[i].value == [0x3C, 0x4E, 0x4F, 0x56, 0x41, 0x4C, 0x55, 0x45, 0x3E] && gs[i].value == []
            && rs[i].block.None? && gs[i].block.None?
  {
    assert R.NO_VALUE == [0x3C, 0x4E, 0x4F, 0x56, 0x41, 0x4C, 0x55, 0x45, 0x3E];
  }
}
