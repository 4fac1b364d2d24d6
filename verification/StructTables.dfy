// The objects behind StructLayout: records and tables that point to each other
// and are changed in place. A table owns its records and a record owns its
// tables, so no two variables share a member table.
module StructTables {
  import opened Words
  import opened SymbolTables
  import opened StructLayout

  class VarRecord {
    var typ: Key
    var isSubprog: bool
    var isLocal: bool
    var isParam: bool
    var declFile: seq<byte>
    var declLine: u64
    var lowPc: u64
    var highPc: u64
    var location: u64
    var firstAccess: bool
    var local: VarTable?
    var members: VarTable?

    ghost var Repr: set<object>     // this record and everything that it owns
    ghost var view: VarView

    ghost predicate Valid()
      reads this, Repr
      ensures Valid() ==> this in Repr
      decreases Repr
    {
      && this in Repr
      && Owns(local) && Owns(members)
      && (local != null && members != null ==> local.Repr !! members.Repr)
      && view == VarView(typ, isSubprog, isLocal, isParam, declFile, declLine, lowPc, highPc, location, firstAccess,
                         if local == null then NoTable else HasTable(local.view),
                         if members == null then NoTable else HasTable(members.view))
    }

    ghost predicate Owns(t: VarTable?)
      requires this in Repr
      reads this, Repr
      decreases Repr, 0
    {
      t != null ==> t in Repr && t.Repr <= Repr && this !in t.Repr && t.Valid()
    }

    // A new record, with its local variables if it is a subprogram.
    constructor (typ: Key, isSubprog: bool, isLocal: bool, isParam: bool, declFile: seq<byte>, declLine: u64,
                 lowPc: u64, highPc: u64, location: u64, local: VarTable?)
      requires local != null ==> local.Valid()
      ensures Valid() && fresh(Repr - if local == null then {} else local.Repr)
      ensures view == VarView(typ, isSubprog, isLocal, isParam, declFile, declLine, lowPc, highPc, location, true,
                              if local == null then NoTable else HasTable(local.view), NoTable)
    {
      this.typ, this.isSubprog, this.isLocal, this.isParam := typ, isSubprog, isLocal, isParam;
      this.declFile, this.declLine, this.lowPc, this.highPc := declFile, declLine, lowPc, highPc;
      this.location, firstAccess, this.local, members := location, true, local, null;
      Repr := {this} + (if local == null then {} else local.Repr);
      view := VarView(typ, isSubprog, isLocal, isParam, declFile, declLine, lowPc, highPc, location, true,
                      if local == null then NoTable else HasTable(local.view), NoTable);
    }

    // The copy constructor.
    constructor Copy(src: VarRecord)
      requires src.Valid()
      ensures Valid() && fresh(Repr) && view == Copied(src.view)
      decreases src.Repr, 2
    {
      hide CopiedEntries, VarTable.Valid;
      ghost var v := src.view;
      assert v == VarView(src.typ, src.isSubprog, src.isLocal, src.isParam, src.declFile, src.declLine, src.lowPc,
                          src.highPc, src.location, src.firstAccess,
                          if src.local == null then NoTable else HasTable(src.local.view),
                          if src.members == null then NoTable else HasTable(src.members.view));
      var l: VarTable? := null;
      if src.local != null {
        l := new VarTable.Copy(src.local);
      }
      var m: VarTable? := null;
      if src.members != null {
        m := new VarTable.Copy(src.members);
      }
      typ, isSubprog, isLocal, isParam := src.typ, src.isSubprog, src.isLocal, src.isLocal;
      declFile, declLine, lowPc, highPc := [], src.declLine, src.lowPc, src.highPc;
      location, firstAccess := src.location, src.firstAccess;
      assert Copied(v).local == if l == null then NoTable else HasTable(l.view);
      assert Copied(v).members == if m == null then NoTable else HasTable(m.view);
      local, members := l, m;
      Repr := {this} + (if l == null then {} else l.Repr) + (if m == null then {} else m.Repr);
      view := Copied(src.view);
    }

    // A builder: take over a table of members.
    method AddMemberTable(m: VarTable)
      requires Valid() && m.Valid() && m.Repr !! Repr
      modifies this
      ensures Valid() && Repr <= old(Repr) + m.Repr && view == old(view).(members := HasTable(m.view))
    {
      members := m;
      Repr := {this} + (if local == null then {} else local.Repr) + m.Repr;
      view := view.(members := HasTable(m.view));
    }

    method MoveTo(location: u64, isLocal: bool, isParam: bool)
      requires Valid()
      modifies this
      ensures Valid() && Repr == old(Repr)
      ensures view == old(view).(isLocal := isLocal, isParam := isParam, location := location)
    {
      this.isLocal := isLocal;
      this.isParam := isParam;
      this.location := location;
      view := view.(isLocal := isLocal, isParam := isParam, location := location);
    }

    lemma Fields()
      requires Valid()
      ensures this in Repr && view.typ == typ && view.isSubprog == isSubprog && view.location == location
      ensures view.isLocal == isLocal && view.isParam == isParam
    {}

    lemma OwnsMembers()
      requires Valid() && members != null
      ensures members.Repr <= Repr && members in members.Repr
    {
      assert Owns(members);
    }

    // Replace the member table by a fresh copy of the type's, placed at this record.
    method PlaceMembers(ttab: TypeTable, ghost members: Table<VarView>, ghost n: nat)
      requires Valid() && ttab.Valid() && Repr !! ttab.Repr
      requires typ in ttab.view && ttab.view[typ] == Struct(members)
      requires forall e <- members :: Nested(ttab.view, e.rec.typ, n)
      modifies this
      ensures Valid() && fresh(Repr - old(Repr))
      ensures view == old(view).(members := HasTable(Instance(ttab.view, members, old(view.location), old(view.isLocal),
                                                              old(view.isParam), n)))
      decreases n, 5
    {
      hide CopiedEntries, Instance, VarTable.Valid, VarRecord.Valid, TypeTable.Valid, Nested;
      Fields();
      ttab.Entry(typ);
      var m := new VarTable.Copy(ttab.recs[typ].members);
      m.PropagateLocalInfo(ttab, location, isLocal, isParam, members, n);
      AddMemberTable(m);
    }

    method PropagateLocalInfo(ttab: TypeTable, location: u64, isLocal: bool, isParam: bool, ghost n: nat)
      requires Valid() && ttab.Valid() && Repr !! ttab.Repr && Nested(ttab.view, view.typ, n)
      modifies this
      ensures Valid() && fresh(Repr - old(Repr))
      ensures view == Propagated(ttab.view, old(view), location, isLocal, isParam, n)
      decreases n, 2
    {
      hide VarRecord.Valid, TypeTable.Valid;
      Fields();
      MoveTo(Add(this.location, location), isLocal, isParam);
      Fields();
      ttab.Entry(typ);
      if ttab.recs[typ].isStruct {
        PlaceMembers(ttab, ttab.view[typ].members, n - 1);
      }
    }

    // The local variables have changed and own more fresh objects than before.
    ghost method ReownLocal()
      requires local != null && local.Valid() && this !in local.Repr && this in Repr && Owns(members)
      requires members != null ==> members.Repr !! local.Repr
      requires view == VarView(typ, isSubprog, isLocal, isParam, declFile, declLine, lowPc, highPc, location,
                               firstAccess, view.local, if members == null then NoTable else HasTable(members.view))
      modifies this`Repr, this`view
      ensures Valid() && Repr == old(Repr) + local.Repr
      ensures view == old(view).(local := HasTable(local.view))
    {
      Repr := Repr + local.Repr;
      view := view.(local := HasTable(local.view));
    }

    method CreateMemberTables(ttab: TypeTable, ghost n: nat)
      requires Valid() && ttab.Valid() && Repr !! ttab.Repr && WfVar(ttab.view, view, n)
      modifies Repr
      ensures Valid() && ttab.Valid() && fresh(Repr - old(Repr))
      ensures view == Created(ttab.view, old(view), n)
      decreases view, 1
    {
      hide TypeTable.Valid, VarTable.Valid, Instance;
      if isSubprog {
        local.CreateMemberTables(ttab, n);
        ReownLocal();
      } else {
        ttab.Entry(typ);
        if ttab.recs[typ].isStruct {
          PlaceMembers(ttab, ttab.view[typ].members, n - 1);
        }
      }
    }
  }

  class VarTable {
    var entries: seq<Entry<VarRecord>>

    ghost var Repr: set<object>
    ghost var view: Table<VarView>

    ghost predicate Valid()
      reads this, Repr
      ensures Valid() ==> this in Repr
      decreases Repr
    {
      && this in Repr
      && |view| == |entries|
      && (forall i :: 0 <= i < |entries| ==> Owns(entries[i].rec))
      && (forall i :: 0 <= i < |entries| ==> view[i] == Entry(entries[i].key, entries[i].rec.view))
      && (forall i, j :: 0 <= i < j < |entries| ==> entries[i].rec.Repr !! entries[j].rec.Repr)
    }

    ghost predicate Owns(r: VarRecord)
      requires this in Repr
      reads this, Repr
      decreases Repr, 0
    {
      r in Repr && r.Repr <= Repr && this !in r.Repr && r.Valid()
    }

    lemma OwnsEntry(i: nat)
      requires Valid() && i < |entries|
      ensures |view| == |entries| && view[i] == Entry(entries[i].key, entries[i].rec.view)
      ensures var r := entries[i].rec;
              this in Repr && r in Repr && r.Repr <= Repr && this !in r.Repr && r.Valid()
    {
      assert Owns(entries[i].rec);
    }

    constructor ()
      ensures Valid() && fresh(Repr) && view == [] && entries == []
    {
      entries, Repr, view := [], {this}, [];
    }

    // The copy constructor.
    constructor Copy(src: VarTable)
      requires src.Valid()
      ensures Valid() && fresh(Repr) && view == CopiedEntries(src.view)
      decreases src.Repr, 1
    {
      hide CopiedEntries;
      entries, Repr, view := [], {this}, [];
      new;
      CopyFrom(src);
    }

    // Copies of the records, in the same order.
    method CopyFrom(src: VarTable)
      requires src.Valid() && Valid() && entries == [] && Repr !! src.Repr
      modifies this
      ensures Valid() && fresh(Repr - old(Repr)) && view == CopiedEntries(src.view)
      decreases src.Repr, 0
    {
      hide VarRecord.Valid, VarTable.Valid, CopiedTable;
      Sized();
      src.Sized();
      var i := 0;
      while i < |src.entries|
        invariant i <= |src.entries| == |src.view| && |entries| == i
        invariant Valid() && fresh(Repr - old(Repr))
        invariant |view| == i && forall j :: 0 <= j < i ==> view[j] == CopiedEntries(src.view)[j]
      {
        src.OwnsEntry(i);
        var r := new VarRecord.Copy(src.entries[i].rec);
        Append(src.entries[i].key, r);
        i := i + 1;
      }
    }

    // A put of a key behind all others.
    method Append(k: Key, r: VarRecord)
      requires Valid() && r.Valid() && r.Repr !! Repr
      modifies this
      ensures Valid() && Repr == old(Repr) + r.Repr
      ensures view == old(view) + [Entry(k, r.view)] && entries == old(entries) + [Entry(k, r)]
    {
      ghost var before := entries;
      entries := entries + [Entry(k, r)];
      view := view + [Entry(k, r.view)];
      Repr := Repr + r.Repr;
      forall i | 0 <= i < |entries| ensures Owns(entries[i].rec) {
        if i < |before| {
          assert entries[i] == before[i];
        }
      }
    }

    // Place the i-th record, and leave the others alone.
    method PropagateAt(i: nat, ttab: TypeTable, location: u64, isLocal: bool, isParam: bool, ghost n: nat)
      requires Valid() && ttab.Valid() && Repr !! ttab.Repr
      requires i < |entries| && Nested(ttab.view, view[i].rec.typ, n)
      modifies Repr
      ensures Valid() && fresh(Repr - old(Repr)) && entries == old(entries)
      ensures view == old(view)[i := Entry(old(view)[i].key,
                                           Propagated(ttab.view, old(view)[i].rec, location, isLocal, isParam, n))]
      decreases n, 3
    {
      var r := entries[i].rec;
      assert Owns(r);
      r.PropagateLocalInfo(ttab, location, isLocal, isParam, n);
      Reown(i);
    }

    // The i-th record has changed and owns more fresh objects than before.
    ghost method Reown(i: nat)
      requires i < |entries| == |view| && this in Repr
      requires forall j :: 0 <= j < |entries| && j != i ==> Owns(entries[j].rec)
      requires forall j :: 0 <= j < |entries| && j != i ==> view[j] == Entry(entries[j].key, entries[j].rec.view)
      requires forall j, k :: 0 <= j < k < |entries| ==> entries[j].rec.Repr !! entries[k].rec.Repr
      requires entries[i].rec.Valid() && this !in entries[i].rec.Repr && view[i].key == entries[i].key
      modifies this`Repr, this`view
      ensures Valid() && Repr == old(Repr) + entries[i].rec.Repr
      ensures view == old(view)[i := Entry(old(view)[i].key, entries[i].rec.view)]
    {
      var r := entries[i].rec;
      Repr := Repr + r.Repr;
      view := view[i := Entry(view[i].key, r.view)];
    }

    // The loop over the records. They are still copies of the members.
    method PropagateLocalInfo(ttab: TypeTable, location: u64, isLocal: bool, isParam: bool,
                              ghost members: Table<VarView>, ghost n: nat)
      requires Valid() && ttab.Valid() && Repr !! ttab.Repr
      requires view == CopiedEntries(members) && forall e <- members :: Nested(ttab.view, e.rec.typ, n)
      modifies Repr
      ensures Valid() && fresh(Repr - old(Repr))
      ensures view == Instance(ttab.view, members, location, isLocal, isParam, n)
      decreases n, 4
    {
      hide Propagated, VarTable.Valid, TypeTable.Valid, Nested, Instance, CopiedEntries, Copied;
      ghost var placed := Instance(ttab.view, members, location, isLocal, isParam, n);
      Sized();
      var i := 0;
      while i < |entries|
        invariant i <= |entries| == |view| == |members|
        invariant Valid() && ttab.Valid() && fresh(Repr - old(Repr)) && Repr !! ttab.Repr
        invariant forall j :: 0 <= j < |view| ==> view[j] == if j < i then placed[j] else CopiedEntries(members)[j]
      {
        assert members[i] in members;
        assert CopiedEntries(members)[i].rec == Copied(members[i].rec);
        SameType(members[i].rec);
        PropagateAt(i, ttab, location, isLocal, isParam, n);
        i := i + 1;
      }
    }

    method CreateAt(i: nat, ttab: TypeTable, ghost n: nat)
      requires Valid() && ttab.Valid() && Repr !! ttab.Repr
      requires i < |entries| == |view| && WfVar(ttab.view, view[i].rec, n)
      modifies Repr
      ensures Valid() && ttab.Valid() && fresh(Repr - old(Repr)) && entries == old(entries)
      ensures view == old(view)[i := Entry(old(view)[i].key, Created(ttab.view, old(view)[i].rec, n))]
      decreases view[i].rec, 2
    {
      hide TypeTable.Valid, VarRecord.Valid, WfVar, Created;
      var r := entries[i].rec;
      assert Owns(r);
      r.CreateMemberTables(ttab, n);
      Reown(i);
    }

    method CreateMemberTables(ttab: TypeTable, ghost n: nat)
      requires Valid() && ttab.Valid() && Repr !! ttab.Repr && WfVars(ttab.view, view, n)
      modifies Repr
      ensures Valid() && ttab.Valid() && fresh(Repr - old(Repr)) && entries == old(entries)
      ensures view == CreatedAll(ttab.view, old(view), n)
      decreases view, 0
    {
      hide TypeTable.Valid, VarTable.Valid, WfVar, WfVars, Created, CreatedAll;
      ghost var before := view;
      ghost var created := CreatedAll(ttab.view, view, n);
      Sized();
      var i := 0;
      while i < |entries|
        invariant i <= |entries| == |view| == |before| && entries == old(entries)
        invariant Valid() && ttab.Valid() && fresh(Repr - old(Repr)) && Repr !! ttab.Repr
        invariant forall j :: 0 <= j < |view| ==> view[j] == if j < i then created[j] else before[j]
      {
        CreatedAllAt(ttab.view, before, n, i);
        CreateAt(i, ttab, n);
        Sized();
        i := i + 1;
      }
    }

    lemma Sized()
      requires Valid()
      ensures |view| == |entries|
    {}
  }

  datatype TypeInfo = TypeInfo(isStruct: bool, members: VarTable?)

  // The types are these, and all member tables lie among the owned objects.
  ghost predicate Describes(view: Types, recs: map<Key, TypeInfo>, owned: set<object>)
    reads owned
  {
    && view.Keys == recs.Keys
    && forall k <- recs ::
         if recs[k].isStruct
         then recs[k].members != null && recs[k].members in owned && recs[k].members.Repr <= owned &&
              recs[k].members.Valid() && view[k] == Struct(recs[k].members.view)
         else view[k] == Plain
  }

  // The type table that the copies are taken from.
  class TypeTable {
    const recs: map<Key, TypeInfo>
    ghost const Repr: set<object>
    ghost const view: Types

    ghost predicate Valid()
      reads this, Repr
      ensures Valid() ==> this in Repr
    {
      this in Repr && Describes(view, recs, Repr)
    }

    // A table of these types, whose member tables own these objects.
    constructor (recs: map<Key, TypeInfo>, ghost view: Types, ghost owned: set<object>)
      requires Describes(view, recs, owned)
      ensures Valid() && fresh(Repr - owned) && this.view == view && this.recs == recs
    {
      this.recs := recs;
      this.view := view;
      Repr := {this} + owned;
    }

    lemma Entry(k: Key)
      requires Valid() && k in view
      ensures k in recs && recs[k].isStruct == view[k].Struct?
      ensures recs[k].isStruct ==>
                var m := recs[k].members;
                m != null && m in Repr && m.Repr <= Repr && m.Valid() && view[k] == Struct(m.view)
    {}
  }

  // Every unit of the program has the same variable table, and the member tables
  // are created once per unit: the last time changes nothing any more.
  method CreateForUnits(units: nat, vars: VarTable, ttab: TypeTable, ghost n: nat)
    requires vars.Valid() && ttab.Valid() && vars.Repr !! ttab.Repr && WfVars(ttab.view, vars.view, n)
    modifies vars.Repr
    ensures vars.Valid() && fresh(vars.Repr - old(vars.Repr)) && vars.entries == old(vars.entries)
    ensures vars.view == if units == 0 then old(vars.view) else CreatedAll(ttab.view, old(vars.view), n)
    ensures ttab.Valid() && vars.Repr !! ttab.Repr
  {
    hide TypeTable.Valid, VarTable.Valid, CreatedAll, WfVars;
    CreatedAllTwice(ttab.view, vars.view, n);
    var i := 0;
    while i < units
      invariant i <= units && vars.entries == old(vars.entries)
      invariant vars.Valid() && ttab.Valid() && fresh(vars.Repr - old(vars.Repr)) && vars.Repr !! ttab.Repr
      invariant vars.view == if i == 0 then old(vars.view) else CreatedAll(ttab.view, old(vars.view), n)
    {
      vars.CreateMemberTables(ttab, n);
      i := i + 1;
    }
  }

  // Two variables of a table own nothing in common, so no change to the members
  // of the one can be seen through the other.
  lemma MemberTablesNotShared(vars: VarTable, i: nat, j: nat)
    requires vars.Valid() && i < j < |vars.entries|
    requires vars.entries[i].rec.members != null && vars.entries[j].rec.members != null
    ensures vars.entries[i].rec.members.Repr !! vars.entries[j].rec.members.Repr
    ensures vars.entries[i].rec.members != vars.entries[j].rec.members
  {
    assert vars.Owns(vars.entries[i].rec) && vars.Owns(vars.entries[j].rec);
    vars.entries[i].rec.OwnsMembers();
    vars.entries[j].rec.OwnsMembers();
  }
}
