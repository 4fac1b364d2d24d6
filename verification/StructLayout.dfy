// Member tables of struct variables: every variable of a struct type gets a deep
// copy of the member table of its type, in which locations are moved to where the
// variable lies, and so on for members that are structs themselves.
module StructLayout {
  import opened Words
  import opened SymbolTables

  // ------------------------------------------------------------------ as values

  datatype VarView = VarView(typ: Key, isSubprog: bool, isLocal: bool, isParam: bool, declFile: seq<byte>,
                             declLine: u64, lowPc: u64, highPc: u64, location: u64, firstAccess: bool,
                             local: TableView, members: TableView)

  datatype TableView = NoTable | HasTable(entries: Table<VarView>)

  // A type: a struct with its members, or anything else.
  datatype TypeView = Plain | Struct(members: Table<VarView>)

  type Types = map<Key, TypeView>

  // What the copy constructor makes of a record. It forgets the declaring file,
  // and it takes `is_local` for `is_param`, which is what `get_is_param` returns.
  function Copied(v: VarView): VarView
    decreases v, 1
  {
    v.(isParam := v.isLocal, declFile := [], local := CopiedTable(v.local), members := CopiedTable(v.members))
  }

  function CopiedTable(t: TableView): TableView
    decreases t, 2
  {
    match t
    case NoTable => NoTable
    case HasTable(es) => HasTable(CopiedEntries(es))
  }

  function CopiedEntries(es: Table<VarView>): (r: Table<VarView>)
    ensures |r| == |es|
    ensures forall i :: 0 <= i < |es| ==> r[i] == Entry(es[i].key, Copied(es[i].rec))
    decreases es, 0
  {
    if es == [] then [] else [Entry(es[0].key, Copied(es[0].rec))] + CopiedEntries(es[1..])
  }

  // Every type named by a variable is in the type table, and structs lie in one
  // another at most n deep.
  ghost predicate Nested(types: Types, typ: Key, n: nat)
    decreases n
  {
    && typ in types
    && (types[typ].Struct? ==> n > 0 && forall e <- types[typ].members :: Nested(types, e.rec.typ, n - 1))
  }

  // `propagate_local_info`
  ghost function Propagated(types: Types, v: VarView, location: u64, isLocal: bool, isParam: bool, n: nat): VarView
    requires Nested(types, v.typ, n)
    decreases n, 1
  {
    var v' := v.(isLocal := isLocal, isParam := isParam, location := Add(v.location, location));
    if types[v.typ].Plain? then v'
    else v'.(members := HasTable(Instance(types, types[v.typ].members, v'.location, isLocal, isParam, n - 1)))
  }

  // The members of a struct type, copied and placed at a location.
  ghost function Instance(types: Types, members: Table<VarView>, location: u64, isLocal: bool, isParam: bool, n: nat)
    : (r: Table<VarView>)
    requires forall e <- members :: Nested(types, e.rec.typ, n)
    ensures |r| == |members|
    ensures forall i :: 0 <= i < |r| ==>
              r[i] == Entry(members[i].key, Propagated(types, Copied(members[i].rec), location, isLocal, isParam, n))
    decreases n, 2, |members|
  {
    if members == [] then []
    else [Entry(members[0].key, Propagated(types, Copied(members[0].rec), location, isLocal, isParam, n))] +
         Instance(types, members[1..], location, isLocal, isParam, n)
  }

  // The variables of a scope, and those of the subprograms in it.
  ghost predicate WfVar(types: Types, v: VarView, n: nat)
    decreases v, 1
  {
    if v.isSubprog then v.local.HasTable? && WfVars(types, v.local.entries, n) else Nested(types, v.typ, n)
  }

  ghost predicate WfVars(types: Types, es: Table<VarView>, n: nat)
    decreases es, 0
  {
    es == [] || (WfVar(types, es[0].rec, n) && WfVars(types, es[1..], n))
  }

  // `create_member_tables`
  ghost function Created(types: Types, v: VarView, n: nat): VarView
    requires WfVar(types, v, n)
    decreases v, 1
  {
    if v.isSubprog then v.(local := HasTable(CreatedAll(types, v.local.entries, n)))
    else if types[v.typ].Plain? then v
    else v.(members := HasTable(Instance(types, types[v.typ].members, v.location, v.isLocal, v.isParam, n - 1)))
  }

  ghost function CreatedAll(types: Types, es: Table<VarView>, n: nat): (r: Table<VarView>)
    requires WfVars(types, es, n)
    ensures |r| == |es|
    decreases es, 0
  {
    if es == [] then []
    else [Entry(es[0].key, Created(types, es[0].rec, n))] + CreatedAll(types, es[1..], n)
  }

  lemma {:induction false} CreatedAllAt(types: Types, es: Table<VarView>, n: nat, i: nat)
    requires WfVars(types, es, n) && i < |es|
    ensures WfVar(types, es[i].rec, n)
    ensures CreatedAll(types, es, n)[i] == Entry(es[i].key, Created(types, es[i].rec, n))
    decreases i
  {
    if i > 0 {
      CreatedAllAt(types, es[1..], n, i - 1);
    }
  }

  // ------------------------------------------------------------------ where members lie

  // The member reached by a path of names.
  function MemberAt(v: VarView, path: seq<Key>): Option<VarView>
    decreases |path|
  {
    if path == [] then Some(v)
    else if v.members.NoTable? then None
    else
      var m :- Lookup(v.members.entries, path[0]);
      MemberAt(m, path[1..])
  }

  // The same path in the type table alone: the type that it leads to and the sum
  // of the member offsets on the way.
  function PathInType(types: Types, typ: Key, path: seq<Key>): Option<(Key, int)>
    decreases |path|
  {
    if path == [] then Some((typ, 0))
    else if typ !in types || types[typ].Plain? then None
    else
      var m :- Lookup(types[typ].members, path[0]);
      var (end, offset) :- PathInType(types, m.typ, path[1..]);
      Some((end, m.location + offset))
  }

  // Looking up a name in an instance finds the instance of the member.
  lemma {:induction false} LookupInstance(types: Types, members: Table<VarView>, location: u64, isLocal: bool,
                                          isParam: bool, n: nat, k: Key)
    requires forall e <- members :: Nested(types, e.rec.typ, n)
    ensures var m := Lookup(members, k);
            && (m.Some? ==> Nested(types, m.value.typ, n))
            && Lookup(Instance(types, members, location, isLocal, isParam, n), k) ==
               if m.None? then None
               else Some(Propagated(types, Copied(m.value), location, isLocal, isParam, n))
    decreases |members|
  {
    if members != [] {
      LookupInstance(types, members[1..], location, isLocal, isParam, n, k);
      var es := Instance(types, members, location, isLocal, isParam, n);
      assert es[1..] == Instance(types, members[1..], location, isLocal, isParam, n);
      assert members[0] in members;
    }
  }

  // Copies of the members of a type have no members of their own before they are
  // placed; the debug file gives them none.
  ghost predicate Flat(types: Types) {
    forall k <- types :: types[k].Struct? ==> forall e <- types[k].members :: e.rec.members.NoTable?
  }

  lemma FlatMember(types: Types, typ: Key, k: Key)
    requires Flat(types) && typ in types && types[typ].Struct? && Lookup(types[typ].members, k).Some?
    ensures Lookup(types[typ].members, k).value.members.NoTable?
  {
    MemberInTable(types[typ].members, k);
  }

  lemma SameType(v: VarView)
    ensures Copied(v).typ == v.typ
  {}

  lemma CopiedFlat(v: VarView)
    requires v.members.NoTable?
    ensures Copied(v).members.NoTable? && Copied(v).typ == v.typ && Copied(v).location == v.location
  {}

  lemma {:induction false} PropagatedMember(types: Types, v: VarView, location: u64, isLocal: bool, isParam: bool,
                                            n: nat, path: seq<Key>)
    requires Flat(types) && Nested(types, v.typ, n) && v.members.NoTable?
    ensures var m := MemberAt(Propagated(types, v, location, isLocal, isParam, n), path);
            var p := PathInType(types, v.typ, path);
            && (m.Some? <==> p.Some?)
            && (m.Some? ==> && m.value.typ == p.value.0
                            && m.value.location == Wrap(v.location + location + p.value.1)
                            && m.value.isLocal == isLocal && m.value.isParam == isParam)
    decreases |path|
  {
    hide Copied, Instance, Wrap, Flat;
    if path != [] && types[v.typ].Struct? {
      var members := types[v.typ].members;
      var here := Add(v.location, location);
      LookupInstance(types, members, here, isLocal, isParam, n - 1, path[0]);
      var m := Lookup(members, path[0]);
      if m.Some? {
        FlatMember(types, v.typ, path[0]);
        CopiedFlat(m.value);
        PropagatedMember(types, Copied(m.value), here, isLocal, isParam, n - 1, path[1..]);
        var p := PathInType(types, m.value.typ, path[1..]);
        if p.Some? {
          WrapAdd(v.location + location, m.value.location + p.value.1);
        }
      }
    }
  }

  lemma {:induction false} MemberInTable(t: Table<VarView>, k: Key)
    ensures Lookup(t, k).Some? ==> exists e :: e in t && e.key == k && e.rec == Lookup(t, k).value
  {
    if t != [] {
      MemberInTable(t[1..], k);
      if t[0].key == k {
        assert t[0] in t;
      } else if Lookup(t[1..], k).Some? {
        var e :| e in t[1..] && e.key == k && e.rec == Lookup(t[1..], k).value;
        assert e in t;
      }
    }
  }

  // The main result: a struct variable has exactly the members, at every depth,
  // that its type prescribes, each at the variable's location plus the offsets on
  // the way, local or a parameter as the variable is.
  lemma MembersPlaced(types: Types, v: VarView, n: nat, path: seq<Key>)
    requires Flat(types) && !v.isSubprog && v.members.NoTable? && WfVar(types, v, n)
    ensures var m := MemberAt(Created(types, v, n), path);
            var p := PathInType(types, v.typ, path);
            && (m.Some? <==> p.Some?)
            && (m.Some? ==> && m.value.typ == p.value.0
                            && m.value.location == Wrap(v.location + p.value.1)
                            && m.value.isLocal == v.isLocal && m.value.isParam == v.isParam)
  {
    PropagatedMember(types, v, 0, v.isLocal, v.isParam, n, path);
    assert Created(types, v, n) == Propagated(types, v, 0, v.isLocal, v.isParam, n);
  }

  // The variable reached through subprograms inside one another.
  function VarIn(es: Table<VarView>, scopes: seq<Key>): Option<VarView>
    decreases |scopes|
  {
    if scopes == [] then None
    else
      var v :- Lookup(es, scopes[0]);
      if |scopes| == 1 then Some(v)
      else if v.isSubprog && v.local.HasTable? then VarIn(v.local.entries, scopes[1..])
      else None
  }

  lemma {:induction false} LookupCreated(types: Types, es: Table<VarView>, n: nat, k: Key)
    requires WfVars(types, es, n)
    ensures match Lookup(es, k)
            case None => Lookup(CreatedAll(types, es, n), k) == None
            case Some(v) => WfVar(types, v, n) && Lookup(CreatedAll(types, es, n), k) == Some(Created(types, v, n))
    decreases |es|
  {
    hide Created, WfVar;
    if es != [] {
      LookupCreated(types, es[1..], n, k);
      assert CreatedAll(types, es, n)[1..] == CreatedAll(types, es[1..], n);
    }
  }

  lemma {:induction false} CreatedIn(types: Types, es: Table<VarView>, n: nat, scopes: seq<Key>)
    requires WfVars(types, es, n)
    ensures match VarIn(es, scopes)
            case None => VarIn(CreatedAll(types, es, n), scopes) == None
            case Some(v) => WfVar(types, v, n) && VarIn(CreatedAll(types, es, n), scopes) == Some(Created(types, v, n))
    decreases |scopes|
  {
    if scopes != [] {
      LookupCreated(types, es, n, scopes[0]);
      var v := Lookup(es, scopes[0]);
      if v.Some? && |scopes| > 1 && v.value.isSubprog && v.value.local.HasTable? {
        CreatedIn(types, v.value.local.entries, n, scopes[1..]);
      }
    }
  }

  // So it is for the variables of every scope of a program.
  lemma EveryMemberPlaced(types: Types, es: Table<VarView>, n: nat, scopes: seq<Key>, path: seq<Key>)
    requires Flat(types) && WfVars(types, es, n)
    ensures var v := VarIn(es, scopes);
            v.Some? && !v.value.isSubprog && v.value.members.NoTable? ==>
              && VarIn(CreatedAll(types, es, n), scopes).Some?
              && var m := MemberAt(VarIn(CreatedAll(types, es, n), scopes).value, path);
                 var p := PathInType(types, v.value.typ, path);
                 && (m.Some? <==> p.Some?)
                 && (m.Some? ==> && m.value.typ == p.value.0
                                 && m.value.location == Wrap(v.value.location + p.value.1)
                                 && m.value.isLocal == v.value.isLocal && m.value.isParam == v.value.isParam)
  {
    hide Created, CreatedAll, WfVars, Flat, MemberAt, PathInType, Wrap;
    CreatedIn(types, es, n, scopes);
    var v := VarIn(es, scopes);
    if v.Some? && !v.value.isSubprog && v.value.members.NoTable? {
      MembersPlaced(types, v.value, n, path);
    }
  }

  // ------------------------------------------------------------------ once is enough

  lemma {:induction false} CreatedTwice(types: Types, v: VarView, n: nat)
    requires WfVar(types, v, n)
    ensures WfVar(types, Created(types, v, n), n)
    ensures Created(types, Created(types, v, n), n) == Created(types, v, n)
    decreases v, 1
  {
    if v.isSubprog {
      CreatedAllTwice(types, v.local.entries, n);
    }
  }

  lemma {:induction false} CreatedAllTwice(types: Types, es: Table<VarView>, n: nat)
    requires WfVars(types, es, n)
    ensures WfVars(types, CreatedAll(types, es, n), n)
    ensures CreatedAll(types, CreatedAll(types, es, n), n) == CreatedAll(types, es, n)
    decreases es, 0
  {
    if es != [] {
      CreatedTwice(types, es[0].rec, n);
      CreatedAllTwice(types, es[1..], n);
      assert CreatedAll(types, es, n)[1..] == CreatedAll(types, es[1..], n);
    }
  }
}
