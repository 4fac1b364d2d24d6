// `resolve_base_types`: two passes over the type table of a unit, both rewriting
// records in place. The first lets every pointer and array name, instead of a
// const type, the type at the end of its chain of consts. The second builds the
// names and the array sizes.
module TypeResolution {
  import opened Words
  import opened SymbolTables
  import opened DebugFile
  import opened AsciiText

  // ------------------------------------------------------------------ const chains

  predicate Derived(r: TypeRec) { r.isPointer || r.isArray }

  // Following `key` ends at a type that is not const after at most n steps.
  ghost predicate EndsIn(t: Table<TypeRec>, key: Key, n: nat)
    decreases n
  {
    match Lookup(t, key)
    case None => false
    case Some(r) => !r.isConst || (n > 0 && r.base.Some? && EndsIn(t, r.base.value, n - 1))
  }

  // The recursion of `get_base_type_index` on this key comes to an end.
  ghost predicate Ends(t: Table<TypeRec>, key: Key) { exists n :: EndsIn(t, key, n) }

  ghost function EndIn(t: Table<TypeRec>, key: Key, n: nat): Key
    requires EndsIn(t, key, n)
    decreases n
  {
    var r := Lookup(t, key).value;
    if r.isConst then EndIn(t, r.base.value, n - 1) else key
  }

  // The type at the end of the chain.
  ghost function ChainEnd(t: Table<TypeRec>, key: Key): Key
    requires Ends(t, key)
  {
    var n :| EndsIn(t, key, n); EndIn(t, key, n)
  }

  lemma {:induction false} EndUnique(t: Table<TypeRec>, key: Key, m: nat, n: nat)
    requires EndsIn(t, key, m) && EndsIn(t, key, n)
    ensures EndIn(t, key, m) == EndIn(t, key, n)
    decreases n
  {
    var r := Lookup(t, key).value;
    if r.isConst {
      EndUnique(t, r.base.value, m - 1, n - 1);
    }
  }

  lemma ChainEndIs(t: Table<TypeRec>, key: Key, n: nat)
    requires EndsIn(t, key, n)
    ensures Ends(t, key) && ChainEnd(t, key) == EndIn(t, key, n)
  {
    var m :| EndsIn(t, key, m) && ChainEnd(t, key) == EndIn(t, key, m);
    EndUnique(t, key, m, n);
  }

  lemma {:induction false} EndNotConst(t: Table<TypeRec>, key: Key, n: nat)
    requires EndsIn(t, key, n)
    ensures var e := EndIn(t, key, n);
            Lookup(t, e).Some? && !Lookup(t, e).value.isConst && EndsIn(t, e, 0) && EndIn(t, e, 0) == e
    decreases n
  {
    var r := Lookup(t, key).value;
    if r.isConst {
      EndNotConst(t, r.base.value, n - 1);
    }
  }

  // ------------------------------------------------------------------ first pass

  // What the source demands of the table: keys in order; every type named by a
  // pointer, an array or a const is in the table, and its chain of consts ends;
  // no type is const and a pointer or an array at once.
  ghost predicate Closed(t: Table<TypeRec>) {
    && Sorted(t)
    && forall i :: 0 <= i < |t| ==> ClosedRec(t, t[i].rec)
  }

  ghost predicate ClosedRec(t: Table<TypeRec>, r: TypeRec) {
    && (Derived(r) ==> !r.isConst)
    && (Derived(r) || r.isConst ==> r.base.Some? && Ends(t, r.base.value))
  }

  ghost function Rebased(t: Table<TypeRec>, r: TypeRec): TypeRec
    requires ClosedRec(t, r)
  {
    if Derived(r) then r.(base := Some(ChainEnd(t, r.base.value))) else r
  }

  // The table after the first pass, entry by entry.
  ghost predicate IsRebased(t: Table<TypeRec>, u: Table<TypeRec>)
    requires Closed(t)
  {
    |u| == |t| && forall i :: 0 <= i < |t| ==> u[i] == Entry(t[i].key, Rebased(t, t[i].rec))
  }

  // In the middle of the pass: some entries are rebased, the others as before.
  ghost predicate PartlyRebased(t: Table<TypeRec>, u: Table<TypeRec>, done: set<nat>)
    requires Closed(t)
  {
    && |u| == |t|
    && forall i :: 0 <= i < |t| ==> u[i] == if i in done then Entry(t[i].key, Rebased(t, t[i].rec)) else t[i]
  }

  // Two tables with the same keys and the same consts have the same chains.
  lemma {:induction false} SameLookup(t: Table<TypeRec>, u: Table<TypeRec>, done: set<nat>, key: Key)
    requires Closed(t) && PartlyRebased(t, u, done)
    ensures Lookup(u, key).Some? == Lookup(t, key).Some?
    ensures Lookup(t, key).Some? ==>
              var r := Lookup(t, key).value; var r' := Lookup(u, key).value;
              ClosedRec(t, r) && (r' == r || r' == Rebased(t, r))
  {
    LookupIndex(t, key);
    LookupIndex(u, key);
    if Lookup(t, key).Some? {
      var i :| 0 <= i < |t| && t[i].key == key;
      PartlySorted(t, u, done);
      LookupAt(t, i);
      LookupAt(u, i);
    }
  }

  lemma PartlySorted(t: Table<TypeRec>, u: Table<TypeRec>, done: set<nat>)
    requires Closed(t) && PartlyRebased(t, u, done)
    ensures Sorted(u)
  {
    forall i, j | 0 <= i < j < |u| ensures Less(u[i].key, u[j].key) {
      assert u[i].key == t[i].key && u[j].key == t[j].key;
    }
  }

  lemma {:induction false} LookupIndex(t: Table<TypeRec>, key: Key)
    ensures Lookup(t, key).Some? <==> exists i :: 0 <= i < |t| && t[i].key == key
  {
    if t != [] {
      LookupIndex(t[1..], key);
      if exists i :: 0 <= i < |t[1..]| && t[1..][i].key == key {
        var i :| 0 <= i < |t[1..]| && t[1..][i].key == key;
        assert t[i + 1].key == key;
      }
      if exists i :: 0 <= i < |t| && t[i].key == key {
        var i :| 0 <= i < |t| && t[i].key == key;
        if i > 0 {
          assert t[1..][i - 1].key == key;
        }
      }
    }
  }

  lemma {:induction false} SameChains(t: Table<TypeRec>, u: Table<TypeRec>, done: set<nat>, key: Key, n: nat)
    requires Closed(t) && PartlyRebased(t, u, done)
    ensures EndsIn(u, key, n) == EndsIn(t, key, n)
    ensures EndsIn(t, key, n) ==> EndIn(u, key, n) == EndIn(t, key, n)
    decreases n
  {
    SameLookup(t, u, done, key);
    if Lookup(t, key).Some? {
      var r := Lookup(t, key).value;
      if r.isConst && n > 0 && r.base.Some? {
        SameChains(t, u, done, r.base.value, n - 1);
      }
    }
  }

  // The base types of the whole table do not change what a chain leads to.
  lemma SameEnd(t: Table<TypeRec>, u: Table<TypeRec>, done: set<nat>, key: Key)
    requires Closed(t) && PartlyRebased(t, u, done) && Ends(t, key)
    ensures Ends(u, key) && ChainEnd(u, key) == ChainEnd(t, key)
  {
    var n :| EndsIn(t, key, n);
    SameChains(t, u, done, key, n);
    ChainEndIs(t, key, n);
    ChainEndIs(u, key, n);
  }

  lemma EndOfEnd(t: Table<TypeRec>, key: Key)
    requires Ends(t, key)
    ensures var e := ChainEnd(t, key);
            Lookup(t, e).Some? && !Lookup(t, e).value.isConst && Ends(t, e) && ChainEnd(t, e) == e
  {
    var n :| EndsIn(t, key, n);
    ChainEndIs(t, key, n);
    EndNotConst(t, key, n);
    ChainEndIs(t, ChainEnd(t, key), 0);
  }

  // One step of the pass, in whatever state the rest of the table is.
  lemma RebaseStep(t: Table<TypeRec>, u: Table<TypeRec>, done: set<nat>, i: nat)
    requires Closed(t) && PartlyRebased(t, u, done) && i < |t|
    ensures Derived(u[i].rec) == Derived(t[i].rec)
    ensures Derived(t[i].rec) ==>
              && u[i].rec.base.Some? && Ends(u, u[i].rec.base.value)
              && u[i].rec.(base := Some(ChainEnd(u, u[i].rec.base.value))) == Rebased(t, t[i].rec)
  {
    var r := t[i].rec;
    assert ClosedRec(t, r);
    if Derived(r) {
      SameEnd(t, u, done, r.base.value);
      EndOfEnd(t, r.base.value);
      SameEnd(t, u, done, ChainEnd(t, r.base.value));
    }
  }

  // Visit one entry.
  ghost function Visit(u: Table<TypeRec>, i: nat): Table<TypeRec>
    requires i < |u| && (Derived(u[i].rec) ==> u[i].rec.base.Some? && Ends(u, u[i].rec.base.value))
  {
    if Derived(u[i].rec)
    then u[i := Entry(u[i].key, u[i].rec.(base := Some(ChainEnd(u, u[i].rec.base.value))))]
    else u
  }

  // The entries visited in any order, each at least once, repetitions allowed,
  // give the same table.
  ghost predicate Reaches(u: Table<TypeRec>, order: seq<nat>, v: Table<TypeRec>)
    decreases |order|
  {
    if order == [] then u == v
    else
      && order[0] < |u|
      && (Derived(u[order[0]].rec) ==> u[order[0]].rec.base.Some? && Ends(u, u[order[0]].rec.base.value))
      && Reaches(Visit(u, order[0]), order[1..], v)
  }

  lemma {:induction false} AnyOrder(t: Table<TypeRec>, u: Table<TypeRec>, done: set<nat>, order: seq<nat>,
                                    v: Table<TypeRec>)
    requires Closed(t) && PartlyRebased(t, u, done) && Reaches(u, order, v)
    ensures PartlyRebased(t, v, done + set i <- order)
    decreases |order|
  {
    if order == [] {
      assert done + (set i <- order) == done;
    } else {
      var i := order[0];
      RebaseStep(t, u, done, i);
      AnyOrder(t, Visit(u, i), done + {i}, order[1..], v);
      assert done + {i} + (set j <- order[1..]) == done + (set j <- order);
    }
  }

  lemma OrderIrrelevant(t: Table<TypeRec>, order: seq<nat>, v: Table<TypeRec>)
    requires Closed(t) && Reaches(t, order, v) && forall i :: 0 <= i < |t| ==> i in order
    ensures IsRebased(t, v)
  {
    AnyOrder(t, t, {}, order, v);
  }

  ghost function Below(n: nat): (s: set<nat>)
    ensures forall i: nat :: i in s <==> i < n
  {
    if n == 0 then {} else Below(n - 1) + {n - 1}
  }

  // After the pass no pointer and no array names a const type; each names the end
  // of its original chain, and a second pass would change nothing.
  lemma RebasedMeaning(t: Table<TypeRec>, u: Table<TypeRec>)
    requires Closed(t) && IsRebased(t, u)
    ensures Closed(u) && IsRebased(u, u)
    ensures forall i :: 0 <= i < |u| && Derived(u[i].rec) ==>
              && u[i].rec.base == Some(ChainEnd(t, t[i].rec.base.value))
              && Lookup(u, u[i].rec.base.value).Some? && !Lookup(u, u[i].rec.base.value).value.isConst
  {
    var all := Below(|t|);
    PartlySorted(t, u, all);
    forall i | 0 <= i < |u|
      ensures ClosedRec(u, u[i].rec) && Rebased(u, u[i].rec) == u[i].rec
      ensures Derived(u[i].rec) ==> Lookup(u, u[i].rec.base.value).Some? &&
                                    !Lookup(u, u[i].rec.base.value).value.isConst
    {
      var r := t[i].rec;
      assert ClosedRec(t, r);
      if Derived(r) || r.isConst {
        SameEnd(t, u, all, r.base.value);
        EndOfEnd(t, r.base.value);
        SameEnd(t, u, all, ChainEnd(t, r.base.value));
        SameLookup(t, u, all, ChainEnd(t, r.base.value));
      }
    }
  }

  // ------------------------------------------------------------------ second pass

  function IndexOf(t: Table<TypeRec>, key: Key): (i: nat)
    requires Lookup(t, key).Some?
    ensures i < |t| && t[i].key == key && Lookup(t, key) == Some(t[i].rec)
  {
    if t[0].key == key then 0 else 1 + IndexOf(t[1..], key)
  }

  lemma IndexUnique(t: Table<TypeRec>, u: Table<TypeRec>, key: Key)
    requires Sorted(t) && |t| == |u| && forall i :: 0 <= i < |t| ==> u[i].key == t[i].key
    requires Lookup(t, key).Some?
    ensures Lookup(u, key).Some? && IndexOf(u, key) == IndexOf(t, key)
  {
    var i := IndexOf(t, key);
    assert u[i].key == key;
    LookupIndex(u, key);
    var j := IndexOf(u, key);
    assert t[j].key == key;
    LessIrreflexive(key);
  }

  const STAR := Ascii("*")
  const BRACKETS := Ascii("[]")
  const CONST_SPACE := Ascii("const ")
  const TYPEDEF_SPACE := Ascii("typedef ")

  // The types that are named after another type.
  predicate Named(r: TypeRec) { r.isPointer || r.isArray || r.isConst }

  // What the pass needs: bases in the table, and a name on every type that is not
  // const; a const type has none yet.
  ghost predicate Ready(u: Table<TypeRec>) {
    && Sorted(u)
    && forall i :: 0 <= i < |u| ==>
         && (Named(u[i].rec) ==> u[i].rec.base.Some? && Lookup(u, u[i].rec.base.value).Some?)
         && (u[i].rec.name.Some? <==> !u[i].rec.isConst)
         && (Derived(u[i].rec) ==> !u[i].rec.isConst && !Lookup(u, u[i].rec.base.value).value.isConst)
  }

  ghost function BaseIndex(u: Table<TypeRec>, i: nat): nat
    requires Ready(u) && i < |u| && Named(u[i].rec)
  {
    IndexOf(u, u[i].rec.base.value)
  }

  // The name of a type given its base type, as the pass puts it together.
  function Rename(r: TypeRec, base: TypeRec): TypeRec {
    if r.isPointer then r.(name := Some(base.name.GetOr([]) + STAR))
    else if r.isArray then
      r.(size := Mul(base.size, Add(r.upperBound, 1)), name := Some(base.name.GetOr([]) + BRACKETS))
    else if r.isConst then r.(name := Some(CONST_SPACE + base.name.GetOr([])))
    else r
  }

  function RenameTypedef(r: TypeRec): TypeRec {
    if r.isTypedef then r.(name := Some(TYPEDEF_SPACE + r.name.GetOr([]))) else r
  }

  // The record of entry i after the pass. Its base type counts with its final
  // name and size when its key sorts earlier, and with its first ones otherwise.
  ghost function Final(u: Table<TypeRec>, i: nat): TypeRec
    requires Ready(u) && i < |u|
    decreases i
  {
    var r := u[i].rec;
    if Named(r) then
      var b := BaseIndex(u, i);
      Rename(r, if b < i then Final(u, b) else u[b].rec)
    else RenameTypedef(r)
  }

  // The pass reads the name of a const type before it has one unless every const
  // type that is made of another const type sorts behind it.
  ghost predicate ConstsInOrder(u: Table<TypeRec>, n: nat)
    requires Ready(u) && n <= |u|
  {
    forall i :: 0 <= i < n && u[i].rec.isConst && u[BaseIndex(u, i)].rec.isConst ==> BaseIndex(u, i) < i
  }

  lemma FinalNamed(u: Table<TypeRec>, i: nat)
    requires Ready(u) && i < |u|
    ensures Final(u, i).name.Some?
  {}

  // ------------------------------------------------------------------ the full spelling

  // The pass gives this type another name.
  predicate Renamed(r: TypeRec) { Named(r) || r.isTypedef }

  // The chain of types that i is named after ends within n steps.
  ghost predicate Grounded(u: Table<TypeRec>, i: nat, n: nat)
    requires Ready(u) && i < |u|
    decreases n
  {
    Named(u[i].rec) ==> n > 0 && Grounded(u, BaseIndex(u, i), n - 1)
  }

  // The spelling of any type whose chain ends.
  ghost function Spell(u: Table<TypeRec>, i: nat, n: nat): seq<byte>
    requires Ready(u) && i < |u| && Grounded(u, i, n)
    decreases n
  {
    var r := u[i].rec;
    if r.isPointer then Spell(u, BaseIndex(u, i), n - 1) + STAR
    else if r.isArray then Spell(u, BaseIndex(u, i), n - 1) + BRACKETS
    else if r.isConst then CONST_SPACE + Spell(u, BaseIndex(u, i), n - 1)
    else if r.isTypedef then TYPEDEF_SPACE + r.name.value
    else r.name.value
  }

  // Along this chain every type that is renamed comes before the type named after it.
  ghost predicate InOrder(u: Table<TypeRec>, i: nat, n: nat)
    requires Ready(u) && i < |u| && Grounded(u, i, n)
    decreases n
  {
    Named(u[i].rec) ==>
      var b := BaseIndex(u, i);
      Renamed(u[b].rec) ==> b < i && InOrder(u, b, n - 1)
  }

  predicate EndsWith(s: seq<byte>, end: seq<byte>) { |s| >= |end| && s[|s| - |end|..] == end }

  // No pointer is called something with a star, and no array something with brackets,
  // before the pass has named it.
  predicate PlainName(r: TypeRec) {
    && (r.isPointer && r.name.Some? ==> !EndsWith(r.name.value, STAR))
    && (r.isArray && r.name.Some? ==> !EndsWith(r.name.value, BRACKETS))
  }

  // The type of the renamed base as it is before the pass is not called by its spelling.
  lemma FirstNameDiffers(u: Table<TypeRec>, b: nat, n: nat)
    requires Ready(u) && b < |u| && Grounded(u, b, n) && Renamed(u[b].rec) && !u[b].rec.isConst
    requires PlainName(u[b].rec)
    ensures u[b].rec.name.value != Spell(u, b, n)
  {
    var r := u[b].rec;
    if r.isPointer {
      EndsAppended(Spell(u, BaseIndex(u, b), n - 1), STAR);
    } else if r.isArray {
      EndsAppended(Spell(u, BaseIndex(u, b), n - 1), BRACKETS);
    } else {
      assert |TYPEDEF_SPACE + r.name.value| > |r.name.value|;
    }
  }

  lemma EndsAppended(s: seq<byte>, end: seq<byte>)
    ensures EndsWith(s + end, end)
  {}

  lemma AppendSame(a: seq<byte>, b: seq<byte>, end: seq<byte>)
    ensures a + end == b + end <==> a == b
    ensures end + a == end + b <==> a == b
  {
    if a + end == b + end {
      assert a == (a + end)[..|a|] && b == (b + end)[..|b|];
    }
    if end + a == end + b {
      assert a == (end + a)[|end|..] && b == (end + b)[|end|..];
    }
  }

  // The name that the pass builds is the spelling of the type if and only if all along
  // its chain renamed types come first.
  lemma {:induction false} SpelledExactly(u: Table<TypeRec>, i: nat, n: nat)
    requires Ready(u) && ConstsInOrder(u, |u|) && i < |u| && Grounded(u, i, n)
    requires forall j :: 0 <= j < |u| ==> PlainName(u[j].rec)
    ensures Final(u, i).name == Some(Spell(u, i, n)) <==> InOrder(u, i, n)
    decreases n
  {
    var r := u[i].rec;
    if Named(r) {
      var b := BaseIndex(u, i);
      var base := if b < i then Final(u, b) else u[b].rec;
      SpelledExactly(u, b, n - 1);
      FinalNamed(u, b);
      assert base.name.Some?;
      var s, t := base.name.value, Spell(u, b, n - 1);
      assert Renamed(u[b].rec) && b >= i ==> !u[b].rec.isConst;
      if Renamed(u[b].rec) && b >= i {
        FirstNameDiffers(u, b, n - 1);
      }
      assert s == t <==> InOrder(u, i, n);
      AppendSame(s, t, if r.isPointer then STAR else if r.isArray then BRACKETS else CONST_SPACE);
    }
  }

  // It need not be: in this table the pointer sorts before the pointer that it points to,
  // and is called after the name that the latter had before the pass.
  lemma OutOfOrderName()
    ensures Ready(OUT_OF_ORDER) && Grounded(OUT_OF_ORDER, 0, 2) && !InOrder(OUT_OF_ORDER, 0, 2)
    ensures Final(OUT_OF_ORDER, 0).name != Some(Spell(OUT_OF_ORDER, 0, 2))
  {
    var u := OUT_OF_ORDER;
    assert Sorted(u);
    LookupAt(u, 1);
    LookupAt(u, 2);
    assert Ready(u);
    assert BaseIndex(u, 0) == 1 by {
      assert u[BaseIndex(u, 0)].key == [50];
    }
    assert BaseIndex(u, 1) == 2 by {
      assert u[BaseIndex(u, 1)].key == [51];
    }
    assert Grounded(u, 1, 1);
    var first := Ascii("<pointer>");
    assert first[|first| - 1] == 62 && STAR[0] == 42;
    assert !EndsWith(first, STAR) by {
      assert first[|first| - |STAR|..][0] == 62;
    }
    assert PlainName(u[0].rec) && PlainName(u[1].rec) && PlainName(u[2].rec);
    SpelledExactly(u, 0, 2);
  }

  function PointerTo(key: Key): TypeRec {
    TypeRec(8, Some(Ascii("<pointer>")), false, MINUS_ONE, true, false, false, false, Some(key), NoTable)
  }

  // Key "1" points to key "2", which points to key "3", an int.
  const OUT_OF_ORDER: Table<TypeRec> :=
    [Entry([49], PointerTo([50])), Entry([50], PointerTo([51])),
     Entry([51], TypeRec(4, Some(Ascii("int")), false, MINUS_ONE, false, false, false, false, None, NoTable))]

  // ------------------------------------------------------------------ the type table

  class VdwTypeTable {
    var tab: Table<TypeRec>

    constructor (t: Table<TypeRec>)
      ensures tab == t
    {
      tab := t;
    }

    // `get_base_type_index`, with the number of steps that its chain may take.
    method GetBaseTypeIndex(key: Key, ghost n: nat) returns (e: Key)
      requires EndsIn(tab, key, n)
      ensures Ends(tab, key) && e == ChainEnd(tab, key)
      decreases n
    {
      ChainEndIs(tab, key, n);
      var r := Lookup(tab, key).value;
      if r.isConst {
        e := GetBaseTypeIndex(r.base.value, n - 1);
        ChainEndIs(tab, r.base.value, n - 1);
      } else {
        e := key;
      }
    }

    method UpdateBaseType(i: nat)
      requires i < |tab| && tab[i].rec.base.Some? && Ends(tab, tab[i].rec.base.value)
      modifies this
      ensures tab == old(tab)[i := Entry(old(tab)[i].key, old(tab)[i].rec.(base :=
                       Some(ChainEnd(old(tab), old(tab)[i].rec.base.value))))]
    {
      var base := tab[i].rec.base.value;
      ghost var n :| EndsIn(tab, base, n);
      var e := GetBaseTypeIndex(base, n);
      if e != base {
        tab := tab[i := Entry(tab[i].key, tab[i].rec.(base := Some(e)))];
      }
    }

    // The first pass, in key order.
    method ResolveIndices()
      requires Closed(tab)
      modifies this
      ensures IsRebased(old(tab), tab)
    {
      ghost var t := tab;
      var i := 0;
      while i < |tab|
        invariant i <= |tab| && PartlyRebased(t, tab, Below(i))
      {
        RebaseStep(t, tab, Below(i), i);
        if tab[i].rec.isPointer || tab[i].rec.isArray {
          UpdateBaseType(i);
        }
        i := i + 1;
      }
    }

    // The second pass, in key order. It fails where it follows the null pointer
    // of a name that is not there yet.
    method BuildNames() returns (ok: bool)
      requires Ready(tab)
      modifies this
      ensures ok == ConstsInOrder(old(tab), |old(tab)|)
      ensures ok ==> |tab| == |old(tab)| &&
                     forall i :: 0 <= i < |tab| ==> tab[i] == Entry(old(tab)[i].key, Final(old(tab), i))
    {
      ghost var u := tab;
      var i := 0;
      while i < |tab|
        invariant i <= |tab| == |u| && ConstsInOrder(u, i)
        invariant forall j :: 0 <= j < |u| ==> tab[j] == if j < i then Entry(u[j].key, Final(u, j)) else u[j]
      {
        var r := tab[i].rec;
        if r.isPointer || r.isArray || r.isConst {
          ghost var b := BaseIndex(u, i);
          IndexUnique(u, tab, r.base.value);
          var base := Lookup(tab, r.base.value).value;
          assert base == tab[b].rec;
          if b < i {
            FinalNamed(u, b);
          }
          if base.name.None? {
            assert !ConstsInOrder(u, |u|);
            return false;
          }
          tab := tab[i := Entry(tab[i].key, Rename(r, base))];
        } else if r.isTypedef {
          tab := tab[i := Entry(tab[i].key, RenameTypedef(r))];
        }
        i := i + 1;
      }
      ok := true;
    }

    // Both passes: the names and sizes are those of the rebased table.
    method ResolveBaseTypes() returns (ok: bool)
      requires Closed(tab) && forall i :: 0 <= i < |tab| ==> (tab[i].rec.name.Some? <==> !tab[i].rec.isConst)
      modifies this
      ensures exists u: Table<TypeRec> :: IsRebased(old(tab), u) && Ready(u) && ok == ConstsInOrder(u, |u|) &&
                          (ok ==> |tab| == |u| && forall i :: 0 <= i < |u| ==> tab[i] == Entry(u[i].key, Final(u, i)))
    {
      ghost var t := tab;
      ResolveIndices();
      ghost var u := tab;
      RebasedReady(t, u);
      ok := BuildNames();
    }
  }

  lemma RebasedReady(t: Table<TypeRec>, u: Table<TypeRec>)
    requires Closed(t) && forall i :: 0 <= i < |t| ==> (t[i].rec.name.Some? <==> !t[i].rec.isConst)
    requires IsRebased(t, u)
    ensures Ready(u)
  {
    RebasedMeaning(t, u);
    forall i | 0 <= i < |u|
      ensures Named(u[i].rec) ==> u[i].rec.base.Some? && Lookup(u, u[i].rec.base.value).Some?
    {
      assert ClosedRec(u, u[i].rec);
      if u[i].rec.isConst {
        var n :| EndsIn(u, u[i].rec.base.value, n);
      }
    }
  }
}
