// What the walk files where. The reference reads the tree from the top down and
// hands every entry its scope; it knows no stack. The walk with its stack of open
// scopes files the same records in the same tables.
module DieScopes {
  import opened Words
  import opened SymbolTables
  import opened AsciiText
  import opened DieWalk

  // A table is made, or a record is put into the table with that number.
  datatype Event = NewTable | File(table: TableId, key: Key, rec: VarRec)

  // How many tables there are, and the member table of the struct seen last.
  datatype Context = Context(made: nat, members: Option<TableId>)

  // The nearest enclosing subprogram's table, or the globals'.
  datatype Scope = Scope(table: TableId, inSubprogram: bool)

  // ------------------------------------------------------------------ reference

  // What an entry itself adds.
  function Own(c: Context, sc: Scope, d: Die): seq<Event> {
    match d.tag
    case Subprogram => [NewTable, File(sc.table, Name(d), SubprogramRec(d, c.made))]
    case Variable =>
      if d.location.None? then []
      else [File(sc.table, Name(d), VariableRec(d, false, sc.inSubprogram, d.location.value))]
    case FormalParameter =>
      if d.location.None? then []
      else [File(sc.table, Name(d), VariableRec(d, true, false, d.location.value))]
    case StructType => [NewTable]
    case Member =>
      if c.members.None? then []
      else [File(c.members.value, Name(d), VariableRec(d, false, false, d.location.GetOr(0)))]
    case _ => []
  }

  function Entered(c: Context, d: Die): Context {
    match d.tag
    case Subprogram => c.(made := c.made + 1)
    case StructType => Context(c.made + 1, Some(c.made))
    case _ => c
  }

  function InnerScope(c: Context, sc: Scope, d: Die): Scope {
    if d.tag.Subprogram? then Scope(c.made, true) else sc
  }

  function Filings(c: Context, sc: Scope, d: Die): (seq<Event>, Context)
    decreases d, 1
  {
    var (es, c') := FilingsAll(Entered(c, d), InnerScope(c, sc, d), d.children);
    (Own(c, sc, d) + es, c')
  }

  function FilingsAll(c: Context, sc: Scope, ds: seq<Die>): (seq<Event>, Context)
    decreases ds, 0
  {
    if ds == [] then ([], c)
    else
      var (es, c') := Filings(c, sc, ds[0]);
      var (es', c'') := FilingsAll(c', sc, ds[1..]);
      (es + es', c'')
  }

  // ------------------------------------------------------------------ events

  type Tables = seq<Table<VarRec>>

  predicate Possible(ts: Tables, e: Event) { e.File? ==> e.table < |ts| }

  function Do(ts: Tables, e: Event): Tables
    requires Possible(ts, e)
  {
    match e
    case NewTable => ts + [[]]
    case File(t, k, r) => ts[t := Put(ts[t], k, r)]
  }

  predicate AllPossible(ts: Tables, es: seq<Event>)
    decreases |es|
  {
    es == [] || (Possible(ts, es[0]) && AllPossible(Do(ts, es[0]), es[1..]))
  }

  function Play(ts: Tables, es: seq<Event>): Tables
    requires AllPossible(ts, es)
    decreases |es|
  {
    if es == [] then ts else Play(Do(ts, es[0]), es[1..])
  }

  lemma {:induction false} PlayAppend(ts: Tables, a: seq<Event>, b: seq<Event>)
    requires AllPossible(ts, a) && AllPossible(Play(ts, a), b)
    ensures AllPossible(ts, a + b) && Play(ts, a + b) == Play(Play(ts, a), b)
    decreases |a|
  {
    if a == [] {
      assert a + b == b;
    } else {
      PlayAppend(Do(ts, a[0]), a[1..], b);
      assert (a + b)[1..] == a[1..] + b;
    }
  }

  // The entries put into one table, in the order of the puts.
  function FiledBy(t: TableId, e: Event): Table<VarRec> {
    if e.File? && e.table == t then [Entry(e.key, e.rec)] else []
  }

  function FiledIn(t: TableId, es: seq<Event>): Table<VarRec> {
    if es == [] then [] else FiledBy(t, es[0]) + FiledIn(t, es[1..])
  }

  function Contents(ts: Tables, t: TableId): Table<VarRec> { if t < |ts| then ts[t] else [] }

  lemma DoContents(ts: Tables, e: Event, t: TableId, rest: Table<VarRec>)
    requires Possible(ts, e)
    ensures PutAll(Contents(Do(ts, e), t), rest) == PutAll(Contents(ts, t), FiledBy(t, e) + rest)
  {
    if e.File? && e.table == t {
      assert (FiledBy(t, e) + rest)[1..] == rest;
    } else {
      assert FiledBy(t, e) + rest == rest;
    }
  }

  // After the puts, a table is what was filed in it, first name wins.
  lemma {:induction false} PlayContents(ts: Tables, es: seq<Event>, t: TableId)
    requires AllPossible(ts, es)
    ensures Contents(Play(ts, es), t) == PutAll(Contents(ts, t), FiledIn(t, es))
    decreases |es|
  {
    if es != [] {
      hide Contents, FiledBy;
      PlayContents(Do(ts, es[0]), es[1..], t);
      DoContents(ts, es[0], t, FiledIn(t, es[1..]));
    }
  }

  // ------------------------------------------------------------------ the walk follows the reference

  // The state of the walk, seen by the reference.
  ghost predicate Stands(s: State, c: Context, sc: Scope) {
    && s.stack != [] && s.stack[0] == sc.table < |s.tables|
    && sc.inSubprogram == (|s.stack| > 1)
    && c.made == |s.tables|
    && c.members == LastMembers(s)
    && (c.members.Some? ==> c.members.value < |s.tables|)
    && (s.lastStruct.Some? ==> s.lastStruct.value < |s.recs|)
  }

  lemma PlayOne(ts: Tables, e: Event)
    requires Possible(ts, e)
    ensures AllPossible(ts, [e]) && Play(ts, [e]) == Do(ts, e)
  {
    assert [e][1..] == [];
    assert Play(Do(ts, e), []) == Do(ts, e);
  }

  lemma SubprogramFiles(s: State, d: Die, c: Context, sc: Scope)
    requires Stands(s, c, sc) && d.tag.Subprogram?
    ensures AllPossible(s.tables, Own(c, sc, d))
    ensures Enter(s, d).value.tables == Play(s.tables, Own(c, sc, d))
  {
    var ts := s.tables;
    var file := File(sc.table, Name(d), SubprogramRec(d, c.made));
    PlayOne(ts, NewTable);
    PlayOne(ts + [[]], file);
    PlayAppend(ts, [NewTable], [file]);
    assert Own(c, sc, d) == [NewTable] + [file];
  }

  lemma EnterFiles(s: State, d: Die, c: Context, sc: Scope)
    requires Stands(s, c, sc) && Enter(s, d).Some?
    ensures AllPossible(s.tables, Own(c, sc, d))
    ensures Enter(s, d).value.tables == Play(s.tables, Own(c, sc, d))
  {
    if d.tag.Subprogram? {
      SubprogramFiles(s, d, c, sc);
    } else {
      var es := Own(c, sc, d);
      assert |es| <= 1;
      if es != [] {
        hide AllPossible, Play;
        assert Possible(s.tables, es[0]);
        assert Enter(s, d).value.tables == Do(s.tables, es[0]);
        PlayOne(s.tables, es[0]);
        assert es == [es[0]];
      }
    }
  }

  lemma EnterStands(s: State, d: Die, c: Context, sc: Scope)
    requires Stands(s, c, sc) && Enter(s, d).Some?
    ensures Stands(Enter(s, d).value, Entered(c, d), InnerScope(c, sc, d))
    ensures Enter(s, d).value.stack == if d.tag.Subprogram? then [|s.tables|] + s.stack else s.stack
  {
    hide Put, Name, TypeOf, ArrayRec, PointerRec, SubprogramRec, VariableRec;
  }

  lemma {:induction false} VisitFiles(s: State, d: Die, c: Context, sc: Scope)
    requires Stands(s, c, sc) && Visit(s, d).Some?
    ensures var (es, c') := Filings(c, sc, d);
            var s' := Visit(s, d).value;
            && AllPossible(s.tables, es) && s'.tables == Play(s.tables, es)
            && s'.stack == s.stack && Stands(s', c', sc)
    decreases d, 1
  {
    hide Enter, Own, Entered;
    EnterFiles(s, d, c, sc);
    EnterStands(s, d, c, sc);
    var s1 := Enter(s, d).value;
    VisitAllFiles(s1, d.children, Entered(c, d), InnerScope(c, sc, d));
    var (es, c') := FilingsAll(Entered(c, d), InnerScope(c, sc, d), d.children);
    PlayAppend(s.tables, Own(c, sc, d), es);
    PlayKeeps(s.tables, Own(c, sc, d));
    PlayKeeps(s1.tables, es);
  }

  lemma {:induction false} PlayKeeps(ts: Tables, es: seq<Event>)
    requires AllPossible(ts, es)
    ensures |ts| <= |Play(ts, es)|
    decreases |es|
  {
    if es != [] {
      PlayKeeps(Do(ts, es[0]), es[1..]);
    }
  }

  // The walk over a list of entries, in any scope: the stack comes back as it was,
  // and the tables hold what the reference files.
  lemma {:induction false} VisitAllFiles(s: State, ds: seq<Die>, c: Context, sc: Scope)
    requires Stands(s, c, sc) && VisitAll(s, ds).Some?
    ensures var (es, c') := FilingsAll(c, sc, ds);
            var s' := VisitAll(s, ds).value;
            && AllPossible(s.tables, es) && s'.tables == Play(s.tables, es)
            && s'.stack == s.stack && Stands(s', c', sc)
    decreases ds, 0
  {
    if ds != [] {
      hide Visit, Filings;
      VisitFiles(s, ds[0], c, sc);
      var (es, c1) := Filings(c, sc, ds[0]);
      var s1 := Visit(s, ds[0]).value;
      VisitAllFiles(s1, ds[1..], c1, sc);
      PlayAppend(s.tables, es, FilingsAll(c1, sc, ds[1..]).0);
    }
  }

  const TOP := Scope(GLOBALS, false)

  // The whole walk: in every table, a name finds the record that was filed first
  // for it by the reference.
  lemma TablesOf(ds: seq<Die>, t: TableId, k: Key)
    requires VisitAll(START, ds).Some? && t < |VisitAll(START, ds).value.tables|
    ensures var s := VisitAll(START, ds).value;
            var filed := FiledIn(t, FilingsAll(Context(1, None), TOP, ds).0);
            && s.stack == [GLOBALS]
            && s.tables[t] == PutAll([], filed)
            && Lookup(s.tables[t], k) == Lookup(filed, k)
  {
    VisitAllFiles(START, ds, Context(1, None), TOP);
    var es := FilingsAll(Context(1, None), TOP, ds).0;
    PlayContents([[]], es, t);
    PutAllLookup<VarRec>([], FiledIn(t, es), k);
  }

  // The walk fails exactly where the reference of these two orders does: at a bound
  // that no array precedes, and at a member that no struct precedes.
  predicate InOrder(seenArray: bool, seenStruct: bool, ds: seq<Die>)
    decreases ds, 0
  {
    if ds == [] then true
    else
      InOrderOne(seenArray, seenStruct, ds[0]) &&
      InOrder(seenArray || Mentions(ArrayType, ds[0]), seenStruct || Mentions(StructType, ds[0]), ds[1..])
  }

  predicate InOrderOne(seenArray: bool, seenStruct: bool, d: Die)
    decreases d, 1
  {
    && (d.tag.SubrangeType? ==> seenArray)
    && (d.tag.Member? ==> seenStruct)
    && InOrder(seenArray || d.tag.ArrayType?, seenStruct || d.tag.StructType?, d.children)
  }

  // The tag occurs in the tree.
  predicate Mentions(tag: Tag, d: Die)
    decreases d
  {
    d.tag == tag || exists i :: 0 <= i < |d.children| && Mentions(tag, d.children[i])
  }

  predicate MentionsAny(tag: Tag, ds: seq<Die>) { exists i :: 0 <= i < |ds| && Mentions(tag, ds[i]) }

  // What the walk remembers of arrays and structs.
  ghost predicate Remembers(s: State, seenArray: bool, seenStruct: bool) {
    && s.stack != []
    && s.lastArray.Some? == seenArray && s.lastStruct.Some? == seenStruct
    && (seenArray ==> s.lastArray.value < |s.recs|)
    && (seenStruct ==> s.lastStruct.value < |s.recs| && s.recs[s.lastStruct.value].members.Some?)
  }

  lemma {:induction false} VisitAllSucceeds(s: State, a: bool, b: bool, ds: seq<Die>)
    requires Remembers(s, a, b)
    ensures VisitAll(s, ds).Some? <==> InOrder(a, b, ds)
    ensures VisitAll(s, ds).Some? ==>
              Remembers(VisitAll(s, ds).value, a || MentionsAny(ArrayType, ds), b || MentionsAny(StructType, ds))
    decreases ds, 0
  {
    if ds != [] {
      VisitSucceeds(s, a, b, ds[0]);
      if Visit(s, ds[0]).Some? {
        hide Visit, InOrderOne, Mentions;
        VisitAllSucceeds(Visit(s, ds[0]).value, a || Mentions(ArrayType, ds[0]),
                         b || Mentions(StructType, ds[0]), ds[1..]);
        SplitMentions(ArrayType, ds);
        SplitMentions(StructType, ds);
      }
    }
  }

  lemma SplitMentions(tag: Tag, ds: seq<Die>)
    requires ds != []
    ensures MentionsAny(tag, ds) == (Mentions(tag, ds[0]) || MentionsAny(tag, ds[1..]))
  {
    hide Mentions;
    if MentionsAny(tag, ds[1..]) {
      var i :| 0 <= i < |ds[1..]| && Mentions(tag, ds[1..][i]);
      assert Mentions(tag, ds[i + 1]);
    }
    if MentionsAny(tag, ds) && !Mentions(tag, ds[0]) {
      var i :| 0 <= i < |ds| && Mentions(tag, ds[i]);
      assert Mentions(tag, ds[1..][i - 1]);
    }
  }

  lemma EnterSucceeds(s: State, a: bool, b: bool, d: Die)
    requires Remembers(s, a, b)
    ensures Enter(s, d).Some? <==> (d.tag.SubrangeType? ==> a) && (d.tag.Member? ==> b)
    ensures Enter(s, d).Some? ==> Enter(s, d).value.stack != []
    ensures Enter(s, d).Some? ==> Remembers(Enter(s, d).value, a || d.tag.ArrayType?, b || d.tag.StructType?)
  {
    hide Put, Name, TypeOf, SubprogramRec, VariableRec, ArrayRec, PointerRec, Ascii, Decimal;
  }

  lemma {:induction false} VisitSucceeds(s: State, a: bool, b: bool, d: Die)
    requires Remembers(s, a, b)
    ensures Visit(s, d).Some? <==> InOrderOne(a, b, d)
    ensures Visit(s, d).Some? ==>
              Remembers(Visit(s, d).value, a || Mentions(ArrayType, d), b || Mentions(StructType, d))
    decreases d, 1
  {
    var a', b' := a || d.tag.ArrayType?, b || d.tag.StructType?;
    EnterSucceeds(s, a, b, d);
    if Enter(s, d).Some? {
      hide Enter, Remembers;
      VisitAllSucceeds(Enter(s, d).value, a', b', d.children);
      assert Mentions(ArrayType, d) == (d.tag.ArrayType? || MentionsAny(ArrayType, d.children));
      assert Mentions(StructType, d) == (d.tag.StructType? || MentionsAny(StructType, d.children));
    }
  }

  // The walk of a unit completes if and only if every bound has an array before it
  // and every member a struct, in the order of the entries.
  lemma WalkCompletes(ds: seq<Die>)
    ensures VisitAll(START, ds).Some? <==> InOrder(false, false, ds)
  {
    VisitAllSucceeds(START, false, false, ds);
  }
}
