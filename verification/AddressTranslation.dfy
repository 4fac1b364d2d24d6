// From addresses to functions and variables, through the static tables, by searches
// that stop at the first hit.
module AddressTranslation {
  import opened Words
  import opened SymbolTables
  import opened DebugFile
  import opened HeapMap
  import opened ShadowStack
  import opened ShadowRuns
  import opened StackLinks

  // A record of a variable table: a variable, or a subprogram with its own table.
  datatype Static = Static(v: Var, isSubprog: bool, lowPc: u64, highPc: u64, startPc: u64,
                           locals: Option<Table<Static>>)

  // A compilation unit. All units share one type table, which is the one of `Env`.
  datatype CuView = CuView(lowPc: u64, highPc: u64, vars: Table<Static>)

  // `pc_in_range`; the code is loaded at textBase.
  predicate InRange(low: u64, high: u64, textBase: u64, pc: u64) {
    pc >= Add(low, textBase) && pc < Add(high, textBase)
  }

  // ------------------------------------------------------------------ first hits

  function First<V>(t: Table<V>, p: V -> bool): Option<Entry<V>> {
    if t == [] then None else if p(t[0].rec) then Some(t[0]) else First(t[1..], p)
  }

  lemma {:induction false} FirstFrom<V>(t: Table<V>, p: V -> bool, i: nat)
    requires i <= |t| && forall j :: 0 <= j < i ==> !p(t[j].rec)
    ensures First(t, p) == First(t[i..], p)
    decreases i
  {
    if i > 0 {
      FirstFrom(t[1..], p, i - 1);
      assert t[1..][i - 1..] == t[i..];
    } else {
      assert t[0..] == t;
    }
  }

  // No hit means that nothing qualifies; a hit qualifies and nothing before it does.
  lemma {:induction false} FirstMeaning<V>(t: Table<V>, p: V -> bool)
    ensures First(t, p).None? <==> forall e <- t :: !p(e.rec)
    ensures First(t, p).Some? ==>
              exists i :: 0 <= i < |t| && First(t, p) == Some(t[i]) && p(t[i].rec) &&
                          forall j :: 0 <= j < i ==> !p(t[j].rec)
  {
    if t != [] {
      FirstMeaning(t[1..], p);
      assert t == [t[0]] + t[1..];
      if p(t[0].rec) {
        assert First(t, p) == Some(t[0]);
      } else if First(t[1..], p).Some? {
        var u := t[1..];
        var i :| 0 <= i < |u| && First(u, p) == Some(u[i]) && p(u[i].rec) && forall j :: 0 <= j < i ==> !p(u[j].rec);
        assert t[i + 1] == u[i];
        forall j | 0 <= j < i + 1 ensures !p(t[j].rec) {
          assert j > 0 ==> t[j] == u[j - 1];
        }
      }
    }
  }

  // ------------------------------------------------------------------ the searches

  function HasPc(textBase: u64, pc: u64): Static -> bool {
    (s: Static) => s.isSubprog && InRange(s.lowPc, s.highPc, textBase, pc)
  }

  function UnitHasPc(textBase: u64, pc: u64): CuView -> bool {
    (c: CuView) => InRange(c.lowPc, c.highPc, textBase, pc)
  }

  function IsVariableAt(env: Env, ebp: u64, a: u64): Static -> bool {
    (s: Static) => !s.isSubprog && s.v.typ in env.types && IsAtAddress(env, ebp, s.v, env.types[s.v.typ], a)
  }

  function LocalsOf(s: Static): Table<Static> { s.locals.GetOr([]) }

  // `translate_address_to_function`: the first subprogram with the address in the
  // first unit with it.
  function FunctionAt(cus: Table<CuView>, textBase: u64, pc: u64): Option<Entry<Static>> {
    var c :- First(cus, UnitHasPc(textBase, pc));
    First(c.rec.vars, HasPc(textBase, pc))
  }

  function GlobalAt(env: Env, ebp: u64, cus: Table<CuView>, a: u64): Option<Entry<Static>> {
    if cus == [] then None
    else OrElse(First(cus[0].rec.vars, IsVariableAt(env, ebp, a)), GlobalAt(env, ebp, cus[1..], a))
  }

  function LocalAt(env: Env, textBase: u64, ebp: u64, cus: Table<CuView>, pc: u64, a: u64): Option<Entry<Static>> {
    var s :- FunctionAt(cus, textBase, pc);
    First(LocalsOf(s.rec), IsVariableAt(env, ebp, a))
  }

  function VariableAt(env: Env, textBase: u64, ebp: u64, cus: Table<CuView>, pc: u64, a: u64): Option<Entry<Static>> {
    OrElse(LocalAt(env, textBase, ebp, cus, pc, a), GlobalAt(env, ebp, cus, a))
  }

  // What the code takes for granted: the type table knows the types of the
  // variables, and a subprogram has a table.
  predicate Typed(env: Env, t: Table<Static>) { forall e <- t :: !e.rec.isSubprog ==> e.rec.v.typ in env.types }

  predicate Linked(env: Env, t: Table<Static>) {
    && Typed(env, t)
    && (forall e <- t :: e.rec.isSubprog ==> e.rec.locals.Some? && Typed(env, e.rec.locals.value))
  }

  predicate AllLinked(env: Env, cus: Table<CuView>) { forall c <- cus :: Linked(env, c.rec.vars) }

  // ------------------------------------------------------------------ the loops

  method FindSubprog(vars: Table<Static>, textBase: u64, pc: u64) returns (hit: Option<Entry<Static>>)
    ensures hit == First(vars, HasPc(textBase, pc))
  {
    hit := None;
    var i := 0;
    while i < |vars|
      invariant i <= |vars|
      invariant forall j :: 0 <= j < i ==> !HasPc(textBase, pc)(vars[j].rec)
    {
      if vars[i].rec.isSubprog && InRange(vars[i].rec.lowPc, vars[i].rec.highPc, textBase, pc) {
        FirstFrom(vars, HasPc(textBase, pc), i);
        return Some(vars[i]);
      }
      i := i + 1;
    }
    FirstFrom(vars, HasPc(textBase, pc), i);
  }

  // `translate_address_to_function` of the table of units.
  method TranslateAddressToFunction(cus: Table<CuView>, textBase: u64, pc: u64) returns (hit: Option<Entry<Static>>)
    ensures hit == FunctionAt(cus, textBase, pc)
  {
    hit := None;
    var i := 0;
    while i < |cus|
      invariant i <= |cus| && hit == None
      invariant forall j :: 0 <= j < i ==> !UnitHasPc(textBase, pc)(cus[j].rec)
    {
      if InRange(cus[i].rec.lowPc, cus[i].rec.highPc, textBase, pc) {
        FirstFrom(cus, UnitHasPc(textBase, pc), i);
        hit := FindSubprog(cus[i].rec.vars, textBase, pc);
        return;
      }
      i := i + 1;
    }
    FirstFrom(cus, UnitHasPc(textBase, pc), i);
  }

  // `find_address_in_subprog`, and the inner loop of the search for a global.
  method FindVariable(env: Env, ebp: u64, vars: Table<Static>, a: u64) returns (hit: Option<Entry<Static>>)
    requires Typed(env, vars)
    ensures hit == First(vars, IsVariableAt(env, ebp, a))
  {
    hide IsAtAddress;
    hit := None;
    var i := 0;
    while i < |vars|
      invariant i <= |vars|
      invariant forall j :: 0 <= j < i ==> !IsVariableAt(env, ebp, a)(vars[j].rec)
    {
      var s := vars[i].rec;
      assert vars[i] in vars;
      if !s.isSubprog && IsAtAddress(env, ebp, s.v, env.types[s.v.typ], a) {
        FirstFrom(vars, IsVariableAt(env, ebp, a), i);
        return Some(vars[i]);
      }
      i := i + 1;
    }
    FirstFrom(vars, IsVariableAt(env, ebp, a), i);
  }

  // `translate_address_to_variable`: the locals of the function first, then the
  // globals of one unit after the other.
  method TranslateAddressToVariable(env: Env, textBase: u64, ebp: u64, cus: Table<CuView>, pc: u64, a: u64)
    returns (hit: Option<Entry<Static>>)
    requires AllLinked(env, cus)
    ensures hit == VariableAt(env, textBase, ebp, cus, pc, a)
  {
    hide Typed, IsVariableAt, HasPc;
    hit := None;
    var i := 0;
    while i < |cus|
      invariant i <= |cus| && hit == None
      invariant forall j :: 0 <= j < i ==> !UnitHasPc(textBase, pc)(cus[j].rec)
    {
      if InRange(cus[i].rec.lowPc, cus[i].rec.highPc, textBase, pc) {
        hit := TranslateInUnit(env, textBase, ebp, cus[i].rec, pc, a);
        break;
      }
      i := i + 1;
    }
    FirstFrom(cus, UnitHasPc(textBase, pc), i);
    assert hit == LocalAt(env, textBase, ebp, cus, pc, a);
    ghost var local := hit;
    var k := 0;
    while hit == None && k < |cus|
      invariant k <= |cus|
      invariant OrElse(hit, GlobalAt(env, ebp, cus[k..], a)) == OrElse(local, GlobalAt(env, ebp, cus, a))
    {
      assert cus[k..][1..] == cus[k + 1..];
      hit := FindVariable(env, ebp, cus[k].rec.vars, a);
      k := k + 1;
    }
  }

  method TranslateInUnit(env: Env, textBase: u64, ebp: u64, cu: CuView, pc: u64, a: u64)
    returns (hit: Option<Entry<Static>>)
    requires Linked(env, cu.vars)
    ensures var f := First(cu.vars, HasPc(textBase, pc));
            hit == if f.None? then None else First(LocalsOf(f.value.rec), IsVariableAt(env, ebp, a))
  {
    hide IsVariableAt;
    var f := FindSubprog(cu.vars, textBase, pc);
    if f.None? { return None; }
    FirstMeaning(cu.vars, HasPc(textBase, pc));
    assert f.value in cu.vars && f.value.rec.isSubprog;
    hit := FindVariable(env, ebp, f.value.rec.locals.value, a);
  }

  // ------------------------------------------------------------------ frames

  // The variables that `push` makes records of: those of the function's own table.
  function OwnVariables(t: Table<Static>): seq<Entry<Var>> {
    if t == [] then []
    else (if t[0].rec.isSubprog then [] else [Entry(t[0].key, t[0].rec.v)]) + OwnVariables(t[1..])
  }

  // The records are those of these variables, in order, whatever values they have.
  ghost predicate RecordsOf(rs: seq<RecordView>, vars: seq<Entry<Var>>) {
    |rs| == |vars| && forall i :: 0 <= i < |rs| ==> rs[i].name == vars[i].key && rs[i].v == vars[i].rec
  }

  // The first record of a frame that is at the address.
  function FirstRecordAt(env: Env, ebp: u64, rs: seq<RecordView>, a: u64): Option<RecordView> {
    if rs == [] then None
    else if rs[0].v.typ in env.types && IsAtAddress(env, ebp, rs[0].v, env.types[rs[0].v.typ], a) then Some(rs[0])
    else FirstRecordAt(env, ebp, rs[1..], a)
  }

  lemma {:induction false} SameFirst(env: Env, ebp: u64, t: Table<Static>, rs: seq<RecordView>, a: u64)
    requires RecordsOf(rs, OwnVariables(t))
    ensures var s := First(t, IsVariableAt(env, ebp, a));
            var r := FirstRecordAt(env, ebp, rs, a);
            && s.Some? == r.Some?
            && (s.Some? ==> s.value.key == r.value.name && s.value.rec.v == r.value.v)
  {
    hide IsAtAddress;
    if t != [] {
      if t[0].rec.isSubprog {
        assert OwnVariables(t) == OwnVariables(t[1..]);
        SameFirst(env, ebp, t[1..], rs, a);
      } else {
        assert OwnVariables(t)[1..] == OwnVariables(t[1..]);
        SameFirst(env, ebp, t[1..], rs[1..], a);
      }
    }
  }

  // The translation finds what the frame has first at the address, and a global
  // exactly when the frame has nothing there.
  ghost predicate Agrees(env: Env, textBase: u64, cus: Table<CuView>, pc: u64, f: FrameView, a: u64) {
    var found := VariableAt(env, textBase, f.ebp, cus, pc, a);
    match FirstRecordAt(env, f.ebp, f.recs, a)
    case Some(r) => found.Some? && found.value.key == r.name && found.value.rec.v == r.v && !found.value.rec.isSubprog
    case None => found == GlobalAt(env, f.ebp, cus, a)
  }

  // The frame and the tables agree: for an instruction of the frame's function, a
  // variable is found as the first record of the frame at the address, and among
  // the globals exactly when the frame has no record there.
  lemma FrameAgrees(env: Env, textBase: u64, cus: Table<CuView>, ip: u64, pc: u64, f: FrameView, a: u64)
    requires FunctionAt(cus, textBase, ip).Some? && FunctionAt(cus, textBase, pc) == FunctionAt(cus, textBase, ip)
    requires RecordsOf(f.recs, OwnVariables(LocalsOf(FunctionAt(cus, textBase, ip).value.rec)))
    ensures Agrees(env, textBase, cus, pc, f, a)
  {
    hide IsVariableAt, FunctionAt;
    var locals := LocalsOf(FunctionAt(cus, textBase, ip).value.rec);
    SameFirst(env, f.ebp, locals, f.recs, a);
    FirstMeaning(locals, IsVariableAt(env, f.ebp, a));
    IsVariable(env, f.ebp, a, locals);
  }

  lemma IsVariable(env: Env, ebp: u64, a: u64, t: Table<Static>)
    ensures var s := First(t, IsVariableAt(env, ebp, a)); s.Some? ==> !s.value.rec.isSubprog
  {
    FirstMeaning(t, IsVariableAt(env, ebp, a));
  }

  // ------------------------------------------------------------------ frames over a run

  // A function that has been entered and not left: what it was called, its variables,
  // and the base pointer that it was given last, by the call or by the setup.
  datatype Activation = Activation(id: nat, name: seq<byte>, vars: seq<Entry<Var>>, ebp: u64, isSetUp: bool)

  // The setup of the innermost function, which happens once.
  function Given(acts: seq<Activation>, ebp: u64): seq<Activation> {
    if acts == [] || acts[0].isSetUp then acts else [acts[0].(ebp := ebp, isSetUp := true)] + acts[1..]
  }

  function ActsAfter(acts: seq<Activation>, next: nat, op: Op): seq<Activation> {
    match op
    case Call(name, mem, ebp, vars) => [Activation(next, name, vars, ebp, false)] + acts
    case Return => Behind(acts)
    case Setup(mem, ebp) => Given(acts, ebp)
    case _ => acts
  }

  // The functions that are entered and not left after these steps, innermost first, as
  // the steps alone tell them.
  function Activations(acts: seq<Activation>, next: nat, ops: seq<Op>): seq<Activation>
    decreases |ops|
  {
    if ops == [] then acts
    else Activations(ActsAfter(acts, next, ops[0]), if ops[0].Call? then next + 1 else next, ops[1..])
  }

  // The frame and its links are those of the function, whatever has been scanned since.
  ghost predicate MadeBy(f: FrameView, l: LinkView, act: Activation) {
    && f.id == act.id && f.ebp == act.ebp && RecordsOf(f.recs, act.vars)
    && l.name == act.name && l.ebp == act.ebp && l.beforeSetup == !act.isSetUp
  }

  // The stack has exactly these functions.
  ghost predicate AllMade(r: Run, acts: seq<Activation>) {
    && |r.st.frames| == |r.links| == |acts|
    && forall i :: 0 <= i < |acts| ==> MadeBy(r.st.frames[i], r.links[i], acts[i])
  }

  lemma SameShapeMade(f: FrameView, l: LinkView, f': FrameView, l': LinkView, act: Activation)
    requires MadeBy(f, l, act) && SameShape(f, f')
    requires l'.name == l.name && l'.ebp == l.ebp && l'.beforeSetup == l.beforeSetup
    ensures MadeBy(f', l', act)
  {}

  lemma ScannedMade(env: Env, r: Run, mem: Memory, a: u64, acts: seq<Activation>)
    requires StackKnown(env, r.st) && AllMade(r, acts)
    ensures AllMade(Checked(Scanned(env, r, mem, a), mem), acts)
  {
    hide ScanStack, MadeBy, SameShape, StackKnown;
    var r' := Checked(Scanned(env, r, mem, a), mem);
    if acts != [] {
      StackShape(env, r, mem, a, 0);
    } else {
      NoFrames(env, r, mem, a);
    }
    forall i | 0 <= i < |acts| ensures MadeBy(r'.st.frames[i], r'.links[i], acts[i]) {
      StackShape(env, r, mem, a, i);
      SameShapeMade(r.st.frames[i], r.links[i], r'.st.frames[i], r'.links[i], acts[i]);
    }
  }

  lemma NoFrames(env: Env, r: Run, mem: Memory, a: u64)
    requires StackKnown(env, r.st) && r.st.frames == []
    ensures Scanned(env, r, mem, a).st.frames == []
  {}

  lemma SetupMade(env: Env, r: Run, mem: Memory, ebp: u64, acts: seq<Activation>)
    requires StackKnown(env, r.st) && AllMade(r, acts)
    ensures AllMade(Step(env, r, Setup(mem, ebp)), Given(acts, ebp))
  {
    hide Scanned, Checked, StackKnown, RecordsOf, WithContext, SetupDone, AllMade;
    if AtSetup(r) {
      ContextMade(r, ebp, acts);
      ContextKnown(env, r, ebp);
      var acts1 := [acts[0].(ebp := ebp)] + acts[1..];
      ScannedMade(env, WithContext(r, ebp), mem, 0, acts1);
      DoneMade(Checked(Scanned(env, WithContext(r, ebp), mem, 0), mem), acts1);
      assert Given(acts, ebp) == [acts1[0].(isSetUp := true)] + acts1[1..];
    } else {
      WaitingMade(r, acts, ebp);
    }
  }

  lemma ContextMade(r: Run, ebp: u64, acts: seq<Activation>)
    requires AllMade(r, acts) && AtSetup(r)
    ensures acts != [] && !acts[0].isSetUp
    ensures AllMade(WithContext(r, ebp), [acts[0].(ebp := ebp)] + acts[1..])
  {
    hide RecordsOf, SameRecords;
    assert MadeBy(r.st.frames[0], r.links[0], acts[0]);
  }

  lemma DoneMade(r: Run, acts: seq<Activation>)
    requires AllMade(r, acts) && acts != []
    ensures AllMade(SetupDone(r), [acts[0].(isSetUp := true)] + acts[1..])
  {
    hide RecordsOf;
    assert MadeBy(r.st.frames[0], r.links[0], acts[0]);
  }

  lemma WaitingMade(r: Run, acts: seq<Activation>, ebp: u64)
    requires AllMade(r, acts) && !AtSetup(r)
    ensures AllMade(r, Given(acts, ebp))
  {
    hide RecordsOf;
    if acts != [] {
      assert MadeBy(r.st.frames[0], r.links[0], acts[0]);
    }
  }

  lemma StepMade(env: Env, r: Run, op: Op, acts: seq<Activation>)
    requires Ok(env, r) && OpKnown(env, op) && AllMade(r, acts)
    ensures AllMade(Step(env, r, op), ActsAfter(acts, r.next, op))
    ensures Step(env, r, op).next == if op.Call? then r.next + 1 else r.next
  {
    hide Scanned, Checked, MadeBy, DistinctFrames, DistinctPlaces, AllKnown, Ordered;
    match op
    case Call(name, mem, ebp, vars) => CallMade(r.next, op);
    case Return =>
    case Setup(mem, ebp) =>
      SetupMade(env, r, mem, ebp, acts);
      SetupNext(env, r, mem, ebp);
    case Write(mem, a) =>
      ScannedMade(env, r, mem, a, acts);
      ScannedNext(env, r, mem, a);
    case Library(mem) =>
      ScannedMade(env, r, mem, 0, acts);
      ScannedNext(env, r, mem, 0);
    case Malloc(b) =>
    case Free(a) => FreeMade(env, r, a, acts);
  }

  lemma ScannedNext(env: Env, r: Run, mem: Memory, a: u64)
    requires StackKnown(env, r.st)
    ensures Checked(Scanned(env, r, mem, a), mem).next == r.next
  {}

  lemma SetupNext(env: Env, r: Run, mem: Memory, ebp: u64)
    requires StackKnown(env, r.st)
    ensures Step(env, r, Setup(mem, ebp)).next == r.next
  {}

  lemma CallMade(id: nat, call: Op)
    requires call.Call?
    ensures MadeBy(FrameView(id, call.ebp, true, NewRecords(call.vars)), Pushed(call.mem, call.name, call.ebp),
                   Activation(id, call.name, call.vars, call.ebp, false))
  {}

  lemma FreeMade(env: Env, r: Run, a: u64, acts: seq<Activation>)
    requires StackKnown(env, r.st) && AllMade(r, acts)
    ensures AllMade(Step(env, r, Free(a)), acts)
  {
    hide Step, MadeBy;
    FreeShape(env, r, a);
    var r' := Step(env, r, Free(a));
    var all, all' := AllFrames(r.st), AllFrames(r'.st);
    forall i | 0 <= i < |acts| ensures MadeBy(r'.st.frames[i], r'.links[i], acts[i]) {
      assert SameValues(all[i], all'[i]);
      SameShapeMade(r.st.frames[i], r.links[i], r'.st.frames[i], r'.links[i], acts[i]);
    }
  }

  // Over every run the stack has exactly the functions that are entered and not left,
  // each with the base pointer that it was given last.
  lemma {:induction false} RunMade(env: Env, r: Run, ops: seq<Op>, acts: seq<Activation>)
    requires Ok(env, r) && OpsKnown(env, ops) && AllMade(r, acts)
    ensures AllMade(Steps(env, r, ops), Activations(acts, r.next, ops))
    decreases |ops|
  {
    hide Step, AllMade, OpKnown, StackKnown, ActsAfter;
    if ops != [] {
      assert ops[0] in ops;
      StepOk(env, r, ops[0]);
      StepMade(env, r, ops[0], acts);
      RunMade(env, Step(env, r, ops[0]), ops[1..], ActsAfter(acts, r.next, ops[0]));
    }
  }

  // Over every run, for every frame on the stack: if the function that it was made for is
  // that of an instruction, then the address translation for that instruction, with the
  // base pointer that the frame was given last, finds the variable that the frame has at
  // the address as its first record there, and goes to the globals exactly when it has
  // none.
  lemma LiveFrameAgrees(env: Env, textBase: u64, cus: Table<CuView>, r: Run, ops: seq<Op>, i: nat, pc: u64, a: u64)
    requires Begins(env, r) && Ok(env, r) && OpsKnown(env, ops)
    ensures var frames := Steps(env, r, ops).st.frames; var acts := Activations([], r.next, ops);
            && |frames| == |acts|
            && (i < |acts| ==>
                  && frames[i].id == acts[i].id && frames[i].ebp == acts[i].ebp
                  && var fn := FunctionAt(cus, textBase, pc);
                     fn.Some? && acts[i].vars == OwnVariables(LocalsOf(fn.value.rec)) ==>
                       Agrees(env, textBase, cus, pc, frames[i], a))
  {
    hide Agrees, Ok, OpsKnown, Steps, OwnVariables, FunctionAt, Activations;
    RunMade(env, r, ops, []);
    var frames, acts := Steps(env, r, ops).st.frames, Activations([], r.next, ops);
    var fn := FunctionAt(cus, textBase, pc);
    if i < |acts| {
      assert MadeBy(frames[i], Steps(env, r, ops).links[i], acts[i]);
      if fn.Some? && acts[i].vars == OwnVariables(LocalsOf(fn.value.rec)) {
        FrameAgrees(env, textBase, cus, pc, pc, frames[i], a);
      }
    }
  }

  // ------------------------------------------------------------------ the frame of the globals

  function GlobalOf(vars: seq<Entry<Var>>): (rs: seq<RecordView>)
    ensures |rs| == |vars| && forall i :: 0 <= i < |rs| ==> rs[i] == RecordView(i, vars[i].key, vars[i].rec, [], None)
  {
    seq(|vars|, i requires 0 <= i < |vars| => RecordView(i, vars[i].key, vars[i].rec, [], None))
  }

  // The variables of all units, unit after unit.
  function UnitVariables(cus: Table<CuView>): seq<Entry<Var>> {
    if cus == [] then [] else OwnVariables(cus[0].rec.vars) + UnitVariables(cus[1..])
  }

  // `add_cu_table`: for every unit, a record for every variable of its table.
  function GlobalRecords(cus: Table<CuView>): seq<RecordView> { GlobalOf(UnitVariables(cus)) }

  lemma GlobalPlaces(cus: Table<CuView>)
    ensures DistinctPlaces(GlobalRecords(cus))
  {}

  function CountIn(vars: seq<Entry<Var>>, id: nat): nat {
    if vars == [] then 0 else (if vars[0].rec.id == id then 1 else 0) + CountIn(vars[1..], id)
  }

  lemma {:induction false} CountRecords(rs: seq<RecordView>, vars: seq<Entry<Var>>, id: nat)
    requires |rs| == |vars| && forall i :: 0 <= i < |rs| ==> rs[i].v == vars[i].rec
    ensures CountOf(rs, id) == CountIn(vars, id)
  {
    if rs != [] {
      CountRecords(rs[1..], vars[1..], id);
    }
  }

  lemma {:induction false} CountAppend(a: seq<Entry<Var>>, b: seq<Entry<Var>>, id: nat)
    ensures CountIn(a + b, id) == CountIn(a, id) + CountIn(b, id)
  {
    if a == [] {
      assert a + b == b;
    } else {
      assert (a + b)[1..] == a[1..] + b;
      CountAppend(a[1..], b, id);
    }
  }

  lemma OneMore(n: nat, c: nat)
    requires n > 0
    ensures c + (n - 1) * c == n * c
  {}

  lemma {:induction false} CountGlobals(cus: Table<CuView>, vars: Table<Static>, id: nat)
    requires forall c <- cus :: c.rec.vars == vars
    ensures CountIn(UnitVariables(cus), id) == |cus| * CountIn(OwnVariables(vars), id)
  {
    hide OwnVariables;
    if cus != [] {
      assert cus[0] in cus;
      CountGlobals(cus[1..], vars, id);
      CountAppend(OwnVariables(vars), UnitVariables(cus[1..]), id);
      OneMore(|cus|, CountIn(OwnVariables(vars), id));
    }
  }

  // With the one table that the loader gives to every unit, the frame of the
  // globals has each variable as often as there are units: once exactly when there
  // is one unit.
  lemma GlobalsOnceExactly(cus: Table<CuView>, vars: Table<Static>, i: nat)
    requires forall c <- cus :: c.rec.vars == vars
    requires i < |GlobalRecords(cus)|
    requires var rs := GlobalOf(OwnVariables(vars)); forall k :: 0 <= k < |rs| ==> Once(rs, k)
    ensures CountOf(GlobalRecords(cus), GlobalRecords(cus)[i].v.id) == |cus|
    ensures Once(GlobalRecords(cus), i) <==> |cus| == 1
  {
    hide Once, CountOf, CountIn, OwnVariables;
    var own := OwnVariables(vars);
    var rs := GlobalOf(own);
    var id := GlobalRecords(cus)[i].v.id;
    FromOneTable(cus, vars, i);
    var k :| 0 <= k < |own| && own[k] == UnitVariables(cus)[i];
    CountOnce(rs, k);
    CountRecords(rs, own, id);
    CountRecords(GlobalRecords(cus), UnitVariables(cus), id);
    CountGlobals(cus, vars, id);
    CountOnce(GlobalRecords(cus), i);
  }

  lemma {:induction false} FromOneTable(cus: Table<CuView>, vars: Table<Static>, i: nat)
    requires forall c <- cus :: c.rec.vars == vars
    requires i < |UnitVariables(cus)|
    ensures UnitVariables(cus)[i] in OwnVariables(vars)
  {
    assert cus[0] in cus;
    var n := |OwnVariables(vars)|;
    if i >= n {
      FromOneTable(cus[1..], vars, i - n);
    }
  }

  lemma GlobalsIdentified(cus: Table<CuView>, vars: Table<Static>)
    requires forall c <- cus :: c.rec.vars == vars
    requires var rs := GlobalOf(OwnVariables(vars)); forall k :: 0 <= k < |rs| ==> Once(rs, k)
    ensures Identified(GlobalRecords(cus))
  {
    hide OwnVariables, UnitVariables;
    var own, all := OwnVariables(vars), UnitVariables(cus);
    forall i, j | 0 <= i < |all| && 0 <= j < |all| && all[i].rec.id == all[j].rec.id ensures all[i].rec == all[j].rec {
      FromOneTable(cus, vars, i);
      FromOneTable(cus, vars, j);
      var k :| 0 <= k < |own| && own[k] == all[i];
      var m :| 0 <= m < |own| && own[m] == all[j];
      assert Once(GlobalOf(own), k) && GlobalOf(own)[k].v == own[k].rec && GlobalOf(own)[m].v == own[m].rec;
    }
  }

  // The frame of the globals keeps its records.
  lemma StepGlobals(env: Env, r: Run, op: Op)
    requires Ok(env, r) && OpKnown(env, op)
    ensures var g, g' := r.st.global, Step(env, r, op).st.global;
            |g'.recs| == |g.recs| && forall i :: 0 <= i < |g.recs| ==> g'.recs[i].v == g.recs[i].v
  {
    hide ScanStack, ScanFrames, StackKnown;
    if op.Write? || op.Library? {
      ScanGlobals(env, r, op.mem, if op.Write? then op.address else 0);
    } else if op.Setup? && AtSetup(r) {
      ContextKnown(env, r, op.ebp);
      ScanGlobals(env, WithContext(r, op.ebp), op.mem, 0);
    }
  }

  lemma ScanGlobals(env: Env, r: Run, mem: Memory, a: u64)
    requires StackKnown(env, r.st)
    ensures var g, g' := r.st.global, Scanned(env, r, mem, a).st.global;
            |g'.recs| == |g.recs| && forall i :: 0 <= i < |g.recs| ==> g'.recs[i].v == g.recs[i].v
  {
    hide ScanStack, ScanFrames, StackKnown;
    AsOneList(env, mem, r.heap, r.st, a);
    FramesShape(env, mem, r.heap, AllFrames(r.st), a, r.st.accessed);
    var frs, frs' := AllFrames(r.st), AllFrames(ScanStack(env, mem, r.heap, r.st, a).0);
    assert SameShape(frs[|frs| - 1], frs'[|frs| - 1]);
  }

  lemma {:induction false} RunGlobals(env: Env, r: Run, ops: seq<Op>)
    requires Ok(env, r) && OpsKnown(env, ops)
    ensures var g, g' := r.st.global, Steps(env, r, ops).st.global;
            |g'.recs| == |g.recs| && forall i :: 0 <= i < |g.recs| ==> g'.recs[i].v == g.recs[i].v
    decreases |ops|
  {
    hide Step;
    if ops != [] {
      assert ops[0] in ops;
      StepOk(env, r, ops[0]);
      StepGlobals(env, r, ops[0]);
      RunGlobals(env, Step(env, r, ops[0]), ops[1..]);
    }
  }

  // So, from the start of a program to any point after the first scan of the globals, the
  // trace is faithful to a global variable exactly when the program has one unit.
  lemma GlobalsFaithfulExactly(env: Env, r: Run, ops: seq<Op>, cus: Table<CuView>, vars: Table<Static>, i: nat)
    requires Begins(env, r) && OpsKnown(env, ops) && OpsIdentified(ops)
    requires r.st.global.recs == GlobalRecords(cus) && forall c <- cus :: c.rec.vars == vars
    requires var rs := GlobalOf(OwnVariables(vars)); forall k :: 0 <= k < |rs| ==> Once(rs, k)
    requires i < |GlobalRecords(cus)| && Tracked(env, GlobalRecords(cus)[i].v)
    ensures Ok(env, r)
    ensures var r' := Steps(env, r, ops); var g := r'.st.global;
            && |g.recs| == |GlobalRecords(cus)| && g.recs[i].v == GlobalRecords(cus)[i].v
            && (!g.firstAccess ==>
                  (Tells(Texts(r'.log, OfVariable(g.id, g.recs[i].v.id)), g, g.recs[i]) <==> |cus| == 1))
  {
    hide GlobalRecords, Steps, Tells, Begins, OpsIdentified, Once;
    BeginsOk(env, r);
    GlobalsIdentified(cus, vars);
    RunGlobals(env, r, ops);
    var g := Steps(env, r, ops).st.global;
    assert g in AllFrames(Steps(env, r, ops).st);
    FaithfulExactly(env, r, ops, g, i);
    GlobalsOnceExactly(cus, vars, i);
    SameIds(GlobalRecords(cus), g.recs, i);
  }

  lemma SameIds(rs: seq<RecordView>, rs': seq<RecordView>, i: nat)
    requires |rs'| == |rs| && (forall k :: 0 <= k < |rs| ==> rs'[k].v == rs[k].v) && i < |rs|
    ensures Once(rs, i) <==> Once(rs', i)
  {}
}
