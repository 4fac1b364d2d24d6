// The saved links over whole runs: when an alarm is raised, and what is reported of a
// function when it is set up.
module LinkRuns {
  import opened Words
  import opened SymbolTables
  import opened ShadowStack
  import opened StackLinks
  import opened ShadowRuns

  // The links of every frame past its setup are the words that were on the stack at the
  // last scan.
  ghost predicate LinksInStep(r: Run) {
    forall l <- r.links :: !l.beforeSetup ==> !RbpChanged(r.mem, l) && !RaChanged(r.mem, l)
  }

  // The memory that the step checks the links against, if it does.
  function CheckOf(r: Run, op: Op): Option<Memory> {
    match op
    case Setup(mem, _) => if AtSetup(r) then Some(mem) else None
    case Write(mem, _) => if PastSetup(r) then Some(mem) else None
    case Library(mem) => Some(mem)
    case _ => None
  }

  // The two link words of a frame are as they were.
  predicate SameWords(mem: Memory, mem': Memory, ebp: u64) {
    LinkWord(mem', ebp) == LinkWord(mem, ebp) && ReturnWord(mem', ebp) == ReturnWord(mem, ebp)
  }

  // The program has left the link words of all frames past their setup alone.
  ghost predicate LinksKept(r: Run, op: Op) {
    CheckOf(r, op).Some? ==> forall l <- r.links :: !l.beforeSetup ==> SameWords(r.mem, op.mem, l.ebp)
  }

  ghost predicate RunKept(env: Env, r: Run, ops: seq<Op>)
    requires Ok(env, r) && OpsKnown(env, ops)
    decreases |ops|
  {
    ops == [] ||
    (assert ops[0] in ops;
     StepOk(env, r, ops[0]);
     LinksKept(r, ops[0]) && RunKept(env, Step(env, r, ops[0]), ops[1..]))
  }

  // What one check does.
  lemma CheckExactly(r: Run, mem: Memory)
    ensures r.alarms <= Checked(r, mem).alarms
    ensures Checked(r, mem).alarms == r.alarms <==>
            forall l <- r.links :: l.beforeSetup || (!RbpChanged(mem, l) && !RaChanged(mem, l))
    ensures forall l <- Checked(r, mem).links :: !RbpChanged(mem, l) && !RaChanged(mem, l)
  {
    hide Load;
    QuietExactly(mem, r.links);
    if Checked(r, mem).alarms == r.alarms {
      assert |Alarms(mem, r.links)| == 0;
    }
  }

  lemma ScannedLinks(env: Env, r: Run, mem: Memory, a: u64)
    requires StackKnown(env, r.st)
    ensures var r' := Scanned(env, r, mem, a);
            r'.links == r.links && r'.checks == r.checks && r'.alarms == r.alarms && r'.mem == mem
  {}

  // A frame that waits for its setup has nothing to say.
  lemma WaitingLinks(r: Run, mem: Memory, ebp: u64)
    requires AtSetup(r)
    ensures var ls, ls' := r.links, WithContext(r, ebp).links;
            (forall l <- ls' :: l.beforeSetup || (!RbpChanged(mem, l) && !RaChanged(mem, l))) <==>
            (forall l <- ls :: l.beforeSetup || (!RbpChanged(mem, l) && !RaChanged(mem, l)))
  {
    hide RbpChanged, RaChanged;
    var ls, ls' := r.links, WithContext(r, ebp).links;
    assert ls == [ls[0]] + ls[1..];
    assert ls' == ls || ls' == [ls'[0]] + ls[1..];
  }

  lemma StepLinks(env: Env, r: Run, op: Op)
    requires Ok(env, r) && LinksInStep(r)
    ensures LinksInStep(Step(env, r, op)) && r.alarms <= Step(env, r, op).alarms
    ensures Step(env, r, op).alarms == r.alarms <==> LinksKept(r, op)
  {
    hide Load, ScanStack, Scanned, Checked, StackKnown, ForgetAll, RbpChanged, RaChanged, SameWords;
    OkKnown(env, r);
    match op
    case Call(name, mem, ebp, vars) =>
    case Return =>
    case Setup(mem, ebp) =>
      if AtSetup(r) {
        ContextKnown(env, r, ebp);
        ScannedLinks(env, WithContext(r, ebp), mem, 0);
        CheckExactly(Scanned(env, WithContext(r, ebp), mem, 0), mem);
        CheckedMem(Scanned(env, WithContext(r, ebp), mem, 0), mem);
        SetupDoneLinks(Checked(Scanned(env, WithContext(r, ebp), mem, 0), mem), mem);
        WaitingLinks(r, mem, ebp);
        KeptExactly(r, mem);
      }
    case Write(mem, a) =>
      ScannedLinks(env, r, mem, a);
      CheckExactly(Scanned(env, r, mem, a), mem);
      CheckedMem(Scanned(env, r, mem, a), mem);
      KeptExactly(r, mem);
    case Library(mem) =>
      ScannedLinks(env, r, mem, 0);
      CheckExactly(Scanned(env, r, mem, 0), mem);
      CheckedMem(Scanned(env, r, mem, 0), mem);
      KeptExactly(r, mem);
    case Malloc(b) =>
    case Free(a) =>
  }

  lemma CheckedMem(r: Run, mem: Memory)
    ensures Checked(r, mem).mem == r.mem
  {}

  lemma SetupDoneLinks(r: Run, mem: Memory)
    requires forall l <- r.links :: !RbpChanged(mem, l) && !RaChanged(mem, l)
    ensures forall l <- SetupDone(r).links :: !RbpChanged(mem, l) && !RaChanged(mem, l)
    ensures SetupDone(r).mem == r.mem && SetupDone(r).alarms == r.alarms
  {
    if r.links != [] {
      assert r.links[0] in r.links;
    }
  }

  // Words that were in step have changed exactly when they are not the same any more.
  lemma KeptExactly(r: Run, mem: Memory)
    requires LinksInStep(r)
    ensures (forall l <- r.links :: l.beforeSetup || (!RbpChanged(mem, l) && !RaChanged(mem, l))) <==>
            (forall l <- r.links :: !l.beforeSetup ==> SameWords(r.mem, mem, l.ebp))
  {
    forall l | l in r.links && !l.beforeSetup
      ensures !RbpChanged(mem, l) && !RaChanged(mem, l) <==> SameWords(r.mem, mem, l.ebp)
    {
      assert !RbpChanged(r.mem, l) && !RaChanged(r.mem, l);
    }
  }

  // Over every run: no alarm is raised if and only if, from one scan to the next, the
  // program leaves the saved frame pointer and the return address of every function past
  // its setup alone.
  lemma {:induction false} RunAlarmsExactly(env: Env, r: Run, ops: seq<Op>)
    requires Ok(env, r) && OpsKnown(env, ops) && LinksInStep(r)
    ensures LinksInStep(Steps(env, r, ops)) && r.alarms <= Steps(env, r, ops).alarms
    ensures Steps(env, r, ops).alarms == r.alarms <==> RunKept(env, r, ops)
    decreases |ops|
  {
    hide Step, LinksInStep, LinksKept, OpKnown;
    if ops != [] {
      assert ops[0] in ops;
      StepOk(env, r, ops[0]);
      StepLinks(env, r, ops[0]);
      RunAlarmsExactly(env, Step(env, r, ops[0]), ops[1..]);
    }
  }

  lemma ProgramAlarmsExactly(env: Env, r: Run, ops: seq<Op>)
    requires Begins(env, r) && OpsKnown(env, ops)
    ensures Ok(env, r) && LinksInStep(Steps(env, r, ops))
    ensures Steps(env, r, ops).alarms == [] <==> RunKept(env, r, ops)
  {
    BeginsOk(env, r);
    RunAlarmsExactly(env, r, ops);
  }

  // A function that is entered with the base pointer of its caller and then set up with
  // its own: its frame has the new one, it is reported, without an alarm, unless its two
  // link words are those one place further up in the frame of the caller, and all other
  // frames are checked as always.
  lemma CallAndSetup(env: Env, r: Run, name: seq<byte>, mem0: Memory, ebp0: u64, vars: seq<Entry<Var>>, mem: Memory,
                     ebp: u64)
    requires Ok(env, r) && AllKnown(env, NewRecords(vars))
    ensures var call := Call(name, mem0, ebp0, vars);
            && StackKnown(env, Step(env, r, call).st)
            && var r' := Step(env, Step(env, r, call), Setup(mem, ebp));
               && |r'.st.frames| == |r.st.frames| + 1 && r'.st.frames[0].id == r.next && r'.st.frames[0].ebp == ebp
               && r'.links == [LinkView(name, ebp, LinkWord(mem, ebp), ReturnWord(mem, ebp), false)] +
                              AllRefreshed(mem, r.links)
               && r'.alarms == r.alarms + Alarms(mem, r.links)
               && var kept := LinkWord(mem, ebp) == ReturnWord(mem0, ebp0) &&
                              ReturnWord(mem, ebp) == LoadedWord(Load(mem0, Add(ebp0, 16)));
                  r'.checks == r.checks + ((if kept then []
                                            else [LinkRecord(name, LinkWord(mem, ebp), ReturnWord(mem, ebp))]) +
                                           Records(mem, r.links))
  {
    hide Load, ScanStack, DistinctFrames, DistinctPlaces, AllKnown;
    var r1 := Step(env, r, Call(name, mem0, ebp0, vars));
    var l := Pushed(mem0, name, ebp0).(ebp := ebp);
    var r2 := WithContext(r1, ebp);
    assert r2.links == [l] + r.links && r2.links[1..] == r.links;
    ContextKnown(env, r1, ebp);
    StackShape(env, r2, mem, 0, 0);
    StackLength(env, r2, mem, 0);
    var r3 := Checked(Scanned(env, r2, mem, 0), mem);
    assert r3.links[1..] == AllRefreshed(mem, r.links);
    assert Alarms(mem, r2.links) == Alarms(mem, r.links) by {
      assert [] + Alarms(mem, r.links) == Alarms(mem, r.links);
    }
  }

  lemma StackLength(env: Env, r: Run, mem: Memory, a: u64)
    requires StackKnown(env, r.st)
    ensures |Scanned(env, r, mem, a).st.frames| == |r.st.frames|
  {}
}
