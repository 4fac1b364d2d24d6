// Which alarm a check of the links raises, and what it reports, in terms of the two words
// of a frame on the stack: the one at its base pointer, and the one eight bytes above it.
module LinkFields {
  import opened Words
  import opened SymbolTables
  import opened ShadowStack
  import opened StackLinks
  import opened ShadowRuns
  import opened LinkRuns
  import opened WordFields

  // ------------------------------------------------------------------ one frame

  // The saved frame pointer is not the word at the base pointer, or the saved return
  // address not the word above it.
  predicate PointerDiffers(mem: Memory, f: LinkView) { f.oldRbp != WordAt(mem, f.ebp) }

  predicate ReturnDiffers(mem: Memory, f: LinkView) { f.returnAddr != WordAt(mem, Above(f.ebp, 8)) }

  lemma WordsOf(mem: Memory, f: LinkView)
    ensures LinkWord(mem, f.ebp) == WordAt(mem, f.ebp) && ReturnWord(mem, f.ebp) == WordAt(mem, Above(f.ebp, 8))
    ensures RbpChanged(mem, f) <==> PointerDiffers(mem, f)
    ensures RaChanged(mem, f) <==> ReturnDiffers(mem, f)
  {
    hide Load, LoadedWord, WordAt;
    LoadExactly(mem, f.ebp);
    LoadExactly(mem, Add(f.ebp, 8));
  }

  // The alarms of one frame: none before its setup; past it, one for the frame pointer if
  // that differs, and behind it one for the return address if that differs.
  lemma AlarmsOfOne(mem: Memory, f: LinkView)
    ensures f.beforeSetup || (!PointerDiffers(mem, f) && !ReturnDiffers(mem, f)) ==> Alarms(mem, [f]) == []
    ensures !f.beforeSetup && PointerDiffers(mem, f) && !ReturnDiffers(mem, f) ==>
              Alarms(mem, [f]) == [FramePointerFault]
    ensures !f.beforeSetup && !PointerDiffers(mem, f) && ReturnDiffers(mem, f) ==>
              Alarms(mem, [f]) == [ReturnAddressFault]
    ensures !f.beforeSetup && PointerDiffers(mem, f) && ReturnDiffers(mem, f) ==>
              Alarms(mem, [f]) == [FramePointerFault, ReturnAddressFault]
  {
    hide RbpChanged, RaChanged, PointerDiffers, ReturnDiffers, Load, WordAt;
    WordsOf(mem, f);
    AlarmsAlone(mem, f);
  }

  lemma AlarmsAlone(mem: Memory, f: LinkView)
    ensures Alarms(mem, [f]) == AlarmsFor(mem, f)
  {
    hide AlarmsFor;
    assert [f][1..] == [];
  }

  // The report of one frame, before its setup or past it: with both words, if either
  // differs.
  lemma RecordsOfOne(mem: Memory, f: LinkView)
    ensures Records(mem, [f]) ==
            if PointerDiffers(mem, f) || ReturnDiffers(mem, f)
            then [LinkRecord(f.name, WordAt(mem, f.ebp), WordAt(mem, Above(f.ebp, 8)))] else []
  {
    hide RbpChanged, RaChanged, PointerDiffers, ReturnDiffers, LinkWord, ReturnWord;
    WordsOf(mem, f);
    assert [f][1..] == [];
  }

  // What is saved is the two words, for the next check.
  lemma RefreshedFields(mem: Memory, f: LinkView)
    ensures Refreshed(mem, f) ==
            LinkView(f.name, f.ebp, WordAt(mem, f.ebp), WordAt(mem, Above(f.ebp, 8)), f.beforeSetup)
  {
    hide LinkWord, ReturnWord;
    WordsOf(mem, f);
  }

  // A frame that is pushed has the words 8 and 16 bytes above the base pointer that it is
  // pushed with.
  lemma PushedFields(mem: Memory, name: seq<byte>, ebp: u64)
    ensures Pushed(mem, name, ebp) ==
            LinkView(name, ebp, WordAt(mem, Above(ebp, 8)), WordAt(mem, Above(ebp, 16)), true)
  {
    hide Load, LoadedWord, WordAt;
    LoadExactly(mem, Add(ebp, 8));
    LoadExactly(mem, Add(ebp, 16));
  }

  // ------------------------------------------------------------------ all frames

  // Frames are checked one after the other, in the order of the stack.
  lemma {:induction false} CheckedInOrder(mem: Memory, fs: seq<LinkView>, gs: seq<LinkView>)
    ensures Alarms(mem, fs + gs) == Alarms(mem, fs) + Alarms(mem, gs)
    ensures Records(mem, fs + gs) == Records(mem, fs) + Records(mem, gs)
  {
    hide AlarmsFor, RecordFor;
    if fs == [] {
      assert fs + gs == gs;
    } else {
      assert (fs + gs)[1..] == fs[1..] + gs;
      CheckedInOrder(mem, fs[1..], gs);
    }
  }

  // How many frames past their setup have a frame pointer, or a return address, that
  // differs.
  function PointersChanged(mem: Memory, fs: seq<LinkView>): nat {
    if fs == [] then 0
    else (if !fs[0].beforeSetup && PointerDiffers(mem, fs[0]) then 1 else 0) + PointersChanged(mem, fs[1..])
  }

  function ReturnsChanged(mem: Memory, fs: seq<LinkView>): nat {
    if fs == [] then 0
    else (if !fs[0].beforeSetup && ReturnDiffers(mem, fs[0]) then 1 else 0) + ReturnsChanged(mem, fs[1..])
  }

  lemma {:induction false} ChangedExactly(mem: Memory, fs: seq<LinkView>)
    ensures PointersChanged(mem, fs) > 0 <==> exists f <- fs :: !f.beforeSetup && PointerDiffers(mem, f)
    ensures ReturnsChanged(mem, fs) > 0 <==> exists f <- fs :: !f.beforeSetup && ReturnDiffers(mem, f)
  {
    hide PointerDiffers, ReturnDiffers;
    if fs != [] {
      ChangedExactly(mem, fs[1..]);
      assert fs == [fs[0]] + fs[1..];
    }
  }

  // A check raises as many alarms of each kind as there are frames past their setup whose
  // frame pointer, or return address, differs; so it raises one at all exactly when there
  // is such a frame.
  lemma {:induction false} AlarmsExactly(mem: Memory, fs: seq<LinkView>)
    ensures multiset(Alarms(mem, fs))[FramePointerFault] == PointersChanged(mem, fs)
    ensures multiset(Alarms(mem, fs))[ReturnAddressFault] == ReturnsChanged(mem, fs)
    ensures FramePointerFault in Alarms(mem, fs) <==> exists f <- fs :: !f.beforeSetup && PointerDiffers(mem, f)
    ensures ReturnAddressFault in Alarms(mem, fs) <==> exists f <- fs :: !f.beforeSetup && ReturnDiffers(mem, f)
  {
    hide PointerDiffers, ReturnDiffers, AlarmsFor;
    AlarmsCounted(mem, fs);
    ChangedExactly(mem, fs);
    var als := Alarms(mem, fs);
    assert FramePointerFault in als <==> FramePointerFault in multiset(als);
    assert ReturnAddressFault in als <==> ReturnAddressFault in multiset(als);
  }

  lemma {:induction false} AlarmsCounted(mem: Memory, fs: seq<LinkView>)
    ensures multiset(Alarms(mem, fs))[FramePointerFault] == PointersChanged(mem, fs)
    ensures multiset(Alarms(mem, fs))[ReturnAddressFault] == ReturnsChanged(mem, fs)
  {
    hide PointerDiffers, ReturnDiffers, Alarms;
    if fs == [] {
      NoAlarms(mem);
    } else {
      AlarmsCounted(mem, fs[1..]);
      CheckedInOrder(mem, [fs[0]], fs[1..]);
      assert [fs[0]] + fs[1..] == fs;
      AlarmsOfOne(mem, fs[0]);
    }
  }

  lemma NoAlarms(mem: Memory)
    ensures Alarms(mem, []) == []
  {}

  // ------------------------------------------------------------------ over runs

  // The program has changed one of the words of this frame since the last scan.
  predicate PointerOverwritten(mem: Memory, mem': Memory, l: LinkView) {
    !l.beforeSetup && WordAt(mem', l.ebp) != WordAt(mem, l.ebp)
  }

  predicate ReturnOverwritten(mem: Memory, mem': Memory, l: LinkView) {
    !l.beforeSetup && WordAt(mem', Above(l.ebp, 8)) != WordAt(mem, Above(l.ebp, 8))
  }

  // The faults that there are between two memories, frame by frame.
  function Faults(mem: Memory, mem': Memory, ls: seq<LinkView>): seq<Alarm> {
    if ls == [] then []
    else
      (if PointerOverwritten(mem, mem', ls[0]) then [FramePointerFault] else []) +
      (if ReturnOverwritten(mem, mem', ls[0]) then [ReturnAddressFault] else []) + Faults(mem, mem', ls[1..])
  }

  lemma {:induction false} FaultsExactly(mem: Memory, mem': Memory, ls: seq<LinkView>)
    ensures FramePointerFault in Faults(mem, mem', ls) <==> exists l <- ls :: PointerOverwritten(mem, mem', l)
    ensures ReturnAddressFault in Faults(mem, mem', ls) <==> exists l <- ls :: ReturnOverwritten(mem, mem', l)
  {
    hide PointerOverwritten, ReturnOverwritten;
    if ls != [] {
      FaultsExactly(mem, mem', ls[1..]);
      assert ls == [ls[0]] + ls[1..];
    }
  }

  // Words that were in step: the alarms of a check are the faults since then.
  lemma {:induction false} AlarmsAreFaults(mem: Memory, mem': Memory, ls: seq<LinkView>)
    requires forall l <- ls :: !l.beforeSetup ==> !RbpChanged(mem, l) && !RaChanged(mem, l)
    ensures Alarms(mem', ls) == Faults(mem, mem', ls)
  {
    hide PointerDiffers, ReturnDiffers, Alarms, RbpChanged, RaChanged, PointerOverwritten, ReturnOverwritten;
    if ls == [] {
      NoAlarms(mem');
    } else {
      AlarmsAreFaults(mem, mem', ls[1..]);
      CheckedInOrder(mem', [ls[0]], ls[1..]);
      assert [ls[0]] + ls[1..] == ls;
      OneIsFaults(mem, mem', ls[0]);
    }
  }

  lemma OneIsFaults(mem: Memory, mem': Memory, l: LinkView)
    requires !l.beforeSetup ==> !RbpChanged(mem, l) && !RaChanged(mem, l)
    ensures Alarms(mem', [l]) == (if PointerOverwritten(mem, mem', l) then [FramePointerFault] else []) +
                                 (if ReturnOverwritten(mem, mem', l) then [ReturnAddressFault] else [])
  {
    hide PointerDiffers, ReturnDiffers, Alarms, RbpChanged, RaChanged, PointerOverwritten, ReturnOverwritten;
    AlarmsOfOne(mem', l);
    WordsOf(mem, l);
    DiffersFromLast(mem, mem', l);
  }

  lemma DiffersFromLast(mem: Memory, mem': Memory, l: LinkView)
    requires !l.beforeSetup ==> !PointerDiffers(mem, l) && !ReturnDiffers(mem, l)
    ensures PointerOverwritten(mem, mem', l) <==> !l.beforeSetup && PointerDiffers(mem', l)
    ensures ReturnOverwritten(mem, mem', l) <==> !l.beforeSetup && ReturnDiffers(mem', l)
  {}

  // The memory that a step checks: that of the setup of the innermost function, that of a
  // write once this function is past its setup, and that of a library call.
  predicate Checks(r: Run, op: Op, mem: Memory) {
    match op
    case Setup(m, _) => r.links != [] && r.links[0].beforeSetup && m == mem
    case Write(m, _) => r.links != [] && !r.links[0].beforeSetup && m == mem
    case Library(m) => m == mem
    case _ => false
  }

  // The faults of one step of a run.
  function StepFaults(r: Run, op: Op): seq<Alarm> {
    match op
    case Setup(m, _) => if Checks(r, op, m) then Faults(r.mem, m, r.links) else []
    case Write(m, _) => if Checks(r, op, m) then Faults(r.mem, m, r.links) else []
    case Library(m) => Faults(r.mem, m, r.links)
    case _ => []
  }

  // The alarms that a step raises are exactly its faults: in a run, FramePointerFault is
  // raised exactly for a function past its setup whose saved frame pointer on the stack
  // the program has changed since the last scan, and ReturnAddressFault exactly for one
  // whose return address it has changed.
  lemma StepAlarms(env: Env, r: Run, op: Op)
    requires Ok(env, r) && LinksInStep(r)
    ensures Step(env, r, op).alarms == r.alarms + StepFaults(r, op)
    ensures FramePointerFault in StepFaults(r, op) <==>
            exists mem, l :: Checks(r, op, mem) && l in r.links && PointerOverwritten(r.mem, mem, l)
    ensures ReturnAddressFault in StepFaults(r, op) <==>
            exists mem, l :: Checks(r, op, mem) && l in r.links && ReturnOverwritten(r.mem, mem, l)
  {
    hide Step, Ok, LinksInStep, PointerOverwritten, ReturnOverwritten, Faults;
    StepAlarmsAre(env, r, op);
    match op
    case Setup(m, _) => FaultsExactly(r.mem, m, r.links);
    case Write(m, _) => FaultsExactly(r.mem, m, r.links);
    case Library(m) => FaultsExactly(r.mem, m, r.links);
    case _ =>
  }

  lemma StepAlarmsAre(env: Env, r: Run, op: Op)
    requires Ok(env, r) && LinksInStep(r)
    ensures StackKnown(env, r.st)
    ensures Step(env, r, op).alarms == r.alarms + StepFaults(r, op)
  {
    hide ScanStack, Scanned, Checked, StackKnown, ForgetAll, RbpChanged, RaChanged, Faults, Alarms, SetupDone,
      WithContext;
    OkKnown(env, r);
    match op
    case Setup(mem, ebp) =>
      if AtSetup(r) {
        var w := WithContext(r, ebp);
        ContextKnown(env, r, ebp);
        CheckAlarms(env, w, mem, 0);
        DoneAlarms(Checked(Scanned(env, w, mem, 0), mem));
        WaitingAlarms(r, ebp, mem);
        AlarmsAreFaults(r.mem, mem, r.links);
      }
    case Write(mem, a) =>
      CheckAlarms(env, r, mem, a);
      AlarmsAreFaults(r.mem, mem, r.links);
    case Library(mem) =>
      CheckAlarms(env, r, mem, 0);
      AlarmsAreFaults(r.mem, mem, r.links);
    case _ =>
  }

  lemma CheckAlarms(env: Env, r: Run, mem: Memory, a: u64)
    requires StackKnown(env, r.st)
    ensures Checked(Scanned(env, r, mem, a), mem).alarms == r.alarms + Alarms(mem, r.links)
  {
    hide ScanStack, Alarms;
  }

  lemma DoneAlarms(r: Run)
    ensures SetupDone(r).alarms == r.alarms
  {}

  // A frame that waits for its setup raises none, whatever its base pointer.
  lemma WaitingAlarms(r: Run, ebp: u64, mem: Memory)
    requires AtSetup(r)
    ensures WithContext(r, ebp).alarms == r.alarms
    ensures Alarms(mem, WithContext(r, ebp).links) == Alarms(mem, r.links)
  {
    hide RbpChanged, RaChanged;
    var ls := WithContext(r, ebp).links;
    if r.st.frames != [] {
      assert ls[1..] == r.links[1..];
    }
  }

  // The faults of a whole run, step by step.
  ghost function RunFaults(env: Env, r: Run, ops: seq<Op>): seq<Alarm>
    requires Ok(env, r) && OpsKnown(env, ops)
    decreases |ops|
  {
    if ops == [] then []
    else
      assert ops[0] in ops;
      StepOk(env, r, ops[0]);
      StepFaults(r, ops[0]) + RunFaults(env, Step(env, r, ops[0]), ops[1..])
  }

  lemma {:induction false} RunAlarms(env: Env, r: Run, ops: seq<Op>)
    requires Ok(env, r) && OpsKnown(env, ops) && LinksInStep(r)
    ensures Steps(env, r, ops).alarms == r.alarms + RunFaults(env, r, ops)
    decreases |ops|
  {
    hide Step, LinksInStep, OpKnown, StepFaults, Ok;
    if ops != [] {
      assert ops[0] in ops;
      StepOk(env, r, ops[0]);
      OkKnown(env, r);
      StepLinks(env, r, ops[0]);
      StepAlarms(env, r, ops[0]);
      RunAlarms(env, Step(env, r, ops[0]), ops[1..]);
    }
  }

  // From the start of a program, the alarms are exactly the faults of its steps, in order.
  lemma ProgramAlarms(env: Env, r: Run, ops: seq<Op>)
    requires Begins(env, r) && OpsKnown(env, ops)
    ensures Ok(env, r) && Steps(env, r, ops).alarms == RunFaults(env, r, ops)
  {
    BeginsOk(env, r);
    RunAlarms(env, r, ops);
  }

  // An alarm of a kind is raised by a program exactly when, after some of its steps, the
  // next one has a fault of that kind.
  lemma {:induction false} RaisedExactly(env: Env, r: Run, ops: seq<Op>, alarm: Alarm)
    requires Ok(env, r) && OpsKnown(env, ops)
    ensures alarm in RunFaults(env, r, ops) <==> exists i :: RaisedAt(env, r, ops, i, alarm)
    decreases |ops|
  {
    hide Step, OpKnown, StepFaults, Ok;
    if ops != [] {
      assert ops[0] in ops;
      StepOk(env, r, ops[0]);
      OkKnown(env, r);
      var r', tail := Step(env, r, ops[0]), ops[1..];
      RaisedExactly(env, r', tail, alarm);
      if alarm in StepFaults(r, ops[0]) {
        assert ops[..0] == [] && RaisedAt(env, r, ops, 0, alarm);
      } else if i :| RaisedAt(env, r', tail, i, alarm) {
        assert ops[..i + 1][1..] == tail[..i];
        assert RaisedAt(env, r, ops, i + 1, alarm);
      }
      if i :| RaisedAt(env, r, ops, i, alarm) {
        if i > 0 {
          assert ops[..i][1..] == tail[..i - 1];
          assert RaisedAt(env, r', tail, i - 1, alarm);
        }
      }
    }
  }

  // Step i of the run has a fault of this kind.
  ghost predicate RaisedAt(env: Env, r: Run, ops: seq<Op>, i: int, alarm: Alarm)
    requires Ok(env, r) && OpsKnown(env, ops)
  {
    0 <= i < |ops| && alarm in StepFaults(Steps(env, r, ops[..i]), ops[i])
  }
}
