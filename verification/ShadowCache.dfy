// What the remembered values and blocks mean over whole runs: checking only the
// written address is as good as checking everything, and no stack frame refers to
// a freed block.
module ShadowCache {
  import opened Words
  import opened Bytes
  import opened SymbolTables
  import opened HeapMap
  import opened DebugFile
  import opened ShadowStack
  import opened ShadowRuns

  // ------------------------------------------------------------------ values in step with memory

  ghost predicate InStep(env: Env, mem: Memory, f: FrameView, r: RecordView)
    requires r.v.typ in env.types
  {
    !f.firstAccess ==> r.value == Current(env, mem, f.ebp, r.v)
  }

  // The scalars and pointers; with `strings`, also the arrays that are scanned like
  // them.
  predicate Watched(env: Env, v: Var, strings: bool) {
    Tracked(env, v) && (strings || !env.types[v.typ].isArray)
  }

  // Every watched variable in every frame past its first access is remembered with the
  // text of its value in memory.
  ghost predicate AllInStep(env: Env, r: Run, strings: bool) {
    forall f, i :: f in AllFrames(r.st) && 0 <= i < |f.recs| && Watched(env, f.recs[i].v, strings) ==>
      InStep(env, r.mem, f, f.recs[i])
  }

  // For this variable, looking at the written address only loses nothing: if the
  // address is in the variable, the text there is the text of the variable, and
  // otherwise the write has not changed that text.
  ghost predicate Harmless(env: Env, mem: Memory, mem': Memory, f: FrameView, v: Var, a: u64)
    requires v.typ in env.types
  {
    a == 0 || f.firstAccess ||
    if Hit(env, f, v, a) then TextAt(env, mem', env.types[v.typ], a) == Current(env, mem', f.ebp, v)
    else Current(env, mem', f.ebp, v) == Current(env, mem, f.ebp, v)
  }

  ghost predicate HarmlessWrite(env: Env, st: StackView, mem: Memory, mem': Memory, a: u64, strings: bool) {
    forall f, i :: f in AllFrames(st) && 0 <= i < |f.recs| && Watched(env, f.recs[i].v, strings) ==>
      Harmless(env, mem, mem', f, f.recs[i].v, a)
  }

  // A write, seen from outside: of the watched variables in frames past their first
  // access it changes bytes of those only that begin at the written address, and
  // it does not hit others in the middle.
  ghost predicate BasedWrite(env: Env, st: StackView, mem: Memory, mem': Memory, a: u64, strings: bool) {
    forall f, i :: f in AllFrames(st) && 0 <= i < |f.recs| && Watched(env, f.recs[i].v, strings) && !f.firstAccess ==>
      var v := f.recs[i].v;
      if Hit(env, f, v, a) then a == BaseAddress(env, f.ebp, v)
      else Seen(env, mem', f.ebp, v) == Seen(env, mem, f.ebp, v)
  }

  // The text of a value depends on the bytes that it is read from, and on no others.
  lemma SeenIsCurrent(env: Env, mem: Memory, mem': Memory, ebp: u64, v: Var)
    requires v.typ in env.types && Seen(env, mem', ebp, v) == Seen(env, mem, ebp, v)
    ensures Current(env, mem', ebp, v) == Current(env, mem, ebp, v)
  {}

  lemma BasedIsHarmless(env: Env, st: StackView, mem: Memory, mem': Memory, a: u64, strings: bool)
    requires BasedWrite(env, st, mem, mem', a, strings)
    ensures HarmlessWrite(env, st, mem, mem', a, strings)
  {
    forall f, i | f in AllFrames(st) && 0 <= i < |f.recs| && Watched(env, f.recs[i].v, strings)
      ensures Harmless(env, mem, mem', f, f.recs[i].v, a)
    {
      var v := f.recs[i].v;
      if !f.firstAccess && !Hit(env, f, v, a) {
        SeenIsCurrent(env, mem, mem', f.ebp, v);
      }
    }
  }

  lemma RememberedInStep(env: Env, mem: Memory, mem': Memory, f: FrameView, r: RecordView, a: u64)
    requires Tracked(env, r.v) && InStep(env, mem, f, r)
    ensures Remembered(env, mem', f, r, a) == Current(env, mem', f.ebp, r.v) <==> Harmless(env, mem, mem', f, r.v, a)
  {
    hide TextAt, IsAtAddress, BaseAddress;
  }

  // The scan after a write keeps the values in step exactly when the write is
  // harmless.
  lemma InStepExactly(env: Env, r: Run, mem: Memory, a: u64, strings: bool)
    requires Ok(env, r) && AllInStep(env, r, strings)
    ensures AllInStep(env, Scanned(env, r, mem, a), strings) <==> HarmlessWrite(env, r.st, r.mem, mem, a, strings)
  {
    hide ScanStack, ScanFrames, Remembered, OwnTexts, Current, Harmless, InStep;
    var frs := AllFrames(r.st);
    AsOneList(env, mem, r.heap, r.st, a);
    FramesShape(env, mem, r.heap, frs, a, r.st.accessed);
    var frs' := AllFrames(ScanStack(env, mem, r.heap, r.st, a).0);
    forall i, j | 0 <= i < |frs| && 0 <= j < |frs[i].recs| && Watched(env, frs[i].recs[j].v, strings)
      ensures j < |frs'[i].recs| && frs'[i].recs[j].v == frs[i].recs[j].v
      ensures InStep(env, mem, frs'[i], frs'[i].recs[j]) <==>
              Harmless(env, r.mem, mem, frs[i], frs[i].recs[j].v, a)
    {
      OneInStep(env, r, mem, a, i, j, strings);
    }
    if HarmlessWrite(env, r.st, r.mem, mem, a, strings) {
      forall f', j | f' in frs' && 0 <= j < |f'.recs| && Watched(env, f'.recs[j].v, strings)
        ensures InStep(env, mem, f', f'.recs[j])
      {
        var i :| 0 <= i < |frs'| && frs'[i] == f';
        assert SameShape(frs[i], f') && frs[i] in frs;
      }
    }
    if AllInStep(env, Scanned(env, r, mem, a), strings) {
      forall f, j | f in frs && 0 <= j < |f.recs| && Watched(env, f.recs[j].v, strings)
        ensures Harmless(env, r.mem, mem, f, f.recs[j].v, a)
      {
        var i :| 0 <= i < |frs| && frs[i] == f;
        assert SameShape(frs[i], frs'[i]) && frs'[i] in frs';
      }
    }
  }

  lemma OneInStep(env: Env, r: Run, mem: Memory, a: u64, i: nat, j: nat, strings: bool)
    requires Ok(env, r) && AllInStep(env, r, strings)
    requires i < |AllFrames(r.st)| && j < |AllFrames(r.st)[i].recs|
    requires Watched(env, AllFrames(r.st)[i].recs[j].v, strings)
    ensures var frs' := AllFrames(ScanStack(env, mem, r.heap, r.st, a).0);
            var f := AllFrames(r.st)[i];
            && i < |frs'| && j < |frs'[i].recs| && frs'[i].recs[j].v == f.recs[j].v
            && (InStep(env, mem, frs'[i], frs'[i].recs[j]) <==> Harmless(env, r.mem, mem, f, f.recs[j].v, a))
  {
    hide ScanStack, ScanFrames, Remembered, OwnTexts, Current, Harmless;
    var frs := AllFrames(r.st);
    assert frs[i] in frs;
    AsOneList(env, mem, r.heap, r.st, a);
    FramesShape(env, mem, r.heap, frs, a, r.st.accessed);
    var frs' := AllFrames(ScanStack(env, mem, r.heap, r.st, a).0);
    assert SameShape(frs[i], frs'[i]);
    ValueInFrames(env, mem, r.heap, frs, a, r.st.accessed, i, j);
    RememberedInStep(env, r.mem, mem, frs[i], frs[i].recs[j], a);
  }

  // The write is followed by a scan of its address.
  predicate ScannedWrite(r: Run, op: Op) { op.Write? && op.address != 0 && PastSetup(r) }

  // Every write of the run is a based one, where it happens. Nothing else is asked.
  ghost predicate BasedRun(env: Env, r: Run, ops: seq<Op>, strings: bool)
    requires Ok(env, r) && OpsKnown(env, ops)
    decreases |ops|
  {
    ops == [] ||
    (assert ops[0] in ops;
     StepOk(env, r, ops[0]);
     && (ScannedWrite(r, ops[0]) ==> BasedWrite(env, r.st, r.mem, ops[0].mem, ops[0].address, strings))
     && BasedRun(env, Step(env, r, ops[0]), ops[1..], strings))
  }

  lemma StepInStep(env: Env, r: Run, op: Op, strings: bool)
    requires Ok(env, r) && OpKnown(env, op) && AllInStep(env, r, strings)
    requires ScannedWrite(r, op) ==> BasedWrite(env, r.st, r.mem, op.mem, op.address, strings)
    ensures AllInStep(env, Step(env, r, op), strings)
  {
    hide Scanned, Current, InStep, BasedWrite;
    var frs := AllFrames(r.st);
    var r' := Step(env, r, op);
    match op
    case Call(name, mem, ebp, vars) =>
      var f := FrameView(r.next, ebp, true, NewRecords(vars));
      assert AllFrames(r'.st) == [f] + frs;
      forall i | 0 <= i < |f.recs| && Watched(env, f.recs[i].v, strings) ensures InStep(env, r.mem, f, f.recs[i]) {
        FirstInStep(env, r.mem, f, f.recs[i]);
      }
    case Return =>
      if r.st.frames != [] {
        assert AllFrames(r'.st) == frs[1..];
      }
    case Setup(mem, ebp) =>
      if AtSetup(r) {
        ContextOk(env, r, ebp);
        ScanAllInStep(env, WithContext(r, ebp), mem, strings);
      }
    case Write(mem, a) =>
      if PastSetup(r) {
        if a != 0 {
          BasedIsHarmless(env, r.st, r.mem, mem, a, strings);
        }
        InStepExactly(env, r, mem, a, strings);
      }
    case Library(mem) => InStepExactly(env, r, mem, 0, strings);
    case Malloc(b) => assert AllFrames(r'.st) == frs;
    case Free(a) => FreeInStep(env, r, a, strings);
  }

  lemma FreeInStep(env: Env, r: Run, a: u64, strings: bool)
    requires Ok(env, r) && AllInStep(env, r, strings)
    ensures AllInStep(env, Step(env, r, Free(a)), strings)
  {
    hide InStep, Step;
    FreeShape(env, r, a);
    var r' := Step(env, r, Free(a));
    var frs := AllFrames(r.st);
    forall f', j | f' in AllFrames(r'.st) && 0 <= j < |f'.recs| && Watched(env, f'.recs[j].v, strings)
      ensures InStep(env, r.mem, f', f'.recs[j])
    {
      var i :| 0 <= i < |frs| && AllFrames(r'.st)[i] == f';
      assert SameValues(frs[i], f') && frs[i] in frs;
      SameInStep(env, r.mem, frs[i], frs[i].recs[j], f', f'.recs[j]);
    }
  }

  lemma FirstInStep(env: Env, mem: Memory, f: FrameView, r: RecordView)
    requires f.firstAccess && r.v.typ in env.types
    ensures InStep(env, mem, f, r)
  {}

  lemma SameInStep(env: Env, mem: Memory, f: FrameView, r: RecordView, f': FrameView, r': RecordView)
    requires r.v.typ in env.types && InStep(env, mem, f, r)
    requires f'.firstAccess == f.firstAccess && f'.ebp == f.ebp && r'.v == r.v && r'.value == r.value
    ensures InStep(env, mem, f', r')
  {}

  // Checking one address is as good as checking all: over every run whose writes
  // are based, the values stay in step with memory.
  lemma {:induction false} RunInStep(env: Env, r: Run, ops: seq<Op>, strings: bool)
    requires Ok(env, r) && OpsKnown(env, ops) && AllInStep(env, r, strings) && BasedRun(env, r, ops, strings)
    ensures AllInStep(env, Steps(env, r, ops), strings)
    decreases |ops|
  {
    hide Step, AllInStep, BasedWrite;
    if ops != [] {
      assert ops[0] in ops;
      StepOk(env, r, ops[0]);
      StepInStep(env, r, ops[0], strings);
      RunInStep(env, Step(env, r, ops[0]), ops[1..], strings);
    }
  }

  lemma ProgramInStep(env: Env, r: Run, ops: seq<Op>, strings: bool)
    requires Begins(env, r) && OpsKnown(env, ops)
    requires Ok(env, r) && BasedRun(env, r, ops, strings)
    ensures AllInStep(env, Steps(env, r, ops), strings)
  {
    assert AllFrames(r.st) == [r.st.global];
    RunInStep(env, r, ops, strings);
  }

  // No record of the variable has anything to report.
  lemma {:induction false} QuietTexts(env: Env, mem: Memory, f: FrameView, rs: seq<RecordView>, v: Var)
    requires AllKnown(env, rs) && !f.firstAccess && v.typ in env.types
    requires forall r <- rs :: r.v.id == v.id ==> r.v == v && r.value == Current(env, mem, f.ebp, v)
    ensures TextsFor(env, mem, f, rs, 0, OfVariable(f.id, v.id)) == []
  {
    hide Current;
    if rs != [] {
      assert rs[0] in rs && AllKnown(env, rs[1..]);
      QuietTexts(env, mem, f, rs[1..], v);
      if rs[0].v.id == v.id {
        NothingNew(env, mem, f, rs[0]);
      }
    }
  }

  lemma NothingNew(env: Env, mem: Memory, f: FrameView, r: RecordView)
    requires r.v.typ in env.types && !f.firstAccess && r.value == Current(env, mem, f.ebp, r.v)
    ensures OwnTexts(env, mem, f, r, 0) == []
  {}

  // And then a full rescan would report nothing about a scalar or pointer in a
  // frame past its first access.
  lemma RescanSilent(env: Env, r: Run, f: FrameView, j: nat, strings: bool)
    requires Ok(env, r) && AllInStep(env, r, strings)
    requires f in AllFrames(r.st) && !f.firstAccess && j < |f.recs| && Watched(env, f.recs[j].v, strings)
    requires Identified(f.recs)
    ensures Texts(ScanStack(env, r.mem, r.heap, r.st, 0).1, OfVariable(f.id, f.recs[j].v.id)) == []
  {
    hide ScanStack, ScanFrames, Current, TextsFor;
    var frs := AllFrames(r.st);
    var i :| 0 <= i < |frs| && frs[i] == f;
    AsOneList(env, r.mem, r.heap, r.st, 0);
    TextsInFrames(env, r.mem, r.heap, frs, 0, r.st.accessed, i, OfVariable(f.id, f.recs[j].v.id));
    forall q | q in f.recs && q.v.id == f.recs[j].v.id
      ensures q.v == f.recs[j].v && q.value == Current(env, r.mem, f.ebp, f.recs[j].v)
    {
      var k :| 0 <= k < |f.recs| && f.recs[k] == q;
      assert InStep(env, r.mem, f, f.recs[k]);
    }
    QuietTexts(env, r.mem, f, f.recs, f.recs[j].v);
  }

  lemma ScanAllInStep(env: Env, r: Run, mem: Memory, strings: bool)
    requires Ok(env, r)
    ensures AllInStep(env, Scanned(env, r, mem, 0), strings)
    ensures forall f <- AllFrames(Scanned(env, r, mem, 0).st) :: !f.firstAccess
  {
    hide ScanStack, ScanFrames, Current;
    var frs := AllFrames(r.st);
    AsOneList(env, mem, r.heap, r.st, 0);
    FramesShape(env, mem, r.heap, frs, 0, r.st.accessed);
    var frs' := AllFrames(ScanStack(env, mem, r.heap, r.st, 0).0);
    forall f', j | f' in frs' && 0 <= j < |f'.recs| && Watched(env, f'.recs[j].v, strings)
      ensures InStep(env, mem, f', f'.recs[j])
    {
      var i :| 0 <= i < |frs'| && frs'[i] == f';
      assert SameShape(frs[i], f');
      ValueInFrames(env, mem, r.heap, frs, 0, r.st.accessed, i, j);
    }
  }

  // After one full scan, a second one without any change to memory reports nothing
  // about any variable with one stored value, in whatever state the first one found them.
  lemma SecondRescanSilent(env: Env, r: Run, mem: Memory, f: FrameView, j: nat)
    requires Ok(env, r)
    requires f in AllFrames(Scanned(env, r, mem, 0).st) && j < |f.recs| && Tracked(env, f.recs[j].v)
    requires Identified(f.recs)
    ensures StackKnown(env, Scanned(env, r, mem, 0).st)
    ensures Texts(ScanStack(env, mem, r.heap, Scanned(env, r, mem, 0).st, 0).1, OfVariable(f.id, f.recs[j].v.id)) == []
  {
    hide ScanStack, AllInStep;
    ScannedOk(env, r, mem, 0);
    ScanAllInStep(env, r, mem, true);
    RescanSilent(env, Scanned(env, r, mem, 0), f, j, true);
  }

  // ------------------------------------------------------------------ live blocks

  ghost predicate RefersLive(heap: Blocks, rs: seq<RecordView>) {
    forall r <- rs :: r.block.Some? ==> r.block.value in heap
  }

  // Every block that a record of a stack frame refers to is in the heap map.
  ghost predicate BlocksLive(r: Run) {
    forall f <- r.st.frames :: RefersLive(r.heap, f.recs)
  }

  lemma {:induction false} RecordsLive(env: Env, mem: Memory, heap: Blocks, fr: FrameView, rs: seq<RecordView>, a: u64,
                                       acc: set<nat>)
    requires AllKnown(env, rs) && RefersLive(heap, rs)
    ensures RefersLive(heap, ScanRecords(env, mem, heap, fr, rs, a, acc).0)
  {
    hide StructUpdates, ArrayUpdates, TextAt;
    if rs != [] {
      var t := env.types[rs[0].v.typ];
      ScanMeaning(heap, LoadedWord(Load(mem, Target(env, fr, rs[0].v, a))));
      var (r, acc', ups) := ScanRecord(env, mem, heap, fr, rs[0], a, acc);
      assert r.block.Some? ==> r.block.value in heap;
      assert AllKnown(env, rs[1..]);
      RecordsLive(env, mem, heap, fr, rs[1..], a, acc');
    }
  }

  lemma {:induction false} FramesLive(env: Env, mem: Memory, heap: Blocks, frs: seq<FrameView>, a: u64, acc: set<nat>)
    requires forall f <- frs :: AllKnown(env, f.recs) && RefersLive(heap, f.recs)
    ensures forall f <- ScanFrames(env, mem, heap, frs, a, acc).0 :: RefersLive(heap, f.recs)
  {
    hide ScanRecords, RefersLive;
    if frs != [] {
      RecordsLive(env, mem, heap, frs[0], frs[0].recs, a, acc);
      var (f, acc', ups) := ScanFrame(env, mem, heap, frs[0], a, acc);
      FramesLive(env, mem, heap, frs[1..], a, acc');
    }
  }

  lemma StepLive(env: Env, r: Run, op: Op)
    requires Ok(env, r) && BlocksLive(r)
    ensures BlocksLive(Step(env, r, op))
  {
    hide ScanFrames, ScanFrame;
    match op
    case Call(name, mem, ebp, vars) =>
    case Return =>
    case Setup(mem, ebp) =>
      if AtSetup(r) {
        var r1 := WithContext(r, ebp);
        ContextOk(env, r, ebp);
        FramesLive(env, mem, r.heap, r1.st.frames, 0, r.st.accessed);
      }
    case Write(mem, a) => FramesLive(env, mem, r.heap, r.st.frames, a, r.st.accessed);
    case Library(mem) => FramesLive(env, mem, r.heap, r.st.frames, 0, r.st.accessed);
    case Malloc(b) => InsertMembers(r.heap, b);
    case Free(a) => EraseMembers(r.heap, a);
  }

  // Over every run, with whatever allocations and frees, a block that a stack frame
  // refers to is live.
  lemma {:induction false} RunLive(env: Env, r: Run, ops: seq<Op>)
    requires Ok(env, r) && OpsKnown(env, ops) && BlocksLive(r)
    ensures BlocksLive(Steps(env, r, ops))
    decreases |ops|
  {
    hide Step, BlocksLive;
    if ops != [] {
      assert ops[0] in ops;
      StepOk(env, r, ops[0]);
      StepLive(env, r, ops[0]);
      RunLive(env, Step(env, r, ops[0]), ops[1..]);
    }
  }

  // After a full scan every pointer, of the stack or global, that points into a live
  // block refers to that block.
  lemma PointersFindBlocks(env: Env, r: Run, mem: Memory, i: nat, j: nat, b: Block)
    requires Ok(env, r) && Disjoint(r.heap)
    requires i < |AllFrames(r.st)| && j < |AllFrames(r.st)[i].recs| && Tracked(env, AllFrames(r.st)[i].recs[j].v)
    requires var f := AllFrames(r.st)[i]; var v := f.recs[j].v;
             && env.types[v.typ].isPointer
             && b in r.heap && b.Contains(LoadedWord(Load(mem, BaseAddress(env, f.ebp, v))))
    ensures var frs' := AllFrames(Scanned(env, r, mem, 0).st);
            i < |frs'| && j < |frs'[i].recs| && frs'[i].recs[j].block == Some(b)
  {
    hide ScanStack, ScanFrames, Disjoint, Scan, Load, BaseAddress, Block.Contains;
    var frs := AllFrames(r.st);
    AsOneList(env, mem, r.heap, r.st, 0);
    ValueInFrames(env, mem, r.heap, frs, 0, r.st.accessed, i, j);
    UniqueBlock(r.heap, LoadedWord(Load(mem, BaseAddress(env, frs[i].ebp, frs[i].recs[j].v))), b);
  }

  // The frame of the globals is passed over when a block is freed: if its blocks
  // were live before, they are live afterwards exactly when no global variable
  // refers to the block that is freed.
  lemma GlobalsLiveExactly(env: Env, r: Run, a: u64)
    requires Ok(env, r) && RefersLive(r.heap, r.st.global.recs)
    ensures var r' := Step(env, r, Free(a));
            RefersLive(r'.heap, r'.st.global.recs) <==>
            Scan(r.heap, a).None? || forall q <- r.st.global.recs :: q.block != Scan(r.heap, a)
  {
    EraseMembers(r.heap, a);
    ScanMeaning(r.heap, a);
  }
}
