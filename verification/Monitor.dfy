// What happens to a monitored program, performed on the stack and the heap map, and
// followed by a run on values.
module Monitor {
  import opened Words
  import opened SymbolTables
  import opened HeapMap
  import opened ShadowStack
  import opened ShadowRuns
  import opened AddressTranslation
  import opened Frames
  import opened StackLinks
  import opened RuntimeStack
  import opened ShadowCache
  import opened LinkRuns
  import V = LoadedViews
  import D = DebugFile

  // A function is entered while the base pointer is still that of its caller, and is set
  // up when it has its own.
  datatype Event =
    | Enter(name: seq<byte>, ip: u64, ebp: u64, mem: Memory)
    | Leave
    | EntryDone(mem: Memory, ebp: u64)
    | Wrote(mem: Memory, address: u64)
    | Called(mem: Memory)
    | Allocated(block: Block)
    | Released(address: u64)

  // The static tables, and where the code is loaded.
  datatype Program = Program(env: Env, textBase: u64, cus: Table<CuView>)

  // The variables of the function that has the address.
  function VariablesAt(p: Program, ip: u64): seq<Entry<Var>> {
    var f := FunctionAt(p.cus, p.textBase, ip);
    if f.None? then [] else OwnVariables(LocalsOf(f.value.rec))
  }

  // The step of a run that an event is.
  function OpOf(p: Program, e: Event): Op {
    match e
    case Enter(name, ip, ebp, mem) => Call(name, mem, ebp, VariablesAt(p, ip))
    case Leave => Return
    case EntryDone(mem, ebp) => Setup(mem, ebp)
    case Wrote(mem, a) => Write(mem, a)
    case Called(mem) => Library(mem)
    case Allocated(b) => Malloc(b)
    case Released(a) => Free(a)
  }

  function OpsOf(p: Program, es: seq<Event>): seq<Op> {
    if es == [] then [] else [OpOf(p, es[0])] + OpsOf(p, es[1..])
  }

  // The objects are in this state.
  ghost predicate Shows(r: Run, stack: RuntimeStack, heap: Map)
    reads stack, stack.frames, RecordsIn(stack.frames), stack.global, stack.global.recs, heap
  {
    && stack.Valid() && heap.Valid() && r.st == stack.View() && r.heap == heap.blocks && r.next == stack.next
    && r.links == LinkViews(stack.frames)
  }

  // All records of the stack, those of the globals included.
  ghost function AllRecords(stack: RuntimeStack): set<FrameRecord>
    reads stack, stack.frames`recs, stack.global`recs
  {
    RecordsIn(stack.frames + [stack.global])
  }

  ghost function AllFrameObjects(stack: RuntimeStack): set<Frame>
    reads stack
  {
    set f | f in stack.frames + [stack.global]
  }

  method OnEnter(p: Program, stack: RuntimeStack, heap: Map, e: Event, ghost r: Run) returns (ok: bool)
    requires e.Enter? && Shows(r, stack, heap) && StackKnown(p.env, r.st) && AllLinked(p.env, p.cus)
    modifies stack`frames, stack`next
    ensures ok ==> Shows(Step(p.env, r, OpOf(p, e)), stack, heap)
    ensures ok <==> FunctionAt(p.cus, p.textBase, e.ip).Some?
    ensures !ok ==> Shows(r, stack, heap) && stack.frames == old(stack.frames)
    ensures ok ==> |stack.frames| > 0 && stack.frames[1..] == old(stack.frames) && fresh(stack.frames[0]) &&
                   forall x <- stack.frames[0].recs :: fresh(x)
  {
    hide *;
    ShowsParts(r, stack, heap);
    ghost var fvs, g := FrameViews(stack.frames), stack.global.View();
    ok := stack.Push(p.env, e.mem, p.textBase, p.cus, e.name, e.ip, e.ebp);
    assert stack.global.View() == g && heap.Valid();
    if ok {
      EnteredParts(p, r, e);
      stack.ViewIs([stack.frames[0].View()] + fvs, g);
      LinksAre(stack.frames, [stack.frames[0].Links()] + r.links);
      ShowsIs(Step(p.env, r, OpOf(p, e)), stack, heap);
    } else {
      stack.ViewIs(fvs, g);
      ShowsIs(r, stack, heap);
    }
  }

  lemma EnteredParts(p: Program, r: Run, e: Event)
    requires e.Enter? && StackKnown(p.env, r.st) && FunctionAt(p.cus, p.textBase, e.ip).Some?
    ensures var vars := OwnVariables(LocalsOf(FunctionAt(p.cus, p.textBase, e.ip).value.rec));
            Step(p.env, r, OpOf(p, e)) ==
            r.(st := r.st.(frames := [FrameView(r.next, e.ebp, true, NewRecords(vars))] + r.st.frames),
               next := r.next + 1, links := [Pushed(e.mem, e.name, e.ebp)] + r.links)
  {
    hide FunctionAt, OwnVariables, NewRecords, Pushed;
  }

  method OnLeave(stack: RuntimeStack, heap: Map, env: Env, ghost r: Run) returns (ok: bool)
    requires Shows(r, stack, heap) && StackKnown(env, r.st)
    modifies stack`frames
    ensures ok ==> Shows(Step(env, r, Return), stack, heap)
    ensures !ok ==> Shows(r, stack, heap)
    ensures ok <==> r.st.frames != []
    ensures stack.frames == if ok then old(stack.frames)[1..] else old(stack.frames)
  {
    hide *;
    ShowsParts(r, stack, heap);
    ghost var fvs, g := FrameViews(stack.frames), stack.global.View();
    ok := stack.Pop();
    if ok {
      assert stack.global.View() == g;
      stack.ViewIs(fvs[1..], g);
      LinksAre(stack.frames, r.links[1..]);
      LeftParts(env, r);
      ShowsIs(Step(env, r, Return), stack, heap);
    } else {
      assert stack.frames == [];
      stack.ViewIs([], g);
      LinksAre(stack.frames, []);
      ShowsIs(r, stack, heap);
    }
  }

  lemma LeftParts(env: Env, r: Run)
    requires StackKnown(env, r.st)
    ensures r.st.frames != [] && r.links != [] ==>
              Step(env, r, Return) == r.(st := r.st.(frames := r.st.frames[1..]), links := r.links[1..])
  {}

  // A written address, or 0.
  method OnScan(stack: RuntimeStack, heap: Map, env: Env, mem: Memory, a: u64, ghost r: Run) returns (ups: seq<Update>)
    requires Shows(r, stack, heap) && StackKnown(env, r.st)
    modifies stack`accessed, stack.frames`firstAccess, stack.global`firstAccess, AllRecords(stack)`value,
             AllRecords(stack)`block
    ensures Shows(Scanned(env, r, mem, a), stack, heap) && Scanned(env, r, mem, a).log == r.log + ups
  {
    hide *;
    ShowsParts(r, stack, heap);
    AllOfThem(stack);
    ups := stack.AddrGetUpdatedVariables(env, mem, heap, a);
    ScannedParts(env, r, mem, a);
    ShowsIs(Scanned(env, r, mem, a), stack, heap);
  }

  lemma AllOfThem(stack: RuntimeStack)
    ensures AllRecords(stack) == RecordsIn(stack.frames + [stack.global])
  {}

  lemma ScannedParts(env: Env, r: Run, mem: Memory, a: u64)
    requires StackKnown(env, r.st)
    ensures var (st, ups) := ScanStack(env, mem, r.heap, r.st, a);
            Scanned(env, r, mem, a) == r.(st := st, mem := mem, log := r.log + ups)
  {}

  method OnCheck(stack: RuntimeStack, heap: Map, mem: Memory, ghost r: Run)
    returns (ralist: seq<LinkRecord>, alarms: seq<Alarm>)
    requires Shows(r, stack, heap)
    modifies stack.frames`oldRbp, stack.frames`returnAddr
    ensures Shows(Checked(r, mem), stack, heap)
    ensures Checked(r, mem).checks == r.checks + ralist && Checked(r, mem).alarms == r.alarms + alarms
  {
    hide *;
    ShowsParts(r, stack, heap);
    ghost var fvs, g := FrameViews(stack.frames), stack.global.View();
    ralist, alarms := stack.GetUpdatedLinks(mem);
    assert stack.Valid() && heap.Valid() && stack.global.View() == g;
    assert forall k :: 0 <= k < |stack.frames| ==> stack.frames[k].View() == fvs[k];
    stack.ViewIs(fvs, g);
    CheckedParts(r, mem);
    ShowsIs(Checked(r, mem), stack, heap);
  }

  lemma CheckedParts(r: Run, mem: Memory)
    ensures var r' := Checked(r, mem);
            && r'.st == r.st && r'.heap == r.heap && r'.next == r.next && r'.links == AllRefreshed(mem, r.links)
            && r'.checks == r.checks + Records(mem, r.links) && r'.alarms == r.alarms + Alarms(mem, r.links)
  {}

  lemma ShowsParts(r: Run, stack: RuntimeStack, heap: Map)
    requires Shows(r, stack, heap)
    ensures stack.Valid() && heap.Valid() && r.st == stack.View() && r.heap == heap.blocks && r.next == stack.next
    ensures var fvs := FrameViews(stack.frames);
            && |fvs| == |stack.frames| && (forall k :: 0 <= k < |fvs| ==> stack.frames[k].View() == fvs[k])
            && stack.View() == StackView(fvs, stack.global.View(), stack.accessed)
    ensures r.links == LinkViews(stack.frames) && |r.links| == |stack.frames|
    ensures forall k :: 0 <= k < |r.links| ==> stack.frames[k].Links() == r.links[k]
  {}

  lemma LinksAre(fs: seq<Frame>, ls: seq<LinkView>)
    requires |ls| == |fs| && forall k :: 0 <= k < |fs| ==> fs[k].Links() == ls[k]
    ensures LinkViews(fs) == ls
  {}

  // Every scan is followed by a check of the links.
  method OnAccess(stack: RuntimeStack, heap: Map, env: Env, mem: Memory, a: u64, ghost r: Run)
    returns (ups: seq<Update>, ralist: seq<LinkRecord>, alarms: seq<Alarm>)
    requires Shows(r, stack, heap) && StackKnown(env, r.st)
    modifies stack`accessed, stack.frames`firstAccess, stack.global`firstAccess, stack.frames`oldRbp,
             stack.frames`returnAddr, AllRecords(stack)`value, AllRecords(stack)`block
    ensures var r' := Checked(Scanned(env, r, mem, a), mem);
            Shows(r', stack, heap) && Reported(r, r', ups, ralist, alarms)
  {
    hide Shows, StackKnown, ScanStack;
    ups := OnScan(stack, heap, env, mem, a, r);
    ralist, alarms := OnCheck(stack, heap, mem, Scanned(env, r, mem, a));
  }

  // The top frame is the one that waits for its setup, or has it behind it.
  lemma TopFrame(r: Run, stack: RuntimeStack, heap: Map)
    requires Shows(r, stack, heap)
    ensures AtSetup(r) <==> stack.frames != [] && stack.frames[0].beforeSetup
    ensures PastSetup(r) <==> stack.frames != [] && !stack.frames[0].beforeSetup
    ensures |r.st.frames| == |r.links| == |stack.frames|
  {}

  method OnContext(stack: RuntimeStack, heap: Map, ebp: u64, ghost r: Run)
    requires Shows(r, stack, heap) && stack.frames != []
    modifies stack.frames`ebp
    ensures Shows(WithContext(r, ebp), stack, heap)
  {
    hide *;
    ShowsParts(r, stack, heap);
    ghost var fvs, g := FrameViews(stack.frames), stack.global.View();
    stack.OtherFrames(0);
    stack.frames[0].AddContext(ebp);
    assert stack.Valid() && heap.Valid() && stack.global.View() == g;
    forall k | 0 < k < |stack.frames|
      ensures stack.frames[k].View() == fvs[k] && stack.frames[k].Links() == r.links[k]
    {
      assert stack.frames[k] != stack.frames[0];
    }
    ContextParts(r, ebp);
    LinksAre(stack.frames, [r.links[0].(ebp := ebp)] + r.links[1..]);
    stack.ViewIs([fvs[0].(ebp := ebp)] + fvs[1..], g);
    ShowsIs(WithContext(r, ebp), stack, heap);
  }

  lemma ContextParts(r: Run, ebp: u64)
    ensures r.st.frames != [] && r.links != [] ==>
              WithContext(r, ebp) ==
              r.(st := r.st.(frames := [r.st.frames[0].(ebp := ebp)] + r.st.frames[1..]),
                 links := [r.links[0].(ebp := ebp)] + r.links[1..])
  {}

  method OnSettled(stack: RuntimeStack, heap: Map, ghost r: Run)
    requires Shows(r, stack, heap) && stack.frames != []
    modifies stack.frames`beforeSetup
    ensures Shows(SetupDone(r), stack, heap)
  {
    hide *;
    ShowsParts(r, stack, heap);
    ghost var fvs, g := FrameViews(stack.frames), stack.global.View();
    stack.OtherFrames(0);
    stack.frames[0].ClearIsBeforeStackSetup();
    assert stack.Valid() && heap.Valid() && stack.global.View() == g;
    assert forall k :: 0 <= k < |stack.frames| ==> stack.frames[k].View() == fvs[k];
    stack.ViewIs(fvs, g);
    forall k | 0 < k < |stack.frames| ensures stack.frames[k].Links() == r.links[k] {
      assert stack.frames[k] != stack.frames[0];
    }
    LinksAre(stack.frames, [r.links[0].(beforeSetup := false)] + r.links[1..]);
    SetupDoneParts(r);
    ShowsIs(SetupDone(r), stack, heap);
  }

  lemma SetupDoneParts(r: Run)
    ensures r.links != [] ==> SetupDone(r) == r.(links := [r.links[0].(beforeSetup := false)] + r.links[1..])
  {}

  // The routine for the first instruction of a function behind its entry code.
  method OnSetup(stack: RuntimeStack, heap: Map, env: Env, mem: Memory, ebp: u64, ghost r: Run)
    returns (ups: seq<Update>, ralist: seq<LinkRecord>, alarms: seq<Alarm>)
    requires Shows(r, stack, heap) && StackKnown(env, r.st)
    modifies stack`accessed, AllFrameObjects(stack)`ebp, AllFrameObjects(stack)`beforeSetup,
             AllFrameObjects(stack)`firstAccess, AllFrameObjects(stack)`oldRbp, AllFrameObjects(stack)`returnAddr,
             AllRecords(stack)`value, AllRecords(stack)`block
    ensures var r' := Step(env, r, Setup(mem, ebp));
            Shows(r', stack, heap) && Reported(r, r', ups, ralist, alarms)
  {
    hide *;
    ups, ralist, alarms := [], [], [];
    NothingReported(r);
    TopFrame(r, stack, heap);
    RecordOwners(stack);
    SetupInParts(env, r, mem, ebp);
    if |stack.frames| > 0 && stack.frames[0].beforeSetup {
      ghost var r1 := WithContext(r, ebp);
      OnContext(stack, heap, ebp, r);
      ups, ralist, alarms := OnAccess(stack, heap, env, mem, 0, r1);
      OnSettled(stack, heap, Checked(Scanned(env, r1, mem, 0), mem));
    }
  }

  lemma SetupInParts(env: Env, r: Run, mem: Memory, ebp: u64)
    requires StackKnown(env, r.st)
    ensures var r1 := WithContext(r, ebp);
            && StackKnown(env, r1.st)
            && var r2 := Checked(Scanned(env, r1, mem, 0), mem);
               && Step(env, r, Setup(mem, ebp)) == (if AtSetup(r) then SetupDone(r2) else r)
               && forall ups, ralist, alarms :: Reported(r1, r2, ups, ralist, alarms) ==>
                    Reported(r, SetupDone(r2), ups, ralist, alarms)
  {
    ContextKnown(env, r, ebp);
  }

  method OnAllocated(stack: RuntimeStack, heap: Map, env: Env, b: Block, ghost r: Run)
    requires Shows(r, stack, heap) && StackKnown(env, r.st)
    modifies heap`blocks
    ensures Shows(Step(env, r, Malloc(b)), stack, heap)
  {
    hide *;
    Parts(env, r, stack, heap);
    stack.ViewParts(env);
    heap.AddBlock(b);
    assert stack.Valid() && stack.global.View() == r.st.global && r.links == LinkViews(stack.frames);
    assert forall k :: 0 <= k < |stack.frames| ==> stack.frames[k].View() == r.st.frames[k];
    stack.ViewIs(r.st.frames, r.st.global);
    Allocates(env, r, b);
    ShowsIs(Step(env, r, Malloc(b)), stack, heap);
  }

  // `free_before`: the block is forgotten by the stack and then leaves the heap map; the
  // other way round the state would be the same.
  method OnReleased(stack: RuntimeStack, heap: Map, env: Env, a: u64, ghost r: Run)
    requires Shows(r, stack, heap) && StackKnown(env, r.st)
    modifies heap`blocks, RecordsIn(stack.frames)`block, RecordsIn(stack.frames)`clearStatus,
             RecordsIn(stack.frames)`setStatus, RecordsIn(stack.frames)`marks
    ensures Shows(Step(env, r, Free(a)), stack, heap)
  {
    hide *;
    Parts(env, r, stack, heap);
    Releases(env, r, a);
    ViewSeq(stack);
    ghost var fvs := FrameViews(stack.frames);
    var hb := heap.FindBlock(a);
    assert forall k :: 0 <= k < |stack.frames| ==> stack.frames[k].View() == fvs[k];
    assert stack.Valid() && stack.global.View() == r.st.global;
    stack.ViewIs(fvs, r.st.global);
    if hb.Some? {
      stack.RemoveBlock(hb);
      ghost var st := stack.View();
      ViewSeq(stack);
      fvs := FrameViews(stack.frames);
      var gone := heap.DeleteBlock(a);
      assert stack.Valid() && stack.global.View() == st.global;
      assert forall k :: 0 <= k < |stack.frames| ==> stack.frames[k].View() == fvs[k];
      stack.ViewIs(fvs, st.global);
    }
    ShowsIs(Step(env, r, Free(a)), stack, heap);
  }

  lemma ViewSeq(stack: RuntimeStack)
    requires stack.Valid()
    ensures var fvs := FrameViews(stack.frames);
            && |fvs| == |stack.frames| && (forall k :: 0 <= k < |fvs| ==> stack.frames[k].View() == fvs[k])
            && stack.View() == StackView(fvs, stack.global.View(), stack.accessed)
  {}

  lemma Allocates(env: Env, r: Run, b: Block)
    requires StackKnown(env, r.st)
    ensures Step(env, r, Malloc(b)) == r.(heap := Insert(r.heap, b))
  {}

  lemma Releases(env: Env, r: Run, a: u64)
    requires StackKnown(env, r.st)
    ensures Step(env, r, Free(a)) ==
            r.(heap := Erase(r.heap, a), st := r.st.(frames := ForgetAll(r.st.frames, Scan(r.heap, a))))
    ensures Scan(r.heap, a).None? ==> Step(env, r, Free(a)) == r
  {
    if Scan(r.heap, a).None? {
      NothingErased(r.heap, a);
      forall i | 0 <= i < |r.st.frames|
        ensures r.st.frames[i].(recs := Forget(r.st.frames[i].recs, None)) == r.st.frames[i]
      {
        assert Forget(r.st.frames[i].recs, None) == r.st.frames[i].recs;
      }
      assert ForgetAll(r.st.frames, None) == r.st.frames;
    }
  }

  lemma {:induction false} NothingErased(bs: Blocks, a: u64)
    requires Scan(bs, a).None?
    ensures Erase(bs, a) == bs
  {
    if bs != [] {
      NothingErased(bs[1..], a);
    }
  }

  lemma Parts(env: Env, r: Run, stack: RuntimeStack, heap: Map)
    requires Shows(r, stack, heap) && StackKnown(env, r.st)
    ensures stack.Valid() && heap.Valid() && r.st == stack.View() && r.heap == heap.blocks && r.next == stack.next
    ensures r.links == LinkViews(stack.frames) && (r.st.frames == [] <==> stack.frames == [])
    ensures RecordsIn(stack.frames) <= AllRecords(stack)
  {
    stack.AllRecords();
  }

  lemma ShowsIs(r: Run, stack: RuntimeStack, heap: Map)
    requires stack.Valid() && heap.Valid() && r.st == stack.View() && r.heap == heap.blocks && r.next == stack.next
    requires r.links == LinkViews(stack.frames)
    ensures Shows(r, stack, heap)
  {}

  // The function that is entered is known, and there is a frame to leave.
  predicate CanHappen(p: Program, r: Run, e: Event) {
    && (e.Enter? ==> FunctionAt(p.cus, p.textBase, e.ip).Some?)
    && (e.Leave? ==> r.st.frames != [])
  }

  lemma CanHappenByKind(p: Program, r: Run, e: Event)
    ensures e.Enter? ==> (CanHappen(p, r, e) <==> FunctionAt(p.cus, p.textBase, e.ip).Some?)
    ensures e.Leave? ==> (CanHappen(p, r, e) <==> r.st.frames != [])
    ensures !e.Enter? && !e.Leave? ==> CanHappen(p, r, e)
  {}

  // One event. It fails where the program under analysis is left: at a call of no known
  // function, and at a return from no frame. A write is looked at only when the innermost
  // function is past its setup. What is returned is what is reported.
  method Perform(p: Program, stack: RuntimeStack, heap: Map, e: Event, ghost r: Run)
    returns (ok: bool, ups: seq<Update>, ralist: seq<LinkRecord>, alarms: seq<Alarm>)
    requires Shows(r, stack, heap) && Ok(p.env, r) && AllLinked(p.env, p.cus)
    modifies stack`frames, stack`next, stack`accessed, heap`blocks, AllFrameObjects(stack)`firstAccess,
             AllFrameObjects(stack)`ebp, AllFrameObjects(stack)`beforeSetup, AllFrameObjects(stack)`oldRbp,
             AllFrameObjects(stack)`returnAddr, AllRecords(stack)`value, AllRecords(stack)`block,
             AllRecords(stack)`clearStatus, AllRecords(stack)`setStatus, AllRecords(stack)`marks
    ensures ok ==>
              var r' := Step(p.env, r, OpOf(p, e));
              Shows(r', stack, heap) && Reported(r, r', ups, ralist, alarms)
    ensures ok <==> CanHappen(p, r, e)
    ensures !ok ==> Shows(r, stack, heap) && ups == [] && ralist == [] && alarms == []
    ensures stack.global == old(stack.global)
    ensures forall f <- AllFrameObjects(stack) :: f in old(AllFrameObjects(stack)) || fresh(f)
    ensures forall x <- AllRecords(stack) :: x in old(AllRecords(stack)) || fresh(x)
  {
    hide *;
    ok, ups, ralist, alarms := true, [], [], [];
    NothingReported(r);
    RecordOwners(stack);
    OkKnown(p.env, r);
    Parts(p.env, r, stack, heap);
    TopFrame(r, stack, heap);
    CanHappenByKind(p, r, e);
    StepByKind(p, r, e);
    match e {
      case Enter(_, _, _, _) =>
        ok := OnEnter(p, stack, heap, e, r);
        assert ok ==> stack.frames == [stack.frames[0]] + stack.frames[1..];
      case Leave => ok := OnLeave(stack, heap, p.env, r);
      case EntryDone(mem, ebp) => ups, ralist, alarms := OnSetup(stack, heap, p.env, mem, ebp, r);
      case Wrote(mem, a) =>
        if |stack.frames| > 0 && !stack.frames[0].beforeSetup {
          ups, ralist, alarms := OnAccess(stack, heap, p.env, mem, a, r);
        }
      case Called(mem) => ups, ralist, alarms := OnAccess(stack, heap, p.env, mem, 0, r);
      case Allocated(b) => OnAllocated(stack, heap, p.env, b, r);
      case Released(a) => OnReleased(stack, heap, p.env, a, r);
    }
    RecordOwners(stack);
  }

  // A record of the stack is a record of one of its frames.
  lemma RecordOwners(stack: RuntimeStack)
    ensures forall f :: f in AllFrameObjects(stack) <==> f in stack.frames || f == stack.global
    ensures forall x <- AllRecords(stack) :: exists f :: (f in stack.frames || f == stack.global) && x in f.recs
    ensures forall f, x :: (f in stack.frames || f == stack.global) && x in f.recs ==> x in AllRecords(stack)
  {
    assert forall f :: f in stack.frames || f == stack.global <==> f in stack.frames + [stack.global];
  }

  // The step of an event by its kind.
  lemma StepByKind(p: Program, r: Run, e: Event)
    requires StackKnown(p.env, r.st)
    ensures var r' := Step(p.env, r, OpOf(p, e));
            match e
            case Enter(_, _, _, _) => Reported(r, r', [], [], [])
            case Leave => r' == Step(p.env, r, Return) && Reported(r, r', [], [], [])
            case EntryDone(mem, ebp) => r' == Step(p.env, r, Setup(mem, ebp))
            case Wrote(mem, a) => r' == if PastSetup(r) then Checked(Scanned(p.env, r, mem, a), mem) else r
            case Called(mem) => r' == Checked(Scanned(p.env, r, mem, 0), mem)
            case Allocated(b) => r' == Step(p.env, r, Malloc(b)) && Reported(r, r', [], [], [])
            case Released(a) => r' == Step(p.env, r, Free(a)) && Reported(r, r', [], [], [])
  {}

  // A sequence of events, up to one that cannot happen: the objects end in the state of
  // the run of the steps that the events are, and what has been reported is what the run
  // reports. So what is proved of every run holds of the objects.
  method Drive(p: Program, stack: RuntimeStack, heap: Map, es: seq<Event>, ghost r: Run)
    returns (n: nat, log: seq<Update>, checks: seq<LinkRecord>, alarms: seq<Alarm>)
    requires Shows(r, stack, heap) && Ok(p.env, r) && AllLinked(p.env, p.cus) && OpsKnown(p.env, OpsOf(p, es))
    modifies stack`frames, stack`next, stack`accessed, heap`blocks, AllFrameObjects(stack)`firstAccess,
             AllFrameObjects(stack)`ebp, AllFrameObjects(stack)`beforeSetup, AllFrameObjects(stack)`oldRbp,
             AllFrameObjects(stack)`returnAddr, AllRecords(stack)`value, AllRecords(stack)`block,
             AllRecords(stack)`clearStatus, AllRecords(stack)`setStatus, AllRecords(stack)`marks
    ensures n <= |es| && OpsKnown(p.env, OpsOf(p, es[..n]))
    ensures var r' := Steps(p.env, r, OpsOf(p, es[..n]));
            && Shows(r', stack, heap) && Reported(r, r', log, checks, alarms)
            && (n < |es| ==> !CanHappen(p, r', es[n]))
  {
    hide *;
    ghost var cur := r;
    n, log, checks, alarms := 0, [], [], [];
    StepsEnd(p, r, es);
    NothingReported(r);
    while n < |es|
      invariant n <= |es| && Shows(cur, stack, heap) && Ok(p.env, cur)
      invariant OpsKnown(p.env, OpsOf(p, es[..n])) && cur == Steps(p.env, r, OpsOf(p, es[..n]))
      invariant Reported(r, cur, log, checks, alarms)
      invariant stack.global == old(stack.global)
      invariant forall f <- AllFrameObjects(stack) :: f in old(AllFrameObjects(stack)) || fresh(f)
      invariant forall x <- AllRecords(stack) :: x in old(AllRecords(stack)) || fresh(x)
    {
      NextStep(p, r, es, n);
      var ok, ups, ralist, als := Perform(p, stack, heap, es[n], cur);
      if !ok { return; }
      ghost var cur' := Step(p.env, cur, OpOf(p, es[n]));
      MoreReported(r, cur, cur', log, checks, alarms, ups, ralist, als);
      cur := cur';
      log, checks, alarms := log + ups, checks + ralist, alarms + als;
      n := n + 1;
    }
  }

  // These are the reports of the run from r to r'.
  predicate Reported(r: Run, r': Run, log: seq<Update>, checks: seq<LinkRecord>, alarms: seq<Alarm>) {
    r'.log == r.log + log && r'.checks == r.checks + checks && r'.alarms == r.alarms + alarms
  }

  lemma NothingReported(r: Run)
    ensures Reported(r, r, [], [], [])
  {}

  lemma MoreReported(r: Run, r1: Run, r2: Run, log: seq<Update>, checks: seq<LinkRecord>, alarms: seq<Alarm>,
                     ups: seq<Update>, ralist: seq<LinkRecord>, als: seq<Alarm>)
    requires Reported(r, r1, log, checks, alarms) && Reported(r1, r2, ups, ralist, als)
    ensures Reported(r, r2, log + ups, checks + ralist, alarms + als)
  {
    assert (r.log + log) + ups == r.log + (log + ups);
    assert (r.checks + checks) + ralist == r.checks + (checks + ralist);
    assert (r.alarms + alarms) + als == r.alarms + (alarms + als);
  }

  lemma {:induction false} OpsAppend(p: Program, es: seq<Event>, e: Event)
    ensures OpsOf(p, es + [e]) == OpsOf(p, es) + [OpOf(p, e)]
  {
    hide OpOf;
    if es == [] {
      assert OpsOf(p, []) == [] && [e][1..] == [];
    } else {
      OpsAppend(p, es[1..], e);
      assert (es + [e])[1..] == es[1..] + [e];
    }
  }

  lemma {:induction false} StepsAppend(env: Env, r: Run, ops: seq<Op>, op: Op)
    requires Ok(env, r) && OpsKnown(env, ops) && OpKnown(env, op)
    ensures OpsKnown(env, ops + [op]) && Ok(env, Steps(env, r, ops))
    ensures Steps(env, r, ops + [op]) == Step(env, Steps(env, r, ops), op)
    decreases |ops|
  {
    hide Step, OpKnown;
    if ops == [] {
      StepOk(env, r, op);
      assert [op][1..] == [];
    } else {
      StepOk(env, r, ops[0]);
      StepsAppend(env, Step(env, r, ops[0]), ops[1..], op);
      assert (ops + [op])[1..] == ops[1..] + [op];
    }
  }

  // One event more is one step more.
  lemma NextStep(p: Program, r: Run, es: seq<Event>, n: nat)
    requires n < |es| && Ok(p.env, r) && OpsKnown(p.env, OpsOf(p, es)) && OpsKnown(p.env, OpsOf(p, es[..n]))
    ensures OpsKnown(p.env, OpsOf(p, es[..n + 1]))
    ensures var r' := Steps(p.env, r, OpsOf(p, es[..n]));
            && Ok(p.env, r') && StackKnown(p.env, r'.st)
            && Ok(p.env, Step(p.env, r', OpOf(p, es[n])))
            && Step(p.env, r', OpOf(p, es[n])) == Steps(p.env, r, OpsOf(p, es[..n + 1]))
  {
    hide Step, OpOf, OpKnown;
    assert es[..n + 1] == es[..n] + [es[n]];
    OpAt(p, es, n);
    OpsAppend(p, es[..n], es[n]);
    StepsAppend(p.env, r, OpsOf(p, es[..n]), OpOf(p, es[n]));
    StepOk(p.env, Steps(p.env, r, OpsOf(p, es[..n])), OpOf(p, es[n]));
  }

  lemma {:induction false} OpAt(p: Program, es: seq<Event>, n: nat)
    requires n < |es|
    ensures OpOf(p, es[n]) in OpsOf(p, es)
  {
    hide OpOf;
    if n > 0 {
      OpAt(p, es[1..], n - 1);
    }
  }

  lemma StepsEnd(p: Program, r: Run, es: seq<Event>)
    requires Ok(p.env, r)
    ensures OpsKnown(p.env, OpsOf(p, es[..0])) && Steps(p.env, r, OpsOf(p, es[..0])) == r
  {}

  // The start: the frame of the globals, an empty stack and an empty heap map.
  method Start(p: Program, mem: Memory) returns (stack: RuntimeStack, heap: Map, ghost r: Run)
    requires AllKnown(p.env, GlobalRecords(p.cus))
    ensures fresh(stack) && fresh(heap) && fresh(stack.global) && stack.frames == []
    ensures forall x <- stack.global.recs :: fresh(x)
    ensures Begins(p.env, r) && Shows(r, stack, heap) && r.mem == mem && r.st.global.recs == GlobalRecords(p.cus)
  {
    hide AllKnown, GlobalRecords;
    var g := MakeGlobalFrame(p.cus);
    stack := new RuntimeStack(g);
    heap := new Map();
    GlobalPlaces(p.cus);
    r := Run(stack.View(), mem, [], 1, [], [], [], []);
  }

  // A program from its start to wherever the events lead, all of them unless one cannot
  // happen. The result is that of the run of their steps, so the reports tell, record by
  // record, every value that has been stored, the links are in step, and no frame of the
  // stack refers to a block that is freed.
  method MonitorProgram(p: Program, mem: Memory, es: seq<Event>)
    returns (n: nat, log: seq<Update>, checks: seq<LinkRecord>, alarms: seq<Alarm>, stack: RuntimeStack, heap: Map,
             ghost r0: Run)
    requires AllLinked(p.env, p.cus) && AllKnown(p.env, GlobalRecords(p.cus)) && OpsKnown(p.env, OpsOf(p, es))
    ensures Begins(p.env, r0) && r0.mem == mem && r0.st.global.recs == GlobalRecords(p.cus) && Ok(p.env, r0)
    ensures n <= |es| && OpsKnown(p.env, OpsOf(p, es[..n]))
    ensures var r := Steps(p.env, r0, OpsOf(p, es[..n]));
            && Shows(r, stack, heap) && r.log == log && r.checks == checks && r.alarms == alarms
            && LogFaithful(p.env, r) && BlocksLive(r) && LinksInStep(r)
            && (n < |es| ==> !CanHappen(p, r, es[n]))
  {
    hide *;
    stack, heap, r0 := Start(p, mem);
    BeginsOk(p.env, r0);
    RecordOwners(stack);
    n, log, checks, alarms := Drive(p, stack, heap, es, r0);
    ProgramFaithful(p.env, r0, OpsOf(p, es[..n]));
    ProgramAlarmsExactly(p.env, r0, OpsOf(p, es[..n]));
    StartsLive(p.env, r0);
    RunLive(p.env, r0, OpsOf(p, es[..n]));
    FirstReports(r0, Steps(p.env, r0, OpsOf(p, es[..n])), log, checks, alarms);
  }

  lemma FirstReports(r: Run, r': Run, log: seq<Update>, checks: seq<LinkRecord>, alarms: seq<Alarm>)
    requires Reported(r, r', log, checks, alarms) && r.log == [] && r.checks == [] && r.alarms == []
    ensures r'.log == log && r'.checks == checks && r'.alarms == alarms
  {}

  lemma StartsLive(env: Env, r: Run)
    requires Begins(env, r)
    ensures BlocksLive(r) && r.log == [] && r.checks == [] && r.alarms == []
  {}

  // ------------------------------------------------------------------ live frames

  // The functions that are entered and not left after these events, innermost first, with
  // the instruction that they were entered at and the base pointer that was given last.
  datatype Entered = Entered(ip: u64, ebp: u64, isSetUp: bool)

  function EnteredAfter(live: seq<Entered>, e: Event): seq<Entered> {
    match e
    case Enter(_, ip, ebp, _) => [Entered(ip, ebp, false)] + live
    case Leave => Behind(live)
    case EntryDone(_, ebp) =>
      if live == [] || live[0].isSetUp then live else [live[0].(ebp := ebp, isSetUp := true)] + live[1..]
    case _ => live
  }

  function Live(live: seq<Entered>, es: seq<Event>): seq<Entered>
    decreases |es|
  {
    if es == [] then live else Live(EnteredAfter(live, es[0]), es[1..])
  }

  ghost predicate ActsFor(p: Program, acts: seq<Activation>, live: seq<Entered>) {
    && |acts| == |live|
    && forall i :: 0 <= i < |live| ==>
         && acts[i].ebp == live[i].ebp && acts[i].isSetUp == live[i].isSetUp
         && acts[i].vars == VariablesAt(p, live[i].ip)
  }

  lemma {:induction false} LiveActs(p: Program, es: seq<Event>, acts: seq<Activation>, live: seq<Entered>, next: nat)
    requires ActsFor(p, acts, live)
    ensures ActsFor(p, Activations(acts, next, OpsOf(p, es)), Live(live, es))
    decreases |es|
  {
    hide VariablesAt;
    if es != [] {
      var ops := OpsOf(p, es);
      assert ops[0] == OpOf(p, es[0]) && ops[1..] == OpsOf(p, es[1..]);
      LiveActs(p, es[1..], ActsAfter(acts, next, ops[0]), EnteredAfter(live, es[0]),
               if ops[0].Call? then next + 1 else next);
    }
  }

  // Whatever has happened: the stack has exactly the functions that are entered and not
  // left, each with the base pointer that it was given last; and for each the address
  // translation, for any instruction of that function and with that base pointer, finds
  // the variable that its frame has first at an address, and a global exactly when the
  // frame has none there.
  lemma MonitoredFrameAgrees(p: Program, r: Run, es: seq<Event>, i: nat, pc: u64, a: u64)
    requires Begins(p.env, r) && Ok(p.env, r) && OpsKnown(p.env, OpsOf(p, es))
    ensures var frames := Steps(p.env, r, OpsOf(p, es)).st.frames; var live := Live([], es);
            && |frames| == |live|
            && (i < |live| ==>
                  && frames[i].ebp == live[i].ebp
                  && var fn := FunctionAt(p.cus, p.textBase, live[i].ip);
                     fn.Some? && FunctionAt(p.cus, p.textBase, pc) == fn ==>
                       Agrees(p.env, p.textBase, p.cus, pc, frames[i], a))
  {
    hide Agrees, Ok, OpsKnown, Steps, OwnVariables, FunctionAt, Begins, OpsOf, Live, Activations;
    LiveActs(p, es, [], [], r.next);
    LiveFrameAgrees(p.env, p.textBase, p.cus, r, OpsOf(p, es), i, pc, a);
  }

  // ------------------------------------------------------------------ from a loaded file

  lemma EventKnown(p: Program, e: Event)
    requires forall c <- p.cus :: V.LocalsKnown(p.env, c.rec.vars)
    ensures OpKnown(p.env, OpOf(p, e))
  {
    hide OwnVariables, AllKnown, NewRecords;
    if e.Enter? {
      var unit := First(p.cus, UnitHasPc(p.textBase, e.ip));
      FirstMeaning(p.cus, UnitHasPc(p.textBase, e.ip));
      if unit.Some? {
        assert unit.value in p.cus;
        FirstMeaning(unit.value.rec.vars, HasPc(p.textBase, e.ip));
      }
      NoneKnown(p.env);
    }
  }

  lemma NoneKnown(env: Env)
    ensures AllKnown(env, NewRecords([]))
  {}

  lemma {:induction false} EventsKnown(p: Program, es: seq<Event>)
    requires forall c <- p.cus :: V.LocalsKnown(p.env, c.rec.vars)
    ensures OpsKnown(p.env, OpsOf(p, es))
  {
    hide OpKnown, OpOf, V.LocalsKnown;
    if es != [] {
      EventKnown(p, es[0]);
      EventsKnown(p, es[1..]);
    }
  }

  // Whatever file has been loaded: if all its types are there, structs do not lie in
  // themselves and arrays are sized, then the program can be monitored, through whatever
  // events.
  lemma LoadedCanBeMonitored(bs: seq<byte>, env: Env, textBase: u64, n: nat, ids: V.Ids, es: seq<Event>)
    requires D.ParseFile(bs).Read?
    requires var l := D.ParseFile(bs).tables;
             && env.types == V.TypeMap(l.types) && V.TypedVars(V.LayoutTypes(env.types), l.vars, n)
             && V.ArraysSized(env)
    ensures var l := D.ParseFile(bs).tables;
            && V.ShapedVars(l.vars)
            && var p := Program(env, textBase, V.UnitsOf(V.LayoutTypes(env.types), n, ids, l));
               AllLinked(env, p.cus) && AllKnown(env, GlobalRecords(p.cus)) && OpsKnown(env, OpsOf(p, es))
  {
    hide D.ParseFile, AllLinked, AllKnown, V.LocalsKnown, V.TypedVars, V.ArraysSized, V.UnitsOf;
    V.LoadedPremises(bs, env, n, ids);
    var l := D.ParseFile(bs).tables;
    EventsKnown(Program(env, textBase, V.UnitsOf(V.LayoutTypes(env.types), n, ids, l)), es);
  }
}
