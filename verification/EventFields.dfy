// What each event does to the state of a run, field by field, and in which order the
// variables are reported.
module EventFields {
  import opened Words
  import opened SymbolTables
  import opened HeapMap
  import opened ShadowStack
  import opened ShadowRuns
  import opened StackLinks
  import opened AddressTranslation
  import opened Monitor
  import opened WordFields
  import opened LinkFields
  import opened ScanFields
  import V = ViewFields

  // ------------------------------------------------------------------ calls and returns

  // Nothing has been looked at.
  ghost predicate NothingSeen(r: Run, r': Run) {
    && r'.mem == r.mem && r'.heap == r.heap && r'.log == r.log && r'.checks == r.checks && r'.alarms == r.alarms
    && r'.st.global == r.st.global && r'.st.accessed == r.st.accessed
  }

  // The value of a variable that has not been looked at, "<NOVALUE>".
  const UNKNOWN: seq<byte> := [0x3C, 0x4E, 0x4F, 0x56, 0x41, 0x4C, 0x55, 0x45, 0x3E]

  // A function that is entered has a frame in front of all others, with the base pointer of
  // its caller, a record for each of its variables, and the two words above that base
  // pointer.
  lemma EnterEffect(p: Program, r: Run, e: Event)
    requires StackKnown(p.env, r.st) && e.Enter?
    ensures var r' := Step(p.env, r, OpOf(p, e)); var vars := VariablesAt(p, e.ip);
            && NothingSeen(r, r') && r'.next == r.next + 1
            && |r'.st.frames| == |r.st.frames| + 1 && r'.st.frames[1..] == r.st.frames
            && (var f := r'.st.frames[0];
                && f.id == r.next && f.ebp == e.ebp && f.firstAccess && |f.recs| == |vars|
                && forall i :: 0 <= i < |vars| ==>
                     f.recs[i] == RecordView(i, vars[i].key, vars[i].rec, UNKNOWN, None))
            && r'.links == [LinkView(e.name, e.ebp, WordAt(e.mem, Above(e.ebp, 8)), WordAt(e.mem, Above(e.ebp, 16)),
                                     true)] + r.links
  {
    hide FunctionAt, OwnVariables, Load, NewRecords, WordAt, Above, VariablesAt, Pushed;
    PushedFields(e.mem, e.name, e.ebp);
    var vars := VariablesAt(p, e.ip);
    forall i | 0 <= i < |vars| ensures NewRecords(vars)[i] ==
      RecordView(i, vars[i].key, vars[i].rec, UNKNOWN, None)
    {
      V.RecordFields(vars, i);
    }
  }

  // Its variables are those of the function that has the instruction.
  lemma VariablesOf(p: Program, ip: u64)
    ensures var f := FunctionAt(p.cus, p.textBase, ip);
            VariablesAt(p, ip) ==
            if f.Some? && f.value.rec.locals.Some? then OwnVariables(f.value.rec.locals.value) else []
  {
    hide FunctionAt;
  }

  // A function that is left takes its frame and its links with it.
  lemma LeaveEffect(p: Program, r: Run, e: Event)
    requires Ok(p.env, r) && e.Leave?
    ensures StackKnown(p.env, r.st)
    ensures var r' := Step(p.env, r, OpOf(p, e));
            && NothingSeen(r, r') && r'.next == r.next
            && if r.st.frames == [] then r'.st.frames == [] && r'.links == []
               else r'.st.frames == r.st.frames[1..] && r'.links == r.links[1..]
  {
    hide AllKnown;
  }

  // ------------------------------------------------------------------ scans

  // The stack is scanned for the address, or for all with address 0, with this memory, and
  // then the links are checked.
  ghost predicate Accessed(env: Env, r: Run, st: StackView, links: seq<LinkView>, mem: Memory, a: u64, r': Run)
    requires StackKnown(env, st)
  {
    var (st', ups) := ScanStack(env, mem, r.heap, st, a);
    && r'.st == st' && r'.log == r.log + ups && r'.mem == mem && r'.heap == r.heap && r'.next == r.next
    && |r'.links| == |links|
    && (forall i :: 0 <= i < |links| ==>
          && r'.links[i].name == links[i].name && r'.links[i].ebp == links[i].ebp
          && r'.links[i].oldRbp == WordAt(mem, links[i].ebp)
          && r'.links[i].returnAddr == WordAt(mem, Above(links[i].ebp, 8)))
    && r'.checks == r.checks + Records(mem, links) && r'.alarms == r.alarms + Alarms(mem, links)
  }

  lemma AccessedBy(env: Env, r: Run, mem: Memory, a: u64)
    requires StackKnown(env, r.st)
    ensures var r' := Checked(Scanned(env, r, mem, a), mem);
            && Accessed(env, r, r.st, r.links, mem, a, r')
            && forall i :: 0 <= i < |r.links| ==> r'.links[i].beforeSetup == r.links[i].beforeSetup
  {
    hide ScanStack, WordAt, Refreshed, Above, Records, Alarms, StackKnown;
    forall i | 0 <= i < |r.links|
      ensures Refreshed(mem, r.links[i]) ==
              LinkView(r.links[i].name, r.links[i].ebp, WordAt(mem, r.links[i].ebp),
                       WordAt(mem, Above(r.links[i].ebp, 8)), r.links[i].beforeSetup)
    {
      RefreshedFields(mem, r.links[i]);
    }
  }

  // A write is looked at once the innermost function is past its setup; a library call
  // always is, and all variables are.
  lemma AccessEffect(p: Program, r: Run, e: Event)
    requires StackKnown(p.env, r.st) && (e.Wrote? || e.Called?)
    ensures var r' := Step(p.env, r, OpOf(p, e));
            if e.Wrote? && (r.links == [] || r.links[0].beforeSetup) then r' == r
            else
              && Accessed(p.env, r, r.st, r.links, e.mem, if e.Wrote? then e.address else 0, r')
              && forall i :: 0 <= i < |r.links| ==> r'.links[i].beforeSetup == r.links[i].beforeSetup
  {
    hide Accessed, Scanned, Checked, StackKnown;
    AccessedBy(p.env, r, e.mem, if e.Wrote? then e.address else 0);
  }

  // The stack with another base pointer in the innermost frame.
  function Rebased(st: StackView, ebp: u64): StackView
    requires st.frames != []
  {
    st.(frames := [st.frames[0].(ebp := ebp)] + st.frames[1..])
  }

  // A function that is set up has its own base pointer from then on; everything is looked
  // at, and the function is past its setup. At a function that is past it nothing happens.
  lemma SetupEffect(p: Program, r: Run, e: Event)
    requires Ok(p.env, r) && e.EntryDone?
    ensures StackKnown(p.env, r.st)
    ensures var r' := Step(p.env, r, OpOf(p, e));
            if r.links == [] || !r.links[0].beforeSetup then r' == r
            else
              var links := [r.links[0].(ebp := e.ebp)] + r.links[1..];
              && r.st.frames != [] && StackKnown(p.env, Rebased(r.st, e.ebp))
              && Accessed(p.env, r, Rebased(r.st, e.ebp), links, e.mem, 0, r')
              && forall i :: 0 <= i < |r.links| ==> r'.links[i].beforeSetup == (i > 0 && r.links[i].beforeSetup)
  {
    hide Accessed, Scanned, Checked, StackKnown, Ok, WithContext, SetupDone, Rebased;
    OkKnown(p.env, r);
    if r.links != [] && r.links[0].beforeSetup {
      ContextIs(p.env, r, e.ebp);
      var r1 := WithContext(r, e.ebp);
      AccessedBy(p.env, r1, e.mem, 0);
      SettledIs(p.env, r1, Checked(Scanned(p.env, r1, e.mem, 0), e.mem), e.mem);
      SameButContext(p.env, r, r1, r1.st, r1.links, e.mem, SetupDone(Checked(Scanned(p.env, r1, e.mem, 0), e.mem)));
    }
  }

  lemma ContextIs(env: Env, r: Run, ebp: u64)
    requires Ok(env, r) && r.links != []
    ensures r.st.frames != []
    ensures var r' := WithContext(r, ebp);
            && r'.st == Rebased(r.st, ebp) && r'.links == [r.links[0].(ebp := ebp)] + r.links[1..]
            && StackKnown(env, r'.st) && r' == r.(st := r'.st, links := r'.links)
  {
    OkPaired(env, r);
    OkKnown(env, r);
    ContextKnown(env, r, ebp);
    hide Ok, StackKnown;
  }

  lemma SettledIs(env: Env, r: Run, r': Run, mem: Memory)
    requires StackKnown(env, r.st) && Accessed(env, r, r.st, r.links, mem, 0, r') && r.links != []
    ensures Accessed(env, r, r.st, r.links, mem, 0, SetupDone(r'))
    ensures !SetupDone(r').links[0].beforeSetup
    ensures forall i :: 0 < i < |r.links| ==> SetupDone(r').links[i] == r'.links[i]
  {
    hide ScanStack, StackKnown, WordAt, Above, Records, Alarms;
  }

  lemma SameButContext(env: Env, r: Run, r1: Run, st: StackView, links: seq<LinkView>, mem: Memory, r': Run)
    requires StackKnown(env, st) && r1 == r.(st := r1.st, links := r1.links)
    requires Accessed(env, r1, st, links, mem, 0, r')
    ensures Accessed(env, r, st, links, mem, 0, r')
  {
    hide ScanStack, StackKnown, WordAt, Above, Records, Alarms;
  }

  // ------------------------------------------------------------------ the heap

  // The block has the address.
  predicate Has(b: Block, a: u64) { Within(b.start, b.size, a) }

  // The block that a search for an address finds is the first that has it.
  lemma {:induction false} FoundExactly(bs: Blocks, a: u64)
    ensures Scan(bs, a).None? <==> forall b <- bs :: !Has(b, a)
    ensures Scan(bs, a).Some? ==>
              exists i :: && 0 <= i < |bs| && Scan(bs, a) == Some(bs[i]) && Has(bs[i], a)
                          && forall j :: 0 <= j < i ==> !Has(bs[j], a)
  {
    if bs != [] {
      FoundExactly(bs[1..], a);
      assert bs == [bs[0]] + bs[1..];
      if bs[0].Contains(a) {
        assert Has(bs[0], a);
      } else if Scan(bs[1..], a).Some? {
        var tail := bs[1..];
        var i :| 0 <= i < |tail| && Scan(tail, a) == Some(tail[i]) && Has(tail[i], a) &&
                 forall j :: 0 <= j < i ==> !Has(tail[j], a);
        assert bs[i + 1] == tail[i];
        forall j | 0 <= j < i + 1 ensures !Has(bs[j], a) {
          assert j > 0 ==> bs[j] == tail[j - 1];
        }
      }
    }
  }

  // An allocation and a free change the heap map and nothing else, but that the records of
  // the stack, not those of the globals, lose the block that is freed.
  lemma HeapEffect(p: Program, r: Run, e: Event)
    requires Ok(p.env, r) && (e.Allocated? || e.Released?)
    ensures StackKnown(p.env, r.st)
    ensures var r' := Step(p.env, r, OpOf(p, e));
            && r'.mem == r.mem && r'.log == r.log && r'.checks == r.checks && r'.alarms == r.alarms
            && r'.links == r.links && r'.next == r.next && r'.st.global == r.st.global
            && r'.st.accessed == r.st.accessed && |r'.st.frames| == |r.st.frames|
    ensures var r' := Step(p.env, r, OpOf(p, e));
            match e
            case Allocated(b) =>
              && r'.st == r.st
              && forall c :: c in r'.heap <==> c in r.heap || (c == b && forall d <- r.heap :: d.start != b.start)
            case Released(a) =>
              && (forall c :: c in r'.heap <==> c in r.heap && Scan(r.heap, a) != Some(c))
              && forall i :: 0 <= i < |r.st.frames| ==> Forgotten(r.st.frames[i], r'.st.frames[i], Scan(r.heap, a))
  {
    hide AllKnown, Scan, Block.Contains;
    OkKnown(p.env, r);
    match e
    case Allocated(b) => InsertMembers(r.heap, b);
    case Released(a) => EraseMembers(r.heap, a);
  }

  // Every record of the frame is as it was, but without the block if it has it.
  ghost predicate Forgotten(f: FrameView, f': FrameView, b: Option<Block>) {
    && f'.id == f.id && f'.ebp == f.ebp && f'.firstAccess == f.firstAccess && |f'.recs| == |f.recs|
    && forall j :: 0 <= j < |f.recs| ==>
         && f'.recs[j].(block := None) == f.recs[j].(block := None)
         && f'.recs[j].block == if f.recs[j].block == b then None else f.recs[j].block
  }

  // The allocations and frees among the steps.
  function HeapOps(ops: seq<Op>): seq<HeapOp> {
    if ops == [] then []
    else
      (match ops[0]
       case Malloc(b) => [Added(b)]
       case Free(a) => [Freed(a)]
       case _ => []) + HeapOps(ops[1..])
  }

  // Over every run the heap map is the one that the allocations and frees alone lead to.
  lemma {:induction false} HeapOfRun(env: Env, r: Run, ops: seq<Op>)
    requires Ok(env, r) && OpsKnown(env, ops)
    ensures Steps(env, r, ops).heap == AfterAll(r.heap, HeapOps(ops))
    decreases |ops|
  {
    hide OpKnown, Ok, Step;
    if ops != [] {
      assert ops[0] in ops;
      StepOk(env, r, ops[0]);
      OkKnown(env, r);
      HeapOfRun(env, Step(env, r, ops[0]), ops[1..]);
      HeapOfStep(env, r, ops[0]);
      match ops[0]
      case Malloc(b) => assert ([Added(b)] + HeapOps(ops[1..]))[1..] == HeapOps(ops[1..]);
      case Free(a) => assert ([Freed(a)] + HeapOps(ops[1..]))[1..] == HeapOps(ops[1..]);
      case _ => assert [] + HeapOps(ops[1..]) == HeapOps(ops[1..]);
    }
  }

  lemma HeapOfStep(env: Env, r: Run, op: Op)
    requires StackKnown(env, r.st)
    ensures Step(env, r, op).heap == match op
                                     case Malloc(b) => Insert(r.heap, b)
                                     case Free(a) => Erase(r.heap, a)
                                     case _ => r.heap
  {
    hide ScanStack;
  }

  // So from the start of a program, with an allocator that keeps live blocks apart, the map
  // holds exactly the blocks that are allocated and not freed.
  lemma ProgramHeap(env: Env, r: Run, ops: seq<Op>, a: u64)
    requires Begins(env, r) && Ok(env, r) && OpsKnown(env, ops) && r.heap == [] && Sound({}, HeapOps(ops))
    ensures var bs, live := Steps(env, r, ops).heap, LiveAll({}, HeapOps(ops));
            && (forall b :: b in bs <==> b in live)
            && (Scan(bs, a).None? <==> forall b <- live :: !Has(b, a))
            && forall b <- live :: Has(b, a) ==> Scan(bs, a) == Some(b)
  {
    hide Steps, Begins, Ok, OpsKnown, Scan, Sound, HeapMap.LiveAll;
    HeapOfRun(env, r, ops);
    RunHolds([], {}, HeapOps(ops), a);
    assert forall b: Block :: b.Contains(a) <==> Has(b, a);
  }

  // ------------------------------------------------------------------ the order of reports

  // The updates of these records of a frame, record after record.
  function PartsOf(ups: seq<Update>, frame: nat, rs: seq<RecordView>): seq<Update> {
    if rs == [] then [] else Part(ups, frame, rs[0].place) + PartsOf(ups, frame, rs[1..])
  }

  function PartsOfAll(ups: seq<Update>, frs: seq<FrameView>): seq<Update> {
    if frs == [] then [] else PartsOf(ups, frs[0].id, frs[0].recs) + PartsOfAll(ups, frs[1..])
  }

  lemma {:induction false} PartsBehind(a: seq<Update>, b: seq<Update>, frame: nat, rs: seq<RecordView>)
    requires forall u <- a :: u.frame != frame || forall r <- rs :: u.place != r.place
    ensures PartsOf(a + b, frame, rs) == PartsOf(b, frame, rs)
  {
    hide Part;
    if rs != [] {
      assert rs[0] in rs && forall r <- rs[1..] :: r in rs;
      PartsBehind(a, b, frame, rs[1..]);
      PartAppend(a, b, frame, rs[0].place);
      PartNone(a, frame, rs[0].place);
    }
  }

  lemma {:induction false} PartsBefore(a: seq<Update>, b: seq<Update>, frame: nat, rs: seq<RecordView>)
    requires forall u <- b :: u.frame != frame
    ensures PartsOf(a + b, frame, rs) == PartsOf(a, frame, rs)
  {
    hide Part;
    if rs != [] {
      PartsBefore(a, b, frame, rs[1..]);
      PartAppend(a, b, frame, rs[0].place);
      PartNone(b, frame, rs[0].place);
      assert Part(a, frame, rs[0].place) + [] == Part(a, frame, rs[0].place);
    }
  }

  lemma {:induction false} PartsAllBehind(a: seq<Update>, b: seq<Update>, frs: seq<FrameView>)
    requires forall u <- a :: forall f <- frs :: u.frame != f.id
    ensures PartsOfAll(a + b, frs) == PartsOfAll(b, frs)
  {
    if frs != [] {
      PartsBehind(a, b, frs[0].id, frs[0].recs);
      PartsAllBehind(a, b, frs[1..]);
    }
  }

  lemma {:induction false} RecordsInOrder(env: Env, mem: Memory, heap: Blocks, fr: FrameView, rs: seq<RecordView>,
                                          a: u64, acc: set<nat>)
    requires AllKnown(env, rs) && DistinctPlaces(rs)
    ensures var ups := ScanRecords(env, mem, heap, fr, rs, a, acc).2; PartsOf(ups, fr.id, rs) == ups
  {
    hide ScanRecord, Known;
    if rs != [] {
      assert rs[0] in rs;
      var (r, acc1, ups) := ScanRecord(env, mem, heap, fr, rs[0], a, acc);
      var tail := rs[1..];
      assert AllKnown(env, tail);
      var ups' := ScanRecords(env, mem, heap, fr, tail, a, acc1).2;
      RecordReports(env, mem, heap, fr, rs[0], a, acc);
      RecordsInOrder(env, mem, heap, fr, tail, a, acc1);
      RecordsPlaces(env, mem, heap, fr, tail, a, acc1, rs[0].place);
      PartAppend(ups, ups', fr.id, rs[0].place);
      PartAll(ups, fr.id, rs[0].place);
      PartNone(ups', fr.id, rs[0].place);
      PartsBehind(ups, ups', fr.id, tail);
      assert ups + [] == ups;
    }
  }

  lemma {:induction false} FramesInOrder(env: Env, mem: Memory, heap: Blocks, frs: seq<FrameView>, a: u64,
                                         acc: set<nat>)
    requires (forall f <- frs :: AllKnown(env, f.recs) && DistinctPlaces(f.recs)) && DistinctFrames(frs)
    ensures var ups := ScanFrames(env, mem, heap, frs, a, acc).2; PartsOfAll(ups, frs) == ups
  {
    hide ScanFrame, ScanRecords, Known, DistinctPlaces, AllKnown;
    if frs != [] {
      assert frs[0] in frs;
      var (f, acc1, ups) := ScanFrame(env, mem, heap, frs[0], a, acc);
      var tail := frs[1..];
      var ups' := ScanFrames(env, mem, heap, tail, a, acc1).2;
      OneInOrder(env, mem, heap, frs[0], a, acc);
      FramesInOrder(env, mem, heap, tail, a, acc1);
      FramesReport(env, mem, heap, tail, a, acc1);
      forall q | q in tail ensures q.id != frs[0].id {
        var k :| 0 <= k < |tail| && tail[k] == q;
        assert q == frs[k + 1];
      }
      PartsBefore(ups, ups', frs[0].id, frs[0].recs);
      PartsAllBehind(ups, ups', tail);
    }
  }

  lemma OneInOrder(env: Env, mem: Memory, heap: Blocks, f: FrameView, a: u64, acc: set<nat>)
    requires AllKnown(env, f.recs) && DistinctPlaces(f.recs)
    ensures var ups := ScanFrame(env, mem, heap, f, a, acc).2;
            PartsOf(ups, f.id, f.recs) == ups && forall u <- ups :: u.frame == f.id
  {
    hide ScanRecords, Known;
    RecordsInOrder(env, mem, heap, f, f.recs, a, acc);
    RecordsScan(env, mem, heap, f, f.recs, a, acc);
  }

  // What a scan reports comes frame after frame, from the innermost to the globals, and in
  // each frame record after record.
  lemma ReportedInOrder(env: Env, r: Run, mem: Memory, a: u64)
    requires Ok(env, r)
    ensures StackKnown(env, r.st)
    ensures var ups := ScanStack(env, mem, r.heap, r.st, a).1; ups == PartsOfAll(ups, r.st.frames + [r.st.global])
  {
    hide ScanStack, ScanFrames, Known, DistinctPlaces, PartsOfAll;
    OkKnown(env, r);
    AsOneList(env, mem, r.heap, r.st, a);
    FramesInOrder(env, mem, r.heap, AllFrames(r.st), a, r.st.accessed);
  }
}
