// Whole runs of the shadow stack: calls, setups and returns, program writes each
// followed by a scan of the written address, library calls followed by a full scan,
// allocations and frees.
module ShadowRuns {
  import opened Words
  import opened Bytes
  import opened SymbolTables
  import opened HeapMap
  import opened DebugFile
  import opened ShadowStack
  import opened StackLinks
  import AsciiText

  // ------------------------------------------------------------------ one variable

  // A variable with one remembered value: a scalar, a pointer, or an array that the
  // scan treats like one, such as a string.
  predicate Tracked(env: Env, v: Var) { v.typ in env.types && KindOf(env, env.types[v.typ]).AsScalar? }

  // The text of the variable's value in memory now.
  function Current(env: Env, mem: Memory, ebp: u64, v: Var): seq<byte>
    requires v.typ in env.types
  {
    TextAt(env, mem, env.types[v.typ], BaseAddress(env, ebp, v))
  }

  // The bytes that this text depends on.
  function Seen(env: Env, mem: Memory, ebp: u64, v: Var): seq<Option<byte>>
    requires v.typ in env.types
  {
    var t := env.types[v.typ];
    Window(mem, BaseAddress(env, ebp, v), if t.isPointer then 8 else env.width(t))
  }

  predicate Hit(env: Env, fr: FrameView, v: Var, a: u64)
    requires v.typ in env.types
  {
    IsAtAddress(env, fr.ebp, v, env.types[v.typ], a)
  }

  // The values that a scan reports for the variable of a record.
  function OwnTexts(env: Env, mem: Memory, fr: FrameView, r: RecordView, a: u64): seq<seq<byte>>
    requires r.v.typ in env.types
  {
    if !(a == 0 || fr.firstAccess || Hit(env, fr, r.v, a)) then []
    else
      var text := TextAt(env, mem, env.types[r.v.typ], Target(env, fr, r.v, a));
      if fr.firstAccess || text != r.value then [text] else []
  }

  // The value that is remembered after a scan.
  function Remembered(env: Env, mem: Memory, fr: FrameView, r: RecordView, a: u64): seq<byte>
    requires r.v.typ in env.types
  {
    if a == 0 || fr.firstAccess then Current(env, mem, fr.ebp, r.v)
    else if Hit(env, fr, r.v, a) then TextAt(env, mem, env.types[r.v.typ], a)
    else r.value
  }

  // The block that is remembered: for a pointer that is looked at, the block with the
  // address that it holds, and otherwise, or if there is none, the one before.
  function RememberedBlock(env: Env, mem: Memory, heap: Blocks, fr: FrameView, r: RecordView, a: u64): Option<Block>
    requires r.v.typ in env.types
  {
    if env.types[r.v.typ].isPointer && (a == 0 || fr.firstAccess || Hit(env, fr, r.v, a))
    then OrElse(Scan(heap, LoadedWord(Load(mem, Target(env, fr, r.v, a)))), r.block)
    else r.block
  }

  // Whose reports: those made by one record of a frame, or those that the trace shows
  // for one variable of a frame.
  datatype Whose = OfRecord(frame: nat, place: nat) | OfVariable(frame: nat, id: nat)

  predicate Picks(w: Whose, u: Update) {
    && u.source.Declared? && u.frame == w.frame
    && match w
       case OfRecord(_, place) => u.place == place
       case OfVariable(_, id) => u.id == id
  }

  predicate Owns(w: Whose, r: RecordView) {
    match w
    case OfRecord(_, place) => r.place == place
    case OfVariable(_, id) => r.v.id == id
  }

  // These reports in a list of updates, as values.
  function Texts(ups: seq<Update>, w: Whose): seq<seq<byte>> {
    if ups == [] then [] else (if Picks(w, ups[0]) then [ups[0].value] else []) + Texts(ups[1..], w)
  }

  lemma {:induction false} TextsAppend(a: seq<Update>, b: seq<Update>, w: Whose)
    ensures Texts(a + b, w) == Texts(a, w) + Texts(b, w)
  {
    if a == [] {
      assert a + b == b;
    } else {
      assert (a + b)[1..] == a[1..] + b;
      TextsAppend(a[1..], b, w);
    }
  }

  lemma {:induction false} SilentTexts(ups: seq<Update>, w: Whose)
    requires forall u <- ups :: !Picks(w, u)
    ensures Texts(ups, w) == []
  {
    if ups != [] {
      SilentTexts(ups[1..], w);
    }
  }

  // The update was made by this record.
  predicate NamesRecord(u: Update, f: nat, r: RecordView) { u.frame == f && u.place == r.place && u.id == r.v.id }

  lemma {:induction false} ElementsOnly(env: Env, mem: Memory, f: nat, r: RecordView, t: LoadedType, et: LoadedType,
                                        base: u64, i: nat)
    requires t.upperBound < 0xFFFF_FFFF
    ensures forall u <- Elements(env, mem, f, r, t, et, base, i) :: NamesRecord(u, f, r) && u.source.Element?
    decreases t.upperBound + 1 - i
  {
    hide ReadValue, IndexText, Add, Mul;
    if i <= t.upperBound {
      ElementsOnly(env, mem, f, r, t, et, base, i + 1);
    }
  }

  lemma {:induction false} MembersOnly(env: Env, mem: Memory, f: nat, r: RecordView, ms: Table<Var>, a: u64)
    requires r.v.typ in env.types && forall m <- ms :: m.rec.typ in env.types
    ensures forall u <- Members(env, mem, f, r, ms, a) :: NamesRecord(u, f, r) && u.source.MemberOf?
  {
    hide ReadValue, Add;
    if ms != [] {
      MembersOnly(env, mem, f, r, ms[1..], Add(a, env.types[ms[0].rec.typ].size));
    }
  }

  // A scan leaves a record in its place, and everything that it reports for the record
  // names it.
  lemma RecordReports(env: Env, mem: Memory, heap: Blocks, fr: FrameView, r: RecordView, a: u64, acc: set<nat>)
    requires Known(env, r.v)
    ensures forall u <- ScanRecord(env, mem, heap, fr, r, a, acc).2 :: NamesRecord(u, fr.id, r)
    ensures var r' := ScanRecord(env, mem, heap, fr, r, a, acc).0;
            r'.place == r.place && r'.v == r.v && r'.name == r.name
  {
    hide ReadValue, BaseAddress, TextAt, Scan, MemberHit, IndexText;
    var t := env.types[r.v.typ];
    var base := BaseAddress(env, fr.ebp, r.v);
    match KindOf(env, t)
    case AsStruct => MembersOnly(env, mem, fr.id, r, r.v.members, base);
    case AsArray => ElementsOnly(env, mem, fr.id, r, t, env.types[t.base.value], base, 0);
    case AsScalar =>
  }

  // A scan of a tracked record, whatever else there is.
  lemma TrackedScan(env: Env, mem: Memory, heap: Blocks, fr: FrameView, r: RecordView, a: u64, acc: set<nat>)
    requires Known(env, r.v) && Tracked(env, r.v)
    ensures var (r', acc', ups) := ScanRecord(env, mem, heap, fr, r, a, acc);
            && r'.value == Remembered(env, mem, fr, r, a)
            && r'.block == RememberedBlock(env, mem, heap, fr, r, a)
            && forall w: Whose :: w.frame == fr.id && Owns(w, r) ==> Texts(ups, w) == OwnTexts(env, mem, fr, r, a)
  {
    var ups := ScanRecord(env, mem, heap, fr, r, a, acc).2;
    forall w: Whose | w.frame == fr.id && Owns(w, r) ensures Texts(ups, w) == OwnTexts(env, mem, fr, r, a) {
      if ups != [] {
        assert Picks(w, ups[0]) && ups[1..] == [];
      }
    }
  }

  // ------------------------------------------------------------------ all frames

  // No other record has its place.
  ghost predicate DistinctPlaces(rs: seq<RecordView>) {
    forall i, j :: 0 <= i < j < |rs| ==> rs[i].place != rs[j].place
  }

  lemma {:induction false} RecordsScan(env: Env, mem: Memory, heap: Blocks, fr: FrameView, rs: seq<RecordView>, a: u64,
                                       acc: set<nat>)
    requires AllKnown(env, rs)
    ensures var (rs', _, ups) := ScanRecords(env, mem, heap, fr, rs, a, acc);
            && (forall i :: 0 <= i < |rs| ==>
                  rs'[i].place == rs[i].place && rs'[i].v == rs[i].v && rs'[i].name == rs[i].name)
            && (forall u <- ups :: u.frame == fr.id)
  {
    hide ScanRecord;
    if rs != [] {
      RecordReports(env, mem, heap, fr, rs[0], a, acc);
      var (r, acc', ups) := ScanRecord(env, mem, heap, fr, rs[0], a, acc);
      assert AllKnown(env, rs[1..]);
      RecordsScan(env, mem, heap, fr, rs[1..], a, acc');
    }
  }

  lemma {:induction false} ValueInRecords(env: Env, mem: Memory, heap: Blocks, fr: FrameView, rs: seq<RecordView>,
                                          a: u64, acc: set<nat>, i: nat)
    requires AllKnown(env, rs) && i < |rs| && Tracked(env, rs[i].v)
    ensures var r := ScanRecords(env, mem, heap, fr, rs, a, acc).0[i];
            r.value == Remembered(env, mem, fr, rs[i], a) && r.block == RememberedBlock(env, mem, heap, fr, rs[i], a)
    decreases i
  {
    hide ScanRecord, Remembered, RememberedBlock, OwnTexts;
    var (r, acc', ups) := ScanRecord(env, mem, heap, fr, rs[0], a, acc);
    assert AllKnown(env, rs[1..]);
    if i == 0 {
      TrackedScan(env, mem, heap, fr, rs[0], a, acc);
    } else {
      ValueInRecords(env, mem, heap, fr, rs[1..], a, acc', i - 1);
    }
  }

  // The records that these reports come from are tracked.
  ghost predicate OwnersTracked(env: Env, rs: seq<RecordView>, w: Whose) {
    forall r <- rs :: Owns(w, r) ==> Tracked(env, r.v)
  }

  // The values that a scan reports, from all records that they come from.
  function TextsFor(env: Env, mem: Memory, fr: FrameView, rs: seq<RecordView>, a: u64, w: Whose): seq<seq<byte>>
    requires AllKnown(env, rs)
  {
    if rs == [] then []
    else
      (if Owns(w, rs[0]) then OwnTexts(env, mem, fr, rs[0], a) else []) + TextsFor(env, mem, fr, rs[1..], a, w)
  }

  lemma {:induction false} TextsInRecords(env: Env, mem: Memory, heap: Blocks, fr: FrameView, rs: seq<RecordView>,
                                          a: u64, acc: set<nat>, w: Whose)
    requires AllKnown(env, rs) && OwnersTracked(env, rs, w) && w.frame == fr.id
    ensures Texts(ScanRecords(env, mem, heap, fr, rs, a, acc).2, w) == TextsFor(env, mem, fr, rs, a, w)
  {
    hide ScanRecord, Remembered, OwnTexts;
    if rs != [] {
      var (r, acc', ups) := ScanRecord(env, mem, heap, fr, rs[0], a, acc);
      assert AllKnown(env, rs[1..]);
      var ups' := ScanRecords(env, mem, heap, fr, rs[1..], a, acc').2;
      TextsAppend(ups, ups', w);
      TextsInRecords(env, mem, heap, fr, rs[1..], a, acc', w);
      if Owns(w, rs[0]) {
        assert rs[0] in rs;
        TrackedScan(env, mem, heap, fr, rs[0], a, acc);
      } else {
        RecordReports(env, mem, heap, fr, rs[0], a, acc);
        SilentTexts(ups, w);
      }
    }
  }

  lemma {:induction false} TextsAbsent(env: Env, mem: Memory, fr: FrameView, rs: seq<RecordView>, a: u64, w: Whose)
    requires AllKnown(env, rs) && forall r <- rs :: !Owns(w, r)
    ensures TextsFor(env, mem, fr, rs, a, w) == []
  {
    if rs != [] {
      assert rs[0] in rs;
      TextsAbsent(env, mem, fr, rs[1..], a, w);
    }
  }

  // One record alone is the source of these reports.
  ghost predicate Alone(w: Whose, rs: seq<RecordView>, i: nat)
    requires i < |rs|
  {
    Owns(w, rs[i]) && forall j :: 0 <= j < |rs| && j != i ==> !Owns(w, rs[j])
  }

  lemma {:induction false} TextsAlone(env: Env, mem: Memory, fr: FrameView, rs: seq<RecordView>, a: u64, w: Whose,
                                      i: nat)
    requires AllKnown(env, rs) && i < |rs| && Alone(w, rs, i)
    ensures TextsFor(env, mem, fr, rs, a, w) == OwnTexts(env, mem, fr, rs[i], a)
    decreases i
  {
    hide OwnTexts, Owns;
    var tail := rs[1..];
    assert forall k :: 0 <= k < |tail| ==> tail[k] == rs[k + 1];
    if i == 0 {
      TextsAbsent(env, mem, fr, tail, a, w);
    } else {
      TextsAlone(env, mem, fr, tail, a, w, i - 1);
    }
  }

  // The frames of the stack and, behind them, the frame of the globals.
  function AllFrames(st: StackView): seq<FrameView> { st.frames + [st.global] }

  lemma {:induction false} ScanFramesAppend(env: Env, mem: Memory, heap: Blocks, frs: seq<FrameView>, g: FrameView,
                                            a: u64, acc: set<nat>)
    requires (forall f <- frs :: AllKnown(env, f.recs)) && AllKnown(env, g.recs)
    ensures forall f <- frs + [g] :: AllKnown(env, f.recs)
    ensures var (fs, acc1, ups) := ScanFrames(env, mem, heap, frs, a, acc);
            var (g', acc2, ups') := ScanFrame(env, mem, heap, g, a, acc1);
            ScanFrames(env, mem, heap, frs + [g], a, acc) == (fs + [g'], acc2, ups + ups')
  {
    hide ScanFrame;
    if frs == [] {
      assert frs + [g] == [g];
      assert [g][1..] == [];
      var (g', acc2, ups) := ScanFrame(env, mem, heap, g, a, acc);
      assert [g'] + [] == [] + [g'] && ups + [] == [] + ups;
    } else {
      var (f, acc1, ups) := ScanFrame(env, mem, heap, frs[0], a, acc);
      ScanFramesAppend(env, mem, heap, frs[1..], g, a, acc1);
      assert (frs + [g])[1..] == frs[1..] + [g];
      var (fs, acc2, more) := ScanFrames(env, mem, heap, frs[1..], a, acc1);
      var (g', acc3, last) := ScanFrame(env, mem, heap, g, a, acc2);
      assert ([f] + fs) + [g'] == [f] + (fs + [g']);
      assert (ups + more) + last == ups + (more + last);
    }
  }

  // A scan of the stack is a scan of one list of frames.
  lemma AsOneList(env: Env, mem: Memory, heap: Blocks, st: StackView, a: u64)
    requires StackKnown(env, st)
    ensures forall f <- AllFrames(st) :: AllKnown(env, f.recs)
    ensures var (st', ups) := ScanStack(env, mem, heap, st, a);
            ScanFrames(env, mem, heap, AllFrames(st), a, st.accessed) == (AllFrames(st'), st'.accessed, ups)
  {
    ScanFramesAppend(env, mem, heap, st.frames, st.global, a, st.accessed);
  }

  // The scan changes values, blocks and first-access flags, nothing else.
  ghost predicate SameShape(fr: FrameView, fr': FrameView) {
    && fr'.id == fr.id && fr'.ebp == fr.ebp && |fr'.recs| == |fr.recs|
    && forall j :: 0 <= j < |fr.recs| ==>
         fr'.recs[j].place == fr.recs[j].place && fr'.recs[j].v == fr.recs[j].v && fr'.recs[j].name == fr.recs[j].name
  }

  lemma {:induction false} FramesShape(env: Env, mem: Memory, heap: Blocks, frs: seq<FrameView>, a: u64, acc: set<nat>)
    requires forall f <- frs :: AllKnown(env, f.recs)
    ensures var (frs', _, _) := ScanFrames(env, mem, heap, frs, a, acc);
            forall i :: 0 <= i < |frs| ==> SameShape(frs[i], frs'[i]) && !frs'[i].firstAccess
  {
    hide ScanRecords;
    if frs != [] {
      RecordsScan(env, mem, heap, frs[0], frs[0].recs, a, acc);
      var (f, acc', ups) := ScanFrame(env, mem, heap, frs[0], a, acc);
      assert SameShape(frs[0], f);
      FramesShape(env, mem, heap, frs[1..], a, acc');
    }
  }

  // Every update is about one of the frames.
  lemma {:induction false} FramesReport(env: Env, mem: Memory, heap: Blocks, frs: seq<FrameView>, a: u64, acc: set<nat>)
    requires forall f <- frs :: AllKnown(env, f.recs)
    ensures forall u <- ScanFrames(env, mem, heap, frs, a, acc).2 :: exists f :: f in frs && u.frame == f.id
  {
    hide ScanRecords;
    if frs != [] {
      RecordsScan(env, mem, heap, frs[0], frs[0].recs, a, acc);
      var (f, acc', ups) := ScanFrame(env, mem, heap, frs[0], a, acc);
      FramesReport(env, mem, heap, frs[1..], a, acc');
      assert forall f :: f in frs[1..] ==> f in frs;
      assert frs[0] in frs;
    }
  }

  ghost predicate DistinctFrames(frs: seq<FrameView>) {
    forall i, j :: 0 <= i < j < |frs| ==> frs[i].id != frs[j].id
  }

  lemma {:induction false} ValueInFrames(env: Env, mem: Memory, heap: Blocks, frs: seq<FrameView>, a: u64,
                                         acc: set<nat>, i: nat, j: nat)
    requires forall f <- frs :: AllKnown(env, f.recs)
    requires i < |frs| && j < |frs[i].recs| && Tracked(env, frs[i].recs[j].v)
    ensures var frs' := ScanFrames(env, mem, heap, frs, a, acc).0;
            && j < |frs'[i].recs|
            && frs'[i].recs[j].value == Remembered(env, mem, frs[i], frs[i].recs[j], a)
            && frs'[i].recs[j].block == RememberedBlock(env, mem, heap, frs[i], frs[i].recs[j], a)
    decreases i
  {
    hide ScanRecords, Remembered, RememberedBlock;
    var (f, acc', ups) := ScanFrame(env, mem, heap, frs[0], a, acc);
    assert frs[0] in frs;
    if i == 0 {
      ValueInRecords(env, mem, heap, frs[0], frs[0].recs, a, acc, j);
    } else {
      ValueInFrames(env, mem, heap, frs[1..], a, acc', i - 1, j);
    }
  }

  lemma {:induction false} TextsInFrames(env: Env, mem: Memory, heap: Blocks, frs: seq<FrameView>, a: u64,
                                         acc: set<nat>, i: nat, w: Whose)
    requires (forall f <- frs :: AllKnown(env, f.recs)) && DistinctFrames(frs)
    requires i < |frs| && w.frame == frs[i].id && OwnersTracked(env, frs[i].recs, w)
    ensures frs[i] in frs
    ensures Texts(ScanFrames(env, mem, heap, frs, a, acc).2, w) == TextsFor(env, mem, frs[i], frs[i].recs, a, w)
    decreases i
  {
    hide ScanRecords, TextsFor, OwnersTracked;
    var (f, acc', ups) := ScanFrame(env, mem, heap, frs[0], a, acc);
    var tail := frs[1..];
    assert frs[0] in frs;
    var ups' := ScanFrames(env, mem, heap, tail, a, acc').2;
    TextsAppend(ups, ups', w);
    if i == 0 {
      TextsInRecords(env, mem, heap, frs[0], frs[0].recs, a, acc, w);
      FramesReport(env, mem, heap, tail, a, acc');
      forall q | q in tail ensures q.id != frs[0].id {
        var k :| 0 <= k < |tail| && tail[k] == q;
        assert q == frs[k + 1];
      }
      SilentTexts(ups', w);
    } else {
      RecordsScan(env, mem, heap, frs[0], frs[0].recs, a, acc);
      SilentTexts(ups, w);
      TextsInFrames(env, mem, heap, tail, a, acc', i - 1, w);
    }
  }

  // The reports of a scan that come from one record alone.
  lemma AloneInFrames(env: Env, mem: Memory, heap: Blocks, frs: seq<FrameView>, a: u64, acc: set<nat>, i: nat, j: nat,
                      w: Whose)
    requires (forall f <- frs :: AllKnown(env, f.recs)) && DistinctFrames(frs)
    requires i < |frs| && j < |frs[i].recs| && Tracked(env, frs[i].recs[j].v)
    requires w.frame == frs[i].id && Alone(w, frs[i].recs, j)
    ensures Texts(ScanFrames(env, mem, heap, frs, a, acc).2, w) == OwnTexts(env, mem, frs[i], frs[i].recs[j], a)
  {
    hide ScanFrames, TextsFor, OwnTexts, Owns, Tracked;
    TextsInFrames(env, mem, heap, frs, a, acc, i, w);
    TextsAlone(env, mem, frs[i], frs[i].recs, a, w, j);
  }

  lemma ByPlace(f: nat, rs: seq<RecordView>, j: nat)
    requires DistinctPlaces(rs) && j < |rs|
    ensures Alone(OfRecord(f, rs[j].place), rs, j)
  {}

  // ------------------------------------------------------------------ runs

  // What happens to a monitored program. A call enters a function with these
  // variables, while the base pointer is still that of the caller; at the setup the
  // function has its own base pointer, and all is scanned; a write changes memory and,
  // if the innermost frame is set up, is followed by a scan of its address; a library
  // call changes memory and is followed by a full scan. Every scan is followed by a
  // check of the links. A free erases the block and removes it from the records of the
  // stack frames.
  datatype Op =
    | Call(name: seq<byte>, mem: Memory, ebp: u64, vars: seq<Entry<Var>>)
    | Return
    | Setup(mem: Memory, ebp: u64)
    | Write(mem: Memory, address: u64)
    | Library(mem: Memory)
    | Malloc(block: Block)
    | Free(address: u64)

  // `mem` is the memory at the last scan; `next` is the identity of the next frame;
  // `links` are those of the frames of the stack. `log`, `checks` and `alarms` are what
  // has been reported so far.
  datatype Run = Run(st: StackView, mem: Memory, heap: Blocks, next: nat, links: seq<LinkView>, log: seq<Update>,
                     checks: seq<LinkRecord>, alarms: seq<Alarm>)

  const NO_VALUE := AsciiText.Ascii("<NOVALUE>")

  function NewRecords(vars: seq<Entry<Var>>): (rs: seq<RecordView>)
    ensures |rs| == |vars|
    ensures forall i :: 0 <= i < |rs| ==> rs[i] == RecordView(i, vars[i].key, vars[i].rec, NO_VALUE, None)
  {
    seq(|vars|, i requires 0 <= i < |vars| => RecordView(i, vars[i].key, vars[i].rec, NO_VALUE, None))
  }

  // `remove_block` of a frame; a null block removes nothing.
  function Forget(rs: seq<RecordView>, b: Option<Block>): (out: seq<RecordView>)
    ensures |out| == |rs|
    ensures forall i :: 0 <= i < |rs| ==> out[i] == if rs[i].block == b then rs[i].(block := None) else rs[i]
  {
    seq(|rs|, i requires 0 <= i < |rs| => if rs[i].block == b then rs[i].(block := None) else rs[i])
  }

  function ForgetAll(frs: seq<FrameView>, b: Option<Block>): (out: seq<FrameView>)
    ensures |out| == |frs|
    ensures forall i :: 0 <= i < |frs| ==> out[i] == frs[i].(recs := Forget(frs[i].recs, b))
  {
    seq(|frs|, i requires 0 <= i < |frs| => frs[i].(recs := Forget(frs[i].recs, b)))
  }

  // The variables of a function that is called have known types.
  ghost predicate OpKnown(env: Env, op: Op) { op.Call? ==> AllKnown(env, NewRecords(op.vars)) }

  function Scanned(env: Env, r: Run, mem: Memory, a: u64): Run
    requires StackKnown(env, r.st)
  {
    var (st, ups) := ScanStack(env, mem, r.heap, r.st, a);
    r.(st := st, mem := mem, log := r.log + ups)
  }

  // `get_updated_links`
  function Checked(r: Run, mem: Memory): Run {
    r.(links := AllRefreshed(mem, r.links), checks := r.checks + Records(mem, r.links),
       alarms := r.alarms + Alarms(mem, r.links))
  }

  function Behind<T>(s: seq<T>): seq<T> { if s == [] then [] else s[1..] }

  // The innermost frame waits for its setup, or has it behind it.
  predicate AtSetup(r: Run) { r.links != [] && r.links[0].beforeSetup }

  predicate PastSetup(r: Run) { r.links != [] && !r.links[0].beforeSetup }

  // `add_context`: the innermost frame has this base pointer from now on.
  function WithContext(r: Run, ebp: u64): (r': Run)
    ensures |AllFrames(r'.st)| == |AllFrames(r.st)|
    ensures forall i :: 0 <= i < |AllFrames(r.st)| ==> SameRecords(AllFrames(r.st)[i], AllFrames(r'.st)[i])
  {
    if r.st.frames == [] || r.links == [] then r
    else
      r.(st := r.st.(frames := [r.st.frames[0].(ebp := ebp)] + r.st.frames[1..]),
         links := [r.links[0].(ebp := ebp)] + r.links[1..])
  }

  // All but the base pointer.
  predicate SameRecords(f: FrameView, f': FrameView) {
    f'.id == f.id && f'.firstAccess == f.firstAccess && f'.recs == f.recs
  }

  // `clear_is_before_stack_setup`
  function SetupDone(r: Run): Run {
    if r.links == [] then r else r.(links := [r.links[0].(beforeSetup := false)] + r.links[1..])
  }

  function Step(env: Env, r: Run, op: Op): Run
    requires StackKnown(env, r.st)
  {
    match op
    case Call(name, mem, ebp, vars) =>
      r.(st := r.st.(frames := [FrameView(r.next, ebp, true, NewRecords(vars))] + r.st.frames), next := r.next + 1,
         links := [Pushed(mem, name, ebp)] + r.links)
    case Return => r.(st := r.st.(frames := Behind(r.st.frames)), links := Behind(r.links))
    case Setup(mem, ebp) =>
      if !AtSetup(r) then r
      else
        ContextKnown(env, r, ebp);
        SetupDone(Checked(Scanned(env, WithContext(r, ebp), mem, 0), mem))
    case Write(mem, a) => if PastSetup(r) then Checked(Scanned(env, r, mem, a), mem) else r
    case Library(mem) => Checked(Scanned(env, r, mem, 0), mem)
    case Malloc(b) => r.(heap := Insert(r.heap, b))
    case Free(a) =>
      r.(heap := Erase(r.heap, a), st := r.st.(frames := ForgetAll(r.st.frames, Scan(r.heap, a))))
  }

  lemma ContextKnown(env: Env, r: Run, ebp: u64)
    requires StackKnown(env, r.st)
    ensures StackKnown(env, WithContext(r, ebp).st)
  {}

  // Each frame of the stack has its links, with the base pointer that it has itself.
  ghost predicate Paired(r: Run) {
    |r.links| == |r.st.frames| && forall i :: 0 <= i < |r.links| ==> r.links[i].ebp == r.st.frames[i].ebp
  }

  // What every step keeps: known types, records with places of their own, different
  // frames, frames older than the next one, and no report about a frame that is still
  // to come.
  ghost predicate Ok(env: Env, r: Run) {
    && StackKnown(env, r.st)
    && DistinctFrames(AllFrames(r.st))
    && (forall f <- AllFrames(r.st) :: DistinctPlaces(f.recs))
    && (forall f <- AllFrames(r.st) :: f.id < r.next)
    && (forall u <- r.log :: u.frame < r.next)
    && Ordered(r.heap)
    && Paired(r)
  }

  lemma SameShapesOk(env: Env, frs: seq<FrameView>, frs': seq<FrameView>, next: nat)
    requires |frs'| == |frs| && forall i :: 0 <= i < |frs| ==> SameShape(frs[i], frs'[i])
    requires DistinctFrames(frs)
    requires forall f <- frs :: AllKnown(env, f.recs) && DistinctPlaces(f.recs) && f.id < next
    ensures DistinctFrames(frs')
    ensures forall f <- frs' :: AllKnown(env, f.recs) && DistinctPlaces(f.recs) && f.id < next
  {
    hide Known;
    forall f | f in frs' ensures AllKnown(env, f.recs) && DistinctPlaces(f.recs) && f.id < next {
      var i :| 0 <= i < |frs'| && frs'[i] == f;
      assert SameShape(frs[i], f) && frs[i] in frs;
    }
    forall i, j | 0 <= i < j < |frs'| ensures frs'[i].id != frs'[j].id {
      assert SameShape(frs[i], frs'[i]) && SameShape(frs[j], frs'[j]);
    }
  }

  lemma ScannedOk(env: Env, r: Run, mem: Memory, a: u64)
    requires Ok(env, r)
    ensures Ok(env, Scanned(env, r, mem, a))
  {
    hide ScanStack, ScanFrames, AllKnown, DistinctPlaces, DistinctFrames, SameShape, Ordered;
    var frs := AllFrames(r.st);
    AsOneList(env, mem, r.heap, r.st, a);
    FramesShape(env, mem, r.heap, frs, a, r.st.accessed);
    FramesReport(env, mem, r.heap, frs, a, r.st.accessed);
    var (st', ups) := ScanStack(env, mem, r.heap, r.st, a);
    var frs' := AllFrames(st');
    SameShapesOk(env, frs, frs', r.next);
    forall f | f in st'.frames ensures AllKnown(env, f.recs) {
      assert f in frs';
    }
    assert st'.global in frs';
    forall i | 0 <= i < |r.links| ensures r.links[i].ebp == st'.frames[i].ebp {
      StackShape(env, r, mem, a, i);
    }
  }

  // A scan of the stack, frame by frame.
  lemma StackShape(env: Env, r: Run, mem: Memory, a: u64, i: nat)
    requires StackKnown(env, r.st) && i < |r.st.frames|
    ensures var frs' := Scanned(env, r, mem, a).st.frames;
            && |frs'| == |r.st.frames| && SameShape(r.st.frames[i], frs'[i])
            && frs'[i].ebp == r.st.frames[i].ebp
  {
    hide ScanFrames, ScanFrame;
    FramesShape(env, mem, r.heap, r.st.frames, a, r.st.accessed);
  }

  lemma ContextOk(env: Env, r: Run, ebp: u64)
    requires Ok(env, r)
    ensures Ok(env, WithContext(r, ebp))
  {
    hide Known, DistinctPlaces;
    var frs, frs' := AllFrames(r.st), AllFrames(WithContext(r, ebp).st);
    forall i | 0 <= i < |frs'|
      ensures AllKnown(env, frs'[i].recs) && DistinctPlaces(frs'[i].recs) && frs'[i].id < r.next
    {
      assert SameRecords(frs[i], frs'[i]) && frs[i] in frs;
    }
    forall i, j | 0 <= i < j < |frs'| ensures frs'[i].id != frs'[j].id {
      assert SameRecords(frs[i], frs'[i]) && SameRecords(frs[j], frs'[j]);
    }
  }

  // A check of the links changes nothing that has to do with the variables.
  lemma CheckedOk(env: Env, r: Run, mem: Memory)
    requires Ok(env, r)
    ensures Ok(env, Checked(r, mem)) && Ok(env, SetupDone(r))
  {
    hide Ok;
    assert Paired(r) by { OkPaired(env, r); }
    OtherLinks(env, r, Checked(r, mem));
    OtherLinks(env, r, SetupDone(r));
  }

  lemma OkPaired(env: Env, r: Run)
    requires Ok(env, r)
    ensures Paired(r)
  {}

  lemma OtherLinks(env: Env, r: Run, r': Run)
    requires Ok(env, r) && Paired(r')
    requires r'.st == r.st && r'.next == r.next && r'.log == r.log && r'.heap == r.heap
    ensures Ok(env, r')
  {}

  lemma SetupOk(env: Env, r: Run, mem: Memory, ebp: u64)
    requires Ok(env, r)
    ensures Ok(env, Step(env, r, Setup(mem, ebp)))
  {
    hide Scanned, Checked, SetupDone, WithContext, Ok;
    assert StackKnown(env, r.st) by { OkKnown(env, r); }
    if AtSetup(r) {
      ContextOk(env, r, ebp);
      OkKnown(env, WithContext(r, ebp));
      ScannedOk(env, WithContext(r, ebp), mem, 0);
      CheckedOk(env, Scanned(env, WithContext(r, ebp), mem, 0), mem);
      CheckedOk(env, Checked(Scanned(env, WithContext(r, ebp), mem, 0), mem), mem);
    }
  }

  lemma OkKnown(env: Env, r: Run)
    requires Ok(env, r)
    ensures StackKnown(env, r.st)
  {}

  lemma StepOk(env: Env, r: Run, op: Op)
    requires Ok(env, r) && OpKnown(env, op)
    ensures Ok(env, Step(env, r, op))
  {
    hide Scanned, Checked;
    var frs := AllFrames(r.st);
    match op
    case Call(name, mem, ebp, vars) =>
      var f := FrameView(r.next, ebp, true, NewRecords(vars));
      assert AllFrames(Step(env, r, op).st) == [f] + frs;
    case Return =>
      if r.st.frames != [] {
        assert AllFrames(Step(env, r, op).st) == frs[1..];
      }
    case Setup(mem, ebp) => SetupOk(env, r, mem, ebp);
    case Write(mem, a) =>
      ScannedOk(env, r, mem, a);
      CheckedOk(env, Scanned(env, r, mem, a), mem);
    case Library(mem) =>
      ScannedOk(env, r, mem, 0);
      CheckedOk(env, Scanned(env, r, mem, 0), mem);
    case Malloc(b) => InsertMembers(r.heap, b);
    case Free(a) => FreeOk(env, r, a);
  }

  // A free changes no value and no first-access flag.
  ghost predicate SameValues(f: FrameView, f': FrameView) {
    && SameShape(f, f') && f'.firstAccess == f.firstAccess
    && forall j :: 0 <= j < |f.recs| ==> f'.recs[j].value == f.recs[j].value
  }

  lemma FreeShape(env: Env, r: Run, a: u64)
    requires StackKnown(env, r.st)
    ensures var r' := Step(env, r, Free(a));
            && r'.heap == Erase(r.heap, a) && r'.mem == r.mem && r'.next == r.next && r'.log == r.log
            && r'.links == r.links
            && r'.st.global == r.st.global
            && |AllFrames(r'.st)| == |AllFrames(r.st)|
            && forall i :: 0 <= i < |AllFrames(r.st)| ==> SameValues(AllFrames(r.st)[i], AllFrames(r'.st)[i])
  {}

  lemma FreeOk(env: Env, r: Run, a: u64)
    requires Ok(env, r)
    ensures Ok(env, Step(env, r, Free(a)))
  {
    hide Step;
    EraseMembers(r.heap, a);
    FreeShape(env, r, a);
    var r' := Step(env, r, Free(a));
    var frs := AllFrames(r.st);
    var frs' := AllFrames(r'.st);
    forall i | 0 <= i < |frs'|
      ensures AllKnown(env, frs'[i].recs) && DistinctPlaces(frs'[i].recs) && frs'[i].id < r.next
    {
      assert SameValues(frs[i], frs'[i]) && frs[i] in frs;
    }
    forall i, j | 0 <= i < j < |frs'| ensures frs'[i].id != frs'[j].id {
      assert SameValues(frs[i], frs'[i]) && SameValues(frs[j], frs'[j]);
    }
    forall f | f in r'.st.frames ensures AllKnown(env, f.recs) {
      assert f in frs';
    }
    forall i | 0 <= i < |r.links| ensures r'.links == r.links && r.links[i].ebp == r'.st.frames[i].ebp {
      assert SameValues(frs[i], frs'[i]);
    }
  }

  ghost predicate OpsKnown(env: Env, ops: seq<Op>) { forall op <- ops :: OpKnown(env, op) }

  ghost function Steps(env: Env, r: Run, ops: seq<Op>): (out: Run)
    requires Ok(env, r) && OpsKnown(env, ops)
    ensures Ok(env, out)
    decreases |ops|
  {
    if ops == [] then r
    else
      assert ops[0] in ops;
      StepOk(env, r, ops[0]);
      Steps(env, Step(env, r, ops[0]), ops[1..])
  }

  // The start of a program: no frame but that of the globals, and nothing reported.
  ghost predicate Begins(env: Env, r: Run) {
    && r.st.frames == [] && r.st.global.firstAccess && r.log == [] && r.heap == []
    && AllKnown(env, r.st.global.recs) && DistinctPlaces(r.st.global.recs) && r.st.global.id < r.next
    && r.links == [] && r.checks == [] && r.alarms == []
  }

  lemma BeginsOk(env: Env, r: Run)
    requires Begins(env, r)
    ensures Ok(env, r)
  {
    assert AllFrames(r.st) == [r.st.global];
  }

  // ------------------------------------------------------------------ the log is faithful

  // No two consecutive reports are equal.
  ghost predicate NoStutter(ts: seq<seq<byte>>) { forall i :: 0 < i < |ts| ==> ts[i] != ts[i - 1] }

  // The reports of a variable: none before the first access to its frame, and then
  // reports that end with the stored value.
  ghost predicate Settled(ts: seq<seq<byte>>, f: FrameView, r: RecordView) {
    if f.firstAccess then ts == [] else ts != [] && ts[|ts| - 1] == r.value
  }

  // The reports tell every value that has been stored.
  ghost predicate Tells(ts: seq<seq<byte>>, f: FrameView, r: RecordView) { NoStutter(ts) && Settled(ts, f, r) }

  ghost predicate Faithful(log: seq<Update>, f: FrameView, r: RecordView) {
    Tells(Texts(log, OfRecord(f.id, r.place)), f, r)
  }

  ghost predicate LogFaithful(env: Env, r: Run) {
    forall f, i :: f in AllFrames(r.st) && 0 <= i < |f.recs| && Tracked(env, f.recs[i].v) ==>
      Faithful(r.log, f, f.recs[i])
  }

  // A scan reports nothing and keeps the value, or reports the new value.
  lemma ReportIsValue(env: Env, mem: Memory, f: FrameView, r: RecordView, a: u64)
    requires Tracked(env, r.v)
    ensures var own := OwnTexts(env, mem, f, r, a); var value := Remembered(env, mem, f, r, a);
            || (own == [] && !f.firstAccess && value == r.value)
            || (own == [value] && (f.firstAccess || value != r.value))
  {
    hide TextAt, IsAtAddress, BaseAddress;
  }

  lemma ExtendReports(ts: seq<seq<byte>>, more: seq<seq<byte>>, value: seq<byte>)
    requires NoStutter(ts) && (more == [value] && (ts == [] || ts[|ts| - 1] != value))
    ensures NoStutter(ts + more) && ts + more != [] && (ts + more)[|ts + more| - 1] == value
  {}

  lemma StaysFaithful(env: Env, mem: Memory, ts: seq<seq<byte>>, f: FrameView, r: RecordView, a: u64, f': FrameView,
                      r': RecordView, more: seq<seq<byte>>)
    requires Tracked(env, r.v) && Tells(ts, f, r) && !f'.firstAccess
    requires r'.value == Remembered(env, mem, f, r, a) && more == OwnTexts(env, mem, f, r, a)
    ensures Tells(ts + more, f', r')
  {
    hide OwnTexts, Remembered;
    ReportIsValue(env, mem, f, r, a);
    if more == [] {
      assert ts + more == ts;
    } else {
      ExtendReports(ts, more, r'.value);
    }
  }

  lemma ScannedFaithful(env: Env, r: Run, mem: Memory, a: u64)
    requires Ok(env, r) && LogFaithful(env, r)
    ensures LogFaithful(env, Scanned(env, r, mem, a))
  {
    hide ScanStack, ScanFrames, Tells, OwnTexts, Remembered, Tracked;
    var frs := AllFrames(r.st);
    AsOneList(env, mem, r.heap, r.st, a);
    FramesShape(env, mem, r.heap, frs, a, r.st.accessed);
    var (st', ups) := ScanStack(env, mem, r.heap, r.st, a);
    var frs' := AllFrames(st');
    forall f', j | f' in frs' && 0 <= j < |f'.recs| && Tracked(env, f'.recs[j].v)
      ensures Faithful(r.log + ups, f', f'.recs[j])
    {
      var i :| 0 <= i < |frs'| && frs'[i] == f';
      assert SameShape(frs[i], f') && frs[i] in frs;
      var w := OfRecord(frs[i].id, frs[i].recs[j].place);
      ByPlace(frs[i].id, frs[i].recs, j);
      ValueInFrames(env, mem, r.heap, frs, a, r.st.accessed, i, j);
      AloneInFrames(env, mem, r.heap, frs, a, r.st.accessed, i, j, w);
      TextsAppend(r.log, ups, w);
      StaysFaithful(env, mem, Texts(r.log, w), frs[i], frs[i].recs[j], a, f', f'.recs[j], Texts(ups, w));
    }
  }

  lemma StepFaithful(env: Env, r: Run, op: Op)
    requires Ok(env, r) && OpKnown(env, op) && LogFaithful(env, r)
    ensures LogFaithful(env, Step(env, r, op))
  {
    hide Scanned, Faithful;
    var frs := AllFrames(r.st);
    var r' := Step(env, r, op);
    match op
    case Call(name, mem, ebp, vars) =>
      var f := FrameView(r.next, ebp, true, NewRecords(vars));
      assert AllFrames(r'.st) == [f] + frs;
      forall i | 0 <= i < |f.recs| ensures Faithful(r.log, f, f.recs[i]) {
        NewFrameFaithful(env, r, f, i);
      }
    case Return =>
      if r.st.frames != [] {
        assert AllFrames(r'.st) == frs[1..];
      }
    case Setup(mem, ebp) =>
      if AtSetup(r) {
        ContextFaithful(env, r, ebp);
        ContextOk(env, r, ebp);
        ScannedFaithful(env, WithContext(r, ebp), mem, 0);
      }
    case Write(mem, a) => ScannedFaithful(env, r, mem, a);
    case Library(mem) => ScannedFaithful(env, r, mem, 0);
    case Malloc(b) => assert AllFrames(r'.st) == frs;
    case Free(a) => FreeFaithful(env, r, a);
  }

  lemma ContextFaithful(env: Env, r: Run, ebp: u64)
    requires LogFaithful(env, r)
    ensures LogFaithful(env, WithContext(r, ebp))
  {
    hide Tells;
    var frs, frs' := AllFrames(r.st), AllFrames(WithContext(r, ebp).st);
    forall f', j | f' in frs' && 0 <= j < |f'.recs| && Tracked(env, f'.recs[j].v)
      ensures Faithful(r.log, f', f'.recs[j])
    {
      var i :| 0 <= i < |frs'| && frs'[i] == f';
      assert SameRecords(frs[i], f') && frs[i] in frs;
      SameFaithful(r.log, frs[i], frs[i].recs[j], f', f'.recs[j]);
    }
  }

  lemma NewFrameFaithful(env: Env, r: Run, f: FrameView, i: nat)
    requires Ok(env, r) && f.id == r.next && f.firstAccess && i < |f.recs|
    ensures Faithful(r.log, f, f.recs[i])
  {
    SilentTexts(r.log, OfRecord(f.id, f.recs[i].place));
  }

  lemma FreeFaithful(env: Env, r: Run, a: u64)
    requires Ok(env, r) && LogFaithful(env, r)
    ensures LogFaithful(env, Step(env, r, Free(a)))
  {
    hide Faithful, Step;
    assert StackKnown(env, r.st);
    FreeShape(env, r, a);
    var r' := Step(env, r, Free(a));
    var frs := AllFrames(r.st);
    forall f', j | f' in AllFrames(r'.st) && 0 <= j < |f'.recs| && Tracked(env, f'.recs[j].v)
      ensures Faithful(r'.log, f', f'.recs[j])
    {
      var i :| 0 <= i < |frs| && AllFrames(r'.st)[i] == f';
      assert SameValues(frs[i], f') && frs[i] in frs;
      SameFaithful(r.log, frs[i], frs[i].recs[j], f', f'.recs[j]);
    }
  }

  lemma SameFaithful(log: seq<Update>, f: FrameView, r: RecordView, f': FrameView, r': RecordView)
    requires Faithful(log, f, r) && f'.id == f.id && f'.firstAccess == f.firstAccess
    requires r'.place == r.place && r'.value == r.value
    ensures Faithful(log, f', r')
  {}

  // Over every run, whatever the program does to its memory: the reports of a record,
  // replayed, give the value that is stored in it, and no report repeats the one before
  // it.
  lemma {:induction false} RunFaithful(env: Env, r: Run, ops: seq<Op>)
    requires Ok(env, r) && OpsKnown(env, ops) && LogFaithful(env, r)
    ensures LogFaithful(env, Steps(env, r, ops))
    decreases |ops|
  {
    hide Step;
    if ops != [] {
      assert ops[0] in ops;
      StepOk(env, r, ops[0]);
      StepFaithful(env, r, ops[0]);
      RunFaithful(env, Step(env, r, ops[0]), ops[1..]);
    }
  }

  lemma ProgramFaithful(env: Env, r: Run, ops: seq<Op>)
    requires Begins(env, r) && OpsKnown(env, ops)
    ensures Ok(env, r) && LogFaithful(env, Steps(env, r, ops))
  {
    BeginsOk(env, r);
    assert AllFrames(r.st) == [r.st.global];
    RunFaithful(env, r, ops);
  }

  // ------------------------------------------------------------------ what a reader of the trace sees

  // The trace shows for which variable a report is, and not by which record it was
  // made. Equal identities mean one variable.
  ghost predicate Identified(rs: seq<RecordView>) {
    forall i, j :: 0 <= i < |rs| && 0 <= j < |rs| && rs[i].v.id == rs[j].v.id ==> rs[i].v == rs[j].v
  }

  // The frame has no second record of this variable.
  ghost predicate Once(rs: seq<RecordView>, i: nat)
    requires i < |rs|
  {
    forall j :: 0 <= j < |rs| && j != i ==> rs[j].v.id != rs[i].v.id
  }

  function CountOf(rs: seq<RecordView>, id: nat): nat {
    if rs == [] then 0 else (if rs[0].v.id == id then 1 else 0) + CountOf(rs[1..], id)
  }

  lemma {:induction false} CountAtLeast(rs: seq<RecordView>, i: nat, j: nat)
    requires i <= j < |rs| && rs[i].v.id == rs[j].v.id
    ensures CountOf(rs, rs[j].v.id) >= if i == j then 1 else 2
    decreases |rs|
  {
    if i > 0 {
      CountAtLeast(rs[1..], i - 1, j - 1);
    } else if j > 0 {
      CountAtLeast(rs[1..], j - 1, j - 1);
    }
  }

  function Times<T>(x: T, n: nat): (s: seq<T>)
    ensures |s| == n && forall i :: 0 <= i < n ==> s[i] == x
  {
    if n == 0 then [] else [x] + Times(x, n - 1)
  }

  // Records that report the same report it as often as there are such records.
  lemma {:induction false} UniformTexts(env: Env, mem: Memory, fr: FrameView, rs: seq<RecordView>, a: u64, id: nat,
                                        own: seq<seq<byte>>)
    requires AllKnown(env, rs) && |own| <= 1
    requires forall r <- rs :: r.v.id == id ==> OwnTexts(env, mem, fr, r, a) == own
    ensures var ts := TextsFor(env, mem, fr, rs, a, OfVariable(fr.id, id));
            ts == if own == [] then [] else Times(own[0], CountOf(rs, id))
  {
    hide OwnTexts, Known, KindOf;
    if rs != [] {
      assert AllKnown(env, rs[1..]) && rs[0] in rs;
      assert forall r <- rs[1..] :: r in rs;
      UniformTexts(env, mem, fr, rs[1..], a, id, own);
      if rs[0].v.id == id {
        assert own == [] || own == [own[0]];
      } else {
        var more := TextsFor(env, mem, fr, rs[1..], a, OfVariable(fr.id, id));
        assert [] + more == more;
      }
    }
  }

  lemma {:induction false} CountOnce(rs: seq<RecordView>, j: nat)
    requires j < |rs|
    ensures CountOf(rs, rs[j].v.id) == 1 <==> Once(rs, j)
    ensures CountOf(rs, rs[j].v.id) >= 1
  {
    CountAtLeast(rs, j, j);
    if Once(rs, j) {
      CountExactly(rs, j);
    } else {
      var k :| 0 <= k < |rs| && k != j && rs[k].v.id == rs[j].v.id;
      CountAtLeast(rs, if k < j then k else j, if k < j then j else k);
    }
  }

  lemma {:induction false} CountExactly(rs: seq<RecordView>, j: nat)
    requires j < |rs| && Once(rs, j)
    ensures CountOf(rs, rs[j].v.id) == 1
  {
    var tail := rs[1..];
    assert forall k :: 0 <= k < |tail| ==> tail[k] == rs[k + 1];
    if j == 0 {
      CountNone(tail, rs[0].v.id);
    } else {
      CountExactly(tail, j - 1);
    }
  }

  lemma {:induction false} CountNone(rs: seq<RecordView>, id: nat)
    requires forall r <- rs :: r.v.id != id
    ensures CountOf(rs, id) == 0
  {
    if rs != [] {
      assert rs[0] in rs;
      CountNone(rs[1..], id);
    }
  }

  ghost predicate AllIdentified(r: Run) { forall f <- AllFrames(r.st) :: Identified(f.recs) }

  ghost predicate OpsIdentified(ops: seq<Op>) {
    forall op <- ops :: op.Call? ==> Identified(NewRecords(op.vars))
  }

  // What the trace shows last for a variable is what every record of it has stored; and
  // what it shows never repeats itself exactly when the frame has the variable once. (The
  // frame of the globals is filled once for every unit, from the table that they share.)
  ghost predicate VariableSettled(log: seq<Update>, f: FrameView, i: nat)
    requires i < |f.recs|
  {
    var ts := Texts(log, OfVariable(f.id, f.recs[i].v.id));
    Settled(ts, f, f.recs[i]) && (!f.firstAccess ==> (NoStutter(ts) <==> Once(f.recs, i)))
  }

  ghost predicate AllSettled(env: Env, r: Run) {
    forall f, i :: f in AllFrames(r.st) && 0 <= i < |f.recs| && Tracked(env, f.recs[i].v) ==>
      VariableSettled(r.log, f, i)
  }

  // Records of one variable that have the same value stored are scanned alike.
  lemma SameOwn(env: Env, mem: Memory, f: FrameView, q: RecordView, r: RecordView, a: u64)
    requires q.v.typ in env.types && q.v == r.v && (f.firstAccess || q.value == r.value)
    ensures OwnTexts(env, mem, f, q, a) == OwnTexts(env, mem, f, r, a)
  {}

  lemma SameVariable(rs: seq<RecordView>, j: nat)
    requires Identified(rs) && j < |rs|
    ensures forall k :: 0 <= k < |rs| && rs[k].v.id == rs[j].v.id ==> rs[k].v == rs[j].v
  {}

  lemma SettledValue(log: seq<Update>, f: FrameView, k: nat, j: nat)
    requires k < |f.recs| && j < |f.recs| && f.recs[k].v.id == f.recs[j].v.id
    requires VariableSettled(log, f, k) && VariableSettled(log, f, j)
    ensures f.firstAccess || f.recs[k].value == f.recs[j].value
  {}

  lemma ScannedSettledAt(env: Env, r: Run, mem: Memory, a: u64, i: nat, j: nat)
    requires Ok(env, r) && AllIdentified(r) && AllSettled(env, r)
    requires i < |AllFrames(r.st)| && j < |AllFrames(r.st)[i].recs| && Tracked(env, AllFrames(r.st)[i].recs[j].v)
    ensures var r' := Scanned(env, r, mem, a); var f' := AllFrames(r'.st)[i];
            j < |f'.recs| && VariableSettled(r'.log, f', j)
  {
    hide ScanStack, ScanFrames, OwnTexts, Remembered, TextsFor, Tracked, CountOf, Texts, Once, NoStutter,
      Settled, Times, Identified;
    assert Identified(AllFrames(r.st)[i].recs);
    SameVariable(AllFrames(r.st)[i].recs, j);
    var frs := AllFrames(r.st);
    var f, q := frs[i], frs[i].recs[j];
    assert f in frs;
    var w := OfVariable(f.id, q.v.id);
    AsOneList(env, mem, r.heap, r.st, a);
    FramesShape(env, mem, r.heap, frs, a, r.st.accessed);
    assert SameShape(f, AllFrames(ScanStack(env, mem, r.heap, r.st, a).0)[i]);
    TextsInFrames(env, mem, r.heap, frs, a, r.st.accessed, i, w);
    var own := OwnTexts(env, mem, f, q, a);
    forall k | 0 <= k < |f.recs| && f.recs[k].v.id == q.v.id
      ensures OwnTexts(env, mem, f, f.recs[k], a) == own
    {
      assert VariableSettled(r.log, f, k) && VariableSettled(r.log, f, j);
      SettledValue(r.log, f, k, j);
      SameOwn(env, mem, f, f.recs[k], q, a);
    }
    ReportIsValue(env, mem, f, q, a);
    UniformTexts(env, mem, f, f.recs, a, q.v.id, own);
    CountOnce(f.recs, j);
    ValueInFrames(env, mem, r.heap, frs, a, r.st.accessed, i, j);
    var ups := ScanStack(env, mem, r.heap, r.st, a).1;
    TextsAppend(r.log, ups, w);
    assert VariableSettled(r.log, f, j);
    var f' := AllFrames(Scanned(env, r, mem, a).st)[i];
    SameOnce(f, f', j);
    ReportsSettle(Texts(r.log, w), own, CountOf(f.recs, q.v.id), f, q, f', f'.recs[j], Once(f.recs, j));
  }

  // What the scan of all records of one variable adds to its reports.
  lemma ReportsSettle(ts: seq<seq<byte>>, own: seq<seq<byte>>, n: nat, f: FrameView, r: RecordView, f': FrameView,
                      r': RecordView, once: bool)
    requires n > 0 && (n == 1 <==> once) && !f'.firstAccess
    requires || (own == [] && !f.firstAccess && r'.value == r.value)
             || (own == [r'.value] && (f.firstAccess || r'.value != r.value))
    requires Settled(ts, f, r) && (!f.firstAccess ==> (NoStutter(ts) <==> once))
    ensures var all := ts + if own == [] then [] else Times(own[0], n);
            Settled(all, f', r') && (NoStutter(all) <==> once)
  {
    if own == [] {
      assert ts + [] == ts;
    } else {
      RepeatedReports(ts, own[0], n);
    }
  }

  lemma SameOnce(f: FrameView, f': FrameView, j: nat)
    requires SameShape(f, f') && j < |f.recs|
    ensures Once(f.recs, j) <==> Once(f'.recs, j)
  {}

  // Reports of a new value repeat themselves if they did before, or if there are several.
  lemma RepeatedReports(ts: seq<seq<byte>>, value: seq<byte>, n: nat)
    requires n > 0 && (ts == [] || ts[|ts| - 1] != value)
    ensures var all := ts + Times(value, n);
            && all != [] && all[|all| - 1] == value
            && (NoStutter(all) <==> NoStutter(ts) && n == 1)
  {
    var all := ts + Times(value, n);
    if n > 1 {
      assert all[|ts|] == all[|ts| + 1] == value;
    }
    if !NoStutter(ts) {
      var i :| 0 < i < |ts| && ts[i] == ts[i - 1];
      assert all[i] == all[i - 1];
    }
  }

  lemma ScannedSettled(env: Env, r: Run, mem: Memory, a: u64)
    requires Ok(env, r) && AllIdentified(r) && AllSettled(env, r)
    ensures AllIdentified(Scanned(env, r, mem, a)) && AllSettled(env, Scanned(env, r, mem, a))
  {
    hide ScanStack, ScanFrames, VariableSettled, Tracked;
    var frs := AllFrames(r.st);
    AsOneList(env, mem, r.heap, r.st, a);
    FramesShape(env, mem, r.heap, frs, a, r.st.accessed);
    var frs' := AllFrames(Scanned(env, r, mem, a).st);
    forall i | 0 <= i < |frs'| ensures Identified(frs'[i].recs) {
      assert SameShape(frs[i], frs'[i]) && frs[i] in frs;
    }
    forall f', j | f' in frs' && 0 <= j < |f'.recs| && Tracked(env, f'.recs[j].v)
      ensures VariableSettled(Scanned(env, r, mem, a).log, f', j)
    {
      var i :| 0 <= i < |frs'| && frs'[i] == f';
      assert SameShape(frs[i], f');
      ScannedSettledAt(env, r, mem, a, i, j);
    }
  }

  lemma FreeSettled(env: Env, r: Run, a: u64)
    requires Ok(env, r) && AllIdentified(r) && AllSettled(env, r)
    ensures AllIdentified(Step(env, r, Free(a))) && AllSettled(env, Step(env, r, Free(a)))
  {
    hide Step, Tracked, VariableSettled;
    assert StackKnown(env, r.st);
    FreeShape(env, r, a);
    var r' := Step(env, r, Free(a));
    var frs, frs' := AllFrames(r.st), AllFrames(r'.st);
    forall i | 0 <= i < |frs'| ensures Identified(frs'[i].recs) {
      assert SameValues(frs[i], frs'[i]) && frs[i] in frs;
    }
    forall f', j | f' in frs' && 0 <= j < |f'.recs| && Tracked(env, f'.recs[j].v)
      ensures VariableSettled(r'.log, f', j)
    {
      var i :| 0 <= i < |frs'| && frs'[i] == f';
      assert SameValues(frs[i], f') && frs[i] in frs;
      SameSettled(r.log, frs[i], f', j);
    }
  }

  lemma SameSettled(log: seq<Update>, f: FrameView, f': FrameView, j: nat)
    requires SameValues(f, f') && j < |f.recs| && VariableSettled(log, f, j)
    ensures VariableSettled(log, f', j)
  {
    hide NoStutter, Texts;
  }

  lemma ContextSettled(env: Env, r: Run, ebp: u64)
    requires AllIdentified(r) && AllSettled(env, r)
    ensures AllIdentified(WithContext(r, ebp)) && AllSettled(env, WithContext(r, ebp))
  {
    hide NoStutter, Once;
    var frs, frs' := AllFrames(r.st), AllFrames(WithContext(r, ebp).st);
    forall f' | f' in frs' ensures Identified(f'.recs) {
      var i :| 0 <= i < |frs'| && frs'[i] == f';
      assert SameRecords(frs[i], f') && frs[i] in frs;
    }
    forall f', j | f' in frs' && 0 <= j < |f'.recs| && Tracked(env, f'.recs[j].v)
      ensures VariableSettled(r.log, f', j)
    {
      var i :| 0 <= i < |frs'| && frs'[i] == f';
      assert SameRecords(frs[i], f') && frs[i] in frs;
      assert VariableSettled(r.log, frs[i], j);
    }
  }

  lemma StepSettled(env: Env, r: Run, op: Op)
    requires Ok(env, r) && OpKnown(env, op) && (op.Call? ==> Identified(NewRecords(op.vars)))
    requires AllIdentified(r) && AllSettled(env, r)
    ensures AllIdentified(Step(env, r, op)) && AllSettled(env, Step(env, r, op))
  {
    hide Scanned, Tracked;
    var frs := AllFrames(r.st);
    var r' := Step(env, r, op);
    match op
    case Call(name, mem, ebp, vars) =>
      var f := FrameView(r.next, ebp, true, NewRecords(vars));
      assert AllFrames(r'.st) == [f] + frs;
      forall i | 0 <= i < |f.recs| ensures VariableSettled(r.log, f, i) {
        SilentTexts(r.log, OfVariable(f.id, f.recs[i].v.id));
      }
    case Return =>
      if r.st.frames != [] {
        assert AllFrames(r'.st) == frs[1..];
      }
    case Setup(mem, ebp) =>
      if AtSetup(r) {
        ContextSettled(env, r, ebp);
        ContextOk(env, r, ebp);
        ScannedSettled(env, WithContext(r, ebp), mem, 0);
      }
    case Write(mem, a) => ScannedSettled(env, r, mem, a);
    case Library(mem) => ScannedSettled(env, r, mem, 0);
    case Malloc(b) => assert AllFrames(r'.st) == frs;
    case Free(a) => FreeSettled(env, r, a);
  }

  // Over every run, also for variables that a frame has several times: the last that
  // the trace shows for a variable is the value stored for it, and it tells every value
  // that has been stored exactly when the frame has the variable once.
  lemma {:induction false} RunSettled(env: Env, r: Run, ops: seq<Op>)
    requires Ok(env, r) && OpsKnown(env, ops) && OpsIdentified(ops)
    requires AllIdentified(r) && AllSettled(env, r)
    ensures AllSettled(env, Steps(env, r, ops))
    decreases |ops|
  {
    hide Step, AllIdentified, AllSettled;
    if ops != [] {
      assert ops[0] in ops;
      StepOk(env, r, ops[0]);
      StepSettled(env, r, ops[0]);
      RunSettled(env, Step(env, r, ops[0]), ops[1..]);
    }
  }

  lemma ProgramSettled(env: Env, r: Run, ops: seq<Op>)
    requires Begins(env, r) && OpsKnown(env, ops) && Identified(r.st.global.recs) && OpsIdentified(ops)
    ensures Ok(env, r) && AllSettled(env, Steps(env, r, ops))
  {
    BeginsOk(env, r);
    assert AllFrames(r.st) == [r.st.global];
    RunSettled(env, r, ops);
  }

  // From the start of a program to any point after the first scan of a frame: the trace
  // is faithful to a variable exactly when the frame has it once.
  lemma FaithfulExactly(env: Env, r: Run, ops: seq<Op>, f: FrameView, i: nat)
    requires Begins(env, r) && OpsKnown(env, ops) && Identified(r.st.global.recs) && OpsIdentified(ops)
    ensures Ok(env, r)
    ensures var r' := Steps(env, r, ops);
            f in AllFrames(r'.st) && !f.firstAccess && i < |f.recs| && Tracked(env, f.recs[i].v) ==>
              (Tells(Texts(r'.log, OfVariable(f.id, f.recs[i].v.id)), f, f.recs[i]) <==> Once(f.recs, i))
  {
    hide Steps, Tracked, Once, NoStutter;
    ProgramSettled(env, r, ops);
    var r' := Steps(env, r, ops);
    if f in AllFrames(r'.st) && !f.firstAccess && i < |f.recs| && Tracked(env, f.recs[i].v) {
      assert VariableSettled(r'.log, f, i);
    }
  }
}
