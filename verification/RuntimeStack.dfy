// The stack of frames: pushes, pops, scans, frees and link checks, each proved
// against what the step does to the values.
module RuntimeStack {
  import opened Words
  import opened Bytes
  import opened SymbolTables
  import opened DebugFile
  import opened HeapMap
  import opened ShadowStack
  import opened ShadowRuns
  import opened StackLinks
  import opened AddressTranslation
  import opened Frames
  import AsciiText

  // The records of these frames.
  ghost function RecordsIn(fs: seq<Frame>): set<FrameRecord>
    reads fs`recs
  {
    set f, r | f in fs && r in f.recs :: r
  }

  lemma RecordsOfOne(fs: seq<Frame>, f: Frame)
    requires f in fs
    ensures forall r <- f.recs :: r in RecordsIn(fs)
  {}

  lemma RecordsOfRest(fs: seq<Frame>)
    requires fs != []
    ensures RecordsIn(fs[1..]) <= RecordsIn(fs)
  {}

  ghost function FrameViews(fs: seq<Frame>): (out: seq<FrameView>)
    reads fs`recs, fs`ebp, fs`firstAccess, RecordsIn(fs)`value, RecordsIn(fs)`block
    ensures |out| == |fs| && forall i :: 0 <= i < |fs| ==> out[i] == fs[i].View()
  {
    if fs == [] then []
    else
      RecordsOfOne(fs, fs[0]);
      RecordsOfRest(fs);
      [fs[0].View()] + FrameViews(fs[1..])
  }

  function LinkViews(fs: seq<Frame>): (out: seq<LinkView>)
    reads fs`ebp, fs`oldRbp, fs`returnAddr, fs`beforeSetup
    ensures |out| == |fs| && forall i :: 0 <= i < |fs| ==> out[i] == fs[i].Links()
  {
    if fs == [] then [] else [fs[0].Links()] + LinkViews(fs[1..])
  }

  // What a scan of a frame reads of it besides its records.
  ghost predicate Heads(fv: FrameView, fr: Frame)
    reads fr`ebp, fr`firstAccess
  {
    fv.id == fr.id && fv.ebp == fr.ebp && fv.firstAccess == fr.firstAccess
  }

  // ------------------------------------------------------------------ scans under way

  // The scan of the first i records has left these records, flags and updates.
  ghost predicate Scanning(env: Env, mem: Memory, heap: Blocks, fv: FrameView, rs: seq<RecordView>, a: u64,
                           acc0: set<nat>, i: nat, done: seq<RecordView>, acc: set<nat>, ups: seq<Update>)
  {
    && i <= |rs| && AllKnown(env, rs)
    && AllKnown(env, rs[i..])
    && var (rest, acc', more) := ScanRecords(env, mem, heap, fv, rs[i..], a, acc);
       ScanRecords(env, mem, heap, fv, rs, a, acc0) == (done + rest, acc', ups + more)
  }

  lemma ScanStarts(env: Env, mem: Memory, heap: Blocks, fv: FrameView, rs: seq<RecordView>, a: u64, acc: set<nat>)
    requires AllKnown(env, rs)
    ensures Scanning(env, mem, heap, fv, rs, a, acc, 0, [], acc, [])
  {
    hide ScanRecords;
    assert rs[0..] == rs;
    var (rest, acc', more) := ScanRecords(env, mem, heap, fv, rs, a, acc);
    assert [] + rest == rest && [] + more == more;
  }

  lemma ScanGoesOn(env: Env, mem: Memory, heap: Blocks, fv: FrameView, rs: seq<RecordView>, a: u64, acc0: set<nat>,
                   i: nat, done: seq<RecordView>, acc: set<nat>, ups: seq<Update>)
    requires Scanning(env, mem, heap, fv, rs, a, acc0, i, done, acc, ups) && i < |rs|
    ensures Known(env, rs[i].v)
    ensures var (r, acc', more) := ScanRecord(env, mem, heap, fv, rs[i], a, acc);
            Scanning(env, mem, heap, fv, rs, a, acc0, i + 1, done + [r], acc', ups + more)
  {
    hide ScanRecord;
    assert rs[i..][1..] == rs[i + 1..] && rs[i] in rs;
    var (r, acc', more) := ScanRecord(env, mem, heap, fv, rs[i], a, acc);
    var (rest, _, last) := ScanRecords(env, mem, heap, fv, rs[i + 1..], a, acc');
    assert done + ([r] + rest) == (done + [r]) + rest;
    assert ups + (more + last) == (ups + more) + last;
  }

  lemma ScanEnds(env: Env, mem: Memory, heap: Blocks, fv: FrameView, rs: seq<RecordView>, a: u64, acc0: set<nat>,
                 done: seq<RecordView>, acc: set<nat>, ups: seq<Update>)
    requires Scanning(env, mem, heap, fv, rs, a, acc0, |rs|, done, acc, ups)
    ensures ScanRecords(env, mem, heap, fv, rs, a, acc0) == (done, acc, ups)
  {
    assert done + [] == done && ups + [] == ups;
  }

  // The record is new, with this view and no marks.
  ghost predicate IsNew(r: FrameRecord, view: RecordView)
    reads r
  {
    r.View() == view && r.marks == [] && r.clearStatus == null && r.setStatus == null
  }

  // The same for the first i frames.
  ghost predicate ScanningFrames(env: Env, mem: Memory, heap: Blocks, fvs: seq<FrameView>, a: u64, acc0: set<nat>,
                                 i: nat, done: seq<FrameView>, acc: set<nat>, ups: seq<Update>)
  {
    && i <= |fvs| && (forall f <- fvs :: AllKnown(env, f.recs))
    && (forall f <- fvs[i..] :: AllKnown(env, f.recs))
    && var (rest, acc', more) := ScanFrames(env, mem, heap, fvs[i..], a, acc);
       ScanFrames(env, mem, heap, fvs, a, acc0) == (done + rest, acc', ups + more)
  }

  lemma FramesStart(env: Env, mem: Memory, heap: Blocks, fvs: seq<FrameView>, a: u64, acc: set<nat>)
    requires forall f <- fvs :: AllKnown(env, f.recs)
    ensures ScanningFrames(env, mem, heap, fvs, a, acc, 0, [], acc, [])
  {
    hide ScanFrames, AllKnown;
    assert fvs[0..] == fvs;
    var (rest, acc', more) := ScanFrames(env, mem, heap, fvs, a, acc);
    assert [] + rest == rest && [] + more == more;
  }

  lemma FramesGoOn(env: Env, mem: Memory, heap: Blocks, fvs: seq<FrameView>, a: u64, acc0: set<nat>, i: nat,
                   done: seq<FrameView>, acc: set<nat>, ups: seq<Update>)
    requires ScanningFrames(env, mem, heap, fvs, a, acc0, i, done, acc, ups) && i < |fvs|
    ensures AllKnown(env, fvs[i].recs)
    ensures var (f, acc', more) := ScanFrame(env, mem, heap, fvs[i], a, acc);
            ScanningFrames(env, mem, heap, fvs, a, acc0, i + 1, done + [f], acc', ups + more)
  {
    hide ScanFrame, AllKnown;
    assert fvs[i..][1..] == fvs[i + 1..] && fvs[i] in fvs;
    var (f, acc', more) := ScanFrame(env, mem, heap, fvs[i], a, acc);
    var (rest, _, last) := ScanFrames(env, mem, heap, fvs[i + 1..], a, acc');
    assert done + ([f] + rest) == (done + [f]) + rest;
    assert ups + (more + last) == (ups + more) + last;
  }

  lemma FramesEnd(env: Env, mem: Memory, heap: Blocks, fvs: seq<FrameView>, a: u64, acc0: set<nat>,
                  done: seq<FrameView>, acc: set<nat>, ups: seq<Update>)
    requires ScanningFrames(env, mem, heap, fvs, a, acc0, |fvs|, done, acc, ups)
    ensures ScanFrames(env, mem, heap, fvs, a, acc0) == (done, acc, ups)
  {
    assert done + [] == done && ups + [] == ups;
  }

  lemma LinksStart(mem: Memory, ls: seq<LinkView>)
    ensures [] + Records(mem, ls[0..]) == Records(mem, ls) && [] + Alarms(mem, ls[0..]) == Alarms(mem, ls)
  {
    assert ls[0..] == ls;
  }

  lemma LinksNext(mem: Memory, ls: seq<LinkView>, i: nat, rs: seq<LinkRecord>, als: seq<Alarm>)
    requires i < |ls|
    ensures (rs + RecordFor(mem, ls[i])) + Records(mem, ls[i + 1..]) == rs + Records(mem, ls[i..])
    ensures (als + AlarmsFor(mem, ls[i])) + Alarms(mem, ls[i + 1..]) == als + Alarms(mem, ls[i..])
  {
    hide RecordFor, AlarmsFor;
    assert ls[i..][1..] == ls[i + 1..];
    var more, last := RecordFor(mem, ls[i]), Records(mem, ls[i + 1..]);
    assert (rs + more) + last == rs + (more + last);
    var more', last' := AlarmsFor(mem, ls[i]), Alarms(mem, ls[i + 1..]);
    assert (als + more') + last' == als + (more' + last');
  }

  lemma LinksEnd(mem: Memory, ls: seq<LinkView>, rs: seq<LinkRecord>, als: seq<Alarm>)
    ensures rs + Records(mem, ls[|ls|..]) == rs && als + Alarms(mem, ls[|ls|..]) == als
  {}

  lemma OwnStart(vars: Table<Static>)
    ensures [] + OwnVariables(vars[0..]) == OwnVariables(vars)
  {
    assert vars[0..] == vars;
  }

  lemma OwnNext(made: seq<Entry<Var>>, vars: Table<Static>, i: nat)
    requires i < |vars|
    ensures var s := vars[i].rec;
            (if s.isSubprog then made else made + [Entry(vars[i].key, s.v)]) + OwnVariables(vars[i + 1..]) ==
            made + OwnVariables(vars[i..])
  {
    var rest := OwnVariables(vars[i + 1..]);
    assert vars[i..][1..] == vars[i + 1..];
    if vars[i].rec.isSubprog {
      assert [] + rest == rest;
    } else {
      var e := Entry(vars[i].key, vars[i].rec.v);
      assert (made + [e]) + rest == made + ([e] + rest);
    }
  }

  lemma OwnEnd(made: seq<Entry<Var>>, vars: Table<Static>)
    ensures made + OwnVariables(vars[|vars|..]) == made
  {}

  method AddRecord(g: Frame, name: Key, v: Var, value: seq<byte>)
    requires g.Valid()
    modifies g`recs
    ensures g.Valid() && |g.recs| == |old(g.recs)| + 1 && g.recs[..|old(g.recs)|] == old(g.recs)
    ensures fresh(g.recs[|old(g.recs)|])
    ensures IsNew(g.recs[|old(g.recs)|], RecordView(|old(g.recs)|, name, v, value, None))
  {
    var r := new FrameRecord(|g.recs|, name, v, g, value);
    g.AddFrameRecord(r);
  }

  // A record for every variable of a table that is not a subprogram.
  method AddRecords(g: Frame, vars: Table<Static>, value: seq<byte>)
    requires g.Valid()
    modifies g`recs
    ensures g.Valid() && old(g.recs) <= g.recs
    ensures forall r <- g.recs :: r in old(g.recs) || fresh(r)
    ensures var made, n := OwnVariables(vars), |old(g.recs)|;
            && |g.recs| == n + |made|
            && forall k :: n <= k < |g.recs| ==>
                 IsNew(g.recs[k], RecordView(k, made[k - n].key, made[k - n].rec, value, None))
  {
    hide OwnVariables, IsNew, Frame.Valid;
    ghost var n := |g.recs|;
    ghost var made: seq<Entry<Var>> := [];
    var i := 0;
    OwnStart(vars);
    while i < |vars|
      invariant i <= |vars|
      invariant g.Valid() && old(g.recs) <= g.recs
      invariant forall r <- g.recs :: r in old(g.recs) || fresh(r)
      invariant made + OwnVariables(vars[i..]) == OwnVariables(vars)
      invariant |g.recs| == n + |made|
      invariant forall k :: n <= k < |g.recs| ==>
                  IsNew(g.recs[k], RecordView(k, made[k - n].key, made[k - n].rec, value, None))
    {
      OwnNext(made, vars, i);
      if !vars[i].rec.isSubprog {
        AddRecord(g, vars[i].key, vars[i].rec.v, value);
        made := made + [Entry(vars[i].key, vars[i].rec.v)];
      }
      i := i + 1;
    }
    OwnEnd(made, vars);
  }

  lemma UnitsNext(cus: Table<CuView>, i: nat, made: seq<Entry<Var>>)
    requires i < |cus|
    ensures (made + OwnVariables(cus[i].rec.vars)) + UnitVariables(cus[i + 1..]) == made + UnitVariables(cus[i..])
  {
    hide OwnVariables;
    assert cus[i..][1..] == cus[i + 1..];
    var a, b := OwnVariables(cus[i].rec.vars), UnitVariables(cus[i + 1..]);
    assert (made + a) + b == made + (a + b);
  }

  lemma UnitsEnd(cus: Table<CuView>, made: seq<Entry<Var>>)
    ensures made + UnitVariables(cus[|cus|..]) == made
  {}

  // `add_cu_table`: the frame of the globals, with the variables of every unit.
  method MakeGlobalFrame(cus: Table<CuView>) returns (g: Frame)
    ensures fresh(g) && g.Valid()
    ensures g.View() == FrameView(0, 0, true, GlobalRecords(cus))
  {
    hide UnitVariables, OwnVariables, GlobalOf, Frame.View, Frame.Valid, Views;
    g := new Frame(0, AsciiText.Ascii("*G*"), 0, 0, 0);
    ghost var made: seq<Entry<Var>> := [];
    var i := 0;
    assert cus[0..] == cus && [] + UnitVariables(cus) == UnitVariables(cus);
    while i < |cus|
      invariant i <= |cus| && g.Valid() && g.firstAccess && g.ebp == 0
      invariant Views(g.recs) == GlobalOf(made)
      invariant made + UnitVariables(cus[i..]) == UnitVariables(cus)
    {
      UnitsNext(cus, i, made);
      AddUnit(g, cus[i].rec.vars, made);
      made := made + OwnVariables(cus[i].rec.vars);
      i := i + 1;
    }
    UnitsEnd(cus, made);
    FrameIs(g, GlobalOf(made));
  }

  lemma FrameIs(f: Frame, rs: seq<RecordView>)
    requires Views(f.recs) == rs
    ensures f.View() == FrameView(f.id, f.ebp, f.firstAccess, rs)
  {}

  lemma FrameParts(f: Frame)
    ensures Heads(f.View(), f) && |f.View().recs| == |f.recs|
    ensures forall k :: 0 <= k < |f.recs| ==> f.View().recs[k] == f.recs[k].View()
  {}

  lemma FrameScanned(env: Env, mem: Memory, heap: Blocks, fv: FrameView, a: u64, acc: set<nat>)
    requires AllKnown(env, fv.recs)
    ensures var (rs, acc', ups) := ScanRecords(env, mem, heap, fv, fv.recs, a, acc);
            ScanFrame(env, mem, heap, fv, a, acc) == (FrameView(fv.id, fv.ebp, false, rs), acc', ups)
  {}

  method AddUnit(g: Frame, vars: Table<Static>, ghost made: seq<Entry<Var>>)
    requires g.Valid() && Views(g.recs) == GlobalOf(made)
    modifies g`recs
    ensures g.Valid() && Views(g.recs) == GlobalOf(made + OwnVariables(vars))
  {
    hide OwnVariables;
    ghost var recs0 := g.recs;
    ghost var all := made + OwnVariables(vars);
    AddRecords(g, vars, []);
    ghost var n := |recs0|;
    forall k | 0 <= k < |g.recs| ensures g.recs[k].View() == GlobalOf(all)[k] {
      if k < n {
        assert g.recs[k] == recs0[k] && unchanged(recs0[k]);
        assert g.recs[k].View() == GlobalOf(made)[k];
      } else {
        assert IsNew(g.recs[k], GlobalOf(all)[k]);
      }
    }
    assert Views(g.recs) == GlobalOf(all);
  }

  class RuntimeStack {
    var frames: seq<Frame>          // innermost first
    var global: Frame
    var accessed: set<nat>          // the variables whose first_access is cleared
    var next: nat                   // the identity of the next frame

    ghost predicate Valid()
      reads `frames, `global, `next, frames`recs, global`recs
    {
      && global.id < next && (forall f <- frames :: f.id < next)
      && global.Valid() && global !in frames
      && (forall f <- frames :: f.Valid())
      && (forall i, j :: 0 <= i < j < |frames| ==> frames[i] != frames[j])
    }

    ghost function View(): StackView
      reads this, frames`recs, frames`ebp, frames`firstAccess, RecordsIn(frames)`value, RecordsIn(frames)`block
      reads global`recs, global`ebp, global`firstAccess, global.recs`value, global.recs`block
    {
      StackView(FrameViews(frames), global.View(), accessed)
    }

    // An empty stack, with the frame of the globals.
    constructor (global: Frame)
      requires global.Valid()
      ensures Valid() && frames == [] && this.global == global && accessed == {} && next == global.id + 1
    {
      frames, this.global, accessed, next := [], global, {}, global.id + 1;
    }

    // ---------------------------------------------------------------- one variable

    method GetUpdatedArrayElements(env: Env, mem: Memory, fr: Frame, frec: FrameRecord, t: LoadedType, et: LoadedType,
                                   a: u64, ghost fv: FrameView)
      returns (vlist: seq<Update>)
      requires Heads(fv, fr) && t.upperBound < 0xFFFF_FFFF
      requires et.size > 0 || a == 0 || fr.firstAccess || frec.v.id !in accessed
      modifies `accessed
      ensures (accessed, vlist) == ArrayUpdates(env, mem, fv, frec.View(), t, et, a, old(accessed))
    {
      hide Wrap, Add, Sub, Mul, BaseAddress, ReadValue, IndexOf, IndexText;
      var r := frec.View();
      var base := BaseAddress(env, fr.ebp, r.v);
      vlist := [];
      if a == 0 || fr.firstAccess || r.v.id !in accessed {
        if fr.firstAccess || r.v.id !in accessed {
          vlist := [Announcement(env, fr.id, r, t, base)];
        }
        accessed := accessed + {r.v.id};
        ghost var head := vlist;
        var i := 0;
        while i <= t.upperBound
          invariant i <= t.upperBound + 1
          invariant accessed == old(accessed) + {r.v.id}
          invariant vlist + Elements(env, mem, fr.id, r, t, et, base, i) ==
                    head + Elements(env, mem, fr.id, r, t, et, base, 0)
        {
          ghost var rest := Elements(env, mem, fr.id, r, t, et, base, i + 1);
          var u := ElementUpdate(env, mem, fr.id, r, et, i, Add(base, Mul(et.size, Wrap(i))));
          assert vlist + ([u] + rest) == (vlist + [u]) + rest;
          vlist := vlist + [u];
          i := i + 1;
        }
        assert vlist + [] == vlist;
      } else {
        vlist := [ElementUpdate(env, mem, fr.id, r, et, IndexOf(base, et.size, a), a)];
      }
    }

    method GetUpdatedStructMembers(env: Env, mem: Memory, fr: Frame, frec: FrameRecord, a: u64, ghost fv: FrameView)
      returns (vlist: seq<Update>)
      requires Heads(fv, fr) && Known(env, frec.v)
      modifies `accessed
      ensures (accessed, vlist) == StructUpdates(env, mem, fv, frec.View(), a, old(accessed))
    {
      hide Wrap, Add, BaseAddress, IsAtAddress, ReadValue, KindOf, Members, MemberHit;
      var r := frec.View();
      var t := env.types[r.v.typ];
      vlist := [];
      if a == 0 || fr.firstAccess || r.v.id !in accessed {
        var base := BaseAddress(env, fr.ebp, r.v);
        if fr.firstAccess || r.v.id !in accessed {
          vlist := [Announcement(env, fr.id, r, t, base)];
        }
        var members := ListMembers(env, mem, fr.id, r, base);
        vlist := vlist + members;
        accessed := accessed + {r.v.id};
      } else {
        var m := FindMember(env, fr.ebp, r.v.members, a, fv);
        if m.Some? {
          vlist := [MemberUpdate(env, mem, fr.id, r, m.value, a)];
        }
      }
    }

    // The loop over all members.
    method ListMembers(env: Env, mem: Memory, f: nat, r: RecordView, base: u64) returns (vlist: seq<Update>)
      requires Known(env, r.v)
      ensures vlist == Members(env, mem, f, r, r.v.members, base)
    {
      hide Wrap, Add, ReadValue, KindOf;
      var ms := r.v.members;
      vlist := [];
      var at := base;
      var i := 0;
      while i < |ms|
        invariant i <= |ms|
        invariant vlist + Members(env, mem, f, r, ms[i..], at) == Members(env, mem, f, r, ms, base)
      {
        var m := ms[i];
        assert ms[i..][1..] == ms[i + 1..];
        var u := MemberUpdate(env, mem, f, r, m, at);
        at := Add(at, env.types[m.rec.typ].size);
        ghost var rest := Members(env, mem, f, r, ms[i + 1..], at);
        assert vlist + ([u] + rest) == (vlist + [u]) + rest;
        vlist := vlist + [u];
        i := i + 1;
      }
      assert vlist + [] == vlist;
    }

    // The loop that stops at the member with the address.
    method FindMember(env: Env, ebp: u64, ms: Table<Var>, a: u64, ghost fv: FrameView) returns (m: Option<Entry<Var>>)
      requires fv.ebp == ebp && forall m <- ms :: m.rec.typ in env.types
      ensures m == MemberHit(env, fv, ms, a)
      ensures m.Some? ==> m.value in ms
    {
      hide IsAtAddress;
      var i := 0;
      while i < |ms|
        invariant i <= |ms|
        invariant MemberHit(env, fv, ms[i..], a) == MemberHit(env, fv, ms, a)
      {
        assert ms[i..][1..] == ms[i + 1..];
        if IsAtAddress(env, ebp, ms[i].rec, env.types[ms[i].rec.typ], a) {
          return Some(ms[i]);
        }
        i := i + 1;
      }
      m := None;
    }

    // The loop body of a scan, for a scalar or a pointer.
    method CheckScalar(env: Env, mem: Memory, heap: Map, fr: Frame, frec: FrameRecord, a: u64, ghost fv: FrameView)
      returns (vlist: seq<Update>)
      requires heap.Valid() && Heads(fv, fr) && frec.v.typ in env.types
      modifies frec`value, frec`block
      ensures (frec.View(), vlist) == ScanScalar(env, mem, heap.blocks, fv, old(frec.View()), a)
    {
      hide Scan, BaseAddress, ReadValue, Load, LoadedWord;
      var t := env.types[frec.v.typ];
      var base := if a == 0 || fr.firstAccess then BaseAddress(env, fr.ebp, frec.v) else a;
      var text;
      if t.isPointer {
        var word := Load(mem, base);
        text := env.wordText(word);
        var hb := heap.FindBlock(LoadedWord(word));
        if hb.Some? {
          frec.block := hb;
        }
      } else {
        text := ReadValue(env, mem, t, base);
      }
      vlist := [];
      if fr.firstAccess || text != frec.value {
        frec.value := text;
        vlist := [Update(fr.id, frec.place, frec.v.id, Declared, frec.name, [], env.scope(frec.v.id), t.name, base,
                         text)];
      }
    }

    // An array without bytes is not at any address, so that there is no element to find.
    lemma NoBytes(env: Env, ebp: u64, v: Var, t: LoadedType, a: u64)
      ensures t.size == 0 ==> !IsAtAddress(env, ebp, v, t, a)
    {}

    // The loop body of a scan.
    method CheckRecord(env: Env, mem: Memory, heap: Map, fr: Frame, frec: FrameRecord, a: u64, ghost fv: FrameView)
      returns (vlist: seq<Update>)
      requires heap.Valid() && Heads(fv, fr) && Known(env, frec.v)
      modifies `accessed, frec`value, frec`block
      ensures (frec.View(), accessed, vlist) ==
              ScanRecord(env, mem, heap.blocks, fv, old(frec.View()), a, old(accessed))
    {
      hide StructUpdates, ArrayUpdates, ScanScalar, IsAtAddress;
      var t := env.types[frec.v.typ];
      vlist := [];
      if a == 0 || fr.firstAccess || IsAtAddress(env, fr.ebp, frec.v, t, a) {
        match KindOf(env, t) {
          case AsStruct => vlist := GetUpdatedStructMembers(env, mem, fr, frec, a, fv);
          case AsArray =>
            NoBytes(env, fr.ebp, frec.v, t, a);
            vlist := GetUpdatedArrayElements(env, mem, fr, frec, t, env.types[t.base.value], a, fv);
          case AsScalar => vlist := CheckScalar(env, mem, heap, fr, frec, a, fv);
        }
      }
    }

    // ---------------------------------------------------------------- one frame

    method GetUpdatedVariablesFromFrame(env: Env, mem: Memory, heap: Map, fr: Frame, a: u64)
      returns (vlist: seq<Update>)
      requires heap.Valid() && fr.Valid() && AllKnown(env, fr.View().recs)
      modifies `accessed, fr`firstAccess, fr.recs`value, fr.recs`block
      ensures (fr.View(), accessed, vlist) ==
              ScanFrame(env, mem, heap.blocks, old(fr.View()), a, old(accessed))
    {
      hide ScanRecord, ScanRecords, ScanFrame, Scanning, AllKnown, Known, Frame.View, Views;
      FrameParts(fr);
      ghost var fv := fr.View();
      ghost var rs, done: seq<RecordView> := fv.recs, [];
      ScanStarts(env, mem, heap.blocks, fv, rs, a, accessed);
      vlist := [];
      var i := 0;
      while i < |fr.recs|
        invariant i == |done| <= |fr.recs| == |rs| && Heads(fv, fr)
        invariant forall k :: 0 <= k < |rs| ==> fr.recs[k].View() == if k < i then done[k] else rs[k]
        invariant Scanning(env, mem, heap.blocks, fv, rs, a, old(accessed), i, done, accessed, vlist)
      {
        ScanGoesOn(env, mem, heap.blocks, fv, rs, a, old(accessed), i, done, accessed, vlist);
        var ups := CheckRecord(env, mem, heap, fr, fr.recs[i], a, fv);
        done := done + [fr.recs[i].View()];
        vlist := vlist + ups;
        i := i + 1;
      }
      ScanEnds(env, mem, heap.blocks, fv, rs, a, old(accessed), done, accessed, vlist);
      if fr.firstAccess {
        fr.firstAccess := false;
      }
      assert Views(fr.recs) == done;
      FrameIs(fr, done);
      FrameScanned(env, mem, heap.blocks, fv, a, old(accessed));
    }

    // ---------------------------------------------------------------- the stack

    // A record belongs to one frame only.
    lemma OwnRecords(f: Frame)
      requires Valid() && (f in frames || f == global)
      ensures f.Valid()
      ensures forall r <- f.recs :: r in RecordsIn(frames + [global])
      ensures forall g, r :: (g in frames || g == global) && g != f && r in g.recs ==> r !in f.recs
    {
      assert f in frames + [global];
    }

    lemma OtherFrames(i: nat)
      requires Valid()
      ensures i < |frames| ==>
                frames[i] != global && forall k :: 0 <= k < |frames| && k != i ==> frames[k] != frames[i]
      ensures forall f <- frames :: f != global
    {}

    lemma AllRecords()
      ensures forall r <- RecordsIn(frames) :: r in RecordsIn(frames + [global])
      ensures forall r <- global.recs :: r in RecordsIn(frames + [global])
    {
      assert global in frames + [global];
    }

    lemma ViewParts(env: Env)
      requires StackKnown(env, View())
      ensures |View().frames| == |frames| && View().global == global.View() && View().accessed == accessed
      ensures forall k :: 0 <= k < |frames| ==> frames[k].View() == View().frames[k]
      ensures (forall f <- View().frames :: AllKnown(env, f.recs)) && AllKnown(env, global.View().recs)
    {}

    lemma ViewIs(fvs: seq<FrameView>, g: FrameView)
      requires |fvs| == |frames| && forall k :: 0 <= k < |frames| ==> frames[k].View() == fvs[k]
      requires g == global.View()
      ensures View() == StackView(fvs, g, accessed)
    {
      assert FrameViews(frames) == fvs;
    }

    lemma ScanInTwo(env: Env, mem: Memory, heap: Blocks, st: StackView, a: u64)
      requires StackKnown(env, st)
      ensures (forall f <- st.frames :: AllKnown(env, f.recs)) && AllKnown(env, st.global.recs)
      ensures var (fs, acc, ups) := ScanFrames(env, mem, heap, st.frames, a, st.accessed);
              var (g, acc', ups') := ScanFrame(env, mem, heap, st.global, a, acc);
              ScanStack(env, mem, heap, st, a) == (StackView(fs, g, acc'), ups + ups')
    {}

    // A scan of one frame leaves the others as they are.
    method UpdateFrame(env: Env, mem: Memory, heap: Map, fr: Frame, a: u64) returns (vlist: seq<Update>)
      requires Valid() && (fr in frames || fr == global)
      requires heap.Valid() && AllKnown(env, fr.View().recs)
      modifies `accessed, fr`firstAccess, fr.recs`value, fr.recs`block
      ensures Valid() && RecordsIn(frames) == old(RecordsIn(frames))
      ensures (fr.View(), accessed, vlist) == ScanFrame(env, mem, heap.blocks, old(fr.View()), a, old(accessed))
      ensures forall g :: (g in frames || g == global) && g != fr ==> g.View() == old(g.View())
    {
      hide ScanFrame, AllKnown, Valid, Frame.Valid, RecordsIn;
      OwnRecords(fr);
      vlist := GetUpdatedVariablesFromFrame(env, mem, heap, fr, a);
      forall g | (g in frames || g == global) && g != fr ensures g.View() == old(g.View()) {
        forall i | 0 <= i < |g.recs| ensures g.recs[i].View() == old(g.recs[i].View()) {
          assert old(g.recs[i] in g.recs && g.recs[i] !in fr.recs);
        }
        assert Views(g.recs) == old(Views(g.recs));
      }
    }

    // The loop over the frames.
    method UpdateFrames(env: Env, mem: Memory, heap: Map, a: u64, ghost st: seq<FrameView>)
      returns (vlist: seq<Update>, ghost done: seq<FrameView>)
      requires Valid() && heap.Valid() && |st| == |frames| && forall f <- st :: AllKnown(env, f.recs)
      requires forall k :: 0 <= k < |st| ==> frames[k].View() == st[k]
      modifies `accessed, frames`firstAccess, RecordsIn(frames)`value, RecordsIn(frames)`block
      ensures Valid() && global.View() == old(global.View())
      ensures |done| == |frames| && forall k :: 0 <= k < |done| ==> frames[k].View() == done[k]
      ensures (done, accessed, vlist) == ScanFrames(env, mem, heap.blocks, st, a, old(accessed))
    {
      hide *;
      ghost var all := RecordsIn(frames);
      FramesStart(env, mem, heap.blocks, st, a, accessed);
      vlist, done := [], [];
      var i := 0;
      while i < |frames|
        invariant i == |done| <= |frames| == |st| && Valid() && RecordsIn(frames) == all
        invariant forall k :: 0 <= k < i ==> frames[k].View() == done[k]
        invariant forall k :: i <= k < |frames| ==> frames[k].View() == st[k]
        invariant global.View() == old(global.View())
        invariant ScanningFrames(env, mem, heap.blocks, st, a, old(accessed), i, done, accessed, vlist)
      {
        FramesGoOn(env, mem, heap.blocks, st, a, old(accessed), i, done, accessed, vlist);
        RecordsOfOne(frames, frames[i]);
        OtherFrames(i);
        var ups := UpdateFrame(env, mem, heap, frames[i], a);
        done := done + [frames[i].View()];
        vlist := vlist + ups;
        i := i + 1;
      }
      FramesEnd(env, mem, heap.blocks, st, a, old(accessed), done, accessed, vlist);
    }

    // `addr_get_updated_variables`: all frames, then the globals.
    method AddrGetUpdatedVariables(env: Env, mem: Memory, heap: Map, a: u64) returns (vlist: seq<Update>)
      requires Valid() && heap.Valid() && StackKnown(env, View())
      modifies `accessed, frames`firstAccess, global`firstAccess, RecordsIn(frames + [global])`value,
               RecordsIn(frames + [global])`block
      ensures Valid()
      ensures (View(), vlist) == ScanStack(env, mem, heap.blocks, old(View()), a)
    {
      hide *;
      ghost var st := View();
      AllRecords();
      ViewParts(env);
      ghost var done;
      vlist, done := UpdateFrames(env, mem, heap, a, st.frames);
      OtherFrames(0);
      var ups := UpdateFrame(env, mem, heap, global, a);
      ScanInTwo(env, mem, heap.blocks, st, a);
      forall k | 0 <= k < |frames| ensures frames[k].View() == done[k] {
        assert frames[k] in frames;
      }
      ViewIs(done, global.View());
      vlist := vlist + ups;
    }

    // `get_all_updated_variables` is the scan for no address.
    method GetAllUpdatedVariables(env: Env, mem: Memory, heap: Map) returns (vlist: seq<Update>)
      requires Valid() && heap.Valid() && StackKnown(env, View())
      modifies `accessed, frames`firstAccess, global`firstAccess, RecordsIn(frames + [global])`value,
               RecordsIn(frames + [global])`block
      ensures Valid()
      ensures (View(), vlist) == ScanStack(env, mem, heap.blocks, old(View()), 0)
    {
      vlist := AddrGetUpdatedVariables(env, mem, heap, 0);
    }

    // `pop` of an empty stack is an error.
    method Pop() returns (ok: bool)
      requires Valid()
      modifies `frames
      ensures Valid() && ok == (old(frames) != [])
      ensures frames == if ok then old(frames)[1..] else []
    {
      ok := frames != [];
      if ok {
        frames := frames[1..];
      }
    }

    // `push`: the frame of the function that has the address; without one, the
    // source follows a null pointer.
    method Push(env: Env, mem: Memory, textBase: u64, cus: Table<CuView>, name: seq<byte>, ip: u64, ebp: u64)
      returns (ok: bool)
      requires Valid() && AllLinked(env, cus)
      modifies `frames, `next
      ensures Valid() && ok == FunctionAt(cus, textBase, ip).Some?
      ensures !ok ==> frames == old(frames) && next == old(next)
      ensures ok ==>
                && |frames| > 0 && frames[1..] == old(frames) && next == old(next) + 1
                && fresh(frames[0]) && (forall r <- frames[0].recs :: fresh(r))
                && frames[0].View() ==
                   FrameView(old(next), ebp, true,
                             NewRecords(OwnVariables(LocalsOf(FunctionAt(cus, textBase, ip).value.rec))))
                && frames[0].name == name
                && frames[0].startPc == Add(FunctionAt(cus, textBase, ip).value.rec.startPc, textBase)
                && frames[0].highPc == Add(FunctionAt(cus, textBase, ip).value.rec.highPc, textBase)
                && frames[0].Links() == Pushed(mem, name, ebp)
    {
      hide FunctionAt, OwnVariables, AllLinked, Frame.View, Pushed, LocalsOf, NewRecords;
      var fn := TranslateAddressToFunction(cus, textBase, ip);
      if fn.None? { return false; }
      var f := MakeFrame(mem, textBase, name, ebp, fn.value.rec);
      frames := [f] + frames;
      next := next + 1;
      ok := true;
    }

    method MakeFrame(mem: Memory, textBase: u64, name: seq<byte>, ebp: u64, fn: Static) returns (f: Frame)
      ensures fresh(f) && f.Valid() && f.id == next && f.name == name && forall r <- f.recs :: fresh(r)
      ensures f.startPc == Add(fn.startPc, textBase) && f.highPc == Add(fn.highPc, textBase)
      ensures f.View() == FrameView(next, ebp, true, NewRecords(OwnVariables(LocalsOf(fn))))
      ensures f.Links() == Pushed(mem, name, ebp)
    {
      hide OwnVariables, Load, LoadedWord, Add;
      f := new Frame(next, name, ebp, Add(fn.startPc, textBase), Add(fn.highPc, textBase));
      if fn.locals.Some? {
        AddRecords(f, fn.locals.value, NO_VALUE);
      } else {
        OwnEnd([], []);
      }
      f.AddLinks(mem);
      assert f.View().recs == NewRecords(OwnVariables(LocalsOf(fn)));
    }

    // ---------------------------------------------------------------- frees

    method RemoveFromFrame(fr: Frame, hb: Option<Block>)
      requires Valid() && fr in frames
      modifies fr.recs`block, fr.recs`clearStatus, fr.recs`setStatus, fr.recs`marks
      ensures RecordsIn(frames) == old(RecordsIn(frames))
      ensures fr.View() == old(fr.View()).(recs := Forget(old(fr.View()).recs, hb))
      ensures forall g :: (g in frames || g == global) && g != fr ==> g.View() == old(g.View())
    {
      hide Valid, Frame.Valid, RecordsIn, Forget;
      OwnRecords(fr);
      fr.RemoveBlock(hb);
      forall g | (g in frames || g == global) && g != fr ensures g.View() == old(g.View()) {
        forall i | 0 <= i < |g.recs| ensures g.recs[i].View() == old(g.recs[i].View()) {
          assert old(g.recs[i] in g.recs && g.recs[i] !in fr.recs);
        }
        assert Views(g.recs) == old(Views(g.recs));
      }
    }

    // `remove_block` goes through the frames of the stack, not the globals.
    method RemoveBlock(hb: Option<Block>)
      requires Valid()
      modifies RecordsIn(frames)`block, RecordsIn(frames)`clearStatus, RecordsIn(frames)`setStatus,
               RecordsIn(frames)`marks
      ensures Valid()
      ensures View() == old(View()).(frames := ForgetAll(old(View()).frames, hb))
    {
      hide Frame.View, RecordsIn, Forget, FrameViews;
      ghost var st := View();
      ghost var done := ForgetAll(st.frames, hb);
      var i := 0;
      while i < |frames|
        invariant i <= |frames| == |st.frames|
        invariant forall k :: 0 <= k < |frames| ==> frames[k].View() == if k < i then done[k] else st.frames[k]
        invariant global.View() == st.global && RecordsIn(frames) == old(RecordsIn(frames))
      {
        RecordsOfOne(frames, frames[i]);
        OtherFrames(i);
        RemoveFromFrame(frames[i], hb);
        i := i + 1;
      }
      ViewIs(done, st.global);
    }

    // ---------------------------------------------------------------- links

    // `get_updated_links`.
    method GetUpdatedLinks(mem: Memory) returns (ralist: seq<LinkRecord>, alarms: seq<Alarm>)
      requires Valid()
      modifies frames`oldRbp, frames`returnAddr
      ensures LinkViews(frames) == AllRefreshed(mem, old(LinkViews(frames)))
      ensures ralist == Records(mem, old(LinkViews(frames)))
      ensures alarms == Alarms(mem, old(LinkViews(frames)))
    {
      hide *;
      ghost var ls := LinkViews(frames);
      ralist, alarms := [], [];
      LinksStart(mem, ls);
      var i := 0;
      while i < |frames|
        invariant i <= |frames| == |ls|
        invariant forall k :: 0 <= k < |frames| ==> frames[k].Links() == if k < i then Refreshed(mem, ls[k]) else ls[k]
        invariant ralist + Records(mem, ls[i..]) == Records(mem, ls)
        invariant alarms + Alarms(mem, ls[i..]) == Alarms(mem, ls)
      {
        OtherFrames(i);
        LinksNext(mem, ls, i, ralist, alarms);
        var rs, als := CheckLinks(mem, frames[i]);
        ralist, alarms := ralist + rs, alarms + als;
        i := i + 1;
      }
      LinksEnd(mem, ls, ralist, alarms);
      assert LinkViews(frames) == AllRefreshed(mem, ls);
    }

    // The loop body: the record is built from what is saved at the time, and
    // completed by the second check.
    method CheckLinks(mem: Memory, fr: Frame) returns (ralist: seq<LinkRecord>, alarms: seq<Alarm>)
      modifies fr`oldRbp, fr`returnAddr
      ensures fr.Links() == Refreshed(mem, old(fr.Links()))
      ensures ralist == RecordFor(mem, old(fr.Links())) && alarms == AlarmsFor(mem, old(fr.Links()))
    {
      hide LinkWord, ReturnWord;
      var rarec: Option<LinkRecord> := None;
      alarms := [];
      var rbp := LinkWord(mem, fr.ebp);
      if fr.oldRbp != rbp {
        fr.oldRbp := rbp;
        rarec := Some(LinkRecord(fr.name, rbp, fr.returnAddr));
        if !fr.beforeSetup {
          alarms := alarms + [FramePointerFault];
        }
      }
      var ra := ReturnWord(mem, fr.ebp);
      if fr.returnAddr != ra {
        fr.returnAddr := ra;
        if rarec.None? {
          rarec := Some(LinkRecord(fr.name, fr.oldRbp, 0));
        }
        rarec := Some(rarec.value.(returnAddress := ra));
        if !fr.beforeSetup {
          alarms := alarms + [ReturnAddressFault];
        }
      }
      ralist := if rarec.Some? then [rarec.value] else [];
    }
  }
}
