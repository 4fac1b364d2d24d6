// The updates of a run in the analysis trace: each becomes a record of a variable access,
// which is written and read like any other.
module UpdateTrace {
  import opened Words
  import opened Bytes
  import opened AnalysisRecords
  import opened ShadowStack
  import S = ShadowRuns
  import AsciiText

  // When and where an update is reported; and what the field for the target of a pointer
  // happens to be.
  datatype Site = Site(event: u64, line: i16, file: CString, pointsTo: u64)

  const STAR := AsciiText.Ascii("*")

  // `var_upd_record::write`. All texts pass through `c_str`, and only types with a star in
  // their name point to something.
  function RecordOf(u: Update, site: Site): Record {
    VarAccess(site.event, site.line, site.file, UpToNul(u.scope), u.address, UpToNul(u.typeName),
              UpToNul(u.prefix + u.name), if Occurs(STAR, u.typeName) then site.pointsTo else MINUS_ONE,
              UpToNul(u.value))
  }

  function RecordsOf(log: seq<Update>, at: nat -> Site, i: nat): (rs: seq<Record>)
    ensures |rs| == |log| && forall k :: 0 <= k < |rs| ==> rs[k] == RecordOf(log[k], at(i + k))
  {
    if log == [] then [] else [RecordOf(log[0], at(i))] + RecordsOf(log[1..], at, i + 1)
  }

  // The texts of the update are short enough, the value included.
  predicate UpdateFits(u: Update, site: Site) {
    && |site.file| <= PATH_MAX
    && |UpToNul(u.scope)| <= MAX_VARIABLE && |UpToNul(u.typeName)| <= MAX_VARIABLE
    && |UpToNul(u.prefix + u.name)| <= MAX_VARIABLE && |UpToNul(u.value)| <= MAX_VARIABLE
  }

  // The loop over the updates of a scan, or of many. It completes if and only if all of
  // them fit, and then reading the trace gives back exactly their records, in order.
  method WriteUpdates(f: OutFile, log: seq<Update>, at: nat -> Site) returns (ok: bool)
    modifies f
    ensures ok <==> forall k :: 0 <= k < |log| ==> UpdateFits(log[k], at(k))
    ensures ok ==> f.data == old(f.data) + EncodeAll(RecordsOf(log, at, 0))
    ensures ok ==> DecodeAll(EncodeAll(RecordsOf(log, at, 0))) == (RecordsOf(log, at, 0), EndOfFile)
  {
    hide Fits, Encode, RecordOf, UpdateFits;
    ghost var all := RecordsOf(log, at, 0);
    var i := 0;
    assert all[0..] == all;
    while i < |log|
      invariant i <= |log| == |all| && forall k :: 0 <= k < i ==> UpdateFits(log[k], at(k))
      invariant f.data + EncodeAll(all[i..]) == old(f.data) + EncodeAll(all)
    {
      ghost var before := f.data;
      ok := Write(f, RecordOf(log[i], at(i)));
      FitsExactly(log[i], at(i));
      if !ok { return; }
      assert all[i..][1..] == all[i + 1..] && all[i..][0] == RecordOf(log[i], at(i));
      ghost var rest := EncodeAll(all[i + 1..]);
      EncodeSplit(all[i], rest);
      assert (before + Encode(all[i], [])) + rest == before + (Encode(all[i], []) + rest);
      i := i + 1;
    }
    assert f.data + [] == f.data;
    ok := true;
    LogComesBack(log, at);
  }

  lemma FitsExactly(u: Update, site: Site)
    ensures Fits(RecordOf(u, site)) <==> UpdateFits(u, site)
    ensures !IsFileRecord(RecordOf(u, site))
  {
    hide UpToNul, Occurs;
  }

  lemma LogComesBack(log: seq<Update>, at: nat -> Site)
    requires forall k :: 0 <= k < |log| ==> UpdateFits(log[k], at(k))
    ensures DecodeAll(EncodeAll(RecordsOf(log, at, 0))) == (RecordsOf(log, at, 0), EndOfFile)
  {
    hide Fits, RecordOf, UpdateFits, IsFileRecord, DecodeAll, EncodeAll;
    var all := RecordsOf(log, at, 0);
    forall r | r in all ensures Fits(r) && !IsFileRecord(r) {
      var k :| 0 <= k < |all| && all[k] == r;
      FitsExactly(log[k], at(k));
    }
    TraceRoundTrip(all);
  }

  // The values of those records that a reader takes to be about one variable.
  function Shown(rs: seq<Record>, about: Record -> bool): seq<seq<byte>> {
    if rs == [] then []
    else (if rs[0].VarAccess? && about(rs[0]) then [rs[0].value] else []) + Shown(rs[1..], about)
  }

  function Cut(ts: seq<seq<byte>>): (out: seq<seq<byte>>)
    ensures |out| == |ts| && forall i :: 0 <= i < |ts| ==> out[i] == UpToNul(ts[i])
  {
    if ts == [] then [] else [UpToNul(ts[0])] + Cut(ts[1..])
  }

  // A reader of the trace that tells the records of a variable from all others sees its
  // reports, up to the first NUL of each, in order.
  lemma {:induction false} ReaderSees(log: seq<Update>, at: nat -> Site, i: nat, w: S.Whose,
                                      about: Record -> bool)
    requires forall k :: 0 <= k < |log| ==> (about(RecordOf(log[k], at(i + k))) <==> S.Picks(w, log[k]))
    ensures Shown(RecordsOf(log, at, i), about) == Cut(S.Texts(log, w))
  {
    hide RecordOf, UpToNul;
    if log != [] {
      var rest := log[1..];
      forall k | 0 <= k < |rest| ensures about(RecordOf(rest[k], at(i + 1 + k))) <==> S.Picks(w, rest[k]) {
        assert rest[k] == log[k + 1] && i + 1 + k == i + (k + 1);
      }
      ReaderSees(rest, at, i + 1, w, about);
      var rs := RecordsOf(log, at, i);
      assert i + 0 == i && rs[1..] == RecordsOf(rest, at, i + 1) && rs[0] == RecordOf(log[0], at(i));
      AccessValue(log[0], at(i));
      var head := if S.Picks(w, log[0]) then [log[0].value] else [];
      CutAppend(head, S.Texts(rest, w));
    }
  }

  lemma AccessValue(u: Update, site: Site)
    ensures RecordOf(u, site).VarAccess? && RecordOf(u, site).value == UpToNul(u.value)
  {}

  lemma {:induction false} CutAppend(a: seq<seq<byte>>, b: seq<seq<byte>>)
    requires |a| <= 1
    ensures Cut(a + b) == Cut(a) + Cut(b)
  {
    if a == [] {
      assert a + b == b;
    } else {
      assert (a + b)[1..] == b && a[1..] == [];
    }
  }

  // So, at any point of a program after the first scan of a frame, such a reader finds as
  // the last value of a variable the one that is stored for it.
  lemma ReaderKnowsValue(env: Env, r: S.Run, ops: seq<S.Op>, f: FrameView, i: nat, at: nat -> Site,
                         about: Record -> bool)
    requires S.Begins(env, r) && S.Ok(env, r) && S.OpsKnown(env, ops)
    requires S.Identified(r.st.global.recs) && S.OpsIdentified(ops)
    requires var r' := S.Steps(env, r, ops);
             && f in S.AllFrames(r'.st) && !f.firstAccess && i < |f.recs| && S.Tracked(env, f.recs[i].v)
             && forall k :: 0 <= k < |r'.log| ==>
                  (about(RecordOf(r'.log[k], at(0 + k))) <==> S.Picks(S.OfVariable(f.id, f.recs[i].v.id), r'.log[k]))
    ensures var shown := Shown(RecordsOf(S.Steps(env, r, ops).log, at, 0), about);
            shown != [] && shown[|shown| - 1] == UpToNul(f.recs[i].value)
  {
    hide S.Steps, S.Tracked, S.Once, S.NoStutter, S.Texts, RecordOf, RecordsOf, UpToNul, Shown;
    var r' := S.Steps(env, r, ops);
    S.ProgramSettled(env, r, ops);
    assert S.VariableSettled(r'.log, f, i);
    ReaderSees(r'.log, at, 0, S.OfVariable(f.id, f.recs[i].v.id), about);
  }
}
