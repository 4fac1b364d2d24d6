// Which struct a member goes to. The walk remembers the struct that it has seen last, and
// never goes back to the one around it.
module DieMembers {
  import opened Words
  import opened SymbolTables
  import opened AsciiText
  import opened DieWalk
  import opened DieScopes

  // The struct seen last has a member table.
  ghost predicate Remembered(s: State) {
    && s.stack != []
    && (s.lastStruct.Some? ==>
          && s.lastStruct.value < |s.recs| && s.recs[s.lastStruct.value].members.Some?
          && s.recs[s.lastStruct.value].members.value < |s.tables|)
  }

  // From one state of the walk to a later one: with a struct in between, members go to a
  // table that was not there before, and otherwise to the same one.
  ghost predicate Follows(s: State, s': State, seen: bool) {
    && Remembered(s') && |s.tables| <= |s'.tables|
    && if seen then LastMembers(s').Some? && LastMembers(s').value >= |s.tables| else LastMembers(s') == LastMembers(s)
  }

  lemma EnterFollows(s: State, d: Die)
    requires Remembered(s) && Enter(s, d).Some?
    ensures Follows(s, Enter(s, d).value, d.tag.StructType?)
    ensures d.tag.StructType? ==>
              LastMembers(Enter(s, d).value) == Some(|s.tables|) && |Enter(s, d).value.tables| == |s.tables| + 1
  {
    hide Put, Name, TypeOf, ArrayRec, PointerRec, SubprogramRec, VariableRec, Ascii, Decimal;
  }

  lemma {:induction false} VisitFollows(s: State, d: Die)
    requires Remembered(s) && Visit(s, d).Some?
    ensures Follows(s, Visit(s, d).value, Mentions(StructType, d))
    decreases d, 1
  {
    hide Enter;
    EnterFollows(s, d);
    VisitAllFollows(Enter(s, d).value, d.children);
    assert Mentions(StructType, d) == (d.tag.StructType? || MentionsAny(StructType, d.children));
  }

  lemma {:induction false} VisitAllFollows(s: State, ds: seq<Die>)
    requires Remembered(s) && VisitAll(s, ds).Some?
    ensures Follows(s, VisitAll(s, ds).value, MentionsAny(StructType, ds))
    decreases ds, 0
  {
    if ds != [] {
      hide Visit, Mentions;
      VisitFollows(s, ds[0]);
      VisitAllFollows(Visit(s, ds[0]).value, ds[1..]);
      SplitMentions(StructType, ds);
    }
  }

  lemma {:induction false} VisitAllSplit(s: State, ds: seq<Die>, k: nat)
    requires s.stack != [] && k <= |ds| && VisitAll(s, ds).Some?
    ensures VisitAll(s, ds[..k]).Some?
    ensures VisitAll(s, ds) == VisitAll(VisitAll(s, ds[..k]).value, ds[k..])
    decreases k
  {
    hide Visit;
    if k == 0 {
      assert ds[0..] == ds;
    } else {
      VisitAllSplit(Visit(s, ds[0]).value, ds[1..], k - 1);
      assert ds[..k][1..] == ds[1..][..k - 1] && ds[1..][k - 1..] == ds[k..];
    }
  }

  // A member of a struct is filed in the member table of that struct if and only if no
  // other struct comes between the two, at any depth, in the order of the entries.
  lemma MemberFiledExactly(s: State, d: Die, k: nat)
    requires Remembered(s) && Visit(s, d).Some? && d.tag.StructType?
    requires k < |d.children| && d.children[k].tag.Member?
    ensures LastMembers(Enter(s, d).value) == Some(|s.tables|)
    ensures var before := VisitAll(Enter(s, d).value, d.children[..k]); var m := d.children[k];
            && before.Some?
            && exists t: TableId ::
                 && Enter(before.value, m) ==
                    Some(PutVar(before.value, t, Name(m), VariableRec(m, false, false, m.location.GetOr(0))))
                 && t < |before.value.tables|
                 && (t == |s.tables| <==> !MentionsAny(StructType, d.children[..k]))
  {
    hide Put, PutVar, VariableRec, Mentions, PutType;
    EnterFollows(s, d);
    var s1 := Enter(s, d).value;
    VisitAllSplit(s1, d.children, k);
    VisitAllFollows(s1, d.children[..k]);
    var before := VisitAll(s1, d.children[..k]).value;
    var t := LastMembers(before).value;
    assert Enter(before, d.children[k]).Some?;
  }
}
