// The history of marks on a sensitive variable: which of its bytes have been
// cleared, and which have been set since.
module SensitiveData {
  import opened Words

  // One mark: the bytes from `first` up to `end` are clear, or set.
  datatype Mark = Mark(first: u64, end: u64, clear: bool) {
    predicate Covers(i: nat) { first <= i < end }
  }

  // What a mark of n bytes from an address on covers of a variable: it begins at
  // the offset of the address, and it ends at n, or at the end of the variable.
  function MarkOf(base: u64, addr: u64, c: int, n: u64, size: u64): Mark {
    Mark(Sub(addr, base), if n > size then size else n, c == 0)
  }

  // The verdict of the last mark that covers a byte.
  function Last(ms: seq<Mark>, i: nat): Option<bool> {
    if ms == [] then None
    else
      var m := ms[|ms| - 1];
      if m.Covers(i) then Some(m.clear) else Last(ms[..|ms| - 1], i)
  }

  lemma {:induction false} LastMeaning(ms: seq<Mark>, i: nat, clear: bool)
    ensures Last(ms, i) == Some(clear) <==>
            exists k :: 0 <= k < |ms| && ms[k].Covers(i) && ms[k].clear == clear &&
                        forall j :: k < j < |ms| ==> !ms[j].Covers(i)
  {
    if ms != [] {
      var n := |ms| - 1;
      var before := ms[..n];
      LastMeaning(before, i, clear);
      if ms[n].Covers(i) {
        if k :| 0 <= k < |ms| && ms[k].Covers(i) && ms[k].clear == clear &&
                forall j :: k < j < |ms| ==> !ms[j].Covers(i) {
          assert k == n;
        }
      } else if Last(before, i) == Some(clear) {
        var k :| 0 <= k < |before| && before[k].Covers(i) && before[k].clear == clear &&
                 forall j :: k < j < |before| ==> !before[j].Covers(i);
        forall j | k < j < |ms| ensures !ms[j].Covers(i) {
          assert j < n ==> before[j] == ms[j];
        }
        assert ms[k] == before[k];
      }
    }
  }

  // Clear: every byte was covered, and cleared by the last mark that covers it.
  predicate IsClear(ms: seq<Mark>, size: nat) {
    ms != [] && forall i :: 0 <= i < size ==> Last(ms, i) == Some(true)
  }

  // Set: some byte was set by the last mark that covers it.
  predicate IsSet(ms: seq<Mark>, size: nat) {
    exists i :: 0 <= i < size && Last(ms, i) == Some(false)
  }

  lemma NeverBoth(ms: seq<Mark>, size: nat)
    ensures !(IsClear(ms, size) && IsSet(ms, size))
  {}

  // ------------------------------------------------------------------ what marks cover

  // The bytes of the variable that lie in the n bytes from the address on.
  predicate Meant(base: u64, addr: u64, n: u64, i: nat) { addr <= base + i < addr + n }

  // The mark covers the bytes that are meant exactly when it begins at the start of
  // the variable or behind its end, when it is empty, or when it is as long as the
  // variable; or when it lies before the variable as a whole.
  lemma CoversMeantExactly(base: u64, addr: u64, c: int, n: u64, size: u64)
    requires base + size <= TWO_64
    ensures (forall i :: 0 <= i < size ==> (MarkOf(base, addr, c, n, size).Covers(i) <==> Meant(base, addr, n, i))) <==>
            if addr < base then addr + n <= base || size == 0
            else addr == base || addr - base >= size || n == 0 || n >= size
  {
    var m := MarkOf(base, addr, c, n, size);
    if addr < base {
      assert addr - base + TWO_64 < TWO_64 && Sub(addr, base) == addr - base + TWO_64;
      if addr + n > base && size > 0 {
        assert Meant(base, addr, n, 0) && !m.Covers(0);
      }
    } else {
      assert Sub(addr, base) == addr - base;
      if addr > base && addr - base < size && 0 < n < size {
        var k := addr - base;
        var i := if n <= k then k else n;
        assert Meant(base, addr, n, i) && !m.Covers(i);
      }
    }
  }

  // Data is clear only after a mark at least as long as the data; clearing it piece
  // by piece never makes it clear.
  lemma ClearNeedsWhole(ms: seq<Mark>, size: nat)
    requires IsClear(ms, size) && size > 0
    ensures exists m :: m in ms && m.clear && m.end >= size
  {
    LastMeaning(ms, size - 1, true);
    var k :| 0 <= k < |ms| && ms[k].Covers(size - 1) && ms[k].clear;
    assert ms[k] in ms;
  }

  // ------------------------------------------------------------------ a history of calls

  // A call that marks n bytes from an address on, of data that begin at the base.
  datatype MarkCall = MarkCall(base: u64, addr: u64, c: int, n: u64) {
    // The call changes what is known of byte i of data of this size.
    predicate Touches(size: u64, i: nat) {
      (addr - base) % 0x1_0000_0000_0000_0000 <= i < if n < size then n else size
    }
  }

  function MarksOf(calls: seq<MarkCall>, size: u64): (ms: seq<Mark>)
    ensures |ms| == |calls|
  {
    if calls == [] then []
    else
      var k := calls[|calls| - 1];
      MarksOf(calls[..|calls| - 1], size) + [MarkOf(k.base, k.addr, k.c, k.n, size)]
  }

  // Call k is the last one that touches byte i.
  ghost predicate TouchedLast(calls: seq<MarkCall>, size: u64, i: nat, k: int) {
    0 <= k < |calls| && calls[k].Touches(size, i) && forall j :: k < j < |calls| ==> !calls[j].Touches(size, i)
  }

  // The last call that touches byte i clears it, with c zero, or sets it, with c not zero.
  ghost predicate LastClears(calls: seq<MarkCall>, size: u64, i: nat) {
    exists k :: TouchedLast(calls, size, i, k) && calls[k].c == 0
  }

  ghost predicate LastSets(calls: seq<MarkCall>, size: u64, i: nat) {
    exists k :: TouchedLast(calls, size, i, k) && calls[k].c != 0
  }

  lemma {:induction false} LastByCalls(calls: seq<MarkCall>, size: u64, i: nat)
    ensures Last(MarksOf(calls, size), i) == Some(true) <==> LastClears(calls, size, i)
    ensures Last(MarksOf(calls, size), i) == Some(false) <==> LastSets(calls, size, i)
  {
    hide TouchedLast, LastClears, LastSets;
    if calls == [] {
      NoTouch(size, i);
    } else {
      var n := |calls| - 1;
      LastByCalls(calls[..n], size, i);
      assert MarksOf(calls, size)[..n] == MarksOf(calls[..n], size);
      OneMore(calls, size, i);
    }
  }

  lemma NoTouch(size: u64, i: nat)
    ensures !LastClears([], size, i) && !LastSets([], size, i)
  {}

  lemma OneMore(calls: seq<MarkCall>, size: u64, i: nat)
    requires calls != []
    ensures var n := |calls| - 1;
            if calls[n].Touches(size, i) then
              (LastClears(calls, size, i) <==> calls[n].c == 0) && (LastSets(calls, size, i) <==> calls[n].c != 0)
            else
              && (LastClears(calls, size, i) <==> LastClears(calls[..n], size, i))
              && (LastSets(calls, size, i) <==> LastSets(calls[..n], size, i))
  {
    var n := |calls| - 1;
    if calls[n].Touches(size, i) {
      assert TouchedLast(calls, size, i, n);
    } else {
      forall k ensures TouchedLast(calls, size, i, k) <==> TouchedLast(calls[..n], size, i, k) {
        EarlierTouch(calls, size, i, k);
      }
    }
  }

  lemma EarlierTouch(calls: seq<MarkCall>, size: u64, i: nat, k: int)
    requires calls != [] && !calls[|calls| - 1].Touches(size, i)
    ensures TouchedLast(calls, size, i, k) <==> TouchedLast(calls[..|calls| - 1], size, i, k)
  {
    var before := calls[..|calls| - 1];
    if TouchedLast(before, size, i, k) {
      forall j | k < j < |calls| ensures !calls[j].Touches(size, i) {
        assert j < |before| ==> before[j] == calls[j];
      }
      assert calls[k] == before[k];
    }
    if TouchedLast(calls, size, i, k) {
      forall j | k < j < |before| ensures !before[j].Touches(size, i) {
        assert before[j] == calls[j];
      }
    }
  }

  // After any calls, data are clear exactly when there was one and for each byte the last
  // that touches it clears it; and they are set exactly when for some byte the last that
  // touches it sets it.
  lemma StatusByCalls(calls: seq<MarkCall>, size: u64)
    ensures IsClear(MarksOf(calls, size), size) <==>
            calls != [] && forall i :: 0 <= i < size ==> LastClears(calls, size, i)
    ensures IsSet(MarksOf(calls, size), size) <==> exists i :: 0 <= i < size && LastSets(calls, size, i)
  {
    hide LastClears, LastSets, MarksOf, Last;
    forall i: nat | i < size
      ensures Last(MarksOf(calls, size), i) == Some(true) <==> LastClears(calls, size, i)
      ensures Last(MarksOf(calls, size), i) == Some(false) <==> LastSets(calls, size, i)
    {
      LastByCalls(calls, size, i);
    }
    assert MarksOf(calls, size) == [] <==> calls == [];
  }
}
