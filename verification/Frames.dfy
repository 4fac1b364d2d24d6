// The frames of the shadow stack as objects that scans, marks and frees update in
// place.
module Frames {
  import opened Words
  import opened Bytes
  import opened SymbolTables
  import opened DebugFile
  import opened HeapMap
  import opened ShadowStack
  import opened ShadowRuns
  import opened SensitiveData
  import opened StackLinks
  import opened AddressTranslation
  import opened WordFields

  // ------------------------------------------------------------------ one variable

  class FrameRecord {
    const place: nat                    // its place in the frame
    const name: Key
    const v: Var
    const owner: Frame
    var value: seq<byte>
    var block: Option<Block>
    var clearStatus: array?<bool>
    var setStatus: array?<bool>
    var numBytes: u64
    ghost var marks: seq<Mark>          // the marks since the last reset

    constructor (place: nat, name: Key, v: Var, owner: Frame, value: seq<byte>)
      ensures this.place == place && this.name == name && this.v == v && this.owner == owner
      ensures this.value == value && block == None
      ensures Valid() && marks == []
    {
      this.place, this.name, this.v, this.owner, this.value, block := place, name, v, owner, value, None;
      clearStatus, setStatus, numBytes, marks := null, null, 0, [];
    }

    function View(): RecordView
      reads `value, `block
    {
      RecordView(place, name, v, value, block)
    }

    // The arrays tell, for every byte, the verdict of the last mark on it.
    ghost predicate Valid()
      reads this, clearStatus, setStatus
    {
      && (clearStatus == null <==> marks == [])
      && (setStatus == null <==> marks == [])
      && (clearStatus != null && setStatus != null ==>
            && clearStatus != setStatus
            && clearStatus.Length == setStatus.Length == numBytes
            && forall i :: 0 <= i < numBytes ==>
                 && clearStatus[i] == (Last(marks, i) == Some(true))
                 && setStatus[i] == (Last(marks, i) == Some(false)))
    }

    // The size of the data: of the heap block that the variable refers to, or of
    // its type.
    function DataSize(env: Env): u64
      requires v.typ in env.types
      reads `block
    {
      if block.Some? then block.value.size else env.types[v.typ].size
    }

    // The first byte of the data: of the variable, or of what it points to.
    function DataBase(env: Env, mem: Memory, ebp: u64): u64
      requires v.typ in env.types
    {
      var base := BaseAddress(env, ebp, v);
      if env.types[v.typ].isPointer then LoadedWord(Load(mem, base)) else base
    }

    // The same, in terms of the place of the variable and of the word that is there.
    function DataStart(env: Env, mem: Memory, ebp: u64): u64
      requires v.typ in env.types
    {
      var place := (v.location + if v.isLocal || v.isParam then ebp else env.dataBase) % 0x1_0000_0000_0000_0000;
      if env.types[v.typ].isPointer then WordAt(mem, place) else place
    }

    lemma DataStartExactly(env: Env, mem: Memory, ebp: u64)
      requires v.typ in env.types
      ensures DataBase(env, mem, ebp) == DataStart(env, mem, ebp)
    {
      hide Load, LoadedWord, WordAt;
      LoadExactly(mem, BaseAddress(env, ebp, v));
    }

    method MarkDataClearStatus(env: Env, mem: Memory, ebp: u64, addr: u64, c: int, n: u64)
      requires Valid() && v.typ in env.types
      modifies `clearStatus, `setStatus, `numBytes, `marks, clearStatus, setStatus
      ensures Valid()
      ensures numBytes == if old(marks) != [] then old(numBytes)
                          else if block.Some? then block.value.size else env.types[v.typ].size
      ensures marks == old(marks) + [MarkOf(DataBase(env, mem, ebp), addr, c, n, numBytes)]
      ensures clearStatus == old(clearStatus) || fresh(clearStatus)
      ensures setStatus == old(setStatus) || fresh(setStatus)
      // The bytes from the offset of the address on, up to n or to the end of the data, are
      // clear if c is zero and set if it is not, and all others are what they were.
      ensures clearStatus != null && setStatus != null && clearStatus.Length == numBytes == setStatus.Length
      ensures var offset := (addr - DataStart(env, mem, ebp)) % 0x1_0000_0000_0000_0000;
              forall i :: 0 <= i < numBytes ==>
                if offset <= i && i < n then clearStatus[i] == (c == 0) && setStatus[i] == (c != 0)
                else if old(clearStatus == null || setStatus == null) then !clearStatus[i] && !setStatus[i]
                else clearStatus[i] == old(clearStatus[i]) && setStatus[i] == old(setStatus[i])
    {
      hide Last, DataStart, DataBase, BaseAddress;
      DataStartExactly(env, mem, ebp);
      SizeStatus(env);
      var m := MarkOf(DataBase(env, mem, ebp), addr, c, n, numBytes);
      ghost var before := marks;
      LastOfMore(before, m);
      MarkBytes(m.first, m.end, m.clear, clearStatus, setStatus);
      marks := before + [m];
    }

    // The first mark since a reset makes the arrays.
    method SizeStatus(env: Env)
      requires Valid() && v.typ in env.types
      modifies `clearStatus, `setStatus, `numBytes
      ensures numBytes == if marks != [] then old(numBytes) else DataSize(env)
      ensures clearStatus != null && setStatus != null && clearStatus != setStatus
      ensures clearStatus.Length == numBytes == setStatus.Length
      ensures if marks != [] then clearStatus == old(clearStatus) && setStatus == old(setStatus)
              else
                && fresh(clearStatus) && fresh(setStatus)
                && forall i :: 0 <= i < numBytes ==> !clearStatus[i] && !setStatus[i]
      ensures forall i :: 0 <= i < numBytes ==>
                && clearStatus[i] == (Last(marks, i) == Some(true))
                && setStatus[i] == (Last(marks, i) == Some(false))
    {
      if clearStatus == null {
        numBytes := DataSize(env);
        clearStatus := new bool[numBytes](_ => false);
        setStatus := new bool[numBytes](_ => false);
      }
    }

    lemma LastOfMore(before: seq<Mark>, m: Mark)
      ensures forall k :: Last(before + [m], k) == if m.Covers(k) then Some(m.clear) else Last(before, k)
    {
      assert (before + [m])[..|before|] == before;
    }

    // The loop over the bytes.
    method MarkBytes(first: u64, end: u64, clear: bool, cs: array<bool>, ss: array<bool>)
      requires cs != ss && end <= cs.Length == ss.Length
      modifies cs, ss
      ensures forall k :: 0 <= k < cs.Length ==>
                && cs[k] == (if first <= k < end then clear else old(cs[k]))
                && ss[k] == (if first <= k < end then !clear else old(ss[k]))
    {
      var i := first;
      while i < end
        invariant first <= i && (i <= end || i == first)
        invariant forall k :: 0 <= k < cs.Length ==>
                    && cs[k] == (if first <= k < i && k < end then clear else old(cs[k]))
                    && ss[k] == (if first <= k < i && k < end then !clear else old(ss[k]))
      {
        cs[i] := clear;
        ss[i] := !clear;
        i := i + 1;
      }
    }

    method IsDataClear() returns (clear: bool)
      requires Valid()
      ensures clear <==> IsClear(marks, numBytes)
      ensures clear <==> clearStatus != null && forall i :: 0 <= i < clearStatus.Length ==> clearStatus[i]
    {
      if clearStatus == null { return false; }
      var i := 0;
      while i < numBytes
        invariant i <= numBytes
        invariant forall k :: 0 <= k < i ==> clearStatus[k]
      {
        if !clearStatus[i] {
          assert Last(marks, i) != Some(true);
          return false;
        }
        i := i + 1;
      }
      clear := true;
    }

    method IsDataSet() returns (set': bool)
      requires Valid()
      ensures set' <==> IsSet(marks, if marks == [] then 0 else numBytes)
      ensures set' <==> setStatus != null && exists i :: 0 <= i < setStatus.Length && setStatus[i]
    {
      if setStatus == null { return false; }
      var i := 0;
      while i < numBytes
        invariant i <= numBytes
        invariant forall k :: 0 <= k < i ==> !setStatus[k]
      {
        if setStatus[i] {
          assert Last(marks, i) == Some(false);
          return true;
        }
        i := i + 1;
      }
      set' := false;
    }

    method ResetClearSetStatus()
      modifies `clearStatus, `setStatus, `marks
      ensures Valid() && marks == []
    {
      clearStatus, setStatus, marks := null, null, [];
    }

    // `remove_heap_block` forgets the marks together with the block.
    method RemoveHeapBlock()
      modifies `block, `clearStatus, `setStatus, `marks
      ensures Valid() && marks == [] && block == None
    {
      block, clearStatus, setStatus, marks := None, null, null, [];
    }
  }

  // ------------------------------------------------------------------ one frame

  function Views(rs: seq<FrameRecord>): (out: seq<RecordView>)
    reads rs`value, rs`block
    ensures |out| == |rs| && forall i :: 0 <= i < |rs| ==> out[i] == rs[i].View()
  {
    if rs == [] then [] else [rs[0].View()] + Views(rs[1..])
  }

  class Frame {
    const id: nat
    const name: seq<byte>
    const startPc: u64
    const highPc: u64
    var ebp: u64                        // of the context that is saved
    var firstAccess: bool
    var beforeSetup: bool
    var oldRbp: u64
    var returnAddr: u64
    var recs: seq<FrameRecord>

    constructor (id: nat, name: seq<byte>, ebp: u64, startPc: u64, highPc: u64)
      ensures Valid() && recs == [] && firstAccess && beforeSetup
      ensures this.id == id && this.name == name && this.ebp == ebp && this.startPc == startPc && this.highPc == highPc
    {
      this.id, this.name, this.startPc, this.highPc, this.ebp := id, name, startPc, highPc, ebp;
      firstAccess, beforeSetup, oldRbp, returnAddr, recs := true, true, 0, 0, [];
    }

    // The records are different objects, and they belong to this frame.
    ghost predicate Valid()
      reads `recs
    {
      && (forall r <- recs :: r.owner == this)
      && (forall i, j :: 0 <= i < j < |recs| ==> recs[i] != recs[j])
    }

    function View(): FrameView
      reads `recs, `ebp, `firstAccess, recs`value, recs`block
    {
      FrameView(id, ebp, firstAccess, Views(recs))
    }

    function Links(): LinkView
      reads `ebp, `oldRbp, `returnAddr, `beforeSetup
    {
      LinkView(name, ebp, oldRbp, returnAddr, beforeSetup)
    }

    method AddFrameRecord(r: FrameRecord)
      requires Valid() && r.owner == this && r !in recs
      modifies `recs
      ensures Valid() && recs == old(recs) + [r]
    {
      recs := recs + [r];
    }

    // `add_context`, which is called again once the function has its own base pointer.
    method AddContext(ebp: u64)
      modifies `ebp
      ensures View() == old(View()).(ebp := ebp) && Links() == old(Links()).(ebp := ebp)
    {
      this.ebp := ebp;
      assert Views(recs) == old(Views(recs));
    }

    method ClearIsBeforeStackSetup()
      modifies `beforeSetup
      ensures Links() == old(Links()).(beforeSetup := false)
    {
      beforeSetup := false;
    }

    // The words above the base pointer, as they are when the frame is pushed.
    method AddLinks(mem: Memory)
      modifies `oldRbp, `returnAddr
      ensures Links() == Pushed(mem, name, ebp).(beforeSetup := beforeSetup)
    {
      oldRbp := LoadedWord(Load(mem, Add(ebp, 8)));
      returnAddr := LoadedWord(Load(mem, Add(ebp, 16)));
    }

    // A freed block goes from every record that refers to it, with its marks.
    method RemoveBlock(hb: Option<Block>)
      requires Valid()
      modifies recs`block, recs`clearStatus, recs`setStatus, recs`marks
      ensures View() == old(View()).(recs := Forget(old(View()).recs, hb))
      ensures forall r <- recs :: if old(r.block) == hb then r.Valid() && r.marks == [] && r.block == None
                                  else unchanged(r)
    {
      ghost var was := Views(recs);
      var i := 0;
      while i < |recs|
        invariant i <= |recs|
        invariant forall k :: 0 <= k < |recs| ==>
                    if k < i && was[k].block == hb
                    then recs[k].View() == was[k].(block := None) && recs[k].Valid() && recs[k].marks == []
                    else unchanged(recs[k])
      {
        ghost var r := recs[i];
        assert forall k :: 0 <= k < |recs| && k != i ==> recs[k] != r;
        assert r.View() == was[i];
        if recs[i].block == hb {
          recs[i].RemoveHeapBlock();
        }
        i := i + 1;
      }
      assert Views(recs) == Forget(was, hb) by {
        forall k | 0 <= k < |recs| ensures Views(recs)[k] == Forget(was, hb)[k] {
          assert recs[k].View() == was[k] || was[k].block == hb;
        }
      }
    }
  }
}
