// The saved links of the frames: the frame pointer of the caller and the return
// address, compared with the words that are on the stack now.
module StackLinks {
  import opened Words
  import opened Bytes
  import opened SymbolTables
  import opened HeapMap
  import opened DebugFile
  import opened ShadowStack

  datatype LinkView = LinkView(name: seq<byte>, ebp: u64, oldRbp: u64, returnAddr: u64, beforeSetup: bool)

  datatype LinkRecord = LinkRecord(name: seq<byte>, dynamicLink: u64, returnAddress: u64)

  datatype Alarm = FramePointerFault | ReturnAddressFault

  // The two words of the frame on the stack; a load that faults gives -1.
  function LinkWord(mem: Memory, ebp: u64): u64 { LoadedWord(Load(mem, ebp)) }

  function ReturnWord(mem: Memory, ebp: u64): u64 { LoadedWord(Load(mem, Add(ebp, 8))) }

  predicate RbpChanged(mem: Memory, f: LinkView) { f.oldRbp != LinkWord(mem, f.ebp) }

  predicate RaChanged(mem: Memory, f: LinkView) { f.returnAddr != ReturnWord(mem, f.ebp) }

  // The frame with both links as they are on the stack.
  function Refreshed(mem: Memory, f: LinkView): LinkView {
    f.(oldRbp := LinkWord(mem, f.ebp), returnAddr := ReturnWord(mem, f.ebp))
  }

  function AllRefreshed(mem: Memory, fs: seq<LinkView>): (out: seq<LinkView>)
    ensures |out| == |fs| && forall i :: 0 <= i < |fs| ==> out[i] == Refreshed(mem, fs[i])
  {
    seq(|fs|, i requires 0 <= i < |fs| => Refreshed(mem, fs[i]))
  }

  // One record with both words for a frame with a changed link.
  function RecordFor(mem: Memory, f: LinkView): seq<LinkRecord> {
    if RbpChanged(mem, f) || RaChanged(mem, f)
    then [LinkRecord(f.name, LinkWord(mem, f.ebp), ReturnWord(mem, f.ebp))]
    else []
  }

  // Changes are expected before the stack is set up; afterwards each is an alarm.
  function AlarmsFor(mem: Memory, f: LinkView): seq<Alarm> {
    if f.beforeSetup then []
    else (if RbpChanged(mem, f) then [FramePointerFault] else []) +
         (if RaChanged(mem, f) then [ReturnAddressFault] else [])
  }

  function Records(mem: Memory, fs: seq<LinkView>): seq<LinkRecord> {
    if fs == [] then [] else RecordFor(mem, fs[0]) + Records(mem, fs[1..])
  }

  function Alarms(mem: Memory, fs: seq<LinkView>): seq<Alarm> {
    if fs == [] then [] else AlarmsFor(mem, fs[0]) + Alarms(mem, fs[1..])
  }

  // Nothing is reported exactly when no link has changed.
  lemma {:induction false} QuietExactly(mem: Memory, fs: seq<LinkView>)
    ensures Records(mem, fs) == [] <==> forall f <- fs :: !RbpChanged(mem, f) && !RaChanged(mem, f)
    ensures Alarms(mem, fs) == [] <==>
            forall f <- fs :: f.beforeSetup || (!RbpChanged(mem, f) && !RaChanged(mem, f))
  {
    if fs != [] {
      QuietExactly(mem, fs[1..]);
      assert fs == [fs[0]] + fs[1..];
    }
  }

  // A second check right after the first reports nothing and raises no alarm.
  lemma SecondCheckQuiet(mem: Memory, fs: seq<LinkView>)
    ensures Records(mem, AllRefreshed(mem, fs)) == [] && Alarms(mem, AllRefreshed(mem, fs)) == []
  {
    QuietExactly(mem, AllRefreshed(mem, fs));
  }

  // `add_links` of a frame that is pushed saves the words one place further up.
  function Pushed(mem: Memory, name: seq<byte>, ebp: u64): LinkView {
    LinkView(name, ebp, LoadedWord(Load(mem, Add(ebp, 8))), LoadedWord(Load(mem, Add(ebp, 16))), true)
  }

  // The frame is pushed with the base pointer of the caller, and checked for the first
  // time with its own. It is reported, without an alarm, unless the two words that it has
  // itself are those one place further up in the frame of the caller.
  lemma FirstCheckExactly(mem0: Memory, name: seq<byte>, ebp0: u64, mem: Memory, ebp: u64)
    ensures var f := Pushed(mem0, name, ebp0).(ebp := ebp);
            && Alarms(mem, [f]) == []
            && (Records(mem, [f]) == [] <==>
                LinkWord(mem, ebp) == ReturnWord(mem0, ebp0) &&
                ReturnWord(mem, ebp) == LoadedWord(Load(mem0, Add(ebp0, 16))))
  {
    var f := Pushed(mem0, name, ebp0).(ebp := ebp);
    QuietExactly(mem, [f]);
    assert f in [f];
  }
}
