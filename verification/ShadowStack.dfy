// The shadow stack as values: what one scan of the frames does to the values that
// are remembered for the variables, and which updates it reports.
module ShadowStack {
  import opened Words
  import opened Bytes
  import opened SymbolTables
  import opened AsciiText
  import opened HeapMap
  import opened DebugFile

  // ------------------------------------------------------------------ memory

  // The mapped bytes of the analysed process.
  type Memory = map<u64, byte>

  function Window(mem: Memory, a: u64, n: nat): (w: seq<Option<byte>>)
    ensures |w| == n
  {
    seq(n, i requires 0 <= i < n => var p := Wrap(a + i); if p in mem then Some(mem[p]) else None)
  }

  function Mapped(w: seq<Option<byte>>): Option<seq<byte>> {
    if w == [] then Some([])
    else
      var b :- w[0];
      var bs :- Mapped(w[1..]);
      Some([b] + bs)
  }

  // `dereference_memory`: None where the load faults.
  function Load(mem: Memory, a: u64): Option<u64> {
    var bs :- Mapped(Window(mem, a, 8));
    Some(Wrap(FromLittleEndian(bs)))
  }

  // What the caller sees of a faulting load.
  function LoadedWord(w: Option<u64>): u64 { w.GetOr(MINUS_ONE) }

  // ------------------------------------------------------------------ variables

  // A variable, with the member table that was created for it. `id` stands for the
  // identity of the record.
  datatype Var = Var(id: nat, typ: Key, isLocal: bool, isParam: bool, location: u64, members: Table<Var>)

  // What a scan depends on and does not change: the type table, the load address
  // of the data segment, and how values are spelled. The text of a value depends
  // on its type, its address, and the bytes from there on that the type reads. The
  // scope of a variable is a name that the static tables have for it.
  datatype Env = Env(types: map<Key, LoadedType>, dataBase: u64,
                     text: (LoadedType, u64, seq<Option<byte>>) -> seq<byte>, width: LoadedType -> nat,
                     wordText: Option<u64> -> seq<byte>, scope: nat -> seq<byte>)

  function BaseAddress(env: Env, ebp: u64, v: Var): u64 {
    if v.isLocal || v.isParam then Add(ebp, v.location) else Add(v.location, env.dataBase)
  }

  function IsAtAddress(env: Env, ebp: u64, v: Var, t: LoadedType, a: u64): bool {
    var base := BaseAddress(env, ebp, v);
    a >= base && a < Add(base, t.size)
  }

  function ReadValue(env: Env, mem: Memory, t: LoadedType, a: u64): seq<byte> {
    env.text(t, a, Window(mem, a, env.width(t)))
  }

  // ------------------------------------------------------------------ frames

  // `place` is the place of the record in its frame, which tells it from the others.
  datatype RecordView = RecordView(place: nat, name: Key, v: Var, value: seq<byte>, block: Option<Block>)

  // `id` stands for the identity of the frame, and of the context saved in it.
  datatype FrameView = FrameView(id: nat, ebp: u64, firstAccess: bool, recs: seq<RecordView>)

  // The frames, innermost first, the frame of the globals, and the variables whose
  // `first_access` has been cleared.
  datatype StackView = StackView(frames: seq<FrameView>, global: FrameView, accessed: set<nat>)

  // What an update is about: the variable as it is, the announcement of one that has
  // several parts, an array element, or a member.
  datatype Source = Declared | Announced | Element(index: int) | MemberOf(key: Key)

  // `frame`, `place` and `id` say by which record of which frame the update was made,
  // and for which variable; the trace does not show the place.
  datatype Update = Update(frame: nat, place: nat, id: nat, source: Source, name: seq<byte>, prefix: seq<byte>,
                           scope: seq<byte>, typeName: seq<byte>, address: u64, value: seq<byte>)

  const MULTI := Ascii("<multielement>")

  // The word occurs in the name.
  predicate Occurs(word: seq<byte>, name: seq<byte>) {
    word <= name || (name != [] && Occurs(word, name[1..]))
  }

  const CHAR := Ascii("char")

  // How the scan treats a variable of this type.
  datatype Kind = AsStruct | AsArray | AsScalar

  function KindOf(env: Env, t: LoadedType): Kind {
    if t.isStruct then AsStruct
    else if t.isArray && t.base.Some? && t.base.value in env.types && !Occurs(CHAR, env.types[t.base.value].name)
    then AsArray
    else AsScalar
  }

  // The type table knows the types of the variable and of its members; an array has
  // elements of some size, unless it has no bytes at all, and few enough for a 32-bit
  // counter to pass.
  predicate Known(env: Env, v: Var) {
    && v.typ in env.types
    && (forall m <- v.members :: m.rec.typ in env.types)
    && var t := env.types[v.typ];
       KindOf(env, t).AsArray? ==> (env.types[t.base.value].size > 0 || t.size == 0) && t.upperBound < 0xFFFF_FFFF
  }

  // ------------------------------------------------------------------ arrays

  // `int index = ...`: the quotient cut down to 32 bits, as a signed number.
  function Signed32(x: nat): int {
    var y := x % 0x1_0000_0000;
    if y < 0x8000_0000 then y else y - 0x1_0000_0000
  }

  const OPEN := Ascii(":[")
  const CLOSE := Ascii("]")
  const MINUS := Ascii("-")
  const COLON := Ascii(":")

  function IndexText(i: int): seq<byte> { if i < 0 then MINUS + Decimal(-i) else Decimal(i) }

  function ElementUpdate(env: Env, mem: Memory, f: nat, r: RecordView, et: LoadedType, index: int, a: u64): Update {
    Update(f, r.place, r.v.id, Element(index), OPEN + IndexText(index) + CLOSE, r.name, env.scope(r.v.id), et.name, a,
           ReadValue(env, mem, et, a))
  }

  // The announcement of an array or a struct.
  function Announcement(env: Env, f: nat, r: RecordView, t: LoadedType, a: u64): Update {
    Update(f, r.place, r.v.id, Announced, r.name, [], env.scope(r.v.id), t.name, a, MULTI)
  }

  // The updates of the elements from i up to the bound.
  function Elements(env: Env, mem: Memory, f: nat, r: RecordView, t: LoadedType, et: LoadedType, base: u64, i: nat)
    : seq<Update>
    requires t.upperBound < 0xFFFF_FFFF
    decreases t.upperBound + 1 - i
  {
    if i > t.upperBound then []
    else [ElementUpdate(env, mem, f, r, et, i, Add(base, Mul(et.size, Wrap(i))))] +
         Elements(env, mem, f, r, t, et, base, i + 1)
  }

  // The index of the element that the source computes for an address.
  function IndexOf(base: u64, size: u64, a: u64): int
    requires size > 0
  {
    Signed32(Sub(a, base) / size)
  }

  // The whole array is listed, rather than the element at an address.
  predicate Lists(fr: FrameView, v: Var, a: u64, accessed: set<nat>) {
    a == 0 || fr.firstAccess || v.id !in accessed
  }

  function ArrayUpdates(env: Env, mem: Memory, fr: FrameView, r: RecordView, t: LoadedType, et: LoadedType, a: u64,
                        accessed: set<nat>): (set<nat>, seq<Update>)
    requires (et.size > 0 || Lists(fr, r.v, a, accessed)) && t.upperBound < 0xFFFF_FFFF
  {
    var base := BaseAddress(env, fr.ebp, r.v);
    if Lists(fr, r.v, a, accessed) then
      (accessed + {r.v.id},
       (if fr.firstAccess || r.v.id !in accessed then [Announcement(env, fr.id, r, t, base)] else []) +
       Elements(env, mem, fr.id, r, t, et, base, 0))
    else
      (accessed, [ElementUpdate(env, mem, fr.id, r, et, IndexOf(base, et.size, a), a)])
  }

  // ------------------------------------------------------------------ structs

  function MemberUpdate(env: Env, mem: Memory, f: nat, r: RecordView, m: Entry<Var>, a: u64): Update
    requires r.v.typ in env.types && m.rec.typ in env.types
  {
    var t := env.types[m.rec.typ];
    Update(f, r.place, r.v.id, MemberOf(m.key), m.key, env.types[r.v.typ].name + COLON, env.scope(r.v.id), t.name, a,
           ReadValue(env, mem, t, a))
  }

  // A rescan gives every member the address behind the member before it in key
  // order.
  function Members(env: Env, mem: Memory, f: nat, r: RecordView, ms: Table<Var>, a: u64): seq<Update>
    requires r.v.typ in env.types && forall m <- ms :: m.rec.typ in env.types
  {
    if ms == [] then []
    else
      [MemberUpdate(env, mem, f, r, ms[0], a)] +
      Members(env, mem, f, r, ms[1..], Add(a, env.types[ms[0].rec.typ].size))
  }

  // The first member that contains the address.
  function MemberHit(env: Env, fr: FrameView, ms: Table<Var>, a: u64): Option<Entry<Var>>
    requires forall m <- ms :: m.rec.typ in env.types
  {
    if ms == [] then None
    else if IsAtAddress(env, fr.ebp, ms[0].rec, env.types[ms[0].rec.typ], a) then Some(ms[0])
    else MemberHit(env, fr, ms[1..], a)
  }

  lemma {:induction false} MemberHitIn(env: Env, fr: FrameView, ms: Table<Var>, a: u64)
    requires forall m <- ms :: m.rec.typ in env.types
    ensures MemberHit(env, fr, ms, a).Some? ==> MemberHit(env, fr, ms, a).value in ms
  {
    if ms != [] {
      MemberHitIn(env, fr, ms[1..], a);
    }
  }

  function StructUpdates(env: Env, mem: Memory, fr: FrameView, r: RecordView, a: u64, accessed: set<nat>)
    : (set<nat>, seq<Update>)
    requires Known(env, r.v)
  {
    var v := r.v;
    var t := env.types[v.typ];
    var base := BaseAddress(env, fr.ebp, v);
    if Lists(fr, v, a, accessed) then
      (accessed + {v.id},
       (if fr.firstAccess || v.id !in accessed then [Announcement(env, fr.id, r, t, base)] else []) +
       Members(env, mem, fr.id, r, v.members, base))
    else
      MemberHitIn(env, fr, v.members, a);
      (accessed,
       match MemberHit(env, fr, v.members, a)
       case None => []
       case Some(m) => [MemberUpdate(env, mem, fr.id, r, m, a)])
  }

  // ------------------------------------------------------------------ scalars and pointers

  // The address whose bytes count: the written address if there is one.
  function Target(env: Env, fr: FrameView, v: Var, a: u64): u64 {
    if a == 0 || fr.firstAccess then BaseAddress(env, fr.ebp, v) else a
  }

  // The text of the value found at an address.
  function TextAt(env: Env, mem: Memory, t: LoadedType, a: u64): seq<byte> {
    if t.isPointer then env.wordText(Load(mem, a)) else ReadValue(env, mem, t, a)
  }

  function ScanScalar(env: Env, mem: Memory, heap: Blocks, fr: FrameView, r: RecordView, a: u64)
    : (RecordView, seq<Update>)
    requires r.v.typ in env.types
  {
    var t := env.types[r.v.typ];
    var p := Target(env, fr, r.v, a);
    var text := TextAt(env, mem, t, p);
    var block := if t.isPointer then Scan(heap, LoadedWord(Load(mem, p))) else None;
    var r' := if block.Some? then r.(block := block) else r;
    if fr.firstAccess || text != r.value then
      (r'.(value := text),
       [Update(fr.id, r.place, r.v.id, Declared, r.name, [], env.scope(r.v.id), t.name, p, text)])
    else (r', [])
  }

  // ------------------------------------------------------------------ the scan

  function ScanRecord(env: Env, mem: Memory, heap: Blocks, fr: FrameView, r: RecordView, a: u64, accessed: set<nat>)
    : (RecordView, set<nat>, seq<Update>)
    requires Known(env, r.v)
  {
    var t := env.types[r.v.typ];
    if a == 0 || fr.firstAccess || IsAtAddress(env, fr.ebp, r.v, t, a) then
      match KindOf(env, t)
      case AsStruct => var (acc, ups) := StructUpdates(env, mem, fr, r, a, accessed); (r, acc, ups)
      case AsArray =>
        var (acc, ups) := ArrayUpdates(env, mem, fr, r, t, env.types[t.base.value], a, accessed);
        (r, acc, ups)
      case AsScalar => var (r', ups) := ScanScalar(env, mem, heap, fr, r, a); (r', accessed, ups)
    else (r, accessed, [])
  }

  predicate AllKnown(env: Env, rs: seq<RecordView>) { forall r <- rs :: Known(env, r.v) }

  function ScanRecords(env: Env, mem: Memory, heap: Blocks, fr: FrameView, rs: seq<RecordView>, a: u64,
                       accessed: set<nat>): (out: (seq<RecordView>, set<nat>, seq<Update>))
    requires AllKnown(env, rs)
    ensures |out.0| == |rs|
  {
    if rs == [] then ([], accessed, [])
    else
      var (r, acc, ups) := ScanRecord(env, mem, heap, fr, rs[0], a, accessed);
      var (more, acc', ups') := ScanRecords(env, mem, heap, fr, rs[1..], a, acc);
      ([r] + more, acc', ups + ups')
  }

  function ScanFrame(env: Env, mem: Memory, heap: Blocks, fr: FrameView, a: u64, accessed: set<nat>)
    : (FrameView, set<nat>, seq<Update>)
    requires AllKnown(env, fr.recs)
  {
    var (rs, acc, ups) := ScanRecords(env, mem, heap, fr, fr.recs, a, accessed);
    (fr.(recs := rs, firstAccess := false), acc, ups)
  }

  function ScanFrames(env: Env, mem: Memory, heap: Blocks, frs: seq<FrameView>, a: u64, accessed: set<nat>)
    : (out: (seq<FrameView>, set<nat>, seq<Update>))
    requires forall f <- frs :: AllKnown(env, f.recs)
    ensures |out.0| == |frs|
  {
    if frs == [] then ([], accessed, [])
    else
      var (f, acc, ups) := ScanFrame(env, mem, heap, frs[0], a, accessed);
      var (more, acc', ups') := ScanFrames(env, mem, heap, frs[1..], a, acc);
      ([f] + more, acc', ups + ups')
  }

  predicate StackKnown(env: Env, st: StackView) {
    (forall f <- st.frames :: AllKnown(env, f.recs)) && AllKnown(env, st.global.recs)
  }

  // `addr_get_updated_variables`, and with address 0 `get_all_updated_variables`.
  function ScanStack(env: Env, mem: Memory, heap: Blocks, st: StackView, a: u64): (StackView, seq<Update>)
    requires StackKnown(env, st)
  {
    var (fs, acc, ups) := ScanFrames(env, mem, heap, st.frames, a, st.accessed);
    var (g, acc', ups') := ScanFrame(env, mem, heap, st.global, a, acc);
    (StackView(fs, g, acc'), ups + ups')
  }
}
