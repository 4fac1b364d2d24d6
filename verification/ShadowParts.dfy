// The elements of an array and the members of a struct, as a rescan lists them and
// as a written address picks one of them.
module ShadowParts {
  import opened Words
  import opened SymbolTables
  import opened HeapMap
  import opened DebugFile
  import opened ShadowStack
  import opened LoadedTypes

  // ------------------------------------------------------------------ elements

  // An array as the resolution of types leaves it, lying in memory without wrapping.
  ghost predicate Laid(t: LoadedType, et: LoadedType, base: u64) {
    && FromResolution(t, et)
    && et.size > 0 && t.upperBound < 0xFFFF_FFFF
    && base + et.size * (t.upperBound + 1) < TWO_64
  }

  // The first byte of element i.
  function Begin(base: u64, size: u64, i: nat): nat { base + size * i }

  // The address lies in element i.
  predicate InElement(base: u64, size: u64, i: nat, a: u64) {
    Begin(base, size, i) <= a < Begin(base, size, i + 1)
  }

  lemma MulMono(s: nat, i: nat, j: nat)
    requires i <= j
    ensures s * i <= s * j
  {}

  lemma MulNext(s: nat, i: nat)
    ensures s * (i + 1) == s * i + s
  {}

  lemma WrapSmall(x: nat)
    requires x < TWO_64
    ensures Wrap(x) == x
  {}

  // Address arithmetic on words is exact inside the array.
  lemma AddressExact(base: u64, size: u64, i: nat, n: nat)
    requires i <= n < TWO_64 && base + size * n < TWO_64
    ensures Add(base, Mul(size, Wrap(i))) == Begin(base, size, i)
  {
    hide Wrap;
    MulMono(size, i, n);
    WrapSmall(i);
    WrapSmall(size * i);
    WrapSmall(base + size * i);
  }

  lemma ExtentExact(t: LoadedType, et: LoadedType, base: u64)
    requires Laid(t, et, base)
    ensures Add(base, t.size) == Begin(base, et.size, t.upperBound + 1)
  {
    hide Wrap, FromResolution;
    ArrayExtent(t, et);
    WrapSmall(t.upperBound + 1);
    AddressExact(base, et.size, t.upperBound + 1, t.upperBound + 1);
  }

  // The addresses that a rescan reports are the first bytes of the elements, from
  // element i up to the bound.
  lemma {:induction false} ElementAddresses(env: Env, mem: Memory, f: nat, r: RecordView, t: LoadedType, et: LoadedType,
                                            base: u64, i: nat)
    requires Laid(t, et, base) && i <= t.upperBound + 1
    ensures var es := Elements(env, mem, f, r, t, et, base, i);
            && |es| == t.upperBound + 1 - i
            && forall k :: 0 <= k < |es| ==>
                 && es[k].address == Begin(base, et.size, i + k)
                 && es[k].id == r.v.id && es[k].source == Element(i + k)
                 && es[k].value == ReadValue(env, mem, et, es[k].address)
    decreases t.upperBound + 1 - i
  {
    hide Wrap, Begin, ReadValue, Mul, Add, IndexText, FromResolution;
    if i <= t.upperBound {
      AddressExact(base, et.size, i, t.upperBound + 1);
      ElementAddresses(env, mem, f, r, t, et, base, i + 1);
    }
  }

  // The number of the element that an address would be in.
  function Quotient(base: u64, size: u64, a: u64): nat
    requires size > 0 && base <= a
  {
    (a - base) / size
  }

  lemma QuotientElement(base: u64, size: u64, a: u64)
    requires size > 0 && base <= a
    ensures InElement(base, size, Quotient(base, size, a), a)
  {
    var q := Quotient(base, size, a);
    assert a - base == size * q + (a - base) % size;
    MulNext(size, q);
  }

  // No address is in two elements.
  lemma ElementsDisjoint(base: u64, size: u64, a: u64, i: nat, j: nat)
    requires InElement(base, size, i, a) && InElement(base, size, j, a)
    ensures i == j
  {
    if i < j {
      MulMono(size, i + 1, j);
    } else if j < i {
      MulMono(size, j + 1, i);
    }
  }

  // The elements tile the array: an address is in the array exactly when it is in
  // one of the elements 0 to the bound.
  lemma Tiling(t: LoadedType, et: LoadedType, base: u64, a: u64)
    requires Laid(t, et, base)
    ensures base <= a < Add(base, t.size) <==> exists i :: 0 <= i <= t.upperBound && InElement(base, et.size, i, a)
  {
    hide Add, Quotient;
    ExtentExact(t, et, base);
    if base <= a < Add(base, t.size) {
      QuotientElement(base, et.size, a);
      QuotientInBound(t, et, base, a);
      assert InElement(base, et.size, Quotient(base, et.size, a), a);
    }
    if i :| 0 <= i <= t.upperBound && InElement(base, et.size, i, a) {
      MulMono(et.size, i + 1, t.upperBound + 1);
      MulMono(et.size, 0, i);
    }
  }

  lemma QuotientInBound(t: LoadedType, et: LoadedType, base: u64, a: u64)
    requires Laid(t, et, base) && base <= a < Add(base, t.size)
    ensures Quotient(base, et.size, a) <= t.upperBound
  {
    hide Add, Quotient;
    ExtentExact(t, et, base);
    QuotientElement(base, et.size, a);
    var q := Quotient(base, et.size, a);
    if q > t.upperBound {
      MulMono(et.size, t.upperBound + 1, q);
    }
  }

  // The index that a written address is given is that of its element exactly when
  // the number of the element fits a 32-bit int; beyond, it comes out negative.
  lemma IndexExact(env: Env, ebp: u64, v: Var, t: LoadedType, et: LoadedType, a: u64, i: nat)
    requires Laid(t, et, BaseAddress(env, ebp, v)) && IsAtAddress(env, ebp, v, t, a)
    requires InElement(BaseAddress(env, ebp, v), et.size, i, a)
    ensures i <= t.upperBound
    ensures IndexOf(BaseAddress(env, ebp, v), et.size, a) == i <==> i < 0x8000_0000
    ensures i >= 0x8000_0000 ==> IndexOf(BaseAddress(env, ebp, v), et.size, a) < 0
  {
    hide InElement, BaseAddress, Add, Mul;
    var base := BaseAddress(env, ebp, v);
    QuotientElement(base, et.size, a);
    QuotientInBound(t, et, base, a);
    ElementsDisjoint(base, et.size, a, i, Quotient(base, et.size, a));
    WrapSmall(a - base);
  }

  // ------------------------------------------------------------------ members

  // The written address lies in this member.
  predicate InMember(env: Env, ebp: u64, m: Entry<Var>, a: u64)
    requires m.rec.typ in env.types
  {
    IsAtAddress(env, ebp, m.rec, env.types[m.rec.typ], a)
  }

  // The member that a write is reported for is the first one, in the order of the
  // names, with the address in it; there is none exactly when no member has it.
  lemma {:induction false} HitMeaning(env: Env, fr: FrameView, ms: Table<Var>, a: u64)
    requires forall m <- ms :: m.rec.typ in env.types
    ensures MemberHit(env, fr, ms, a).None? <==> forall m <- ms :: !InMember(env, fr.ebp, m, a)
    ensures MemberHit(env, fr, ms, a).Some? ==>
              exists i :: 0 <= i < |ms| && MemberHit(env, fr, ms, a) == Some(ms[i]) &&
                          InMember(env, fr.ebp, ms[i], a) &&
                          forall j :: 0 <= j < i ==> !InMember(env, fr.ebp, ms[j], a)
  {
    hide IsAtAddress;
    if ms != [] {
      var tail := ms[1..];
      HitMeaning(env, fr, tail, a);
      assert ms == [ms[0]] + tail;
      if InMember(env, fr.ebp, ms[0], a) {
        assert MemberHit(env, fr, ms, a) == Some(ms[0]);
      } else if MemberHit(env, fr, tail, a).Some? {
        var i :| 0 <= i < |tail| && MemberHit(env, fr, tail, a) == Some(tail[i]) && InMember(env, fr.ebp, tail[i], a) &&
                 forall j :: 0 <= j < i ==> !InMember(env, fr.ebp, tail[j], a);
        assert ms[i + 1] == tail[i];
        forall j | 0 <= j < i + 1 ensures !InMember(env, fr.ebp, ms[j], a) {
          assert j > 0 ==> ms[j] == tail[j - 1];
        }
      }
    }
  }

  // When members do not overlap at the address, it is the one that has the address.
  lemma UniqueHit(env: Env, fr: FrameView, ms: Table<Var>, a: u64, k: nat)
    requires (forall m <- ms :: m.rec.typ in env.types) && k < |ms| && InMember(env, fr.ebp, ms[k], a)
    requires forall i :: 0 <= i < |ms| && InMember(env, fr.ebp, ms[i], a) ==> i == k
    ensures MemberHit(env, fr, ms, a) == Some(ms[k])
  {
    HitMeaning(env, fr, ms, a);
    assert ms[k] in ms;
  }

  // The bytes of the first k members.
  function BytesBefore(env: Env, ms: Table<Var>, k: nat): nat
    requires (forall m <- ms :: m.rec.typ in env.types) && k <= |ms|
  {
    if k == 0 then 0 else env.types[ms[0].rec.typ].size + BytesBefore(env, ms[1..], k - 1)
  }

  // A rescan counts the address of a member from the sizes of the members that come
  // before it by name, not from where the member lies.
  lemma {:induction false} RescanAddress(env: Env, mem: Memory, f: nat, r: RecordView, ms: Table<Var>, a: u64, k: nat)
    requires r.v.typ in env.types && (forall m <- ms :: m.rec.typ in env.types) && k < |ms|
    ensures |Members(env, mem, f, r, ms, a)| == |ms|
    ensures Members(env, mem, f, r, ms, a)[k].address == Wrap(a + BytesBefore(env, ms, k))
    ensures Members(env, mem, f, r, ms, a)[k].source == MemberOf(ms[k].key)
    decreases k
  {
    hide ReadValue, Wrap;
    var size := env.types[ms[0].rec.typ].size;
    MembersLength(env, mem, f, r, ms, a);
    if k == 0 {
      WrapSmall(a);
    } else {
      RescanAddress(env, mem, f, r, ms[1..], Add(a, size), k - 1);
      WrapAdd(a + size, BytesBefore(env, ms[1..], k - 1));
    }
  }

  lemma {:induction false} MembersLength(env: Env, mem: Memory, f: nat, r: RecordView, ms: Table<Var>, a: u64)
    requires r.v.typ in env.types && forall m <- ms :: m.rec.typ in env.types
    ensures |Members(env, mem, f, r, ms, a)| == |ms|
  {
    if ms != [] {
      MembersLength(env, mem, f, r, ms[1..], Add(a, env.types[ms[0].rec.typ].size));
    }
  }

  // So the address, and with it the value, is that of the member exactly when the
  // member lies as far into the struct as the members before it by name are long.
  lemma RescanPlacesExactly(env: Env, mem: Memory, fr: FrameView, r: RecordView, k: nat, offset: u64)
    requires Known(env, r.v) && k < |r.v.members|
    requires var v := r.v; var m := v.members[k].rec;
             m.location == Add(v.location, offset) && m.isLocal == v.isLocal && m.isParam == v.isParam
    ensures var v := r.v; var base := BaseAddress(env, fr.ebp, v);
            var u := Members(env, mem, fr.id, r, v.members, base);
            |u| == |v.members| &&
            (u[k].address == BaseAddress(env, fr.ebp, v.members[k].rec) <==>
             offset == BytesBefore(env, v.members, k) % TWO_64)
  {
    var v := r.v;
    var base := BaseAddress(env, fr.ebp, v);
    var m := v.members[k].rec;
    var n := BytesBefore(env, v.members, k);
    RescanAddress(env, mem, fr.id, r, v.members, base, k);
    MemberBase(env, fr.ebp, v, m, offset);
    SameOffset(base, offset, n);
  }

  lemma MemberBase(env: Env, ebp: u64, v: Var, m: Var, offset: u64)
    requires m.location == Add(v.location, offset) && m.isLocal == v.isLocal && m.isParam == v.isParam
    ensures BaseAddress(env, ebp, m) == Add(BaseAddress(env, ebp, v), offset)
  {
    if v.isLocal || v.isParam {
      AddAssociative(ebp, v.location, offset);
    } else {
      AddAssociative(env.dataBase, v.location, offset);
    }
  }

  lemma SameOffset(base: u64, offset: u64, n: nat)
    ensures Wrap(base + n) == Add(base, offset) <==> offset == n % TWO_64
  {
    WrapAdd(n, base);
    var r := n % TWO_64;
    assert Wrap(base + n) == Wrap(base + r);
    assert base + r < 2 * TWO_64 && base + offset < 2 * TWO_64;
  }

  // ------------------------------------------------------------------ reports are true

  // The report is about this record, and what it says is so: the value is the rendering
  // of the bytes at the address that it names, for the type that it names, and the
  // names are those of the variable, of the member, or of the element by its number.
  // The word that announces a struct or an array comes with its base address.
  ghost predicate True(env: Env, mem: Memory, ebp: u64, r: RecordView, u: Update)
    requires Known(env, r.v)
  {
    var v := r.v;
    var t := env.types[v.typ];
    var base := BaseAddress(env, ebp, v);
    && u.place == r.place && u.id == v.id && u.scope == env.scope(v.id)
    && match u.source
       case Declared =>
         && KindOf(env, t).AsScalar? && u.name == r.name && u.prefix == [] && u.typeName == t.name
         && u.value == TextAt(env, mem, t, u.address) && (u.address == base || IsAtAddress(env, ebp, v, t, u.address))
       case Announced =>
         && !KindOf(env, t).AsScalar? && u.name == r.name && u.prefix == [] && u.typeName == t.name
         && u.value == MULTI && u.address == base
       case Element(i) =>
         && KindOf(env, t).AsArray? && u.name == OPEN + IndexText(i) + CLOSE && u.prefix == r.name
         && var et := env.types[t.base.value];
            u.typeName == et.name && u.value == ReadValue(env, mem, et, u.address)
       case MemberOf(key) =>
         && KindOf(env, t).AsStruct? && u.name == key && u.prefix == t.name + COLON
         && exists m :: m in v.members && m.key == key && MemberTrue(env, mem, m, u)
  }

  ghost predicate MemberTrue(env: Env, mem: Memory, m: Entry<Var>, u: Update) {
    && m.rec.typ in env.types
    && u.typeName == env.types[m.rec.typ].name && u.value == ReadValue(env, mem, env.types[m.rec.typ], u.address)
  }

  lemma {:induction false} ElementsTrue(env: Env, mem: Memory, fr: FrameView, r: RecordView, base: u64, i: nat)
    requires Known(env, r.v) && KindOf(env, env.types[r.v.typ]).AsArray?
    ensures var t := env.types[r.v.typ];
            forall u <- Elements(env, mem, fr.id, r, t, env.types[t.base.value], base, i) ::
              u.frame == fr.id && True(env, mem, fr.ebp, r, u)
    decreases env.types[r.v.typ].upperBound + 1 - i
  {
    hide BaseAddress, ReadValue, IsAtAddress, TextAt, IndexText, Add, Mul;
    if i <= env.types[r.v.typ].upperBound {
      ElementsTrue(env, mem, fr, r, base, i + 1);
    }
  }

  lemma {:induction false} MembersTrue(env: Env, mem: Memory, fr: FrameView, r: RecordView, ms: Table<Var>, a: u64)
    requires Known(env, r.v) && KindOf(env, env.types[r.v.typ]).AsStruct? && forall m <- ms :: m in r.v.members
    ensures forall u <- Members(env, mem, fr.id, r, ms, a) :: u.frame == fr.id && True(env, mem, fr.ebp, r, u)
    decreases |ms|
  {
    hide BaseAddress, ReadValue, IsAtAddress, TextAt, KindOf, Add;
    if ms != [] {
      var u := MemberUpdate(env, mem, fr.id, r, ms[0], a);
      assert ms[0] in r.v.members && MemberTrue(env, mem, ms[0], u);
      MembersTrue(env, mem, fr, r, ms[1..], Add(a, env.types[ms[0].rec.typ].size));
    }
  }

  lemma StructTrue(env: Env, mem: Memory, fr: FrameView, r: RecordView, a: u64, acc: set<nat>)
    requires Known(env, r.v) && KindOf(env, env.types[r.v.typ]).AsStruct?
    ensures forall u <- StructUpdates(env, mem, fr, r, a, acc).1 :: u.frame == fr.id && True(env, mem, fr.ebp, r, u)
  {
    hide BaseAddress, ReadValue, IsAtAddress, TextAt, KindOf;
    MembersTrue(env, mem, fr, r, r.v.members, BaseAddress(env, fr.ebp, r.v));
    MemberHitIn(env, fr, r.v.members, a);
    var hit := MemberHit(env, fr, r.v.members, a);
    if hit.Some? {
      assert MemberTrue(env, mem, hit.value, MemberUpdate(env, mem, fr.id, r, hit.value, a));
    }
  }

  lemma RecordTrue(env: Env, mem: Memory, heap: Blocks, fr: FrameView, r: RecordView, a: u64, acc: set<nat>)
    requires Known(env, r.v)
    ensures forall u <- ScanRecord(env, mem, heap, fr, r, a, acc).2 ::
              u.frame == fr.id && True(env, mem, fr.ebp, r, u)
  {
    hide BaseAddress, ReadValue, TextAt, StructUpdates, Elements, Scan, IndexText;
    var t := env.types[r.v.typ];
    match KindOf(env, t)
    case AsStruct => StructTrue(env, mem, fr, r, a, acc);
    case AsArray => ElementsTrue(env, mem, fr, r, BaseAddress(env, fr.ebp, r.v), 0);
    case AsScalar =>
  }

  // The report is a true one about a record of these frames.
  ghost predicate TrueOfSome(env: Env, mem: Memory, frs: seq<FrameView>, u: Update) {
    exists f, i :: f in frs && 0 <= i < |f.recs| && u.frame == f.id &&
                   Known(env, f.recs[i].v) && True(env, mem, f.ebp, f.recs[i], u)
  }

  lemma {:induction false} RecordsTrue(env: Env, mem: Memory, heap: Blocks, fr: FrameView, k: nat, a: u64,
                                       acc: set<nat>)
    requires AllKnown(env, fr.recs) && k <= |fr.recs|
    ensures AllKnown(env, fr.recs[k..])
    ensures forall u <- ScanRecords(env, mem, heap, fr, fr.recs[k..], a, acc).2 :: TrueOfSome(env, mem, [fr], u)
    decreases |fr.recs| - k
  {
    hide ScanRecord, True, Known;
    if k < |fr.recs| {
      var r := fr.recs[k];
      assert r in fr.recs && fr.recs[k..][1..] == fr.recs[k + 1..];
      RecordTrue(env, mem, heap, fr, r, a, acc);
      var ups := ScanRecord(env, mem, heap, fr, r, a, acc).2;
      forall u | u in ups ensures TrueOfSome(env, mem, [fr], u) {
        assert fr in [fr] && True(env, mem, fr.ebp, fr.recs[k], u);
      }
      RecordsTrue(env, mem, heap, fr, k + 1, a, ScanRecord(env, mem, heap, fr, r, a, acc).1);
    }
  }

  lemma TrueOfMore(env: Env, mem: Memory, frs: seq<FrameView>, more: seq<FrameView>, u: Update)
    requires TrueOfSome(env, mem, frs, u) && forall f <- frs :: f in more
    ensures TrueOfSome(env, mem, more, u)
  {
    hide True, Known;
  }

  lemma {:induction false} FramesTrue(env: Env, mem: Memory, heap: Blocks, frs: seq<FrameView>, a: u64, acc: set<nat>)
    requires forall f <- frs :: AllKnown(env, f.recs)
    ensures forall u <- ScanFrames(env, mem, heap, frs, a, acc).2 :: TrueOfSome(env, mem, frs, u)
  {
    hide ScanRecords, TrueOfSome;
    if frs != [] {
      var f, tail := frs[0], frs[1..];
      assert f.recs[0..] == f.recs;
      RecordsTrue(env, mem, heap, f, 0, a, acc);
      var (_, acc', ups) := ScanFrame(env, mem, heap, f, a, acc);
      FramesTrue(env, mem, heap, tail, a, acc');
      forall u | u in ups ensures TrueOfSome(env, mem, frs, u) {
        TrueOfMore(env, mem, [f], frs, u);
      }
      forall u | u in ScanFrames(env, mem, heap, tail, a, acc').2 ensures TrueOfSome(env, mem, frs, u) {
        TrueOfMore(env, mem, tail, frs, u);
      }
    }
  }

  // Whatever a scan reports, with or without an address, is true of memory at the
  // time.
  lemma ReportsTrue(env: Env, mem: Memory, heap: Blocks, st: StackView, a: u64)
    requires StackKnown(env, st)
    ensures forall u <- ScanStack(env, mem, heap, st, a).1 :: TrueOfSome(env, mem, st.frames + [st.global], u)
  {
    hide ScanFrames, ScanFrame, TrueOfSome;
    var all := st.frames + [st.global];
    FramesTrue(env, mem, heap, st.frames, a, st.accessed);
    var (fs, acc, ups) := ScanFrames(env, mem, heap, st.frames, a, st.accessed);
    forall u | u in ups ensures TrueOfSome(env, mem, all, u) {
      TrueOfMore(env, mem, st.frames, all, u);
    }
    FrameTrue(env, mem, heap, st.global, a, acc);
    forall u | u in ScanFrame(env, mem, heap, st.global, a, acc).2 ensures TrueOfSome(env, mem, all, u) {
      TrueOfMore(env, mem, [st.global], all, u);
    }
  }

  lemma FrameTrue(env: Env, mem: Memory, heap: Blocks, f: FrameView, a: u64, acc: set<nat>)
    requires AllKnown(env, f.recs)
    ensures forall u <- ScanFrame(env, mem, heap, f, a, acc).2 :: TrueOfSome(env, mem, [f], u)
  {
    hide ScanRecords, TrueOfSome;
    assert f.recs[0..] == f.recs;
    RecordsTrue(env, mem, heap, f, 0, a, acc);
  }
}
