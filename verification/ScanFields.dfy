// What the scan of one record does, in terms of the memory and of the tables alone: when
// it looks at the record, what it remembers, and what it reports, field by field.
module ScanFields {
  import opened Words
  import opened Bytes
  import opened SymbolTables
  import opened AsciiText
  import opened HeapMap
  import opened DebugFile
  import opened ShadowStack
  import opened ShadowRuns
  import opened ShadowParts

  // ------------------------------------------------------------------ where things are

  // The first byte of a variable: a local or a parameter lies so far from the base pointer
  // of its frame, any other so far from the data segment.
  predicate LiesAt(env: Env, ebp: u64, v: Var, base: u64) {
    base == (v.location + if v.isLocal || v.isParam then ebp else env.dataBase) % 0x1_0000_0000_0000_0000
  }

  // The address is one of this many bytes.
  predicate Within(base: u64, size: u64, a: u64) { base <= a < (base + size) % 0x1_0000_0000_0000_0000 }

  lemma Where(env: Env, ebp: u64, v: Var, t: LoadedType, a: u64)
    ensures LiesAt(env, ebp, v, BaseAddress(env, ebp, v))
    ensures IsAtAddress(env, ebp, v, t, a) <==> Within(BaseAddress(env, ebp, v), t.size, a)
  {}

  // The scan looks at the record: because it looks at all, for the first time at this
  // frame, or for an address in the variable.
  predicate Looks(env: Env, fr: FrameView, v: Var, base: u64, a: u64)
    requires v.typ in env.types
  {
    a == 0 || fr.firstAccess || Within(base, env.types[v.typ].size, a)
  }

  // ------------------------------------------------------------------ kinds

  predicate StandsAt(name: seq<byte>, word: seq<byte>, i: nat) {
    i + |word| <= |name| && name[i..i + |word|] == word
  }

  // The word is somewhere in the name.
  ghost predicate Mentions(name: seq<byte>, word: seq<byte>) { exists i :: StandsAt(name, word, i) }

  lemma {:induction false} OccursExactly(word: seq<byte>, name: seq<byte>)
    ensures Occurs(word, name) <==> Mentions(name, word)
  {
    if word <= name {
      assert StandsAt(name, word, 0);
    } else if name != [] {
      var tail := name[1..];
      OccursExactly(word, tail);
      if i: nat :| StandsAt(name, word, i) {
        assert i > 0 && StandsAt(tail, word, i - 1);
      }
      if i: nat :| StandsAt(tail, word, i) {
        assert StandsAt(name, word, i + 1);
      }
    }
  }

  // The type is scanned element by element: an array of a known type, not called anything
  // with the letters c, h, a, r in it.
  ghost predicate HasElements(env: Env, t: LoadedType) {
    && !t.isStruct && t.isArray && t.base.Some? && t.base.value in env.types
    && !Mentions(env.types[t.base.value].name, [0x63, 0x68, 0x61, 0x72])
  }

  lemma KindExactly(env: Env, t: LoadedType)
    ensures KindOf(env, t).AsStruct? <==> t.isStruct
    ensures KindOf(env, t).AsArray? <==> HasElements(env, t)
    ensures KindOf(env, t).AsScalar? <==> !t.isStruct && !HasElements(env, t)
  {
    hide Occurs, Mentions;
    assert CHAR == [0x63, 0x68, 0x61, 0x72];
    if t.base.Some? && t.base.value in env.types {
      OccursExactly(CHAR, env.types[t.base.value].name);
    }
  }

  // ------------------------------------------------------------------ one value

  // The text of the value of this type at this address: of a pointer, that of the word
  // there, and of anything else that of the bytes that the type reads.
  ghost predicate Reads(env: Env, mem: Memory, t: LoadedType, a: u64, text: seq<byte>) {
    text == if t.isPointer then env.wordText(Load(mem, a)) else env.text(t, a, Window(mem, a, env.width(t)))
  }

  // The update was made by this record of this frame, for its variable.
  predicate Made(u: Update, env: Env, f: nat, r: RecordView) {
    u.frame == f && u.place == r.place && u.id == r.v.id && u.scope == env.scope(r.v.id)
  }

  // A scalar, a pointer, or an array that is scanned like one. If the scan looks at it, it
  // stores the value at its first byte, or at the written address, and reports it on the
  // first access to the frame and when it has changed. A pointer remembers the heap block
  // that it points into, if there is one.
  lemma ScalarExactly(env: Env, mem: Memory, heap: Blocks, fr: FrameView, r: RecordView, a: u64, acc: set<nat>,
                      base: u64, text: seq<byte>)
    requires Known(env, r.v) && LiesAt(env, fr.ebp, r.v, base)
    requires var t := env.types[r.v.typ]; !t.isStruct && !HasElements(env, t)
    requires Reads(env, mem, env.types[r.v.typ], if a == 0 || fr.firstAccess then base else a, text)
    ensures var (r', acc', ups) := ScanRecord(env, mem, heap, fr, r, a, acc); var t := env.types[r.v.typ];
            var at := if a == 0 || fr.firstAccess then base else a;
            && acc' == acc
            && if !Looks(env, fr, r.v, base, a) then r' == r && ups == []
               else
                 && r' == r.(value := text, block := r'.block)
                 && (r'.block == if t.isPointer && Scan(heap, LoadedWord(Load(mem, at))).Some?
                                 then Scan(heap, LoadedWord(Load(mem, at))) else r.block)
                 && if !fr.firstAccess && text == r.value then ups == []
                    else
                      && |ups| == 1 && Made(ups[0], env, fr.id, r) && ups[0].source == Declared
                      && ups[0].name == r.name && ups[0].prefix == [] && ups[0].typeName == t.name
                      && ups[0].address == at && ups[0].value == text
  {
    hide Load, Scan, HasElements, Wrap;
    KindExactly(env, env.types[r.v.typ]);
    Where(env, fr.ebp, r.v, env.types[r.v.typ], a);
    SameBase(env, fr.ebp, r.v, base);
  }

  lemma SameBase(env: Env, ebp: u64, v: Var, base: u64)
    requires LiesAt(env, ebp, v, base)
    ensures BaseAddress(env, ebp, v) == base
  {}

  // ------------------------------------------------------------------ arrays and structs

  // The record is listed as a whole, rather than looked up by the address.
  predicate Listed(fr: FrameView, r: RecordView, a: u64, acc: set<nat>) {
    a == 0 || fr.firstAccess || r.v.id !in acc
  }

  // It is announced when its frame or the variable is accessed for the first time.
  predicate IsFirst(fr: FrameView, r: RecordView, acc: set<nat>) { fr.firstAccess || r.v.id !in acc }

  // The announcement has the first byte of the variable and a word in place of a value.
  predicate Announces(u: Update, env: Env, f: nat, r: RecordView, base: u64)
    requires r.v.typ in env.types
  {
    && Made(u, env, f, r) && u.source == Announced && u.name == r.name && u.prefix == []
    && u.typeName == env.types[r.v.typ].name && u.address == base && u.value == Ascii("<multielement>")
  }

  // The report of an element by its number, at this address.
  ghost predicate ReportsElement(u: Update, env: Env, mem: Memory, f: nat, r: RecordView, et: LoadedType, index: int,
                                 at: u64)
  {
    && Made(u, env, f, r) && u.source == Element(index) && u.prefix == r.name
    && u.name == Ascii(":[") + (if index < 0 then Ascii("-") + Decimal(-index) else Decimal(index)) + Ascii("]")
    && u.typeName == et.name && u.address == at && u.value == env.text(et, at, Window(mem, at, env.width(et)))
  }

  // The number of the element that the address is in, as far as 32 bits with a sign hold it.
  ghost predicate IsIndex(base: u64, size: u64, a: u64, index: int)
    requires size > 0
  {
    && -0x8000_0000 <= index < 0x8000_0000
    && (((a - base) % 0x1_0000_0000_0000_0000) / size - index) % 0x1_0000_0000 == 0
  }

  lemma IndexMeaning(base: u64, size: u64, a: u64)
    requires size > 0
    ensures IsIndex(base, size, a, IndexOf(base, size, a))
  {
    Signed32Meaning(Sub(a, base) / size);
  }

  lemma Signed32Meaning(x: nat)
    ensures -0x8000_0000 <= Signed32(x) < 0x8000_0000 && (x - Signed32(x)) % 0x1_0000_0000 == 0
  {}

  // In an array that does not wrap, an address in element i has this number, if it has 31
  // bits.
  lemma IndexInside(base: u64, size: u64, a: u64, i: nat, index: int)
    requires size > 0 && base + size * i <= a < base + size * (i + 1) && i < 0x8000_0000
    requires IsIndex(base, size, a, index)
    ensures index == i
  {
    MulMono(size, 0, i);
    assert (a - base) % 0x1_0000_0000_0000_0000 == a - base;
    QuotientElement(base, size, a);
    ElementsDisjoint(base, size, a, i, Quotient(base, size, a));
    SameSmall(i, index);
  }

  lemma SameSmall(i: nat, index: int)
    requires i < 0x8000_0000 && -0x8000_0000 <= index < 0x8000_0000 && (i - index) % 0x1_0000_0000 == 0
    ensures index == i
  {}

  lemma {:induction false} ElementsFields(env: Env, mem: Memory, f: nat, r: RecordView, t: LoadedType, et: LoadedType,
                                          base: u64, i: nat)
    requires t.upperBound < 0xFFFF_FFFF && i <= t.upperBound + 1
    ensures var es := Elements(env, mem, f, r, t, et, base, i);
            && |es| == t.upperBound + 1 - i
            && forall k :: 0 <= k < |es| ==>
                 ReportsElement(es[k], env, mem, f, r, et, i + k, (base + et.size * (i + k)) % 0x1_0000_0000_0000_0000)
    decreases t.upperBound + 1 - i
  {
    hide Decimal, Ascii, ReportsElement, Window;
    if i <= t.upperBound {
      ElementsFields(env, mem, f, r, t, et, base, i + 1);
      OneElement(env, mem, f, r, et, base, i);
      var es, rest := Elements(env, mem, f, r, t, et, base, i), Elements(env, mem, f, r, t, et, base, i + 1);
      forall k | 0 <= k < |es|
        ensures ReportsElement(es[k], env, mem, f, r, et, i + k, (base + et.size * (i + k)) % 0x1_0000_0000_0000_0000)
      {
        assert k > 0 ==> es[k] == rest[k - 1] && (i + 1) + (k - 1) == i + k;
      }
    }
  }

  lemma OneElement(env: Env, mem: Memory, f: nat, r: RecordView, et: LoadedType, base: u64, i: nat)
    requires i < 0xFFFF_FFFF
    ensures ReportsElement(ElementUpdate(env, mem, f, r, et, i, Add(base, Mul(et.size, Wrap(i)))), env, mem, f, r, et,
                           i, (base + et.size * i) % 0x1_0000_0000_0000_0000)
  {
    hide Decimal, Ascii, Window;
    WrapSmall(i);
    WrapAdd(et.size * i, base);
  }

  // The n updates of the announcement, one or none, and behind them each element from the
  // first to the bound, in order, at its first byte.
  ghost predicate ElementsListed(ups: seq<Update>, n: nat, env: Env, mem: Memory, f: nat, r: RecordView, base: u64)
    requires r.v.typ in env.types && HasElements(env, env.types[r.v.typ])
  {
    var t := env.types[r.v.typ];
    var et := env.types[t.base.value];
    && |ups| == n + t.upperBound + 1 && (n == 1 ==> Announces(ups[0], env, f, r, base))
    && forall k :: 0 <= k <= t.upperBound ==>
         ReportsElement(ups[n + k], env, mem, f, r, et, k, (base + et.size * k) % 0x1_0000_0000_0000_0000)
  }

  // An array of elements. If the scan looks at it, it is either listed, every element from
  // the first to the bound in order, behind its announcement, or it has exactly one
  // element reported, the one with the address, under its number.
  lemma ArrayExactly(env: Env, mem: Memory, heap: Blocks, fr: FrameView, r: RecordView, a: u64, acc: set<nat>,
                     base: u64)
    requires Known(env, r.v) && LiesAt(env, fr.ebp, r.v, base) && HasElements(env, env.types[r.v.typ])
    ensures var (r', acc', ups) := ScanRecord(env, mem, heap, fr, r, a, acc); var t := env.types[r.v.typ];
            var et := env.types[t.base.value];
            && r' == r
            && if !Looks(env, fr, r.v, base, a) then acc' == acc && ups == []
               else if Listed(fr, r, a, acc) then
                 var n := if IsFirst(fr, r, acc) then 1 else 0;
                 acc' == acc + {r.v.id} && ElementsListed(ups, n, env, mem, fr.id, r, base)
               else
                 && acc' == acc && |ups| == 1 && et.size > 0
                 && exists index :: IsIndex(base, et.size, a, index) &&
                                    ReportsElement(ups[0], env, mem, fr.id, r, et, index, a)
  {
    hide ScanRecord, HasElements, ElementsListed, ReportsElement, IsIndex, ArrayUpdates, Within, LiesAt;
    var t := env.types[r.v.typ];
    ScanOfArray(env, mem, heap, fr, r, a, acc, base);
    var et := env.types[t.base.value];
    if Looks(env, fr, r.v, base, a) {
      if Listed(fr, r, a, acc) {
        ElementsInOrder(env, mem, fr, r, a, acc, base);
      } else {
        OneOfArray(env, mem, fr, r, t, et, a, acc, base);
        IndexMeaning(base, et.size, a);
        OneAt(env, mem, fr.id, r, et, IndexOf(base, et.size, a), a);
      }
    }
  }

  lemma ScanOfArray(env: Env, mem: Memory, heap: Blocks, fr: FrameView, r: RecordView, a: u64, acc: set<nat>,
                    base: u64)
    requires Known(env, r.v) && LiesAt(env, fr.ebp, r.v, base) && HasElements(env, env.types[r.v.typ])
    ensures var t := env.types[r.v.typ];
            && t.base.Some? && t.base.value in env.types && t.upperBound < 0xFFFF_FFFF
            && BaseAddress(env, fr.ebp, r.v) == base
            && (Looks(env, fr, r.v, base, a) ==> env.types[t.base.value].size > 0 || Lists(fr, r.v, a, acc))
            && ScanRecord(env, mem, heap, fr, r, a, acc) ==
               if Looks(env, fr, r.v, base, a) then
                 var (acc', ups) := ArrayUpdates(env, mem, fr, r, t, env.types[t.base.value], a, acc); (r, acc', ups)
               else (r, acc, [])
  {
    hide Mentions, Wrap, ArrayUpdates;
    var t := env.types[r.v.typ];
    KindExactly(env, t);
    Where(env, fr.ebp, r.v, t, a);
    SameBase(env, fr.ebp, r.v, base);
    if Within(base, t.size, a) {
      NoBytesHere(base, t.size, a);
    }
  }

  lemma OneOfArray(env: Env, mem: Memory, fr: FrameView, r: RecordView, t: LoadedType, et: LoadedType, a: u64,
                   acc: set<nat>, base: u64)
    requires et.size > 0 && t.upperBound < 0xFFFF_FFFF && !Listed(fr, r, a, acc)
    requires BaseAddress(env, fr.ebp, r.v) == base
    ensures ArrayUpdates(env, mem, fr, r, t, et, a, acc) ==
            (acc, [ElementUpdate(env, mem, fr.id, r, et, IndexOf(base, et.size, a), a)])
  {
    hide BaseAddress, IndexOf;
  }

  lemma NoBytesHere(base: u64, size: u64, a: u64)
    requires Within(base, size, a)
    ensures size > 0
  {}

  lemma ElementsInOrder(env: Env, mem: Memory, fr: FrameView, r: RecordView, a: u64, acc: set<nat>, base: u64)
    requires Known(env, r.v) && HasElements(env, env.types[r.v.typ]) && Listed(fr, r, a, acc)
    requires BaseAddress(env, fr.ebp, r.v) == base && env.types[r.v.typ].upperBound < 0xFFFF_FFFF
    requires env.types[r.v.typ].base.Some? && env.types[r.v.typ].base.value in env.types
    ensures var t := env.types[r.v.typ];
            var (acc', ups) := ArrayUpdates(env, mem, fr, r, t, env.types[t.base.value], a, acc);
            acc' == acc + {r.v.id} &&
            ElementsListed(ups, if IsFirst(fr, r, acc) then 1 else 0, env, mem, fr.id, r, base)
  {
    hide Elements, ReportsElement, ArrayUpdates, Announces, HasElements, BaseAddress, ElementsListed;
    var t := env.types[r.v.typ];
    var et := env.types[t.base.value];
    ElementsFields(env, mem, fr.id, r, t, et, base, 0);
    ListedArray(env, mem, fr, r, t, et, a, acc, base);
    Behind(ArrayUpdates(env, mem, fr, r, t, et, a, acc).1, if IsFirst(fr, r, acc) then 1 else 0,
           Elements(env, mem, fr.id, r, t, et, base, 0), env, mem, fr.id, r, base);
  }

  lemma Behind(ups: seq<Update>, n: nat, es: seq<Update>, env: Env, mem: Memory, f: nat, r: RecordView, base: u64)
    requires r.v.typ in env.types && HasElements(env, env.types[r.v.typ])
    requires |ups| == n + |es| && (n == 1 ==> Announces(ups[0], env, f, r, base))
    requires forall k :: 0 <= k < |es| ==> ups[n + k] == es[k]
    requires var t := env.types[r.v.typ]; var et := env.types[t.base.value];
             && |es| == t.upperBound + 1
             && forall k :: 0 <= k < |es| ==>
                  ReportsElement(es[k], env, mem, f, r, et, 0 + k, (base + et.size * (0 + k)) % 0x1_0000_0000_0000_0000)
    ensures ElementsListed(ups, n, env, mem, f, r, base)
  {
    hide ReportsElement, Announces, Mentions;
    var et := env.types[env.types[r.v.typ].base.value];
    forall k | 0 <= k < |es|
      ensures ReportsElement(ups[n + k], env, mem, f, r, et, k, (base + et.size * k) % 0x1_0000_0000_0000_0000)
    {
      assert 0 + k == k && ups[n + k] == es[k];
    }
  }

  lemma OneAt(env: Env, mem: Memory, f: nat, r: RecordView, et: LoadedType, index: int, a: u64)
    ensures ReportsElement(ElementUpdate(env, mem, f, r, et, index, a), env, mem, f, r, et, index, a)
  {
    hide Decimal, Ascii, Window;
  }

  lemma ListedArray(env: Env, mem: Memory, fr: FrameView, r: RecordView, t: LoadedType, et: LoadedType, a: u64,
                    acc: set<nat>, base: u64)
    requires r.v.typ in env.types && t == env.types[r.v.typ] && t.upperBound < 0xFFFF_FFFF && Listed(fr, r, a, acc)
    requires BaseAddress(env, fr.ebp, r.v) == base
    ensures var (acc', ups) := ArrayUpdates(env, mem, fr, r, t, et, a, acc);
            var es := Elements(env, mem, fr.id, r, t, et, base, 0); var n := if IsFirst(fr, r, acc) then 1 else 0;
            && acc' == acc + {r.v.id} && |ups| == n + |es| && (n == 1 ==> Announces(ups[0], env, fr.id, r, base))
            && forall k :: 0 <= k < |es| ==> ups[n + k] == es[k]
  {
    hide Elements, BaseAddress;
  }

  // The report of a member by its name, at this address.
  ghost predicate ReportsMember(u: Update, env: Env, mem: Memory, f: nat, r: RecordView, m: Entry<Var>, at: u64)
    requires r.v.typ in env.types && m.rec.typ in env.types
  {
    var t := env.types[m.rec.typ];
    && Made(u, env, f, r) && u.source == MemberOf(m.key) && u.name == m.key
    && u.prefix == env.types[r.v.typ].name + Ascii(":") && u.typeName == t.name && u.address == at
    && u.value == env.text(t, at, Window(mem, at, env.width(t)))
  }

  // The member has the address.
  predicate HasAddress(env: Env, ebp: u64, m: Entry<Var>, a: u64)
    requires m.rec.typ in env.types
  {
    Within((m.rec.location + if m.rec.isLocal || m.rec.isParam then ebp else env.dataBase) % 0x1_0000_0000_0000_0000,
           env.types[m.rec.typ].size, a)
  }

  lemma {:induction false} MembersFields(env: Env, mem: Memory, f: nat, r: RecordView, ms: Table<Var>, at: u64)
    requires r.v.typ in env.types && forall m <- ms :: m.rec.typ in env.types
    ensures var us := Members(env, mem, f, r, ms, at);
            && |us| == |ms|
            && forall k :: 0 <= k < |ms| ==>
                 ReportsMember(us[k], env, mem, f, r, ms[k], (at + BytesBefore(env, ms, k)) % 0x1_0000_0000_0000_0000)
    decreases |ms|
  {
    hide Window, Ascii, Wrap, ReportsMember, MemberUpdate;
    if ms != [] {
      OneMember(env, mem, f, r, ms[0], at);
      var size := env.types[ms[0].rec.typ].size;
      var tail := ms[1..];
      MembersFields(env, mem, f, r, tail, Add(at, size));
      var us, rest := Members(env, mem, f, r, ms, at), Members(env, mem, f, r, tail, Add(at, size));
      forall k | 0 <= k < |ms|
        ensures ReportsMember(us[k], env, mem, f, r, ms[k], (at + BytesBefore(env, ms, k)) % 0x1_0000_0000_0000_0000)
      {
        if k == 0 {
          WrapSmall(at);
        } else {
          assert us[k] == rest[k - 1] && ms[k] == tail[k - 1];
          NextAddress(at, size, BytesBefore(env, tail, k - 1));
        }
      }
    }
  }

  lemma OneMember(env: Env, mem: Memory, f: nat, r: RecordView, m: Entry<Var>, at: u64)
    requires r.v.typ in env.types && m.rec.typ in env.types
    ensures ReportsMember(MemberUpdate(env, mem, f, r, m, at), env, mem, f, r, m, at)
  {
    hide Window;
  }

  lemma NextAddress(at: u64, size: u64, n: nat)
    ensures (Add(at, size) + n) % 0x1_0000_0000_0000_0000 == (at + (size + n)) % 0x1_0000_0000_0000_0000
  {
    WrapAdd(at + size, n);
  }

  // The first member with the address, if any has it.
  ghost predicate IsFirstHit(env: Env, ebp: u64, ms: Table<Var>, a: u64, k: nat)
    requires forall m <- ms :: m.rec.typ in env.types
  {
    k < |ms| && HasAddress(env, ebp, ms[k], a) && forall j :: 0 <= j < k ==> !HasAddress(env, ebp, ms[j], a)
  }

  lemma HitExactly(env: Env, fr: FrameView, ms: Table<Var>, a: u64)
    requires forall m <- ms :: m.rec.typ in env.types
    ensures MemberHit(env, fr, ms, a).None? <==> forall m <- ms :: !HasAddress(env, fr.ebp, m, a)
    ensures MemberHit(env, fr, ms, a).Some? ==>
              exists k: nat :: IsFirstHit(env, fr.ebp, ms, a, k) && MemberHit(env, fr, ms, a) == Some(ms[k])
  {
    hide MemberHit, IsAtAddress, HasAddress;
    HitMeaning(env, fr, ms, a);
    forall m | m in ms ensures InMember(env, fr.ebp, m, a) <==> HasAddress(env, fr.ebp, m, a) {
      SameMember(env, fr.ebp, m, a);
    }
    if MemberHit(env, fr, ms, a).Some? {
      var k :| 0 <= k < |ms| && MemberHit(env, fr, ms, a) == Some(ms[k]) && InMember(env, fr.ebp, ms[k], a) &&
               forall j :: 0 <= j < k ==> !InMember(env, fr.ebp, ms[j], a);
      assert IsFirstHit(env, fr.ebp, ms, a, k);
    }
  }

  lemma SameMember(env: Env, ebp: u64, m: Entry<Var>, a: u64)
    requires m.rec.typ in env.types
    ensures InMember(env, ebp, m, a) <==> HasAddress(env, ebp, m, a)
  {
    Where(env, ebp, m.rec, env.types[m.rec.typ], a);
  }

  // A struct. If the scan looks at it, it is either listed, every member in the order of
  // the names, each behind the bytes of those before it, behind its announcement; or it
  // has exactly one member reported, the first with the address, and none exactly when no
  // member has the address.
  lemma StructExactly(env: Env, mem: Memory, heap: Blocks, fr: FrameView, r: RecordView, a: u64, acc: set<nat>,
                      base: u64)
    requires Known(env, r.v) && LiesAt(env, fr.ebp, r.v, base) && env.types[r.v.typ].isStruct
    ensures var (r', acc', ups) := ScanRecord(env, mem, heap, fr, r, a, acc); var ms := r.v.members;
            && r' == r
            && if !Looks(env, fr, r.v, base, a) then acc' == acc && ups == []
               else if Listed(fr, r, a, acc) then
                 var n := if IsFirst(fr, r, acc) then 1 else 0;
                 && acc' == acc + {r.v.id} && |ups| == n + |ms|
                 && (n == 1 ==> Announces(ups[0], env, fr.id, r, base))
                 && forall k :: 0 <= k < |ms| ==>
                      ReportsMember(ups[n + k], env, mem, fr.id, r, ms[k],
                                    (base + BytesBefore(env, ms, k)) % 0x1_0000_0000_0000_0000)
               else
                 && acc' == acc && |ups| <= 1
                 && (ups == [] <==> forall m <- ms :: !HasAddress(env, fr.ebp, m, a))
                 && (ups != [] ==>
                       exists k: nat :: IsFirstHit(env, fr.ebp, ms, a, k) &&
                                   ReportsMember(ups[0], env, mem, fr.id, r, ms[k], a))
  {
    hide ScanRecord, Members, ReportsMember, StructUpdates, Announces, Within, LiesAt, HasAddress, MemberHit;
    var ms := r.v.members;
    ScanOfStruct(env, mem, heap, fr, r, a, acc, base);
    MembersFields(env, mem, fr.id, r, ms, base);
    if Looks(env, fr, r.v, base, a) {
      if Listed(fr, r, a, acc) {
        ListedStruct(env, mem, fr, r, a, acc, base);
      } else {
        HitExactly(env, fr, ms, a);
        OneOfStruct(env, mem, fr, r, a, acc);
      }
    }
  }

  lemma ScanOfStruct(env: Env, mem: Memory, heap: Blocks, fr: FrameView, r: RecordView, a: u64, acc: set<nat>,
                     base: u64)
    requires Known(env, r.v) && LiesAt(env, fr.ebp, r.v, base) && env.types[r.v.typ].isStruct
    ensures BaseAddress(env, fr.ebp, r.v) == base
    ensures ScanRecord(env, mem, heap, fr, r, a, acc) ==
            if Looks(env, fr, r.v, base, a) then
              var (acc', ups) := StructUpdates(env, mem, fr, r, a, acc); (r, acc', ups)
            else (r, acc, [])
  {
    hide Mentions, Wrap, StructUpdates;
    Where(env, fr.ebp, r.v, env.types[r.v.typ], a);
    SameBase(env, fr.ebp, r.v, base);
  }

  lemma ListedStruct(env: Env, mem: Memory, fr: FrameView, r: RecordView, a: u64, acc: set<nat>, base: u64)
    requires Known(env, r.v) && Listed(fr, r, a, acc) && BaseAddress(env, fr.ebp, r.v) == base
    ensures var (acc', ups) := StructUpdates(env, mem, fr, r, a, acc);
            var us := Members(env, mem, fr.id, r, r.v.members, base); var n := if IsFirst(fr, r, acc) then 1 else 0;
            && acc' == acc + {r.v.id} && |ups| == n + |us| && (n == 1 ==> Announces(ups[0], env, fr.id, r, base))
            && forall k :: 0 <= k < |us| ==> ups[n + k] == us[k]
  {
    hide Members, BaseAddress, KindOf;
  }

  lemma OneOfStruct(env: Env, mem: Memory, fr: FrameView, r: RecordView, a: u64, acc: set<nat>)
    requires Known(env, r.v) && !Listed(fr, r, a, acc)
    ensures var (acc', ups) := StructUpdates(env, mem, fr, r, a, acc); var hit := MemberHit(env, fr, r.v.members, a);
            && acc' == acc && (hit.None? ==> ups == [])
            && (hit.Some? ==>
                  hit.value in r.v.members && |ups| == 1 && ReportsMember(ups[0], env, mem, fr.id, r, hit.value, a))
  {
    hide MemberHit, KindOf, Members, Window;
    MemberHitIn(env, fr, r.v.members, a);
  }

  // ------------------------------------------------------------------ in a scan of everything

  // The updates that one record of a frame has made.
  function Part(ups: seq<Update>, frame: nat, place: nat): seq<Update> {
    if ups == [] then []
    else (if ups[0].frame == frame && ups[0].place == place then [ups[0]] else []) + Part(ups[1..], frame, place)
  }

  lemma {:induction false} PartAppend(a: seq<Update>, b: seq<Update>, frame: nat, place: nat)
    ensures Part(a + b, frame, place) == Part(a, frame, place) + Part(b, frame, place)
  {
    if a == [] {
      assert a + b == b;
    } else {
      assert (a + b)[1..] == a[1..] + b;
      PartAppend(a[1..], b, frame, place);
    }
  }

  lemma {:induction false} PartAll(ups: seq<Update>, frame: nat, place: nat)
    requires forall u <- ups :: u.frame == frame && u.place == place
    ensures Part(ups, frame, place) == ups
  {
    if ups != [] {
      PartAll(ups[1..], frame, place);
      assert ups == [ups[0]] + ups[1..];
    }
  }

  lemma {:induction false} PartNone(ups: seq<Update>, frame: nat, place: nat)
    requires forall u <- ups :: u.frame != frame || u.place != place
    ensures Part(ups, frame, place) == []
  {
    if ups != [] {
      PartNone(ups[1..], frame, place);
    }
  }

  // The scan of a record may find its variable to have been listed, and no other.
  lemma AccessOne(env: Env, mem: Memory, heap: Blocks, fr: FrameView, r: RecordView, a: u64, acc: set<nat>)
    requires Known(env, r.v)
    ensures acc <= ScanRecord(env, mem, heap, fr, r, a, acc).1 <= acc + {r.v.id}
  {
    hide Elements, Members, MemberHit, ScanScalar, IsAtAddress, BaseAddress;
  }

  // So many more variables are known to be listed than before these records.
  ghost predicate Grown(acc: set<nat>, acc': set<nat>, rs: seq<RecordView>) {
    acc <= acc' && forall x :: x in acc' && x !in acc ==> exists r :: r in rs && r.v.id == x
  }

  lemma GrownOn(acc: set<nat>, acc1: set<nat>, acc2: set<nat>, rs: seq<RecordView>, more: seq<RecordView>)
    requires Grown(acc, acc1, rs) && Grown(acc1, acc2, more)
    ensures Grown(acc, acc2, rs + more)
  {
    forall x | x in acc2 && x !in acc ensures exists r :: r in rs + more && r.v.id == x {
      if x in acc1 {
        var r :| r in rs && r.v.id == x;
        assert r in rs + more;
      } else {
        var r :| r in more && r.v.id == x;
        assert r in rs + more;
      }
    }
  }

  lemma {:induction false} RecordsGrow(env: Env, mem: Memory, heap: Blocks, fr: FrameView, rs: seq<RecordView>, a: u64,
                                       acc: set<nat>)
    requires AllKnown(env, rs)
    ensures Grown(acc, ScanRecords(env, mem, heap, fr, rs, a, acc).1, rs)
  {
    hide ScanRecord, Known, Grown;
    if rs == [] {
      NotGrown(acc);
    } else {
      AccessOne(env, mem, heap, fr, rs[0], a, acc);
      var acc1 := ScanRecord(env, mem, heap, fr, rs[0], a, acc).1;
      GrownByOne(acc, acc1, rs[0]);
      assert AllKnown(env, rs[1..]);
      RecordsGrow(env, mem, heap, fr, rs[1..], a, acc1);
      GrownOn(acc, acc1, ScanRecords(env, mem, heap, fr, rs[1..], a, acc1).1, [rs[0]], rs[1..]);
      assert [rs[0]] + rs[1..] == rs;
    }
  }

  lemma NotGrown(acc: set<nat>)
    ensures Grown(acc, acc, [])
  {}

  lemma GrownByOne(acc: set<nat>, acc': set<nat>, r: RecordView)
    requires acc <= acc' <= acc + {r.v.id}
    ensures Grown(acc, acc', [r])
  {
    assert r in [r];
  }

  // What the scan of a list of records does to one of them is what its own scan does, with
  // what had been listed by then.
  ghost predicate IsScanOf(env: Env, mem: Memory, heap: Blocks, fr: FrameView, r: RecordView, a: u64, acc: set<nat>,
                           before: seq<RecordView>, r': RecordView, ups: seq<Update>)
    requires Known(env, r.v)
  {
    exists acc' :: Grown(acc, acc', before) &&
                   var (q, _, us) := ScanRecord(env, mem, heap, fr, r, a, acc'); r' == q && ups == us
  }

  lemma {:induction false} RecordPart(env: Env, mem: Memory, heap: Blocks, fr: FrameView, rs: seq<RecordView>, a: u64,
                                      acc: set<nat>, j: nat)
    requires AllKnown(env, rs) && DistinctPlaces(rs) && j < |rs|
    ensures var (rs', _, ups) := ScanRecords(env, mem, heap, fr, rs, a, acc);
            Known(env, rs[j].v) &&
            IsScanOf(env, mem, heap, fr, rs[j], a, acc, rs[..j], rs'[j], Part(ups, fr.id, rs[j].place))
    decreases j
  {
    hide ScanRecord, Known, Grown;
    assert rs[j] in rs && rs[0] in rs;
    var (r, acc1, ups) := ScanRecord(env, mem, heap, fr, rs[0], a, acc);
    var tail := rs[1..];
    assert AllKnown(env, tail);
    var (more, _, ups') := ScanRecords(env, mem, heap, fr, tail, a, acc1);
    var place := rs[j].place;
    PartAppend(ups, ups', fr.id, place);
    RecordReports(env, mem, heap, fr, rs[0], a, acc);
    if j == 0 {
      RecordsPlaces(env, mem, heap, fr, tail, a, acc1, place);
      PartAll(ups, fr.id, place);
      PartNone(ups', fr.id, place);
      NotGrown(acc);
      assert rs[..0] == [] && ups + [] == ups;
    } else {
      PartNone(ups, fr.id, place);
      RecordPart(env, mem, heap, fr, tail, a, acc1, j - 1);
      AccessOne(env, mem, heap, fr, rs[0], a, acc);
      GrownByOne(acc, acc1, rs[0]);
      assert [rs[0]] + tail[..j - 1] == rs[..j];
      MoreBefore(env, mem, heap, fr, rs[j], a, acc, acc1, [rs[0]], tail[..j - 1], more[j - 1],
                 Part(ups', fr.id, place));
    }
  }

  lemma MoreBefore(env: Env, mem: Memory, heap: Blocks, fr: FrameView, r: RecordView, a: u64, acc: set<nat>,
                   acc1: set<nat>, first: seq<RecordView>, before: seq<RecordView>, r': RecordView, ups: seq<Update>)
    requires Known(env, r.v) && Grown(acc, acc1, first)
    requires IsScanOf(env, mem, heap, fr, r, a, acc1, before, r', ups)
    ensures IsScanOf(env, mem, heap, fr, r, a, acc, first + before, r', ups)
  {
    hide ScanRecord, Known, Grown;
    var acc' :| Grown(acc1, acc', before) &&
                var (q, _, us) := ScanRecord(env, mem, heap, fr, r, a, acc'); r' == q && ups == us;
    GrownOn(acc, acc1, acc', first, before);
  }

  lemma {:induction false} RecordsPlaces(env: Env, mem: Memory, heap: Blocks, fr: FrameView, rs: seq<RecordView>,
                                         a: u64, acc: set<nat>, place: nat)
    requires AllKnown(env, rs) && forall r <- rs :: r.place != place
    ensures forall u <- ScanRecords(env, mem, heap, fr, rs, a, acc).2 :: u.place != place
  {
    hide ScanRecord, Known;
    if rs != [] {
      RecordReports(env, mem, heap, fr, rs[0], a, acc);
      assert AllKnown(env, rs[1..]) && rs[0] in rs;
      RecordsPlaces(env, mem, heap, fr, rs[1..], a, ScanRecord(env, mem, heap, fr, rs[0], a, acc).1, place);
    }
  }

  // All records of these frames, one frame behind the other.
  function RecordsOfAll(frs: seq<FrameView>): seq<RecordView> {
    if frs == [] then [] else frs[0].recs + RecordsOfAll(frs[1..])
  }

  lemma {:induction false} FramePart(env: Env, mem: Memory, heap: Blocks, frs: seq<FrameView>, a: u64, acc: set<nat>,
                                     i: nat, j: nat)
    requires (forall f <- frs :: AllKnown(env, f.recs) && DistinctPlaces(f.recs)) && DistinctFrames(frs)
    requires i < |frs| && j < |frs[i].recs|
    ensures var (frs', _, ups) := ScanFrames(env, mem, heap, frs, a, acc); var r := frs[i].recs[j];
            && j < |frs'[i].recs| && Known(env, r.v)
            && IsScanOf(env, mem, heap, frs[i], r, a, acc, RecordsOfAll(frs[..i]) + frs[i].recs[..j], frs'[i].recs[j],
                        Part(ups, frs[i].id, r.place))
    decreases i
  {
    hide ScanFrame, Known, Grown, IsScanOf, DistinctPlaces, RecordsOfAll;
    var f := frs[i];
    var r := f.recs[j];
    assert f in frs && frs[0] in frs && r in f.recs;
    var (f0, acc1, ups) := ScanFrame(env, mem, heap, frs[0], a, acc);
    var tail := frs[1..];
    var (more, _, ups') := ScanFrames(env, mem, heap, tail, a, acc1);
    PartAppend(ups, ups', f.id, r.place);
    if i == 0 {
      FirstFrame(env, mem, heap, f, a, acc, j);
      FramesReport(env, mem, heap, tail, a, acc1);
      forall q | q in tail ensures q.id != f.id {
        var k :| 0 <= k < |tail| && tail[k] == q;
        assert q == frs[k + 1];
      }
      PartNone(ups', f.id, r.place);
      NoneBefore(frs, f.recs[..j]);
      assert Part(ups, f.id, r.place) + [] == Part(ups, f.id, r.place);
    } else {
      FramePart(env, mem, heap, tail, a, acc1, i - 1, j);
      OtherFrame(env, mem, heap, frs[0], a, acc, f.id, r.place);
      assert [] + Part(ups', f.id, r.place) == Part(ups', f.id, r.place);
      var before := RecordsOfAll(tail[..i - 1]) + f.recs[..j];
      AllBefore(frs, i, f.recs[..j]);
      MoreBefore(env, mem, heap, f, r, a, acc, acc1, frs[0].recs, before, more[i - 1].recs[j],
                 Part(ups', f.id, r.place));
    }
  }

  lemma NoneBefore(frs: seq<FrameView>, rs: seq<RecordView>)
    ensures RecordsOfAll(frs[..0]) + rs == rs
  {}

  lemma AllBefore(frs: seq<FrameView>, i: nat, rs: seq<RecordView>)
    requires 0 < i < |frs|
    ensures frs[0].recs + (RecordsOfAll(frs[1..][..i - 1]) + rs) == RecordsOfAll(frs[..i]) + rs
  {
    assert frs[..i][1..] == frs[1..][..i - 1];
  }

  lemma FirstFrame(env: Env, mem: Memory, heap: Blocks, f: FrameView, a: u64, acc: set<nat>, j: nat)
    requires AllKnown(env, f.recs) && DistinctPlaces(f.recs) && j < |f.recs|
    ensures var (f', _, ups) := ScanFrame(env, mem, heap, f, a, acc); var r := f.recs[j];
            && j < |f'.recs| && Known(env, r.v)
            && IsScanOf(env, mem, heap, f, r, a, acc, f.recs[..j], f'.recs[j], Part(ups, f.id, r.place))
  {
    hide ScanRecords, IsScanOf, Known;
    RecordPart(env, mem, heap, f, f.recs, a, acc, j);
  }

  lemma OtherFrame(env: Env, mem: Memory, heap: Blocks, f: FrameView, a: u64, acc: set<nat>, frame: nat, place: nat)
    requires AllKnown(env, f.recs) && f.id != frame
    ensures var (_, acc', ups) := ScanFrame(env, mem, heap, f, a, acc);
            Grown(acc, acc', f.recs) && Part(ups, frame, place) == []
  {
    hide ScanRecords, Grown, Known;
    RecordsScan(env, mem, heap, f, f.recs, a, acc);
    RecordsGrow(env, mem, heap, f, f.recs, a, acc);
    PartNone(ScanFrame(env, mem, heap, f, a, acc).2, frame, place);
  }

  // In a scan of the whole stack, what becomes of any record of any frame, and what is
  // reported of it, is what its own scan does; a variable is taken for listed if it was
  // before, or if a record scanned earlier has listed it.
  lemma StackPart(env: Env, r: Run, mem: Memory, a: u64, i: nat, j: nat)
    requires Ok(env, r) && i < |AllFrames(r.st)| && j < |AllFrames(r.st)[i].recs|
    ensures var (st', ups) := ScanStack(env, mem, r.heap, r.st, a);
            var frs, frs' := AllFrames(r.st), AllFrames(st'); var q := frs[i].recs[j];
            && |frs'| == |frs| && j < |frs'[i].recs| && Known(env, q.v)
            && IsScanOf(env, mem, r.heap, frs[i], q, a, r.st.accessed, RecordsOfAll(frs[..i]) + frs[i].recs[..j],
                        frs'[i].recs[j], Part(ups, frs[i].id, q.place))
  {
    hide ScanStack, ScanFrames, IsScanOf, RecordsOfAll, Known, DistinctPlaces;
    AsOneList(env, mem, r.heap, r.st, a);
    FramePart(env, mem, r.heap, AllFrames(r.st), a, r.st.accessed, i, j);
  }
}
