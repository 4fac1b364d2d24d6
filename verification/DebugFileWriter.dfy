// The writing side: every table prints its records in key order, and every
// write is checked. `fwrite` of zero bytes reports zero items, so an empty string
// fails the check and ends the program.
module DebugFileWriter {
  import opened Words
  import opened Bytes
  import opened SymbolTables
  import opened DebugFile

  predicate WritableVar(e: Entry<VarRec>)
    decreases e, 1
  {
    e.key != [] && e.rec.declFile != [] && e.rec.typ != [] && WritableSubTable(e.rec.local)
  }

  predicate WritableSubTable(t: SubTable)
    decreases t, 2
  {
    t.HasTable? ==> WritableVars(t.vars)
  }

  predicate WritableVars(es: Table<VarRec>)
    decreases es, 0
  {
    es == [] || (WritableVar(es[0]) && WritableVars(es[1..]))
  }

  // A type without a name cannot be written either: its name is a null pointer.
  predicate WritableType(e: Entry<TypeRec>) {
    && e.key != []
    && e.rec.name.Some? && UpToNul(e.rec.name.value) != []
    && e.rec.base != Some([])
    && WritableSubTable(e.rec.members)
  }

  predicate WritableTypes(es: Table<TypeRec>) {
    es == [] || (WritableType(es[0]) && WritableTypes(es[1..]))
  }

  predicate WritableCu(e: Entry<CuRec>) {
    e.key != [] && WritableTypes(e.rec.types) && WritableVars(e.rec.vars)
  }

  predicate WritableCus(es: Table<CuRec>) {
    es == [] || (WritableCu(es[0]) && WritableCus(es[1..]))
  }

  // ------------------------------------------------------------------ encodings append

  lemma {:induction false} VarAppend(e: Entry<VarRec>, a: seq<byte>, b: seq<byte>)
    ensures VarBytes(e, a) + b == VarBytes(e, a + b)
    decreases e, 1
  {
    hide PutWord, PutText, PutFlag, SubTableBytes;
    PutAppend();
    SubTableAppend(e.rec.local, a, b);
  }

  lemma {:induction false} SubTableAppend(t: SubTable, a: seq<byte>, b: seq<byte>)
    ensures SubTableBytes(t, a) + b == SubTableBytes(t, a + b)
    decreases t, 2
  {
    hide PutWord;
    PutAppend();
    if t.HasTable? {
      VarsAppend(t.vars, a, b);
    }
  }

  lemma {:induction false} VarsAppend(es: Table<VarRec>, a: seq<byte>, b: seq<byte>)
    ensures VarsBytes(es, a) + b == VarsBytes(es, a + b)
    decreases es, 0
  {
    hide VarBytes;
    if es != [] {
      VarAppend(es[0], VarsBytes(es[1..], a), b);
      VarsAppend(es[1..], a, b);
    }
  }

  lemma TypeAppend(e: Entry<TypeRec>, a: seq<byte>, b: seq<byte>)
    ensures TypeBytes(e, a) + b == TypeBytes(e, a + b)
  {
    hide PutWord, PutText, PutFlag, SubTableBytes;
    PutAppend();
    SubTableAppend(e.rec.members, a, b);
  }

  lemma {:induction false} TypesAppend(es: Table<TypeRec>, a: seq<byte>, b: seq<byte>)
    ensures TypesBytes(es, a) + b == TypesBytes(es, a + b)
  {
    hide TypeBytes;
    if es != [] {
      TypeAppend(es[0], TypesBytes(es[1..], a), b);
      TypesAppend(es[1..], a, b);
    }
  }

  lemma CuAppend(e: Entry<CuRec>, a: seq<byte>, b: seq<byte>)
    ensures CuBytes(e, a) + b == CuBytes(e, a + b)
  {
    hide PutWord, PutText, TypesBytes, SubTableBytes;
    PutAppend();
    TypesAppend(e.rec.types, VarTableBytes(e.rec.vars, a), b);
    SubTableAppend(HasTable(e.rec.vars), a, b);
  }

  // ------------------------------------------------------------------ write

  method WriteText(f: OutFile, s: seq<byte>) returns (ok: bool)
    modifies f
    ensures ok == (s != [])
    ensures ok ==> f.data == (old(f.data) + LittleEndian(8, |s|)) + s
  {
    f.WriteWord(8, |s|);
    if s == [] {
      return false;
    }
    f.WriteBytes(s);
    ok := true;
  }

  method WriteFlag(f: OutFile, b: bool)
    modifies f
    ensures f.data == old(f.data) + LittleEndian(1, if b then 1 else 0)
  {
    f.WriteWord(1, if b then 1 else 0);
  }

  // The fields from the line of the declaration on, with what follows the record.
  function VarFields(r: VarRec, rest: seq<byte>): seq<byte> {
    PutWord(8, r.declLine, PutWord(8, r.lowPc, PutWord(8, r.highPc, PutWord(8, r.startPc, PutWord(8, r.location,
      PutText(r.typ, PutFlag(r.isSubprog, rest)))))))
  }

  method WriteVarFields(f: OutFile, r: VarRec, ghost rest: seq<byte>) returns (ok: bool)
    modifies f
    ensures ok == (r.typ != [])
    ensures ok ==> f.data + rest == old(f.data) + VarFields(r, rest)
  {
    hide PutWord, PutRaw, LittleEndian;
    AppendField();
    ghost var whole := f.data + VarFields(r, rest);
    f.WriteWord(8, r.declLine);
    f.WriteWord(8, r.lowPc);
    f.WriteWord(8, r.highPc);
    f.WriteWord(8, r.startPc);
    f.WriteWord(8, r.location);
    ok := WriteText(f, r.typ);
    if !ok { return; }
    WriteFlag(f, r.isSubprog);
    assert f.data + rest == whole;
  }

  method WriteVarRecord(f: OutFile, e: Entry<VarRec>) returns (ok: bool)
    modifies f
    ensures ok == WritableVar(e)
    ensures ok ==> f.data == old(f.data) + VarBytes(e, [])
    decreases e, 1
  {
    hide PutWord, PutRaw, LittleEndian, SubTableBytes, WritableSubTable;
    AppendField();
    ghost var whole := f.data + VarBytes(e, []);
    var r := e.rec;
    f.WriteWord(4, VAR);
    ok := WriteText(f, e.key);
    if !ok { return; }
    WriteFlag(f, r.isLocal);
    WriteFlag(f, r.isParam);
    ok := WriteText(f, r.declFile);
    if !ok { return; }
    assert f.data + VarFields(r, SubTableBytes(r.local, [])) == whole;
    ok := WriteVarFields(f, r, SubTableBytes(r.local, []));
    if !ok { return; }
    ok := WriteSubTable(f, r.local);
  }

  // A local or member table is written if the record has one.
  method WriteSubTable(f: OutFile, t: SubTable) returns (ok: bool)
    modifies f
    ensures ok == WritableSubTable(t)
    ensures ok ==> f.data == old(f.data) + SubTableBytes(t, [])
    decreases t, 2
  {
    if t.NoTable? {
      assert f.data + [] == f.data;
      return true;
    }
    ok := WriteVarTable(f, t.vars);
  }

  method WriteVarTable(f: OutFile, es: Table<VarRec>) returns (ok: bool)
    modifies f
    ensures ok == WritableVars(es)
    ensures ok ==> f.data == old(f.data) + VarTableBytes(es, [])
    decreases es, 2
  {
    hide PutWord, LittleEndian, VarsBytes, VarBytes, WritableVars, WritableVar;
    AppendField();
    ghost var whole := f.data + VarTableBytes(es, []);
    f.WriteWord(4, VAR);
    f.WriteWord(8, |es|);
    ok := WriteVars(f, es);
  }

  // The loop over the records of a variable table.
  method WriteVars(f: OutFile, es: Table<VarRec>) returns (ok: bool)
    modifies f
    ensures ok == WritableVars(es)
    ensures ok ==> f.data == old(f.data) + VarsBytes(es, [])
    decreases es, 1
  {
    hide VarBytes, WritableVar;
    ghost var whole := f.data + VarsBytes(es, []);
    var i := 0;
    while i < |es|
      invariant i <= |es|
      invariant f.data + VarsBytes(es[i..], []) == whole
      invariant WritableVars(es) == WritableVars(es[i..])
    {
      ghost var before := f.data;
      ok := WriteVarRecord(f, es[i]);
      assert es[i..][1..] == es[i + 1..];
      if !ok { return; }
      VarAppend(es[i], [], VarsBytes(es[i + 1..], []));
      assert [] + VarsBytes(es[i + 1..], []) == VarsBytes(es[i + 1..], []);
      assert (before + VarBytes(es[i], [])) + VarsBytes(es[i + 1..], []) ==
             before + (VarBytes(es[i], []) + VarsBytes(es[i + 1..], []));
      i := i + 1;
    }
    assert f.data + [] == f.data;
    ok := true;
  }

  method WriteTypeRecord(f: OutFile, e: Entry<TypeRec>) returns (ok: bool)
    modifies f
    ensures ok == WritableType(e)
    ensures ok ==> f.data == old(f.data) + TypeBytes(e, [])
  {
    hide PutWord, PutRaw, LittleEndian, SubTableBytes, WritableSubTable, UpToNul;
    AppendField();
    ghost var whole := f.data + TypeBytes(e, []);
    var r := e.rec;
    f.WriteWord(4, TYPE);
    ok := WriteText(f, e.key);
    if !ok { return; }
    f.WriteWord(8, r.size);
    if r.name.None? {
      return false;
    }
    ok := WriteText(f, UpToNul(r.name.value));
    if !ok { return; }
    assert f.data + TypeTail(r) == whole;
    ok := WriteTypeTail(f, r);
  }

  // The part of a type record behind its name.
  function TypeTail(r: TypeRec): seq<byte> {
    PutFlag(r.isArray, PutWord(8, r.upperBound, PutFlag(r.isPointer, PutFlag(r.isStruct, PutFlag(r.isConst,
      PutFlag(r.isTypedef, PutText(r.base.GetOr([]), SubTableBytes(r.members, []))))))))
  }

  method WriteTypeTail(f: OutFile, r: TypeRec) returns (ok: bool)
    modifies f
    ensures ok == (r.base != Some([]) && WritableSubTable(r.members))
    ensures ok ==> f.data == old(f.data) + TypeTail(r)
  {
    hide PutWord, PutRaw, LittleEndian, SubTableBytes, WritableSubTable;
    AppendField();
    ghost var whole := f.data + TypeTail(r);
    WriteFlag(f, r.isArray);
    f.WriteWord(8, r.upperBound);
    WriteFlag(f, r.isPointer);
    WriteFlag(f, r.isStruct);
    WriteFlag(f, r.isConst);
    WriteFlag(f, r.isTypedef);
    ok := WriteBase(f, r.base);
    if !ok { return; }
    assert f.data + SubTableBytes(r.members, []) == whole;
    ok := WriteSubTable(f, r.members);
  }

  // A missing base type is written as a length of zero.
  method WriteBase(f: OutFile, base: Option<seq<byte>>) returns (ok: bool)
    modifies f
    ensures ok == (base != Some([]))
    ensures ok ==> f.data == (old(f.data) + LittleEndian(8, |base.GetOr([])|)) + base.GetOr([])
  {
    if base.Some? {
      ok := WriteText(f, base.value);
    } else {
      f.WriteWord(8, 0);
      assert f.data + [] == f.data;
      ok := true;
    }
  }

  method WriteTypeTable(f: OutFile, es: Table<TypeRec>) returns (ok: bool)
    modifies f
    ensures ok == WritableTypes(es)
    ensures ok ==> f.data == old(f.data) + TypeTableBytes(es, [])
  {
    hide PutWord, LittleEndian, TypeBytes, WritableType;
    AppendField();
    ghost var whole := f.data + TypeTableBytes(es, []);
    f.WriteWord(4, TYPE);
    f.WriteWord(8, |es|);
    var i := 0;
    while i < |es|
      invariant i <= |es|
      invariant f.data + TypesBytes(es[i..], []) == whole
      invariant WritableTypes(es) == WritableTypes(es[i..])
    {
      ghost var before := f.data;
      ok := WriteTypeRecord(f, es[i]);
      assert es[i..][1..] == es[i + 1..];
      if !ok { return; }
      TypeAppend(es[i], [], TypesBytes(es[i + 1..], []));
      assert [] + TypesBytes(es[i + 1..], []) == TypesBytes(es[i + 1..], []);
      assert (before + TypeBytes(es[i], [])) + TypesBytes(es[i + 1..], []) ==
             before + (TypeBytes(es[i], []) + TypesBytes(es[i + 1..], []));
      i := i + 1;
    }
    assert f.data + [] == f.data;
    ok := true;
  }

  method WriteCuRecord(f: OutFile, e: Entry<CuRec>) returns (ok: bool)
    modifies f
    ensures ok == WritableCu(e)
    ensures ok ==> f.data == old(f.data) + CuBytes(e, [])
  {
    hide PutWord, PutRaw, LittleEndian, TypeTableBytes, VarTableBytes, WritableTypes, WritableVars;
    AppendField();
    ghost var vars := VarTableBytes(e.rec.vars, []);
    ghost var whole := f.data + CuBytes(e, []);
    f.WriteWord(4, CU);
    ok := WriteText(f, e.key);
    if !ok { return; }
    f.WriteWord(8, e.rec.lowPc);
    f.WriteWord(8, e.rec.highPc);
    ghost var before := f.data;
    assert before + TypeTableBytes(e.rec.types, vars) == whole;
    ok := WriteTypeTable(f, e.rec.types);
    if !ok { return; }
    TypeTableAppend(e.rec.types, [], vars);
    assert [] + vars == vars;
    assert (before + TypeTableBytes(e.rec.types, [])) + vars == before + (TypeTableBytes(e.rec.types, []) + vars);
    ok := WriteVarTable(f, e.rec.vars);
  }

  lemma TypeTableAppend(es: Table<TypeRec>, a: seq<byte>, b: seq<byte>)
    ensures TypeTableBytes(es, a) + b == TypeTableBytes(es, a + b)
  {
    hide PutWord, TypesBytes;
    PutAppend();
    TypesAppend(es, a, b);
  }

  // The compilation-unit table: the whole file.
  method WriteCuTable(f: OutFile, es: Table<CuRec>) returns (ok: bool)
    requires f.data == []
    modifies f
    ensures ok == WritableCus(es)
    ensures ok ==> f.data == FileBytes(es)
  {
    hide PutWord, LittleEndian, CuBytes, WritableCu;
    AppendField();
    ghost var whole := f.data + FileBytes(es);
    assert whole == FileBytes(es);
    f.WriteWord(4, CU);
    f.WriteWord(8, |es|);
    var i := 0;
    while i < |es|
      invariant i <= |es|
      invariant f.data + CusBytes(es[i..], []) == whole
      invariant WritableCus(es) == WritableCus(es[i..])
    {
      ghost var before := f.data;
      ok := WriteCuRecord(f, es[i]);
      assert es[i..][1..] == es[i + 1..];
      if !ok { return; }
      CuAppend(es[i], [], CusBytes(es[i + 1..], []));
      assert [] + CusBytes(es[i + 1..], []) == CusBytes(es[i + 1..], []);
      assert (before + CuBytes(es[i], [])) + CusBytes(es[i + 1..], []) ==
             before + (CuBytes(es[i], []) + CusBytes(es[i + 1..], []));
      i := i + 1;
    }
    assert f.data + [] == f.data;
    ok := true;
  }
}
