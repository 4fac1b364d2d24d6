// The bytes of the debug file as a table: every record with its id, and its fields in
// order with their widths.
module FileFields {
  import opened Words
  import opened Bytes
  import opened SymbolTables
  import opened DebugFile
  import opened WordFields
  import opened TraceFields
  import R = DebugFileRoundTrip

  // A text of any length, and a flag of one byte.
  function Name(text: seq<byte>, rest: Layout): Layout { Str(|text|, text, rest) }

  function Bit(b: bool, rest: Layout): Layout { Num(1, Flag(b), rest) }

  function VarLayout(e: Entry<VarRec>, rest: Layout): Layout
    decreases e, 1
  {
    var r := e.rec;
    var behind := Name(r.typ, Bit(r.isSubprog, SubTableLayout(r.local, rest)));
    var pcs := Num(8, r.lowPc, Num(8, r.highPc, Num(8, r.startPc, Num(8, r.location, behind))));
    Num(4, 2, Name(e.key, Bit(r.isLocal, Bit(r.isParam, Name(r.declFile, Num(8, r.declLine, pcs))))))
  }

  // A table of variables: its id, the number of records, and the records.
  function SubTableLayout(t: SubTable, rest: Layout): Layout
    decreases t, 2
  {
    if t.NoTable? then rest else Num(4, 2, Num(8, |t.vars|, VarsLayout(t.vars, rest)))
  }

  function VarsLayout(es: Table<VarRec>, rest: Layout): Layout
    decreases es, 0
  {
    if es == [] then rest else VarLayout(es[0], VarsLayout(es[1..], rest))
  }

  function TypeLayout(e: Entry<TypeRec>, rest: Layout): Layout {
    var r := e.rec;
    var behind := Name(if r.base.Some? then r.base.value else [], SubTableLayout(r.members, rest));
    var flags := Bit(r.isPointer, Bit(r.isStruct, Bit(r.isConst, Bit(r.isTypedef, behind))));
    var name := UpToNul(if r.name.Some? then r.name.value else []);
    Num(4, 1, Name(e.key, Num(8, r.size, Name(name, Bit(r.isArray, Num(8, r.upperBound, flags))))))
  }

  function TypesLayout(es: Table<TypeRec>, rest: Layout): Layout {
    if es == [] then rest else TypeLayout(es[0], TypesLayout(es[1..], rest))
  }

  function CuLayout(e: Entry<CuRec>, rest: Layout): Layout {
    var vars := SubTableLayout(HasTable(e.rec.vars), rest);
    var types := Num(4, 1, Num(8, |e.rec.types|, TypesLayout(e.rec.types, vars)));
    Num(4, 0, Name(e.key, Num(8, e.rec.lowPc, Num(8, e.rec.highPc, types))))
  }

  function CusLayout(es: Table<CuRec>, rest: Layout): Layout {
    if es == [] then rest else CuLayout(es[0], CusLayout(es[1..], rest))
  }

  lemma {:induction false} VarExactly(e: Entry<VarRec>, rest: Layout)
    ensures BytesOf(VarLayout(e, rest)) == VarBytes(e, BytesOf(rest))
    decreases e, 1
  {
    FieldByField();
    hide BytesOf, PutText, PutWord, LittleEndian;
    SubTableExactly(e.rec.local, rest);
  }

  lemma {:induction false} SubTableExactly(t: SubTable, rest: Layout)
    ensures BytesOf(SubTableLayout(t, rest)) == SubTableBytes(t, BytesOf(rest))
    decreases t, 2
  {
    FieldByField();
    hide BytesOf, PutText, PutWord, LittleEndian;
    if t.HasTable? {
      VarsExactly(t.vars, rest);
    }
  }

  lemma {:induction false} VarsExactly(es: Table<VarRec>, rest: Layout)
    ensures BytesOf(VarsLayout(es, rest)) == VarsBytes(es, BytesOf(rest))
    decreases es, 0
  {
    hide BytesOf;
    if es != [] {
      VarsExactly(es[1..], rest);
      VarExactly(es[0], VarsLayout(es[1..], rest));
    }
  }

  lemma TypeExactly(e: Entry<TypeRec>, rest: Layout)
    ensures BytesOf(TypeLayout(e, rest)) == TypeBytes(e, BytesOf(rest))
  {
    FieldByField();
    hide BytesOf, PutText, PutWord, LittleEndian, UpToNul;
    SubTableExactly(e.rec.members, rest);
  }

  lemma {:induction false} TypesExactly(es: Table<TypeRec>, rest: Layout)
    ensures BytesOf(TypesLayout(es, rest)) == TypesBytes(es, BytesOf(rest))
  {
    hide BytesOf, TypeLayout, TypeBytes;
    if es != [] {
      TypesExactly(es[1..], rest);
      TypeExactly(es[0], TypesLayout(es[1..], rest));
    }
  }

  lemma CuExactly(e: Entry<CuRec>, rest: Layout)
    ensures BytesOf(CuLayout(e, rest)) == CuBytes(e, BytesOf(rest))
  {
    FieldByField();
    hide BytesOf, PutText, PutWord, LittleEndian, SubTableBytes, SubTableLayout, TypesLayout, TypesBytes;
    var vars := SubTableLayout(HasTable(e.rec.vars), rest);
    SubTableExactly(HasTable(e.rec.vars), rest);
    TypesExactly(e.rec.types, vars);
  }

  lemma {:induction false} CusExactly(es: Table<CuRec>, rest: Layout)
    ensures BytesOf(CusLayout(es, rest)) == CusBytes(es, BytesOf(rest))
  {
    hide BytesOf, CuLayout, CuBytes;
    if es != [] {
      CusExactly(es[1..], rest);
      CuExactly(es[0], CusLayout(es[1..], rest));
    }
  }

  // The file: the id of the table of units, their number, and unit after unit, with its
  // own types and variables, the table.
  lemma FileExactly(es: Table<CuRec>)
    ensures FileBytes(es) == BytesOf(Num(4, 0, Num(8, |es|, CusLayout(es, End))))
  {
    FieldByField();
    hide BytesOf, PutText, PutWord, LittleEndian, CusLayout, CusBytes;
    CusExactly(es, End);
  }

  // ------------------------------------------------------------------ what the reader keeps of a type

  // A bound for arrays only, a base type for arrays and pointers only, which must have one.
  lemma BuiltFields(size: u64, name: seq<byte>, f: TypeFlags, base: Option<seq<byte>>)
    ensures var t := BuildType(size, name, f, base);
            && (t.None? <==> (f.isArray || f.isPointer) && base.None?)
            && (t.Some? ==>
                  && t.value.size == size && t.value.name == name && t.value.members.NoTable?
                  && t.value.isArray == f.isArray && t.value.isPointer == f.isPointer && t.value.isStruct == f.isStruct
                  && t.value.isConst == f.isConst && t.value.isTypedef == f.isTypedef
                  && t.value.upperBound == (if f.isArray then f.upperBound else 0xFFFF_FFFF_FFFF_FFFF)
                  && t.value.base == if f.isArray || f.isPointer then base else None)
  {}

  // Of a type that is written, with its base exactly where it is an array or a pointer: all
  // of it, but with const and typedef exchanged.
  lemma KeptFields(r: TypeRec)
    requires r.name.Some?
    ensures var t := R.Kept(r);
            && t.size == r.size && t.name == r.name.value && t.members == r.members
            && t.isArray == r.isArray && t.isPointer == r.isPointer && t.isStruct == r.isStruct
            && t.isConst == r.isTypedef && t.isTypedef == r.isConst
            && t.upperBound == (if r.isArray then r.upperBound else 0xFFFF_FFFF_FFFF_FFFF)
            && t.base == if r.isArray || r.isPointer then r.base else None
  {}
}
