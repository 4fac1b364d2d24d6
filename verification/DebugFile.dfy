// The `.vdw` file: the debug-information tables that one program writes and
// another reads back into tables of its own.
module DebugFile {
  import opened Words
  import opened Bytes
  import opened SymbolTables

  // Table and record ids; a table and its records share a number.
  const CU := 0
  const TYPE := 1
  const VAR := 2

  // A variable, a member of a struct, or a subprogram with its local variables.
  datatype VarRec = VarRec(isLocal: bool, isParam: bool, declFile: seq<byte>, declLine: u64, lowPc: u64, highPc: u64,
                           startPc: u64, location: u64, typ: seq<byte>, isSubprog: bool, local: SubTable)

  datatype SubTable = NoTable | HasTable(vars: Table<VarRec>)

  // A type as the writing side holds it.
  datatype TypeRec = TypeRec(size: u64, name: Option<seq<byte>>, isArray: bool, upperBound: u64, isPointer: bool,
                             isStruct: bool, isConst: bool, isTypedef: bool, base: Option<seq<byte>>,
                             members: SubTable)

  // A type as the reading side holds it.
  datatype LoadedType = LoadedType(size: u64, name: seq<byte>, isArray: bool, upperBound: u64, isPointer: bool,
                                   isStruct: bool, isConst: bool, isTypedef: bool, base: Option<seq<byte>>,
                                   members: SubTable)

  datatype CuRec = CuRec(lowPc: u64, highPc: u64, types: Table<TypeRec>, vars: Table<VarRec>)

  // The pc range of a compilation unit; on the reading side all units share one
  // type table and one variable table.
  datatype LoadedCu = LoadedCu(lowPc: u64, highPc: u64)

  datatype Loaded = Loaded(cus: Table<LoadedCu>, types: Table<LoadedType>, vars: Table<VarRec>)

  // ------------------------------------------------------------------ the format

  function VarBytes(e: Entry<VarRec>, rest: seq<byte>): seq<byte>
    decreases e, 1
  {
    var r := e.rec;
    PutWord(4, VAR, PutText(e.key, PutFlag(r.isLocal, PutFlag(r.isParam, PutText(r.declFile,
      PutWord(8, r.declLine, PutWord(8, r.lowPc, PutWord(8, r.highPc, PutWord(8, r.startPc, PutWord(8, r.location,
      PutText(r.typ, PutFlag(r.isSubprog, SubTableBytes(r.local, rest)))))))))))))
  }

  function SubTableBytes(t: SubTable, rest: seq<byte>): seq<byte>
    decreases t, 2
  {
    match t
    case NoTable => rest
    case HasTable(vars) => PutWord(4, VAR, PutWord(8, |vars|, VarsBytes(vars, rest)))
  }

  function VarsBytes(es: Table<VarRec>, rest: seq<byte>): seq<byte>
    decreases es, 0
  {
    if es == [] then rest else VarBytes(es[0], VarsBytes(es[1..], rest))
  }

  function VarTableBytes(es: Table<VarRec>, rest: seq<byte>): seq<byte> {
    SubTableBytes(HasTable(es), rest)
  }

  function TypeBytes(e: Entry<TypeRec>, rest: seq<byte>): seq<byte> {
    var r := e.rec;
    PutWord(4, TYPE, PutText(e.key, PutWord(8, r.size, PutText(UpToNul(r.name.GetOr([])), PutFlag(r.isArray,
      PutWord(8, r.upperBound, PutFlag(r.isPointer, PutFlag(r.isStruct, PutFlag(r.isConst, PutFlag(r.isTypedef,
      PutText(r.base.GetOr([]), SubTableBytes(r.members, rest))))))))))))
  }

  function TypesBytes(es: Table<TypeRec>, rest: seq<byte>): seq<byte> {
    if es == [] then rest else TypeBytes(es[0], TypesBytes(es[1..], rest))
  }

  function TypeTableBytes(es: Table<TypeRec>, rest: seq<byte>): seq<byte> {
    PutWord(4, TYPE, PutWord(8, |es|, TypesBytes(es, rest)))
  }

  function CuBytes(e: Entry<CuRec>, rest: seq<byte>): seq<byte> {
    PutWord(4, CU, PutText(e.key, PutWord(8, e.rec.lowPc, PutWord(8, e.rec.highPc,
      TypeTableBytes(e.rec.types, VarTableBytes(e.rec.vars, rest))))))
  }

  function CusBytes(es: Table<CuRec>, rest: seq<byte>): seq<byte> {
    if es == [] then rest else CuBytes(es[0], CusBytes(es[1..], rest))
  }

  function FileBytes(es: Table<CuRec>): seq<byte> {
    PutWord(4, CU, PutWord(8, |es|, CusBytes(es, [])))
  }

  // ------------------------------------------------------------------ the parser

  // A variable record up to its flag `is_subprog`.
  function ParseVarHead(bs: seq<byte>): (r: Option<(Entry<VarRec>, seq<byte>)>)
    ensures r.Some? ==> |r.value.1| < |bs|
  {
    var (id, bs) :- TakeWord(4, bs);
    if id != VAR then None
    else
      var (key, bs) :- TakeText(bs);
      var (isLocal, bs) :- TakeFlag(bs);
      var (isParam, bs) :- TakeFlag(bs);
      var (declFile, bs) :- TakeText(bs);
      var (declLine, bs) :- TakeU64(bs);
      var (lowPc, bs) :- TakeU64(bs);
      var (highPc, bs) :- TakeU64(bs);
      var (startPc, bs) :- TakeU64(bs);
      var (location, bs) :- TakeU64(bs);
      var (typ, bs) :- TakeText(bs);
      var (isSubprog, bs) :- TakeFlag(bs);
      Some((Entry(key, VarRec(isLocal, isParam, declFile, declLine, lowPc, highPc, startPc, location, typ,
                              isSubprog, NoTable)), bs))
  }

  function ParseVar(bs: seq<byte>): (r: Option<(Entry<VarRec>, seq<byte>)>)
    ensures r.Some? ==> |r.value.1| < |bs|
    decreases |bs|, 1
  {
    var (e, bs) :- ParseVarHead(bs);
    var (local, bs) :- ParseSubTable(e.rec.isSubprog, bs);
    Some((Entry(e.key, e.rec.(local := local)), bs))
  }

  // The table behind a record, if its flag says that there is one.
  function ParseSubTable(present: bool, bs: seq<byte>): (r: Option<(SubTable, seq<byte>)>)
    ensures r.Some? ==> |r.value.1| <= |bs|
    decreases |bs|, 4
  {
    if !present then Some((NoTable, bs))
    else
      var (vars, bs) :- ParseVarTable([], bs);
      Some((HasTable(vars), bs))
  }

  // A variable table is read into whatever table is on top of the stack. A wrong
  // id, or none, is only logged.
  function ParseVarTable(t: Table<VarRec>, bs: seq<byte>): (r: Option<(Table<VarRec>, seq<byte>)>)
    ensures r.Some? ==> |r.value.1| <= |bs|
    decreases |bs|, 3
  {
    match TakeWord(4, bs)
    case None => Some((t, bs))
    case Some((id, bs)) =>
      if id != VAR then Some((t, bs))
      else
        var (n, bs) :- TakeU64(bs);
        ParseVars(n, t, bs)
  }

  function ParseVars(n: nat, t: Table<VarRec>, bs: seq<byte>): (r: Option<(Table<VarRec>, seq<byte>)>)
    ensures r.Some? ==> |r.value.1| <= |bs|
    decreases |bs|, 2
  {
    if n == 0 then Some((t, bs))
    else
      var (e, bs) :- ParseVar(bs);
      ParseVars(n - 1, Put(t, e.key, e.rec), bs)
  }

  // The base type: an empty string stands for none.
  function TakeBase(bs: seq<byte>): (r: Option<(Option<seq<byte>>, seq<byte>)>)
    ensures r.Some? ==> |r.value.1| < |bs|
  {
    var (n, _) :- TakeU64(bs);
    var (s, bs) :- TakeText(bs);
    Some((if n == 0 then None else Some(s), bs))
  }

  datatype TypeFlags = TypeFlags(isArray: bool, upperBound: u64, isPointer: bool, isStruct: bool, isTypedef: bool,
                                 isConst: bool)

  // The flag that comes first is taken for `is_typedef`.
  function ParseTypeFlags(bs: seq<byte>): (r: Option<(TypeFlags, seq<byte>)>)
    ensures r.Some? ==> |r.value.1| < |bs|
  {
    var (isArray, bs) :- TakeFlag(bs);
    var (upperBound, bs) :- TakeU64(bs);
    var (isPointer, bs) :- TakeFlag(bs);
    var (isStruct, bs) :- TakeFlag(bs);
    var (isTypedef, bs) :- TakeFlag(bs);
    var (isConst, bs) :- TakeFlag(bs);
    Some((TypeFlags(isArray, upperBound, isPointer, isStruct, isTypedef, isConst), bs))
  }

  // What the reader keeps of the fields: the base type for arrays and pointers
  // only, the bound for arrays only. An array or pointer without a base type
  // fails: a string is built from a null pointer.
  function BuildType(size: u64, name: seq<byte>, f: TypeFlags, base: Option<seq<byte>>): Option<LoadedType> {
    if (f.isArray || f.isPointer) && base.None? then None
    else
      Some(LoadedType(size, name, f.isArray, if f.isArray then f.upperBound else MINUS_ONE, f.isPointer, f.isStruct,
                      f.isConst, f.isTypedef, if f.isArray || f.isPointer then base else None, NoTable))
  }

  // A type record up to its base type.
  function ParseTypeHead(bs: seq<byte>): (r: Option<(Entry<LoadedType>, seq<byte>)>)
    ensures r.Some? ==> |r.value.1| < |bs|
  {
    var (id, bs) :- TakeWord(4, bs);
    if id != TYPE then None
    else
      var (key, bs) :- TakeText(bs);
      var (size, bs) :- TakeU64(bs);
      var (name, bs) :- TakeText(bs);
      var (flags, bs) :- ParseTypeFlags(bs);
      var (base, bs) :- TakeBase(bs);
      var rec :- BuildType(size, name, flags, base);
      Some((Entry(key, rec), bs))
  }

  function ParseType(bs: seq<byte>): (r: Option<(Entry<LoadedType>, seq<byte>)>)
    ensures r.Some? ==> |r.value.1| < |bs|
  {
    var (e, bs) :- ParseTypeHead(bs);
    var (members, bs) :- ParseSubTable(e.rec.isStruct, bs);
    Some((Entry(e.key, e.rec.(members := members)), bs))
  }

  function ParseTypes(n: nat, t: Table<LoadedType>, bs: seq<byte>): (r: Option<(Table<LoadedType>, seq<byte>)>)
    ensures r.Some? ==> |r.value.1| <= |bs|
    decreases |bs|
  {
    if n == 0 then Some((t, bs))
    else
      var (e, bs) :- ParseType(bs);
      ParseTypes(n - 1, Put(t, e.key, e.rec), bs)
  }

  function ParseTypeTable(t: Table<LoadedType>, bs: seq<byte>): (r: Option<(Table<LoadedType>, seq<byte>)>)
    ensures r.Some? ==> |r.value.1| <= |bs|
  {
    match TakeWord(4, bs)
    case None => Some((t, bs))
    case Some((id, bs)) =>
      if id != TYPE then Some((t, bs))
      else
        var (n, bs) :- TakeU64(bs);
        ParseTypes(n, t, bs)
  }

  function ParseCu(st: Loaded, bs: seq<byte>): (r: Option<(Loaded, seq<byte>)>)
    ensures r.Some? ==> |r.value.1| < |bs|
  {
    var (id, bs) :- TakeWord(4, bs);
    if id != CU then None
    else
      var (path, bs) :- TakeText(bs);
      var (lowPc, bs) :- TakeU64(bs);
      var (highPc, bs) :- TakeU64(bs);
      var (types, bs) :- ParseTypeTable(st.types, bs);
      var (vars, bs) :- ParseVarTable(st.vars, bs);
      Some((Loaded(Put(st.cus, path, LoadedCu(lowPc, highPc)), types, vars), bs))
  }

  function ParseCus(n: nat, st: Loaded, bs: seq<byte>): (r: Option<(Loaded, seq<byte>)>)
    ensures r.Some? ==> |r.value.1| <= |bs|
    decreases |bs|
  {
    if n == 0 then Some((st, bs))
    else
      var (st, bs) :- ParseCu(st, bs);
      ParseCus(n - 1, st, bs)
  }

  datatype FileResult =
    | Malformed                              // no CU table in front: logged, nothing loaded
    | Aborted                                // an assertion failed
    | Read(tables: Loaded, rest: seq<byte>)

  const EMPTY := Loaded([], [], [])

  function ParseFile(bs: seq<byte>): FileResult {
    match TakeWord(4, bs)
    case None => Malformed
    case Some((id, bs)) =>
      if id != CU then Malformed
      else match TakeU64(bs)
           case None => Aborted
           case Some((n, bs)) =>
             match ParseCus(n, EMPTY, bs)
             case None => Aborted
             case Some((st, rest)) => Read(st, rest)
  }
}
