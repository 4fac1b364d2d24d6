// The analysis trace: a file of records, each written by its own hand-coded
// `write` and read back by the `read` that the leading id selects.
module AnalysisRecords {
  import opened Words
  import opened Bytes

  const PATH_MAX := 4096
  const MAX_VARIABLE := 127
  const MAX_SRC_LINE := 255
  const MAX_OUTPUT := 255
  const MAX_REGISTER_NAME := 16
  const MAX_VALUE := 65535

  const ID_ARCH := 0
  const ID_ASM := 1
  const ID_BINARY := 2
  const ID_CCODE := 3
  const ID_CMD_LINE := 4
  const ID_FUNCTION_INV := 7
  const ID_OUTPUT := 8
  const ID_REGISTER := 9
  const ID_RETURN := 10
  const ID_RETURN_ADDR := 11
  const ID_SD_CLEAR := 12
  const ID_SD_CZERO := 13
  const ID_SD_LOCK := 14
  const ID_SD_SET := 15
  const ID_SD_UNLOCK := 16
  const ID_SECTION := 17
  const ID_VAR_ACCESS := 18
  const ID_MALLOC := 19
  const ID_FREE := 20
  const ID_FILE_OPEN := 21
  const ID_FILE_WRITE := 24
  const ID_LINE_CHANGE := 25

  // The four sensitive-data events with one layout: clear, lock, set, unlock.
  datatype SdEvent = Clear | Lock | Set | Unlock

  datatype Record =
    | Asm(asmLine: i16, line: i16, asmFile: CString, file: CString, inst: CString)
    | Binary(path: CString)
    | CCode(line: i16, startPos: i16, file: CString, src: CString)
    | CmdLine(text: CString)
    | FuncInv(event: u64, funcLine: i16, invLine: i16, funcFile: CString, invFile: CString, funcName: CString,
              address: u64)
    | Output(event: u64, text: CString)
    | Register(event: u64, line: i16, file: CString, name: CString, word: u64)
    | Return(event: u64)
    | ReturnAddr(dynamicLink: u64, returnAddress: u64, funcName: CString)
    | SensitiveData(kind: SdEvent, event: u64, line: i16, file: CString, scope: CString, name: CString)
    | SdCzero(event: u64, line: i16, file: CString)
    | Section(text: CString)
    | VarAccess(event: u64, line: i16, file: CString, scope: CString, address: u64, typeName: CString,
                name: CString, pointsTo: u64, value: CString)
    | Malloc(event: u64, line: i16, file: CString, start: u64, numBytes: u64)
    | Free(event: u64, line: i16, file: CString, address: u64)
    | LineChange(event: u64, line: i16, file: CString)
    // A close, read or write call: a read or write also records its validity.
    | FileUse(event: u64, line: i16, file: CString, fd: u64, valid: Option<bool>)
    | FileOpen(event: u64, line: i16, file: CString, path: CString, fd: u64, flags: nat, mode: nat, isSymLink: byte)

  // The records of file operations.
  predicate IsFileRecord(r: Record) { r.FileUse? || r.FileOpen? }

  // ------------------------------------------------------------------ the file format

  function SdId(kind: SdEvent): nat {
    match kind
    case Clear => ID_SD_CLEAR
    case Lock => ID_SD_LOCK
    case Set => ID_SD_SET
    case Unlock => ID_SD_UNLOCK
  }

  // The id `write` puts in front. The file operations announce themselves as
  // calls of malloc.
  function WrittenId(r: Record): nat {
    match r
    case Asm(_, _, _, _, _) => ID_ASM
    case Binary(_) => ID_BINARY
    case CCode(_, _, _, _) => ID_CCODE
    case CmdLine(_) => ID_CMD_LINE
    case FuncInv(_, _, _, _, _, _, _) => ID_FUNCTION_INV
    case Output(_, _) => ID_OUTPUT
    case Register(_, _, _, _, _) => ID_REGISTER
    case Return(_) => ID_RETURN
    case ReturnAddr(_, _, _) => ID_RETURN_ADDR
    case SensitiveData(kind, _, _, _, _, _) => SdId(kind)
    case SdCzero(_, _, _) => ID_SD_CZERO
    case Section(_) => ID_SECTION
    case VarAccess(_, _, _, _, _, _, _, _, _) => ID_VAR_ACCESS
    case Malloc(_, _, _, _, _) => ID_MALLOC
    case Free(_, _, _, _) => ID_FREE
    case LineChange(_, _, _) => ID_LINE_CHANGE
    case FileUse(_, _, _, _, _) => ID_MALLOC
    case FileOpen(_, _, _, _, _, _, _, _) => ID_MALLOC
  }

  // The limits `write` asserts on its strings. The value of a variable is held
  // to the limit of a name, although `read` allows MAX_VALUE.
  predicate Fits(r: Record) {
    match r
    case Asm(_, _, asmFile, file, inst) => |asmFile| <= PATH_MAX && |file| <= PATH_MAX && |inst| <= MAX_SRC_LINE
    case Binary(path) => |path| <= PATH_MAX
    case CCode(_, _, file, src) => |file| <= PATH_MAX && |src| <= MAX_SRC_LINE
    case CmdLine(text) => |text| <= PATH_MAX
    case FuncInv(_, _, _, funcFile, invFile, funcName, _) =>
      |funcFile| <= PATH_MAX && |invFile| <= PATH_MAX && |funcName| <= MAX_VARIABLE
    case Output(_, text) => |text| <= MAX_OUTPUT
    case Register(_, _, file, name, _) => |file| <= PATH_MAX && |name| <= MAX_REGISTER_NAME
    case Return(_) => true
    case ReturnAddr(_, _, funcName) => |funcName| <= MAX_VARIABLE
    case SensitiveData(_, _, _, file, scope, name) =>
      |file| <= PATH_MAX && |scope| <= MAX_VARIABLE && |name| <= MAX_VARIABLE
    case SdCzero(_, _, file) => |file| <= PATH_MAX
    case Section(text) => |text| <= MAX_OUTPUT
    case VarAccess(_, _, file, scope, _, typeName, name, _, value) =>
      |file| <= PATH_MAX && |scope| <= MAX_VARIABLE && |typeName| <= MAX_VARIABLE &&
      |name| <= MAX_VARIABLE && |value| <= MAX_VARIABLE
    case Malloc(_, _, file, _, _) => |file| <= PATH_MAX
    case Free(_, _, file, _) => |file| <= PATH_MAX
    case LineChange(_, _, file) => |file| <= PATH_MAX
    case FileUse(_, _, file, _, _) => |file| <= PATH_MAX
    case FileOpen(_, _, file, path, _, _, _, _) => |file| <= PATH_MAX && |path| <= PATH_MAX
  }

  // The bytes of a record behind its id, followed by `rest`.
  function Body(r: Record, rest: seq<byte>): seq<byte> {
    match r
    case Asm(asmLine, line, asmFile, file, inst) =>
      PutWord(2, Unsigned16(asmLine), PutWord(2, Unsigned16(line),
        PutText(asmFile, PutText(file, PutText(inst, rest)))))
    case Binary(path) => PutText(path, rest)
    case CCode(line, startPos, file, src) =>
      PutWord(2, Unsigned16(line), PutWord(2, Unsigned16(startPos), PutText(file, PutText(src, rest))))
    case CmdLine(text) => PutText(text, rest)
    case FuncInv(event, funcLine, invLine, funcFile, invFile, funcName, address) =>
      PutWord(8, event, PutWord(2, Unsigned16(funcLine), PutWord(2, Unsigned16(invLine),
        PutText(funcFile, PutText(invFile, PutText(funcName, PutWord(8, address, rest)))))))
    case Output(event, text) => PutWord(8, event, PutText(text, rest))
    case Register(event, line, file, name, word) =>
      PutWord(8, event, PutWord(2, Unsigned16(line), PutText(file, PutText(name, PutWord(8, word, rest)))))
    case Return(event) => PutWord(8, event, rest)
    case ReturnAddr(dynamicLink, returnAddress, funcName) =>
      PutWord(8, dynamicLink, PutWord(8, returnAddress, PutText(funcName, rest)))
    case SensitiveData(_, event, line, file, scope, name) =>
      PutWord(8, event, PutWord(2, Unsigned16(line), PutText(file, PutText(scope, PutText(name, rest)))))
    case SdCzero(event, line, file) => PutWord(8, event, PutWord(2, Unsigned16(line), PutText(file, rest)))
    case Section(text) => PutText(text, rest)
    case VarAccess(event, line, file, scope, address, typeName, name, pointsTo, value) =>
      PutWord(8, event, PutWord(2, Unsigned16(line), PutText(file, PutText(scope, PutWord(8, address,
        PutText(typeName, PutText(name, PutWord(8, pointsTo, PutText(value, rest)))))))))
    case Malloc(event, line, file, start, numBytes) =>
      PutWord(8, event, PutWord(2, Unsigned16(line), PutText(file, PutWord(8, start, PutWord(8, numBytes, rest)))))
    case Free(event, line, file, address) =>
      PutWord(8, event, PutWord(2, Unsigned16(line), PutText(file, PutWord(8, address, rest))))
    case LineChange(event, line, file) => PutWord(8, event, PutWord(2, Unsigned16(line), PutText(file, rest)))
    case FileUse(event, line, file, fd, valid) =>
      PutWord(8, event, PutWord(2, Unsigned16(line), PutText(file, PutWord(8, fd,
        if valid.Some? then PutFlag(valid.value, rest) else rest))))
    case FileOpen(event, line, file, path, fd, flags, mode, isSymLink) =>
      PutWord(8, event, PutWord(2, Unsigned16(line), PutText(file, PutText(path, PutWord(8, fd,
        PutWord(4, flags, PutWord(4, mode, PutWord(1, isSymLink, rest))))))))
  }

  function Encode(r: Record, rest: seq<byte>): seq<byte> {
    PutWord(2, WrittenId(r), Body(r, rest))
  }

  // What a `read` makes of the bytes behind the id; None where one of its
  // assertions fails.
  type Decoded = Option<(Record, seq<byte>)>

  ghost predicate Consumed(bs: seq<byte>, r: Decoded) {
    r.Some? ==> |r.value.1| < |bs| && !IsFileRecord(r.value.0)
  }

  function DecodeAsm(bs: seq<byte>): (r: Decoded)
    ensures Consumed(bs, r)
  {
    var (asmLine, bs) :- TakeI16(bs);
    var (line, bs) :- TakeI16(bs);
    var (asmFile, bs) :- TakeTextUpTo(PATH_MAX, bs);
    var (file, bs) :- TakeTextUpTo(PATH_MAX, bs);
    var (inst, bs) :- TakeTextUpTo(MAX_SRC_LINE, bs);
    Some((Asm(asmLine, line, asmFile, file, inst), bs))
  }

  function DecodeBinary(bs: seq<byte>): (r: Decoded)
    ensures Consumed(bs, r)
  {
    var (path, bs) :- TakeTextUpTo(PATH_MAX, bs);
    Some((Binary(path), bs))
  }

  function DecodeCCode(bs: seq<byte>): (r: Decoded)
    ensures Consumed(bs, r)
  {
    var (line, bs) :- TakeI16(bs);
    var (startPos, bs) :- TakeI16(bs);
    var (file, bs) :- TakeTextUpTo(PATH_MAX, bs);
    var (src, bs) :- TakeTextUpTo(MAX_SRC_LINE, bs);
    Some((CCode(line, startPos, file, src), bs))
  }

  function DecodeCmdLine(bs: seq<byte>): (r: Decoded)
    ensures Consumed(bs, r)
  {
    var (text, bs) :- TakeTextUpTo(PATH_MAX, bs);
    Some((CmdLine(text), bs))
  }

  function DecodeFuncInv(bs: seq<byte>): (r: Decoded)
    ensures Consumed(bs, r)
  {
    var (event, bs) :- TakeU64(bs);
    var (funcLine, bs) :- TakeI16(bs);
    var (invLine, bs) :- TakeI16(bs);
    var (funcFile, bs) :- TakeTextUpTo(PATH_MAX, bs);
    var (invFile, bs) :- TakeTextUpTo(PATH_MAX, bs);
    var (funcName, bs) :- TakeTextUpTo(MAX_VARIABLE, bs);
    var (address, bs) :- TakeU64(bs);
    Some((FuncInv(event, funcLine, invLine, funcFile, invFile, funcName, address), bs))
  }

  function DecodeOutput(bs: seq<byte>): (r: Decoded)
    ensures Consumed(bs, r)
  {
    var (event, bs) :- TakeU64(bs);
    var (text, bs) :- TakeTextUpTo(MAX_OUTPUT, bs);
    Some((Output(event, text), bs))
  }

  function DecodeRegister(bs: seq<byte>): (r: Decoded)
    ensures Consumed(bs, r)
  {
    var (event, bs) :- TakeU64(bs);
    var (line, bs) :- TakeI16(bs);
    var (file, bs) :- TakeTextUpTo(PATH_MAX, bs);
    var (name, bs) :- TakeTextUpTo(MAX_REGISTER_NAME, bs);
    var (word, bs) :- TakeU64(bs);
    Some((Register(event, line, file, name, word), bs))
  }

  function DecodeReturn(bs: seq<byte>): (r: Decoded)
    ensures Consumed(bs, r)
  {
    var (event, bs) :- TakeU64(bs);
    Some((Return(event), bs))
  }

  function DecodeReturnAddr(bs: seq<byte>): (r: Decoded)
    ensures Consumed(bs, r)
  {
    var (dynamicLink, bs) :- TakeU64(bs);
    var (returnAddress, bs) :- TakeU64(bs);
    var (funcName, bs) :- TakeTextUpTo(MAX_VARIABLE, bs);
    Some((ReturnAddr(dynamicLink, returnAddress, funcName), bs))
  }

  function DecodeSdCzero(bs: seq<byte>): (r: Decoded)
    ensures Consumed(bs, r)
  {
    var (event, bs) :- TakeU64(bs);
    var (line, bs) :- TakeI16(bs);
    var (file, bs) :- TakeTextUpTo(PATH_MAX, bs);
    Some((SdCzero(event, line, file), bs))
  }

  function DecodeSection(bs: seq<byte>): (r: Decoded)
    ensures Consumed(bs, r)
  {
    var (text, bs) :- TakeTextUpTo(MAX_OUTPUT, bs);
    Some((Section(text), bs))
  }

  function DecodeVarAccess(bs: seq<byte>): (r: Decoded)
    ensures Consumed(bs, r)
  {
    var (event, bs) :- TakeU64(bs);
    var (line, bs) :- TakeI16(bs);
    var (file, bs) :- TakeTextUpTo(PATH_MAX, bs);
    var (scope, bs) :- TakeTextUpTo(MAX_VARIABLE, bs);
    var (address, bs) :- TakeU64(bs);
    var (typeName, bs) :- TakeTextUpTo(MAX_VARIABLE, bs);
    var (name, bs) :- TakeTextUpTo(MAX_VARIABLE, bs);
    var (pointsTo, bs) :- TakeU64(bs);
    var (value, bs) :- TakeTextUpTo(MAX_VALUE, bs);
    Some((VarAccess(event, line, file, scope, address, typeName, name, pointsTo, value), bs))
  }

  function DecodeMalloc(bs: seq<byte>): (r: Decoded)
    ensures Consumed(bs, r)
  {
    var (event, bs) :- TakeU64(bs);
    var (line, bs) :- TakeI16(bs);
    var (file, bs) :- TakeTextUpTo(PATH_MAX, bs);
    var (start, bs) :- TakeU64(bs);
    var (numBytes, bs) :- TakeU64(bs);
    Some((Malloc(event, line, file, start, numBytes), bs))
  }

  function DecodeFree(bs: seq<byte>): (r: Decoded)
    ensures Consumed(bs, r)
  {
    var (event, bs) :- TakeU64(bs);
    var (line, bs) :- TakeI16(bs);
    var (file, bs) :- TakeTextUpTo(PATH_MAX, bs);
    var (address, bs) :- TakeU64(bs);
    Some((Free(event, line, file, address), bs))
  }

  function DecodeLineChange(bs: seq<byte>): (r: Decoded)
    ensures Consumed(bs, r)
  {
    var (event, bs) :- TakeU64(bs);
    var (line, bs) :- TakeI16(bs);
    var (file, bs) :- TakeTextUpTo(PATH_MAX, bs);
    Some((LineChange(event, line, file), bs))
  }

  function DecodeSd(kind: SdEvent, bs: seq<byte>): (r: Decoded)
    ensures Consumed(bs, r)
  {
    var (event, bs) :- TakeU64(bs);
    var (line, bs) :- TakeI16(bs);
    var (file, bs) :- TakeTextUpTo(PATH_MAX, bs);
    var (scope, bs) :- TakeTextUpTo(MAX_VARIABLE, bs);
    var (name, bs) :- TakeTextUpTo(MAX_VARIABLE, bs);
    Some((SensitiveData(kind, event, line, file, scope, name), bs))
  }

  // The record class that the factory makes for an id, and its `read`. An id
  // without a class fails the assertion of the factory.
  function DecodeBody(id: nat, bs: seq<byte>): (r: Decoded)
    ensures Consumed(bs, r)
  {
    if id == ID_ASM then DecodeAsm(bs)
    else if id == ID_BINARY then DecodeBinary(bs)
    else if id == ID_CCODE then DecodeCCode(bs)
    else if id == ID_CMD_LINE then DecodeCmdLine(bs)
    else if id == ID_FUNCTION_INV then DecodeFuncInv(bs)
    else if id == ID_OUTPUT then DecodeOutput(bs)
    else if id == ID_REGISTER then DecodeRegister(bs)
    else if id == ID_RETURN then DecodeReturn(bs)
    else if id == ID_RETURN_ADDR then DecodeReturnAddr(bs)
    else if id == ID_SD_CLEAR then DecodeSd(Clear, bs)
    else if id == ID_SD_CZERO then DecodeSdCzero(bs)
    else if id == ID_SD_LOCK then DecodeSd(Lock, bs)
    else if id == ID_SD_SET then DecodeSd(Set, bs)
    else if id == ID_SD_UNLOCK then DecodeSd(Unlock, bs)
    else if id == ID_SECTION then DecodeSection(bs)
    else if id == ID_VAR_ACCESS then DecodeVarAccess(bs)
    else if id == ID_MALLOC then DecodeMalloc(bs)
    else if id == ID_FREE then DecodeFree(bs)
    else if id == ID_LINE_CHANGE then DecodeLineChange(bs)
    else None
  }

  // The ids whose `read` is not part of this model.
  predicate OtherKind(id: nat) { id == ID_ARCH || ID_FILE_OPEN <= id <= ID_FILE_WRITE }

  datatype ReadResult =
    | EndOfFile                            // no id could be read: the source returns NULL
    | Aborted                              // an assertion failed
    | NotModelled(id: nat)                 // an `arch` or `file_*` id
    | Got(rec: Record, rest: seq<byte>)

  function DecodeNext(bs: seq<byte>): (r: ReadResult)
    ensures r.Got? ==> |r.rest| < |bs| && !IsFileRecord(r.rec)
  {
    match TakeWord(2, bs)
    case None => EndOfFile
    case Some((id, rest)) =>
      if OtherKind(id) then NotModelled(id)
      else match DecodeBody(id, rest)
           case None => Aborted
           case Some((rec, rest')) => Got(rec, rest')
  }

  // ------------------------------------------------------------------ one record

  lemma {:induction false} RecordRoundTrip(r: Record, rest: seq<byte>)
    requires Fits(r) && !IsFileRecord(r)
    ensures DecodeNext(Encode(r, rest)) == Got(r, rest)
  {
    hide Body, DecodeBody, PutWord, TakeWord;
    WidthBounds();
    TakePutWord(2, WrittenId(r), Body(r, rest));
    BodyRoundTrip(r, rest);
  }

  lemma {:induction false} BodyRoundTrip(r: Record, rest: seq<byte>)
    requires Fits(r) && !IsFileRecord(r)
    ensures DecodeBody(WrittenId(r), Body(r, rest)) == Some((r, rest))
  {
    hide PutWord, PutText, PutRaw, PutFlag, TakeWord, TakeU64, TakeI16, TakeFlag, TakeRaw, TakeText, TakeTextUpTo,
      DecodeVarAccess, DecodeFuncInv, DecodeAsm, DecodeSd, DecodeRegister;
    if r.VarAccess? {
      VarAccessRoundTrip(r, rest);
    } else if HasManyFields(r) {
      ManyFieldsRoundTrip(r, rest);
    } else {
      FieldRoundTrips();
    }
  }

  predicate HasManyFields(r: Record) { r.Asm? || r.FuncInv? || r.SensitiveData? || r.Register? }

  lemma ManyFieldsRoundTrip(r: Record, rest: seq<byte>)
    requires Fits(r) && HasManyFields(r)
    ensures r.Asm? ==> DecodeAsm(Body(r, rest)) == Some((r, rest))
    ensures r.FuncInv? ==> DecodeFuncInv(Body(r, rest)) == Some((r, rest))
    ensures r.SensitiveData? ==> DecodeSd(r.kind, Body(r, rest)) == Some((r, rest))
    ensures r.Register? ==> DecodeRegister(Body(r, rest)) == Some((r, rest))
  {
    hide PutWord, PutText, PutRaw, PutFlag, TakeWord, TakeU64, TakeI16, TakeFlag, TakeRaw, TakeText, TakeTextUpTo;
    FieldRoundTrips();
  }

  lemma VarAccessRoundTrip(r: Record, rest: seq<byte>)
    requires Fits(r) && r.VarAccess?
    ensures DecodeVarAccess(Body(r, rest)) == Some((r, rest))
  {
    hide PutWord, PutText, PutRaw, PutFlag, TakeWord, TakeU64, TakeI16, TakeFlag, TakeRaw, TakeText, TakeTextUpTo;
    FieldRoundTrips();
  }

  // What follows a record never changes how it is read, and no two different
  // records, whatever follows them, share their bytes.
  lemma SelfDelimiting(r: Record, rest: seq<byte>, r': Record, rest': seq<byte>)
    requires Fits(r) && !IsFileRecord(r) && Fits(r') && !IsFileRecord(r')
    requires Encode(r, rest) == Encode(r', rest')
    ensures r == r' && rest == rest'
  {
    RecordRoundTrip(r, rest);
    RecordRoundTrip(r', rest');
  }

  // A file-close record carries the id of malloc and one word too few: read
  // back, it is a malloc record whose size is the first word of whatever record
  // comes next, and the reader goes on from the middle of that record.
  lemma FileCloseSwallowsNext(r: Record, rest: seq<byte>)
    requires r.FileUse? && r.valid.None? && Fits(r)
    ensures DecodeNext(Encode(r, rest)) ==
            if |rest| < 8 then Aborted
            else Got(Malloc(r.event, r.line, r.file, r.fd, TakeU64(rest).value.0), rest[8..])
  {
    hide PutWord, PutText, TakeWord, TakeI16, TakeTextUpTo;
    WidthBounds();
    TakePutWord(2, ID_MALLOC, Body(r, rest));
    FieldRoundTrips();
    TooShort(rest);
  }

  lemma TooShort(bs: seq<byte>)
    ensures TakeU64(bs).None? <==> |bs| < 8
    ensures |bs| >= 8 ==> TakeU64(bs).value.1 == bs[8..]
  {}

  // ------------------------------------------------------------------ the whole trace

  function EncodeAll(rs: seq<Record>): seq<byte> {
    if rs == [] then [] else Encode(rs[0], EncodeAll(rs[1..]))
  }

  // Reading record after record until one cannot be read: the records, and how
  // the reading ended.
  function DecodeAll(bs: seq<byte>): (seq<Record>, ReadResult)
    decreases |bs|
  {
    match DecodeNext(bs)
    case Got(rec, rest) =>
      var (more, end) := DecodeAll(rest);
      ([rec] + more, end)
    case end => ([], end)
  }

  lemma NothingLeft()
    ensures DecodeNext([]) == EndOfFile
  {}

  lemma {:induction false} TraceRoundTrip(rs: seq<Record>)
    requires forall r <- rs :: Fits(r) && !IsFileRecord(r)
    ensures DecodeAll(EncodeAll(rs)) == (rs, EndOfFile)
  {
    hide Encode, DecodeNext, Fits, IsFileRecord;
    NothingLeft();
    if rs != [] {
      RecordRoundTrip(rs[0], EncodeAll(rs[1..]));
      TraceRoundTrip(rs[1..]);
      assert rs == [rs[0]] + rs[1..];
    }
  }

  lemma {:induction false} NeverAFileRecord(bs: seq<byte>)
    ensures forall r <- DecodeAll(bs).0 :: !IsFileRecord(r)
    decreases |bs|
  {
    match DecodeNext(bs)
    case Got(rec, rest) => NeverAFileRecord(rest);
    case _ =>
  }

  // A trace of records within their limits survives writing and reading exactly
  // when no file operation is among them.
  lemma TraceSurvivesExactly(rs: seq<Record>)
    requires forall r <- rs :: Fits(r)
    ensures DecodeAll(EncodeAll(rs)) == (rs, EndOfFile) <==> forall r <- rs :: !IsFileRecord(r)
  {
    NeverAFileRecord(EncodeAll(rs));
    if forall r <- rs :: !IsFileRecord(r) {
      TraceRoundTrip(rs);
    }
  }

  // ------------------------------------------------------------------ write

  // Assert the limit, then write the length and the bytes.
  method WriteText(f: OutFile, s: CString, limit: nat) returns (ok: bool)
    modifies f
    ensures ok == (|s| <= limit)
    ensures f.data == if ok then (old(f.data) + LittleEndian(8, |s|)) + s else old(f.data)
  {
    if |s| > limit {
      return false;
    }
    f.WriteWord(8, |s|);
    f.WriteBytes(s);
    ok := true;
  }

  // What every `write` does: it aborts at the first string over its limit, and
  // otherwise appends the encoding.
  twostate predicate Wrote(f: OutFile, r: Record, ok: bool)
    reads f
  {
    && ok == Fits(r)
    && (ok ==> f.data == old(f.data) + Encode(r, []))
  }

  method WriteAsm(f: OutFile, r: Record) returns (ok: bool)
    requires r.Asm?
    modifies f
    ensures Wrote(f, r, ok)
  {
    hide PutWord, PutRaw, LittleEndian;
    AppendField();
    ghost var whole := f.data + Encode(r, []);
    f.WriteWord(2, WrittenId(r));
    f.WriteWord(2, Unsigned16(r.asmLine));
    f.WriteWord(2, Unsigned16(r.line));
    ok := WriteText(f, r.asmFile, PATH_MAX);
    if !ok { return; }
    ok := WriteText(f, r.file, PATH_MAX);
    if !ok { return; }
    ok := WriteText(f, r.inst, MAX_SRC_LINE);
    if !ok { return; }
    assert f.data + [] == whole;
    ok := true;
  }

  method WriteBinary(f: OutFile, r: Record) returns (ok: bool)
    requires r.Binary?
    modifies f
    ensures Wrote(f, r, ok)
  {
    hide PutWord, PutRaw, LittleEndian;
    AppendField();
    ghost var whole := f.data + Encode(r, []);
    f.WriteWord(2, WrittenId(r));
    ok := WriteText(f, r.path, PATH_MAX);
    if !ok { return; }
    assert f.data + [] == whole;
    ok := true;
  }

  method WriteCCode(f: OutFile, r: Record) returns (ok: bool)
    requires r.CCode?
    modifies f
    ensures Wrote(f, r, ok)
  {
    hide PutWord, PutRaw, LittleEndian;
    AppendField();
    ghost var whole := f.data + Encode(r, []);
    f.WriteWord(2, WrittenId(r));
    f.WriteWord(2, Unsigned16(r.line));
    f.WriteWord(2, Unsigned16(r.startPos));
    ok := WriteText(f, r.file, PATH_MAX);
    if !ok { return; }
    if |r.src| > MAX_SRC_LINE { return false; }
    f.WriteWord(8, |r.src|);
    if |r.src| != 0 {
      f.WriteBytes(r.src);
    }
    assert f.data + [] == whole;
    ok := true;
  }

  method WriteCmdLine(f: OutFile, r: Record) returns (ok: bool)
    requires r.CmdLine?
    modifies f
    ensures Wrote(f, r, ok)
  {
    hide PutWord, PutRaw, LittleEndian;
    AppendField();
    ghost var whole := f.data + Encode(r, []);
    f.WriteWord(2, WrittenId(r));
    ok := WriteText(f, r.text, PATH_MAX);
    if !ok { return; }
    assert f.data + [] == whole;
    ok := true;
  }

  method WriteFuncInv(f: OutFile, r: Record) returns (ok: bool)
    requires r.FuncInv?
    modifies f
    ensures Wrote(f, r, ok)
  {
    hide PutWord, PutRaw, LittleEndian;
    AppendField();
    ghost var whole := f.data + Encode(r, []);
    f.WriteWord(2, WrittenId(r));
    f.WriteWord(8, r.event);
    f.WriteWord(2, Unsigned16(r.funcLine));
    f.WriteWord(2, Unsigned16(r.invLine));
    ok := WriteText(f, r.funcFile, PATH_MAX);
    if !ok { return; }
    ok := WriteText(f, r.invFile, PATH_MAX);
    if !ok { return; }
    ok := WriteText(f, r.funcName, MAX_VARIABLE);
    if !ok { return; }
    f.WriteWord(8, r.address);
    assert f.data + [] == whole;
    ok := true;
  }

  method WriteOutput(f: OutFile, r: Record) returns (ok: bool)
    requires r.Output?
    modifies f
    ensures Wrote(f, r, ok)
  {
    hide PutWord, PutRaw, LittleEndian;
    AppendField();
    ghost var whole := f.data + Encode(r, []);
    f.WriteWord(2, WrittenId(r));
    f.WriteWord(8, r.event);
    ok := WriteText(f, r.text, MAX_OUTPUT);
    if !ok { return; }
    assert f.data + [] == whole;
    ok := true;
  }

  method WriteRegister(f: OutFile, r: Record) returns (ok: bool)
    requires r.Register?
    modifies f
    ensures Wrote(f, r, ok)
  {
    hide PutWord, PutRaw, LittleEndian;
    AppendField();
    ghost var whole := f.data + Encode(r, []);
    f.WriteWord(2, WrittenId(r));
    f.WriteWord(8, r.event);
    f.WriteWord(2, Unsigned16(r.line));
    ok := WriteText(f, r.file, PATH_MAX);
    if !ok { return; }
    ok := WriteText(f, r.name, MAX_REGISTER_NAME);
    if !ok { return; }
    f.WriteWord(8, r.word);
    assert f.data + [] == whole;
    ok := true;
  }

  method WriteReturn(f: OutFile, r: Record) returns (ok: bool)
    requires r.Return?
    modifies f
    ensures Wrote(f, r, ok)
  {
    hide PutWord, PutRaw, LittleEndian;
    AppendField();
    ghost var whole := f.data + Encode(r, []);
    f.WriteWord(2, WrittenId(r));
    f.WriteWord(8, r.event);
    assert f.data + [] == whole;
    ok := true;
  }

  method WriteReturnAddr(f: OutFile, r: Record) returns (ok: bool)
    requires r.ReturnAddr?
    modifies f
    ensures Wrote(f, r, ok)
  {
    hide PutWord, PutRaw, LittleEndian;
    AppendField();
    ghost var whole := f.data + Encode(r, []);
    f.WriteWord(2, WrittenId(r));
    f.WriteWord(8, r.dynamicLink);
    f.WriteWord(8, r.returnAddress);
    ok := WriteText(f, r.funcName, MAX_VARIABLE);
    if !ok { return; }
    assert f.data + [] == whole;
    ok := true;
  }

  method WriteSensitiveData(f: OutFile, r: Record) returns (ok: bool)
    requires r.SensitiveData?
    modifies f
    ensures Wrote(f, r, ok)
  {
    hide PutWord, PutRaw, LittleEndian;
    AppendField();
    ghost var whole := f.data + Encode(r, []);
    f.WriteWord(2, WrittenId(r));
    f.WriteWord(8, r.event);
    f.WriteWord(2, Unsigned16(r.line));
    ok := WriteText(f, r.file, PATH_MAX);
    if !ok { return; }
    ok := WriteText(f, r.scope, MAX_VARIABLE);
    if !ok { return; }
    ok := WriteText(f, r.name, MAX_VARIABLE);
    if !ok { return; }
    assert f.data + [] == whole;
    ok := true;
  }

  method WriteSdCzero(f: OutFile, r: Record) returns (ok: bool)
    requires r.SdCzero?
    modifies f
    ensures Wrote(f, r, ok)
  {
    hide PutWord, PutRaw, LittleEndian;
    AppendField();
    ghost var whole := f.data + Encode(r, []);
    f.WriteWord(2, WrittenId(r));
    f.WriteWord(8, r.event);
    f.WriteWord(2, Unsigned16(r.line));
    ok := WriteText(f, r.file, PATH_MAX);
    if !ok { return; }
    assert f.data + [] == whole;
    ok := true;
  }

  method WriteSection(f: OutFile, r: Record) returns (ok: bool)
    requires r.Section?
    modifies f
    ensures Wrote(f, r, ok)
  {
    hide PutWord, PutRaw, LittleEndian;
    AppendField();
    ghost var whole := f.data + Encode(r, []);
    f.WriteWord(2, WrittenId(r));
    ok := WriteText(f, r.text, MAX_OUTPUT);
    if !ok { return; }
    assert f.data + [] == whole;
    ok := true;
  }

  // The part of a variable access behind the address.
  function VarAccessTail(r: Record): seq<byte>
    requires r.VarAccess?
  {
    PutText(r.typeName, PutText(r.name, PutWord(8, r.pointsTo, PutText(r.value, []))))
  }

  method WriteVarAccessTail(f: OutFile, r: Record) returns (ok: bool)
    requires r.VarAccess?
    modifies f
    ensures ok == (|r.typeName| <= MAX_VARIABLE && |r.name| <= MAX_VARIABLE && |r.value| <= MAX_VARIABLE)
    ensures ok ==> f.data == old(f.data) + VarAccessTail(r)
  {
    hide PutWord, PutRaw, LittleEndian;
    AppendField();
    ghost var whole := f.data + VarAccessTail(r);
    ok := WriteText(f, r.typeName, MAX_VARIABLE);
    if !ok { return; }
    ok := WriteText(f, r.name, MAX_VARIABLE);
    if !ok { return; }
    f.WriteWord(8, r.pointsTo);
    ok := WriteText(f, r.value, MAX_VARIABLE);
    if !ok { return; }
    assert f.data + [] == whole;
    ok := true;
  }

  method WriteVarAccess(f: OutFile, r: Record) returns (ok: bool)
    requires r.VarAccess?
    modifies f
    ensures Wrote(f, r, ok)
  {
    hide PutWord, PutRaw, LittleEndian;
    AppendField();
    ghost var whole := f.data + Encode(r, []);
    f.WriteWord(2, WrittenId(r));
    f.WriteWord(8, r.event);
    f.WriteWord(2, Unsigned16(r.line));
    ok := WriteText(f, r.file, PATH_MAX);
    if !ok { return; }
    ok := WriteText(f, r.scope, MAX_VARIABLE);
    if !ok { return; }
    f.WriteWord(8, r.address);
    assert f.data + VarAccessTail(r) == whole;
    ok := WriteVarAccessTail(f, r);
  }

  method WriteMalloc(f: OutFile, r: Record) returns (ok: bool)
    requires r.Malloc?
    modifies f
    ensures Wrote(f, r, ok)
  {
    hide PutWord, PutRaw, LittleEndian;
    AppendField();
    ghost var whole := f.data + Encode(r, []);
    f.WriteWord(2, WrittenId(r));
    f.WriteWord(8, r.event);
    f.WriteWord(2, Unsigned16(r.line));
    ok := WriteText(f, r.file, PATH_MAX);
    if !ok { return; }
    f.WriteWord(8, r.start);
    f.WriteWord(8, r.numBytes);
    assert f.data + [] == whole;
    ok := true;
  }

  method WriteFree(f: OutFile, r: Record) returns (ok: bool)
    requires r.Free?
    modifies f
    ensures Wrote(f, r, ok)
  {
    hide PutWord, PutRaw, LittleEndian;
    AppendField();
    ghost var whole := f.data + Encode(r, []);
    f.WriteWord(2, WrittenId(r));
    f.WriteWord(8, r.event);
    f.WriteWord(2, Unsigned16(r.line));
    ok := WriteText(f, r.file, PATH_MAX);
    if !ok { return; }
    f.WriteWord(8, r.address);
    assert f.data + [] == whole;
    ok := true;
  }

  method WriteLineChange(f: OutFile, r: Record) returns (ok: bool)
    requires r.LineChange?
    modifies f
    ensures Wrote(f, r, ok)
  {
    hide PutWord, PutRaw, LittleEndian;
    AppendField();
    ghost var whole := f.data + Encode(r, []);
    f.WriteWord(2, WrittenId(r));
    f.WriteWord(8, r.event);
    f.WriteWord(2, Unsigned16(r.line));
    ok := WriteText(f, r.file, PATH_MAX);
    if !ok { return; }
    assert f.data + [] == whole;
    ok := true;
  }

  method WriteFileUse(f: OutFile, r: Record) returns (ok: bool)
    requires r.FileUse?
    modifies f
    ensures Wrote(f, r, ok)
  {
    hide PutWord, PutRaw, LittleEndian;
    AppendField();
    ghost var whole := f.data + Encode(r, []);
    f.WriteWord(2, WrittenId(r));
    f.WriteWord(8, r.event);
    f.WriteWord(2, Unsigned16(r.line));
    ok := WriteText(f, r.file, PATH_MAX);
    if !ok { return; }
    f.WriteWord(8, r.fd);
    if r.valid.Some? {
      f.WriteWord(1, if r.valid.value then 1 else 0);
    }
    assert f.data + [] == whole;
    ok := true;
  }

  // The part of an open call behind the two paths.
  function FileOpenTail(r: Record): seq<byte>
    requires r.FileOpen?
  {
    PutWord(8, r.fd, PutWord(4, r.flags, PutWord(4, r.mode, PutWord(1, r.isSymLink, []))))
  }

  method WriteFileOpenTail(f: OutFile, r: Record)
    requires r.FileOpen?
    modifies f
    ensures f.data == old(f.data) + FileOpenTail(r)
  {
    hide PutWord, LittleEndian;
    AppendField();
    ghost var whole := f.data + FileOpenTail(r);
    f.WriteWord(8, r.fd);
    f.WriteWord(4, r.flags);
    f.WriteWord(4, r.mode);
    f.WriteWord(1, r.isSymLink);
    assert f.data + [] == whole;
  }

  method WriteFileOpen(f: OutFile, r: Record) returns (ok: bool)
    requires r.FileOpen?
    modifies f
    ensures Wrote(f, r, ok)
  {
    hide PutWord, PutRaw, LittleEndian;
    AppendField();
    ghost var whole := f.data + Encode(r, []);
    f.WriteWord(2, WrittenId(r));
    f.WriteWord(8, r.event);
    f.WriteWord(2, Unsigned16(r.line));
    ok := WriteText(f, r.file, PATH_MAX);
    if !ok { return; }
    ok := WriteText(f, r.path, PATH_MAX);
    if !ok { return; }
    assert f.data + FileOpenTail(r) == whole;
    WriteFileOpenTail(f, r);
  }

  // The virtual call `rec->write(fd)`.
  method Write(f: OutFile, r: Record) returns (ok: bool)
    modifies f
    ensures Wrote(f, r, ok)
  {
    match r {
      case Asm(_, _, _, _, _) => ok := WriteAsm(f, r);
      case Binary(_) => ok := WriteBinary(f, r);
      case CCode(_, _, _, _) => ok := WriteCCode(f, r);
      case CmdLine(_) => ok := WriteCmdLine(f, r);
      case FuncInv(_, _, _, _, _, _, _) => ok := WriteFuncInv(f, r);
      case Output(_, _) => ok := WriteOutput(f, r);
      case Register(_, _, _, _, _) => ok := WriteRegister(f, r);
      case Return(_) => ok := WriteReturn(f, r);
      case ReturnAddr(_, _, _) => ok := WriteReturnAddr(f, r);
      case SensitiveData(_, _, _, _, _, _) => ok := WriteSensitiveData(f, r);
      case SdCzero(_, _, _) => ok := WriteSdCzero(f, r);
      case Section(_) => ok := WriteSection(f, r);
      case VarAccess(_, _, _, _, _, _, _, _, _) => ok := WriteVarAccess(f, r);
      case Malloc(_, _, _, _, _) => ok := WriteMalloc(f, r);
      case Free(_, _, _, _) => ok := WriteFree(f, r);
      case LineChange(_, _, _) => ok := WriteLineChange(f, r);
      case FileUse(_, _, _, _, _) => ok := WriteFileUse(f, r);
      case FileOpen(_, _, _, _, _, _, _, _) => ok := WriteFileOpen(f, r);
    }
  }

  // ------------------------------------------------------------------ read

  // What every `read` does with the file it is given.
  ghost predicate ReadAs(d: Decoded, f: InFile, r: Option<Record>)
    reads f
  {
    && f.Valid()
    && match d
       case None => r == None
       case Some((rec, rest)) => r == Some(rec) && f.Rest() == rest
  }

  method ReadAsm(f: InFile) returns (r: Option<Record>)
    requires f.Valid()
    modifies f
    ensures ReadAs(DecodeAsm(old(f.Rest())), f, r)
  {
    hide TakeWord, TakeU64, TakeI16, TakeFlag, TakeRaw, TakeText, TakeTextUpTo;
    var asmLine :- f.ReadI16();
    var line :- f.ReadI16();
    var asmFile :- f.ReadTextUpTo(PATH_MAX);
    var file :- f.ReadTextUpTo(PATH_MAX);
    var inst :- f.ReadTextUpTo(MAX_SRC_LINE);
    r := Some(Asm(asmLine, line, asmFile, file, inst));
  }

  method ReadBinary(f: InFile) returns (r: Option<Record>)
    requires f.Valid()
    modifies f
    ensures ReadAs(DecodeBinary(old(f.Rest())), f, r)
  {
    hide TakeWord, TakeU64, TakeI16, TakeFlag, TakeRaw, TakeText, TakeTextUpTo;
    var path :- f.ReadTextUpTo(PATH_MAX);
    r := Some(Binary(path));
  }

  method ReadCCode(f: InFile) returns (r: Option<Record>)
    requires f.Valid()
    modifies f
    ensures ReadAs(DecodeCCode(old(f.Rest())), f, r)
  {
    hide TakeWord, TakeU64, TakeI16, TakeFlag, TakeRaw, TakeText, TakeTextUpTo;
    var line :- f.ReadI16();
    var startPos :- f.ReadI16();
    var file :- f.ReadTextUpTo(PATH_MAX);
    var src :- f.ReadTextUpTo(MAX_SRC_LINE);
    r := Some(CCode(line, startPos, file, src));
  }

  method ReadCmdLine(f: InFile) returns (r: Option<Record>)
    requires f.Valid()
    modifies f
    ensures ReadAs(DecodeCmdLine(old(f.Rest())), f, r)
  {
    hide TakeWord, TakeU64, TakeI16, TakeFlag, TakeRaw, TakeText, TakeTextUpTo;
    var text :- f.ReadTextUpTo(PATH_MAX);
    r := Some(CmdLine(text));
  }

  method ReadFuncInv(f: InFile) returns (r: Option<Record>)
    requires f.Valid()
    modifies f
    ensures ReadAs(DecodeFuncInv(old(f.Rest())), f, r)
  {
    hide TakeWord, TakeU64, TakeI16, TakeFlag, TakeRaw, TakeText, TakeTextUpTo;
    var event :- f.ReadU64();
    var funcLine :- f.ReadI16();
    var invLine :- f.ReadI16();
    var funcFile :- f.ReadTextUpTo(PATH_MAX);
    var invFile :- f.ReadTextUpTo(PATH_MAX);
    var funcName :- f.ReadTextUpTo(MAX_VARIABLE);
    var address :- f.ReadU64();
    r := Some(FuncInv(event, funcLine, invLine, funcFile, invFile, funcName, address));
  }

  method ReadOutput(f: InFile) returns (r: Option<Record>)
    requires f.Valid()
    modifies f
    ensures ReadAs(DecodeOutput(old(f.Rest())), f, r)
  {
    hide TakeWord, TakeU64, TakeI16, TakeFlag, TakeRaw, TakeText, TakeTextUpTo;
    var event :- f.ReadU64();
    var text :- f.ReadTextUpTo(MAX_OUTPUT);
    r := Some(Output(event, text));
  }

  method ReadRegister(f: InFile) returns (r: Option<Record>)
    requires f.Valid()
    modifies f
    ensures ReadAs(DecodeRegister(old(f.Rest())), f, r)
  {
    hide TakeWord, TakeU64, TakeI16, TakeFlag, TakeRaw, TakeText, TakeTextUpTo;
    var event :- f.ReadU64();
    var line :- f.ReadI16();
    var file :- f.ReadTextUpTo(PATH_MAX);
    var name :- f.ReadTextUpTo(MAX_REGISTER_NAME);
    var word :- f.ReadU64();
    r := Some(Register(event, line, file, name, word));
  }

  method ReadReturn(f: InFile) returns (r: Option<Record>)
    requires f.Valid()
    modifies f
    ensures ReadAs(DecodeReturn(old(f.Rest())), f, r)
  {
    hide TakeWord, TakeU64, TakeI16, TakeFlag, TakeRaw, TakeText, TakeTextUpTo;
    var event :- f.ReadU64();
    r := Some(Return(event));
  }

  method ReadReturnAddr(f: InFile) returns (r: Option<Record>)
    requires f.Valid()
    modifies f
    ensures ReadAs(DecodeReturnAddr(old(f.Rest())), f, r)
  {
    hide TakeWord, TakeU64, TakeI16, TakeFlag, TakeRaw, TakeText, TakeTextUpTo;
    var dynamicLink :- f.ReadU64();
    var returnAddress :- f.ReadU64();
    var funcName :- f.ReadTextUpTo(MAX_VARIABLE);
    r := Some(ReturnAddr(dynamicLink, returnAddress, funcName));
  }

  method ReadSdCzero(f: InFile) returns (r: Option<Record>)
    requires f.Valid()
    modifies f
    ensures ReadAs(DecodeSdCzero(old(f.Rest())), f, r)
  {
    hide TakeWord, TakeU64, TakeI16, TakeFlag, TakeRaw, TakeText, TakeTextUpTo;
    var event :- f.ReadU64();
    var line :- f.ReadI16();
    var file :- f.ReadTextUpTo(PATH_MAX);
    r := Some(SdCzero(event, line, file));
  }

  method ReadSection(f: InFile) returns (r: Option<Record>)
    requires f.Valid()
    modifies f
    ensures ReadAs(DecodeSection(old(f.Rest())), f, r)
  {
    hide TakeWord, TakeU64, TakeI16, TakeFlag, TakeRaw, TakeText, TakeTextUpTo;
    var text :- f.ReadTextUpTo(MAX_OUTPUT);
    r := Some(Section(text));
  }

  method ReadVarAccess(f: InFile) returns (r: Option<Record>)
    requires f.Valid()
    modifies f
    ensures ReadAs(DecodeVarAccess(old(f.Rest())), f, r)
  {
    hide TakeWord, TakeU64, TakeI16, TakeFlag, TakeRaw, TakeText, TakeTextUpTo;
    var event :- f.ReadU64();
    var line :- f.ReadI16();
    var file :- f.ReadTextUpTo(PATH_MAX);
    var scope :- f.ReadTextUpTo(MAX_VARIABLE);
    var address :- f.ReadU64();
    var typeName :- f.ReadTextUpTo(MAX_VARIABLE);
    var name :- f.ReadTextUpTo(MAX_VARIABLE);
    var pointsTo :- f.ReadU64();
    var value :- f.ReadTextUpTo(MAX_VALUE);
    r := Some(VarAccess(event, line, file, scope, address, typeName, name, pointsTo, value));
  }

  method ReadMalloc(f: InFile) returns (r: Option<Record>)
    requires f.Valid()
    modifies f
    ensures ReadAs(DecodeMalloc(old(f.Rest())), f, r)
  {
    hide TakeWord, TakeU64, TakeI16, TakeFlag, TakeRaw, TakeText, TakeTextUpTo;
    var event :- f.ReadU64();
    var line :- f.ReadI16();
    var file :- f.ReadTextUpTo(PATH_MAX);
    var start :- f.ReadU64();
    var numBytes :- f.ReadU64();
    r := Some(Malloc(event, line, file, start, numBytes));
  }

  method ReadFree(f: InFile) returns (r: Option<Record>)
    requires f.Valid()
    modifies f
    ensures ReadAs(DecodeFree(old(f.Rest())), f, r)
  {
    hide TakeWord, TakeU64, TakeI16, TakeFlag, TakeRaw, TakeText, TakeTextUpTo;
    var event :- f.ReadU64();
    var line :- f.ReadI16();
    var file :- f.ReadTextUpTo(PATH_MAX);
    var address :- f.ReadU64();
    r := Some(Free(event, line, file, address));
  }

  method ReadLineChange(f: InFile) returns (r: Option<Record>)
    requires f.Valid()
    modifies f
    ensures ReadAs(DecodeLineChange(old(f.Rest())), f, r)
  {
    hide TakeWord, TakeU64, TakeI16, TakeFlag, TakeRaw, TakeText, TakeTextUpTo;
    var event :- f.ReadU64();
    var line :- f.ReadI16();
    var file :- f.ReadTextUpTo(PATH_MAX);
    r := Some(LineChange(event, line, file));
  }

  method ReadSd(kind: SdEvent, f: InFile) returns (r: Option<Record>)
    requires f.Valid()
    modifies f
    ensures ReadAs(DecodeSd(kind, old(f.Rest())), f, r)
  {
    hide TakeWord, TakeU64, TakeI16, TakeFlag, TakeRaw, TakeText, TakeTextUpTo;
    var event :- f.ReadU64();
    var line :- f.ReadI16();
    var file :- f.ReadTextUpTo(PATH_MAX);
    var scope :- f.ReadTextUpTo(MAX_VARIABLE);
    var name :- f.ReadTextUpTo(MAX_VARIABLE);
    r := Some(SensitiveData(kind, event, line, file, scope, name));
  }

  // The factory's choice of class, and the virtual call `rec->read(fd)`.
  method ReadBody(id: nat, f: InFile) returns (r: Option<Record>)
    requires f.Valid()
    modifies f
    ensures ReadAs(DecodeBody(id, old(f.Rest())), f, r)
  {
    if id == ID_ASM {
      r := ReadAsm(f);
    } else if id == ID_BINARY {
      r := ReadBinary(f);
    } else if id == ID_CCODE {
      r := ReadCCode(f);
    } else if id == ID_CMD_LINE {
      r := ReadCmdLine(f);
    } else if id == ID_FUNCTION_INV {
      r := ReadFuncInv(f);
    } else if id == ID_OUTPUT {
      r := ReadOutput(f);
    } else if id == ID_REGISTER {
      r := ReadRegister(f);
    } else if id == ID_RETURN {
      r := ReadReturn(f);
    } else if id == ID_RETURN_ADDR {
      r := ReadReturnAddr(f);
    } else if id == ID_SD_CLEAR {
      r := ReadSd(Clear, f);
    } else if id == ID_SD_CZERO {
      r := ReadSdCzero(f);
    } else if id == ID_SD_LOCK {
      r := ReadSd(Lock, f);
    } else if id == ID_SD_SET {
      r := ReadSd(Set, f);
    } else if id == ID_SD_UNLOCK {
      r := ReadSd(Unlock, f);
    } else if id == ID_SECTION {
      r := ReadSection(f);
    } else if id == ID_VAR_ACCESS {
      r := ReadVarAccess(f);
    } else if id == ID_MALLOC {
      r := ReadMalloc(f);
    } else if id == ID_FREE {
      r := ReadFree(f);
    } else if id == ID_LINE_CHANGE {
      r := ReadLineChange(f);
    } else {
      r := None;
    }
  }

  method ReadNext(f: InFile) returns (r: ReadResult)
    requires f.Valid()
    modifies f
    ensures f.Valid()
    ensures r == DecodeNext(old(f.Rest()))
    ensures r.Got? ==> f.Rest() == r.rest
  {
    var id := f.ReadWord(2);
    if id.None? {
      return EndOfFile;
    }
    if OtherKind(id.value) {
      return NotModelled(id.value);
    }
    var rec := ReadBody(id.value, f);
    if rec.None? {
      return Aborted;
    }
    r := Got(rec.value, f.data[f.pos..]);
  }

  // ------------------------------------------------------------------ whole traces

  lemma BodySplit(r: Record, rest: seq<byte>)
    ensures Body(r, rest) == Body(r, []) + rest
  {
    hide PutWord, PutText, PutFlag;
    PutAppend();
    assert [] + rest == rest;
  }

  lemma EncodeSplit(r: Record, rest: seq<byte>)
    ensures Encode(r, rest) == Encode(r, []) + rest
  {
    hide PutWord, Body;
    PutAppend();
    BodySplit(r, rest);
  }

  // Record after record, until one does not fit.
  method WriteTrace(f: OutFile, rs: seq<Record>) returns (ok: bool)
    modifies f
    ensures ok <==> forall r <- rs :: Fits(r)
    ensures ok ==> f.data == old(f.data) + EncodeAll(rs)
  {
    hide Fits, Encode;
    var i := 0;
    assert rs[0..] == rs;
    while i < |rs|
      invariant i <= |rs| && forall j :: 0 <= j < i ==> Fits(rs[j])
      invariant f.data + EncodeAll(rs[i..]) == old(f.data) + EncodeAll(rs)
    {
      ghost var before := f.data;
      ok := Write(f, rs[i]);
      if !ok {
        assert rs[i] in rs;
        return;
      }
      assert rs[i..][1..] == rs[i + 1..];
      ghost var rest := EncodeAll(rs[i + 1..]);
      EncodeSplit(rs[i], rest);
      assert (before + Encode(rs[i], [])) + rest == before + (Encode(rs[i], []) + rest);
      i := i + 1;
    }
    assert f.data + [] == f.data;
    ok := true;
  }

  // Record after record, until one cannot be read.
  method ReadTrace(f: InFile) returns (rs: seq<Record>, end: ReadResult)
    requires f.Valid()
    modifies f
    ensures f.Valid()
    ensures (rs, end) == DecodeAll(old(f.Rest()))
    ensures !end.Got?
  {
    hide DecodeNext;
    rs := [];
    ghost var (all, last) := DecodeAll(f.Rest());
    end := ReadNext(f);
    ghost var at := old(f.Rest());
    while end.Got?
      invariant f.Valid() && end == DecodeNext(at)
      invariant end.Got? ==> f.Rest() == end.rest
      invariant rs + DecodeAll(at).0 == all && DecodeAll(at).1 == last
      decreases |at|
    {
      var more := DecodeAll(end.rest).0;
      assert (rs + [end.rec]) + more == rs + ([end.rec] + more);
      rs := rs + [end.rec];
      at := end.rest;
      end := ReadNext(f);
    }
    assert rs + [] == rs;
  }

  // A trace that is written and read again: the records come back, all of them and no
  // others, exactly when no file operation is among them.
  method WriteAndRead(rs: seq<Record>) returns (ok: bool, data: seq<byte>, back: seq<Record>, end: ReadResult)
    ensures ok <==> forall r <- rs :: Fits(r)
    ensures ok ==> data == EncodeAll(rs) && (back, end) == DecodeAll(data)
    ensures ok ==> (back == rs && end == EndOfFile <==> forall r <- rs :: !IsFileRecord(r))
  {
    hide Fits, IsFileRecord, EncodeAll, DecodeAll;
    var file := new OutFile();
    ok := WriteTrace(file, rs);
    data, back, end := file.data, [], Aborted;
    if ok {
      assert [] + EncodeAll(rs) == EncodeAll(rs);
      var again := new InFile(data);
      back, end := ReadTrace(again);
      TraceSurvivesExactly(rs);
    }
  }
}
