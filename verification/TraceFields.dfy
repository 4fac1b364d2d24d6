// The bytes of every record of the trace as a table: its id, its fields in order with
// their widths, and how long its texts may be; and which record an update becomes.
module TraceFields {
  import opened Words
  import opened Bytes
  import opened AnalysisRecords
  import opened WordFields
  import S = ShadowStack
  import U = UpdateTrace
  import F = ScanFields

  // Fields one behind the other: words of some width, and texts behind their length, of a
  // limited length.
  datatype Layout = End | Word(width: nat, value: nat, rest: Layout) | Text(limit: nat, text: seq<byte>, rest: Layout)

  function BytesOf(l: Layout): seq<byte> {
    match l
    case End => []
    case Word(width, value, rest) => LittleEndian(width, value) + BytesOf(rest)
    case Text(_, text, rest) => LittleEndian(8, |text|) + (text + BytesOf(rest))
  }

  predicate WithinLimits(l: Layout) {
    match l
    case End => true
    case Word(_, _, rest) => WithinLimits(rest)
    case Text(limit, text, rest) => |text| <= limit && WithinLimits(rest)
  }

  function Short(x: i16): nat { x % 0x1_0000 }

  function Flag(b: bool): nat { if b then 1 else 0 }

  function Num(width: nat, value: nat, rest: Layout): Layout { Word(width, value, rest) }

  function Str(limit: nat, text: seq<byte>, rest: Layout): Layout { Text(limit, text, rest) }

  function LayoutOf(r: Record): Layout {
    match r
    case Asm(asmLine, line, asmFile, file, inst) =>
      Num(2, 1, Num(2, Short(asmLine), Num(2, Short(line), Str(4096, asmFile, Str(4096, file,
        Str(255, inst, End))))))
    case Binary(path) => Num(2, 2, Str(4096, path, End))
    case CCode(line, startPos, file, src) =>
      Num(2, 3, Num(2, Short(line), Num(2, Short(startPos), Str(4096, file, Str(255, src, End)))))
    case CmdLine(text) => Num(2, 4, Str(4096, text, End))
    case FuncInv(event, funcLine, invLine, funcFile, invFile, funcName, address) =>
      Num(2, 7, Num(8, event, Num(2, Short(funcLine), Num(2, Short(invLine), Str(4096, funcFile,
        Str(4096, invFile, Str(127, funcName, Num(8, address, End))))))))
    case Output(event, text) => Num(2, 8, Num(8, event, Str(255, text, End)))
    case Register(event, line, file, name, word) =>
      Num(2, 9, Num(8, event, Num(2, Short(line), Str(4096, file, Str(16, name, Num(8, word, End))))))
    case Return(event) => Num(2, 10, Num(8, event, End))
    case ReturnAddr(dynamicLink, returnAddress, funcName) =>
      Num(2, 11, Num(8, dynamicLink, Num(8, returnAddress, Str(127, funcName, End))))
    case SensitiveData(kind, event, line, file, scope, name) =>
      Num(2, match kind case Clear => 12 case Lock => 14 case Set => 15 case Unlock => 16,
        Num(8, event, Num(2, Short(line), Str(4096, file, Str(127, scope, Str(127, name, End))))))
    case SdCzero(event, line, file) => Num(2, 13, Num(8, event, Num(2, Short(line), Str(4096, file, End))))
    case Section(text) => Num(2, 17, Str(255, text, End))
    case VarAccess(event, line, file, scope, address, typeName, name, pointsTo, value) =>
      var behind := Str(127, typeName, Str(127, name, Num(8, pointsTo, Str(127, value, End))));
      Num(2, 18, Num(8, event, Num(2, Short(line), Str(4096, file, Str(127, scope, Num(8, address, behind))))))
    case Malloc(event, line, file, start, numBytes) =>
      Num(2, 19, Num(8, event, Num(2, Short(line), Str(4096, file, Num(8, start, Num(8, numBytes, End))))))
    case Free(event, line, file, address) =>
      Num(2, 20, Num(8, event, Num(2, Short(line), Str(4096, file, Num(8, address, End)))))
    case LineChange(event, line, file) => Num(2, 25, Num(8, event, Num(2, Short(line), Str(4096, file, End))))
    case FileUse(event, line, file, fd, valid) =>
      Num(2, 19, Num(8, event, Num(2, Short(line), Str(4096, file, Num(8, fd,
        if valid.Some? then Num(1, Flag(valid.value), End) else End)))))
    case FileOpen(event, line, file, path, fd, flags, mode, isSymLink) =>
      var behind := Num(4, flags, Num(4, mode, Num(1, isSymLink, End)));
      Num(2, 19, Num(8, event, Num(2, Short(line), Str(4096, file, Str(4096, path, Num(8, fd, behind))))))
  }

  // One field in front of the others, in a form that the solver applies to each in turn.
  lemma FieldByField()
    ensures BytesOf(End) == [] && WithinLimits(End)
    ensures forall w: nat, x: nat, l: Layout {:trigger BytesOf(Word(w, x, l))} ::
              BytesOf(Word(w, x, l)) == PutWord(w, x, BytesOf(l))
    ensures forall n: nat, t: seq<byte>, l: Layout {:trigger BytesOf(Text(n, t, l))} ::
              BytesOf(Text(n, t, l)) == PutText(t, BytesOf(l))
    ensures forall w: nat, x: nat, l: Layout {:trigger WithinLimits(Word(w, x, l))} ::
              WithinLimits(Word(w, x, l)) == WithinLimits(l)
    ensures forall n: nat, t: seq<byte>, l: Layout {:trigger WithinLimits(Text(n, t, l))} ::
              WithinLimits(Text(n, t, l)) == (|t| <= n && WithinLimits(l))
    ensures forall x: i16 {:trigger Unsigned16(x)} :: Unsigned16(x) == Short(x)
  {}

  // What `write` puts into the file is this table, and it completes exactly within these
  // limits.
  lemma EncodeExactly(r: Record)
    ensures Encode(r, []) == BytesOf(LayoutOf(r))
    ensures Fits(r) <==> WithinLimits(LayoutOf(r))
  {
    FieldByField();
    hide BytesOf, WithinLimits, PutText, PutWord, LittleEndian, Unsigned16, Short;
  }

  // ------------------------------------------------------------------ updates

  // A text up to its first NUL.
  predicate CutFrom(s: seq<byte>, c: seq<byte>) { c <= s && 0 !in c && (|c| < |s| ==> s[|c|] == 0) }

  // An update becomes a record of a variable access with its scope, address, type and
  // value, the name of the part behind the prefix, and a target only for a type with a
  // star in its name.
  lemma RecordExactly(u: S.Update, site: U.Site)
    ensures var r := U.RecordOf(u, site);
            && r.VarAccess? && r.event == site.event && r.line == site.line && r.file == site.file
            && CutFrom(u.scope, r.scope) && r.address == u.address && CutFrom(u.typeName, r.typeName)
            && CutFrom(u.prefix + u.name, r.name) && CutFrom(u.value, r.value)
            && r.pointsTo == if F.Mentions(u.typeName, [0x2A]) then site.pointsTo else 0xFFFF_FFFF_FFFF_FFFF
  {
    hide UpToNul, S.Occurs, F.Mentions;
    UpToNulExactly(u.scope);
    UpToNulExactly(u.typeName);
    UpToNulExactly(u.prefix + u.name);
    UpToNulExactly(u.value);
    F.OccursExactly(U.STAR, u.typeName);
    assert U.STAR == [0x2A];
  }
}
