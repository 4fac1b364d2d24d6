// The reading side: a recursive reader over one file cursor, with a stack of
// variable tables (globals at the bottom) and the tables all units share. Every
// method does to this state what the parser of the format says.
module DebugFileReader {
  import opened Words
  import opened Bytes
  import opened SymbolTables
  import opened DebugFile

  class DwReader {
    const file: InFile
    var stack: seq<Table<VarRec>>      // the top comes first
    var types: Table<LoadedType>
    var cus: Table<LoadedCu>

    ghost predicate Valid()
      reads this, file
    {
      file.Valid() && stack != []
    }

    constructor (file: InFile)
      requires file.Valid()
      ensures Valid() && this.file == file && stack == [[]] && types == [] && cus == []
    {
      this.file := file;
      stack := [[]];
      types := [];
      cus := [];
    }

    // The state after reading: at `rest`, with this table on top of the others.
    ghost predicate At(rest: seq<byte>, top: Table<VarRec>, below: seq<Table<VarRec>>)
      reads this, file
    {
      Valid() && file.Rest() == rest && stack == [top] + below
    }

    // The fields of a variable record before its local table.
    method ReadVarHead() returns (r: Option<Entry<VarRec>>)
      requires Valid()
      modifies file
      ensures file.Valid()
      ensures match ParseVarHead(old(file.Rest()))
              case None => r == None
              case Some((e, rest)) => r == Some(e) && file.Rest() == rest
    {
      hide TakeWord, TakeU64, TakeFlag, TakeText;
      var id :- file.ReadWord(4);
      if id != VAR { return None; }
      var key :- file.ReadText();
      var isLocal :- file.ReadFlag();
      var isParam :- file.ReadFlag();
      var declFile :- file.ReadText();
      var declLine :- file.ReadU64();
      var lowPc :- file.ReadU64();
      var highPc :- file.ReadU64();
      var startPc :- file.ReadU64();
      var location :- file.ReadU64();
      var typ :- file.ReadText();
      var isSubprog :- file.ReadFlag();
      r := Some(Entry(key, VarRec(isLocal, isParam, declFile, declLine, lowPc, highPc, startPc, location, typ,
                                  isSubprog, NoTable)));
    }

    method ReadVarRecord() returns (ok: bool)
      requires Valid()
      modifies this, file
      ensures match ParseVar(old(file.Rest()))
              case None => !ok
              case Some((e, rest)) => ok && At(rest, Put(old(stack)[0], e.key, e.rec), old(stack)[1..])
      ensures types == old(types) && cus == old(cus)
      decreases |file.Rest()|, 1
    {
      hide ParseVarHead, ParseSubTable, Put;
      var e := ReadVarHead();
      if e.None? { return false; }
      var local;
      ok, local := ReadSubTable(e.value.rec.isSubprog);
      if !ok { return; }
      stack := [Put(stack[0], e.value.key, e.value.rec.(local := local))] + stack[1..];
    }

    // Push a fresh table, read into it, and pop it.
    method ReadSubTable(present: bool) returns (ok: bool, t: SubTable)
      requires Valid()
      modifies this, file
      ensures match ParseSubTable(present, old(file.Rest()))
              case None => !ok
              case Some((t', rest)) => ok && t == t' && At(rest, old(stack)[0], old(stack)[1..])
      ensures types == old(types) && cus == old(cus)
      decreases |file.Rest()|, 4
    {
      if !present {
        assert stack == [stack[0]] + stack[1..];
        return true, NoTable;
      }
      stack := [[]] + stack;
      ok := ReadVarTable();
      if !ok { return false, NoTable; }
      t := HasTable(stack[0]);
      stack := stack[1..];
    }

    // Read the records of a variable table into the table on top of the stack.
    method ReadVarTable() returns (ok: bool)
      requires Valid()
      modifies this, file
      ensures match ParseVarTable(old(stack)[0], old(file.Rest()))
              case None => !ok
              case Some((t, rest)) => ok && At(rest, t, old(stack)[1..])
      ensures types == old(types) && cus == old(cus)
      decreases |file.Rest()|, 3
    {
      hide TakeWord, TakeU64, ParseVars;
      assert stack == [stack[0]] + stack[1..];
      var id := file.ReadWord(4);
      if id != Some(VAR) { return true; }   // only logged
      var n := file.ReadU64();
      if n.None? { return false; }
      ok := ReadVars(n.value);
    }

    // The loop over the records of a variable table.
    method ReadVars(n: nat) returns (ok: bool)
      requires Valid()
      modifies this, file
      ensures match ParseVars(n, old(stack)[0], old(file.Rest()))
              case None => !ok
              case Some((t, rest)) => ok && At(rest, t, old(stack)[1..])
      ensures types == old(types) && cus == old(cus)
      decreases |file.Rest()|, 2
    {
      hide ParseVar, Put;
      assert stack == [stack[0]] + stack[1..];
      var i := 0;
      while i < n
        invariant i <= n
        invariant Valid() && stack == [stack[0]] + old(stack)[1..]
        invariant |file.Rest()| <= |old(file.Rest())|
        invariant ParseVars(n - i, stack[0], file.Rest()) == ParseVars(n, old(stack)[0], old(file.Rest()))
        invariant types == old(types) && cus == old(cus)
      {
        ok := ReadVarRecord();
        if !ok { return; }
        i := i + 1;
      }
      ok := true;
    }

    method ReadTypeFlags() returns (r: Option<TypeFlags>)
      requires Valid()
      modifies file
      ensures file.Valid()
      ensures match ParseTypeFlags(old(file.Rest()))
              case None => r == None
              case Some((f, rest)) => r == Some(f) && file.Rest() == rest
    {
      hide TakeU64, TakeFlag;
      var isArray :- file.ReadFlag();
      var upperBound :- file.ReadU64();
      var isPointer :- file.ReadFlag();
      var isStruct :- file.ReadFlag();
      var isTypedef :- file.ReadFlag();
      var isConst :- file.ReadFlag();
      r := Some(TypeFlags(isArray, upperBound, isPointer, isStruct, isTypedef, isConst));
    }

    // The fields of a type record before its member table.
    method ReadTypeHead() returns (r: Option<Entry<LoadedType>>)
      requires Valid()
      modifies file
      ensures file.Valid()
      ensures match ParseTypeHead(old(file.Rest()))
              case None => r == None
              case Some((e, rest)) => r == Some(e) && file.Rest() == rest
    {
      hide TakeWord, TakeU64, ParseTypeFlags, TakeText, TakeBase, BuildType;
      var id :- file.ReadWord(4);
      if id != TYPE { return None; }
      var key :- file.ReadText();
      var size :- file.ReadU64();
      var name :- file.ReadText();
      var flags :- ReadTypeFlags();
      var base :- ReadBase();
      var rec :- BuildType(size, name, flags, base);
      r := Some(Entry(key, rec));
    }

    method ReadTypeRecord() returns (ok: bool)
      requires Valid()
      modifies this, file
      ensures match ParseType(old(file.Rest()))
              case None => !ok
              case Some((e, rest)) =>
                ok && At(rest, old(stack)[0], old(stack)[1..]) && types == Put(old(types), e.key, e.rec)
      ensures cus == old(cus)
    {
      hide ParseTypeHead, ParseSubTable, Put;
      var e := ReadTypeHead();
      if e.None? { return false; }
      var members;
      ok, members := ReadSubTable(e.value.rec.isStruct);
      if !ok { return; }
      types := Put(types, e.value.key, e.value.rec.(members := members));
    }

    method ReadBase() returns (r: Option<Option<seq<byte>>>)
      requires Valid()
      modifies file
      ensures file.Valid()
      ensures match TakeBase(old(file.Rest()))
              case None => r == None
              case Some((base, rest)) => r == Some(base) && file.Rest() == rest
    {
      var n :- file.ReadU64();
      if n == 0 {
        assert file.Rest()[0..] == file.Rest();
        return Some(None);
      }
      var s :- file.ReadBytes(n);
      r := Some(Some(UpToNul(s)));
    }

    method ReadTypeTable() returns (ok: bool)
      requires Valid()
      modifies this, file
      ensures match ParseTypeTable(old(types), old(file.Rest()))
              case None => !ok
              case Some((t, rest)) => ok && At(rest, old(stack)[0], old(stack)[1..]) && types == t
      ensures cus == old(cus)
    {
      hide TakeWord, TakeU64, ParseType, Put;
      assert stack == [stack[0]] + stack[1..];
      var id := file.ReadWord(4);
      if id != Some(TYPE) { return true; }   // only logged
      var n := file.ReadU64();
      if n.None? { return false; }
      ghost var begin := file.Rest();
      var i := 0;
      while i < n.value
        invariant i <= n.value
        invariant Valid() && stack == old(stack)
        invariant ParseTypes(n.value - i, types, file.Rest()) == ParseTypes(n.value, old(types), begin)
        invariant cus == old(cus)
      {
        ok := ReadTypeRecord();
        if !ok { return; }
        i := i + 1;
      }
      ok := true;
    }

    method ReadCuRecord() returns (ok: bool)
      requires Valid()
      modifies this, file
      ensures match ParseCu(Loaded(old(cus), old(types), old(stack)[0]), old(file.Rest()))
              case None => !ok
              case Some((st, rest)) => ok && At(rest, st.vars, old(stack)[1..]) && types == st.types && cus == st.cus
    {
      hide TakeWord, TakeU64, TakeText, ParseTypeTable, ParseVarTable;
      var id := file.ReadWord(4);
      if id != Some(CU) { return false; }
      var path := file.ReadText();
      if path.None? { return false; }
      var lowPc := file.ReadU64();
      if lowPc.None? { return false; }
      var highPc := file.ReadU64();
      if highPc.None? { return false; }
      cus := Put(cus, path.value, LoadedCu(lowPc.value, highPc.value));
      ok := ReadTypeTable();
      if !ok { return; }
      ok := ReadVarTable();
    }

    // Read the whole file. The result says whether tables were loaded, whether
    // the front was malformed, or whether an assertion ended the program.
    method ReadInfo() returns (r: FileResult)
      requires Valid() && stack == [[]] && types == [] && cus == []
      modifies this, file
      ensures r == ParseFile(old(file.Rest()))
      ensures r.Read? ==> At(r.rest, r.tables.vars, []) && types == r.tables.types && cus == r.tables.cus
    {
      hide TakeWord, TakeU64, ParseCu;
      var id := file.ReadWord(4);
      if id != Some(CU) { return Malformed; }
      var n := file.ReadU64();
      if n.None? { return Aborted; }
      ghost var begin := file.Rest();
      var i := 0;
      while i < n.value
        invariant i <= n.value
        invariant Valid() && stack == [stack[0]]
        invariant ParseCus(n.value - i, Loaded(cus, types, stack[0]), file.Rest()) == ParseCus(n.value, EMPTY, begin)
      {
        var ok := ReadCuRecord();
        if !ok { return Aborted; }
        i := i + 1;
      }
      r := Read(Loaded(cus, types, stack[0]), file.data[file.pos..]);
    }
  }
}
