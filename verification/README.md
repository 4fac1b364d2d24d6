# A model of the analysis tables

This project models, in Dafny, the part of the repository that builds, stores and uses debugging information, and
proves properties of it. The program has two halves. One reads the debugging information of an executable (DWARF
Version 4: subprograms of section 3.3, type modifiers of 5.2, arrays of 5.4, structs and members of 5.5) and writes
its tables to a `.vdw` file. The other loads that file while the executable runs, keeps a shadow of the runtime stack,
and writes a trace of what happens to the variables.

`dafny verify dfyconfig.toml` checks the project.

## What is modelled

| file | part of the program |
|---|---|
| `Words`, `Bytes`, `AsciiText` | 64-bit words that wrap around, files of bytes with a cursor, string constants |
| `SymbolTables` | the ordered maps whose `put` never replaces an entry |
| `AnalysisRecords` | the records of the trace: `write`, `read`, and the dispatch by id |
| `UpdateTrace` | the updates of a run as records of the trace |
| `DieWalk`, `DieScopes`, `DieMembers`, `DieTables` | the walk over the debugging entries with its stack of scopes |
| `TypeResolution`, `LoadedTypes` | the two passes that strip consts and build names and sizes, and what they make of arrays |
| `DebugFile`, `DebugFileWriter`, `DebugFileReader`, `DebugFileRoundTrip` | the `.vdw` format as functions, its writer, its recursive reader, and the round trip |
| `DebugPipeline` | walk, resolution, file and reader, one after the other |
| `StructLayout`, `StructTables`, `LoadedObjects` | member tables: what they must be, the objects that are copied and moved in place, and how they come out of a file |
| `HeapMap` | the map of heap blocks with searches that stop early |
| `SensitiveData`, `StackLinks`, `LinkRuns` | the histories of marks on sensitive data, and of saved links, as values; links over whole runs |
| `ShadowStack`, `ShadowRuns`, `ShadowCache`, `ShadowParts` | scans of the shadow stack as values, whole runs, what the stored values mean, arrays and structs |
| `Frames`, `RuntimeStack` | frame records, frames and the stack as objects updated in place, proved against those values |
| `AddressTranslation` | from addresses to functions and variables, its agreement with the live frames, the frame of the globals |
| `LoadedViews` | from the tables that the loader reads to what the layout, the translation and the shadow stack see of them |
| `DieFields`, `ArrivedFields`, `NameFields` | in words: what the walk makes of each attribute, and the resolution of each type, and what of it the reader has in the end |
| `TraceFields`, `FileFields`, `WordFields` | in words: the bytes of every record of the trace and of the debug file, of words, texts and loads |
| `ViewFields`, `TranslationFields` | in words: a record of a variable from the debug file to the frames, and what the address translation finds |
| `ScanFields`, `LinkFields`, `EventFields` | in words: where the scan looks for a variable and what it reports, which alarms are raised, what each event does |
| `Monitor`, `WholeProgram` | the events of a program, performed on the stack and the heap map; from debugging information to a monitored program |

Code that changes things step by step is a class or a method with loops, proved against a function; the properties are
then lemmas about that function. A failed assertion, and a null pointer that is followed, is an outcome (`ok` is false,
or the result is none), not a precondition, unless "Left out" names it. The rendering of values is an uninterpreted
function of the type, the address and the bytes that the type reads; a load that faults gives -1 to its caller, as in
the source.

The modules whose names end in `Fields` say of those functions, field by field and without the builders that the
functions share with their methods, what their results are: addresses as sums modulo 2^64, ids, limits and words of the
source as numbers and bytes, "the first that" and "as many as" as quantified statements. So neither a function nor the
method proved against it can stray from the source alone.

A run of the monitored program is a sequence of calls, setups, returns, writes, library calls, allocations and frees. A
call pushes a frame with the base pointer of the caller. At the setup, the first instruction behind the entry code, the
frame gets its own base pointer, everything is scanned, and the links are checked. A write is followed by a scan of its
address and a check of the links if the innermost function is set up, a library call by a full scan and a check. Runs
are stated on values; `Monitor.Perform` performs an event on the objects in the order in which the analysis routines
under `pin/source/tools/PAS` call `push`, `pop`, `add_context`, the scans, `get_updated_links`, `add_block`,
`find_block`, `remove_block` and `delete_block`, and `Monitor.Drive` is proved to end in the state of the run with its
reports, so that what is proved of every run holds of the objects. Which instructions give rise to which events is not
part of this model.

## Where the code does not do what its names or comments say

The model follows the code in each case.

- Type records are written with const before typedef and read with typedef before const, so each comes back as the
  other (`vaccs_dwarf/libs/tables/vdw_type_table.cpp:81-82`, `vaccs_pin_cpp/libs/vaccs_read/vaccs_dw_reader.cpp:190-194`).
- `get_is_param` returns `is_local`, and the copy constructor uses it
  (`vaccs_pin_cpp/libs/tables/var_table.h:301-304`); the placement of members repairs it.
- The records of file operations are written under the id of malloc; a trace with one of them does not survive.
- The value of a variable is held to 127 bytes by `write`, where `read` allows 65535.
- An empty string cannot be written to a `.vdw` file: `fwrite` of an item of size 0 returns 0, and the assertion fails.
- A mark of n bytes ends at offset n of the data, not n bytes behind its address.
- `add_links` saves the words at 8 and 16 above the base pointer, `get_updated_links` compares them with those at 0 and 8.
- A frame has the base pointer of its caller until its setup, so that a check of the links before it, by a scan from a
  function further in, compares words of the caller.
- The struct that was seen last is never given up for the one around it: members behind a nested struct go to that one.
- The frame of the globals is filled once for every compilation unit from one shared table, so a program of several
  units has every global that many times, and reports each change of it as often. Each record by itself is reported
  faithfully; the trace, which does not tell the records of a variable apart, is faithful to a global if and only if
  there is one unit.
- The number of an array element is cut down to a signed 32-bit number, and a struct rescan counts member addresses in
  the order of names.
- An array of several dimensions keeps the bound of the last one only, and the resolution of types computes its size from
  that one alone: it is the size of the array if and only if all other bounds are 0.
- The names of types depend on the order of their keys, which is that of strings of digits: a name is the spelling of the
  type if and only if all along its chain renamed types sort first.

## Model

| member | source | states |
|---|---|---|
| `AnalysisRecords.DecodeNext` | vaccs_pin_cpp/libs/io/vaccs_record_reader.cpp:32-45 | a record that is read leaves strictly fewer bytes, so reading record after record comes to an end |
| `AnalysisRecords.RecordRoundTrip` | vaccs_pin_cpp/libs/io/vaccs_record_reader.cpp:32-45 | for every record within its limits except the file operations, and whatever bytes follow, reading its encoding gives back the record and exactly the bytes that follow |
| `AnalysisRecords.BodyRoundTrip` | vaccs_pin_cpp/libs/io/vaccs_record_factory.cpp:44-128 | the `read` that the factory selects for the written id undoes the `write` of each of the sixteen kinds |
| `AnalysisRecords.VarAccessRoundTrip` | vaccs_pin_cpp/libs/io/var_access_record.cpp:50-131 | five strings and the words between them come back, the value included, in the order of the two hand-written halves |
| `AnalysisRecords.SelfDelimiting` | vaccs_pin_cpp/libs/io/vaccs_record_reader.cpp:32-45 | equal bytes mean equal records and equal remainders: no record is the beginning of another |
| `AnalysisRecords.TraceRoundTrip` | vaccs_pin_cpp/libs/io/vaccs_record_reader.cpp:32-45 | any sequence of such records, written one after the other, is read back as exactly that sequence, ending at the end of the file |
| `AnalysisRecords.TraceSurvivesExactly` | vaccs_pin_cpp/libs/io/file_close_record.cpp:27-40 | a trace of records within their limits survives if and only if no file operation is among them |
| `AnalysisRecords.FileCloseSwallowsNext` | vaccs_pin_cpp/libs/io/file_close_record.cpp:27-40 | what happens to a close record: it comes back as a malloc record whose size is the first word of the next record, and reading goes on in the middle of that one |
| `AnalysisRecords.NeverAFileRecord` | vaccs_pin_cpp/libs/io/vaccs_record_factory.cpp:44-128 | no sequence of bytes decodes to a trace with a file operation in it, apart from the ids that are not modelled |
| `AnalysisRecords.WriteVarAccess` | vaccs_pin_cpp/libs/io/var_access_record.cpp:50-82 | completes exactly when every string is within its limit, the value within that of a name, and then appends the encoding of the record and nothing else |
| `AnalysisRecords.WriteCCode` | vaccs_pin_cpp/libs/io/ccode_record.cpp:42-59 | the same, with the branch for an empty source line |
| `AnalysisRecords.Write` | vaccs_pin_cpp/libs/io/vaccs_record.h:96-102 | for whichever of the kinds: completes exactly when every string is within its limit, and then appends the encoding of the record and nothing else; file operations under the id of malloc |
| `AnalysisRecords.ReadVarAccess` | vaccs_pin_cpp/libs/io/var_access_record.cpp:90-131 | from any file position: the record that the decoder finds there, with the cursor right behind it, or a failed assertion exactly where the decoder fails |
| `AnalysisRecords.ReadCCode` | vaccs_pin_cpp/libs/io/ccode_record.cpp:67-85 | the same, with the branch for an empty source line |
| `AnalysisRecords.ReadBody` | vaccs_pin_cpp/libs/io/vaccs_record_factory.cpp:44-128 | dispatches by id to the reader of that kind; an unknown id fails |
| `AnalysisRecords.ReadNext` | vaccs_pin_cpp/libs/io/vaccs_record_reader.cpp:32-45 | the reader computes the decoding of the rest of the file and leaves the cursor behind the record |
| `AnalysisRecords.WriteTrace` | vaccs_pin_cpp/libs/io/vaccs_record.h:96-102 | records written one after the other: completes exactly when all are within their limits, and then the file has grown by their encodings and nothing else |
| `AnalysisRecords.ReadTrace` | vaccs_pin_cpp/libs/io/vaccs_record_reader.cpp:32-45 | a file read to its end: exactly the records that its bytes decode to, and how the reading ended |
| `AnalysisRecords.WriteAndRead` | vaccs_pin_cpp/libs/io/vaccs_record_factory.cpp:44-128 | a trace written by the handlers holds the encodings and is read back as their decoding: the same records, to the end of the file, if and only if none is a file operation |
| `UpdateTrace.WriteUpdates` | vaccs_pin_cpp/libs/tables/frame.cpp:1113-1146 | the updates of scans as records of the trace: the writing completes if and only if name with prefix, scope, type and value of each have at most 127 bytes, and then reading gives back exactly these records, in order |
| `UpdateTrace.ReaderSees` | vaccs_pin_cpp/libs/tables/frame.cpp:1113-1146 | a reader that tells the records of a variable from the others sees its reports, each up to its first NUL, in order |
| `UpdateTrace.ReaderKnowsValue` | vaccs_pin_cpp/libs/tables/frame.cpp:1113-1146 | so at any point of a program after the first scan of a frame, the last value that this reader sees is the one that is stored |
| `TraceFields.EncodeExactly` | vaccs_pin_cpp/libs/io/vaccs_record.h:33-102 | the bytes of every kind of record as a table of its own, by number: its id, its fields in order with their widths, and the limit of each text; `write` puts exactly these bytes into the file and completes exactly within these limits |
| `TraceFields.RecordExactly` | vaccs_pin_cpp/libs/tables/frame.cpp:1113-1146 | an update becomes a record of a variable access whose fields are its own, each where it belongs, the name behind the prefix, each text up to its first NUL, and with a target only for a type with a star in its name |
| `WordFields.ByteOfWord` | vaccs_dwarf/libs/tables/vdw_var_table.cpp:73-96 | byte k of a word is its digit with the k-th power of 256 as weight |
| `WordFields.UpToNulExactly` | vaccs_pin_cpp/libs/vaccs_read/vaccs_dw_reader.cpp:52-58 | what a reader sees of a buffer is its longest beginning without a NUL |
| `WordFields.DecimalExactly` | vaccs_pin_cpp/libs/tables/frame.cpp:443-536 | a number is spelled with digits whose value in the decimal system it is, without a zero in front |
| `Bytes.WordRoundTrip` | vaccs_dwarf/libs/tables/vdw_var_table.cpp:73-96 | a word that fits its width is what its little-endian bytes read as |
| `Bytes.InFile.ReadText` | vaccs_pin_cpp/libs/vaccs_read/vaccs_dw_reader.cpp:52-58 | a length, then that many bytes, cut at the first NUL; fails where the file is too short; the cursor moves by what was read |
| `Bytes.FieldRoundTrips` | vaccs_dwarf/libs/tables/vdw_var_table.cpp:73-96 | every field that is put in front of other bytes is taken off again, with those bytes left |
| `DebugFileWriter.WriteVarRecord` | vaccs_dwarf/libs/tables/vdw_var_table.cpp:73-97 | completes exactly when no string in the record, or in its nested tables, is empty (an item of size 0 is never written), and then appends its encoding, nested tables included |
| `DebugFileWriter.WriteVarTable` | vaccs_dwarf/libs/tables/vdw_var_table.cpp:106-116 | the same for a whole table: id, count, and all records in key order |
| `DebugFileWriter.WriteTypeRecord` | vaccs_dwarf/libs/tables/vdw_type_table.cpp:68-95 | completes exactly when key and name are there and not empty, the base is not the empty string, and the member table can be written |
| `DebugFileWriter.WriteTypeTable` | vaccs_dwarf/libs/tables/vdw_type_table.cpp:103-113 | the same for the table of types |
| `DebugFileWriter.WriteCuRecord` | vaccs_dwarf/libs/tables/vdw_cu_table.cpp:67-78 | path, pc range, type table, variable table, in this order |
| `DebugFileWriter.WriteCuTable` | vaccs_dwarf/libs/tables/vdw_cu_table.cpp:109-119 | the file is written in full exactly when every string in it is there and not empty, and then holds the encoding of all units |
| `DebugFileReader.DwReader.ReadVarRecord` | vaccs_pin_cpp/libs/vaccs_read/vaccs_dw_reader.cpp:47-130 | puts into the table on top of the stack what the parser finds, reads a local table in between on a stack one higher, and leaves the stack below as it was |
| `DebugFileReader.DwReader.ReadVarTable` | vaccs_pin_cpp/libs/vaccs_read/vaccs_dw_reader.cpp:135-150 | parses the table into the one on top of the stack; a wrong id is logged and changes nothing |
| `DebugFileReader.DwReader.ReadTypeRecord` | vaccs_pin_cpp/libs/vaccs_read/vaccs_dw_reader.cpp:155-244 | puts into the shared type table what the parser finds, with the variable stack back in place after a member table |
| `DebugFileReader.DwReader.ReadTypeTable` | vaccs_pin_cpp/libs/vaccs_read/vaccs_dw_reader.cpp:249-263 | parses all type records into the shared table |
| `DebugFileReader.DwReader.ReadCuRecord` | vaccs_pin_cpp/libs/vaccs_read/vaccs_dw_reader.cpp:271-303 | one unit: its range by path, its types and variables into the shared tables |
| `DebugFileReader.DwReader.ReadInfo` | vaccs_pin_cpp/libs/vaccs_read/vaccs_dw_reader.cpp:307-334 | the loader computes the parse of the whole file: tables and cursor, a failed assertion, or a malformed file that loads nothing |
| `DebugFileRoundTrip.VarRoundTrip` | vaccs_pin_cpp/libs/vaccs_read/vaccs_dw_reader.cpp:47-130 | a variable record with all tables nested in it comes back field by field, and the cursor is exactly behind it |
| `DebugFileRoundTrip.SubTableRoundTrip` | vaccs_pin_cpp/libs/vaccs_read/vaccs_dw_reader.cpp:124-130 | a nested table is rebuilt in its order; without one nothing is read |
| `DebugFileRoundTrip.VarTableRoundTrip` | vaccs_pin_cpp/libs/vaccs_read/vaccs_dw_reader.cpp:135-150 | read into a table that has entries already, a table adds those with new names only, and the cursor passes the others and what is nested in them all the same |
| `DebugFileRoundTrip.TypeRoundTrip` | vaccs_pin_cpp/libs/vaccs_read/vaccs_dw_reader.cpp:155-244 | a type comes back with the fields that the reader keeps: the base of arrays and pointers only, the bound of arrays only, and const and typedef exchanged |
| `DebugFileRoundTrip.CuRoundTrip` | vaccs_pin_cpp/libs/vaccs_read/vaccs_dw_reader.cpp:271-305 | reading one unit adds its range, the first-wins union with its types, and the first-wins union with its variables |
| `DebugFileRoundTrip.FileRoundTrip` | vaccs_pin_cpp/libs/vaccs_read/vaccs_dw_reader.cpp:307-334 | for every well-formed table of units: the reader consumes every byte of what was written and has all units, and the first-wins unions of all type tables and of all variable tables |
| `DebugFileRoundTrip.FirstUnitWins` | vaccs_pin_cpp/libs/tables/symbol_table.cpp:25-27 | after loading, a key finds the type (the variable) of the first unit, in file order, that has the key |
| `DebugFileRoundTrip.SharedVariablesReadOnce` | vaccs_pin_cpp/libs/vaccs_read/vaccs_dw_reader.cpp:296-302 | when all units were written with one variable table, reading it once per unit gives that table |
| `FileFields.FileExactly` | vaccs_dwarf/libs/tables/vdw_cu_table.cpp:109-119 | the whole file as a table of its own, by number: the id of every table and record, their counts, and every field in order with its width, through tables nested in records to any depth |
| `FileFields.BuiltFields` | vaccs_pin_cpp/libs/vaccs_read/vaccs_dw_reader.cpp:155-244 | what the reader keeps of a type, field by field: a bound for arrays only, a base type for arrays and pointers only, which must have one |
| `FileFields.KeptFields` | vaccs_pin_cpp/libs/vaccs_read/vaccs_dw_reader.cpp:155-244 | the same of a type that was written, with const and typedef exchanged |
| `SymbolTables.SymbolTable.PutRecord` | vaccs_pin_cpp/libs/tables/symbol_table.cpp:25-27 | says whether the key was new; afterwards a new key finds the record, every other key what it found before, and a taken key leaves the table as it was |
| `SymbolTables.PutLookup` | vaccs_pin_cpp/libs/tables/symbol_table.cpp:25-27 | first wins, for every key |
| `SymbolTables.PutAllLookup` | vaccs_pin_cpp/libs/tables/symbol_table.cpp:25-27 | putting entry after entry is the first-wins union |
| `SymbolTables.PutAllInOrder` | vaccs_pin_cpp/libs/tables/symbol_table.cpp:25-27 | entries that come in key order rebuild their own table |
| `DieWalk.DwReader.ProcessDieTree` | vaccs_dwarf/libs/read/dw_reader.cpp:349-394 | the whole recursive walk, computed on the live tables as by the walk on values |
| `DieFields.VarEntered` | vaccs_dwarf/libs/read/dw_reader.cpp:220-342 | one subprogram, variable, parameter or member with a new name, whatever the state: the record found under its name then has, from the attributes of the entry, its low and high pc and start pc, or none, its location, type, declaring file and line, each in its place, and the flags of its kind, local exactly for a variable inside a subprogram; under a name that is taken nothing changes |
| `DieFields.TypeEntered` | vaccs_dwarf/libs/read/dw_reader.cpp:116-283 | one entry of a type with a new key: the record found under it then has, from the attributes of the entry, its name with what is put in front of it, its size or the default, its base type, and exactly one flag |
| `DieFields.BoundEntered` | vaccs_dwarf/libs/read/dw_reader.cpp:161-169 | one bound: the array before it has that bound, so many times the size, and the bound behind its name; every other record is as it was |
| `DieFields.WalkFields` | vaccs_dwarf/libs/read/dw_reader.cpp:428-455 | after the whole walk, whatever the entries: every record of every variable table has the fields of an entry that was called so, and every record of every type table those of the entry at its key, or is void |
| `DieFields.FoundFields` | vaccs_dwarf/libs/read/dw_reader.cpp:349-394 | the same of what is found in any table after a walk: under each name the fields of an entry that is called so |
| `DieFields.WalkUnitsRanges` | vaccs_dwarf/libs/read/dw_reader.cpp:401-422 | every unit has the range of a unit entry with its name |
| `DieWalk.Visit` | vaccs_dwarf/libs/read/dw_reader.cpp:349-394 | whatever the tree, the scope stack comes back as it was |
| `DieWalk.VisitArray` | vaccs_dwarf/libs/read/dw_reader.cpp:116-172 | the walk of an array entry with its bounds leaves one more type record, folded over all the bounds |
| `DieWalk.SeveralBounds` | vaccs_dwarf/libs/tables/vdw_type_table.cpp:45-60 | which has the product of all dimensions in its size, and the last bound only |
| `DieScopes.VisitAllFiles` | vaccs_dwarf/libs/read/dw_reader.cpp:289-394 | for every list of entries in any scope: the walk with its stack files exactly what a top-down reading files that hands each entry its nearest enclosing subprogram, same tables, same records, same order |
| `DieScopes.SubprogramFiles` | vaccs_dwarf/libs/read/dw_reader.cpp:289-309 | entering a subprogram files it in the table of its nearest enclosing subprogram, or among the globals, and nothing else anywhere |
| `DieScopes.EnterFiles` | vaccs_dwarf/libs/read/dw_reader.cpp:289-390 | whatever the tag, entering one entry files what a reading that knows the nearest enclosing subprogram files: a variable or parameter only with a location, local exactly when inside a subprogram and no parameter |
| `DieScopes.EnterSucceeds` | vaccs_dwarf/libs/read/dw_reader.cpp:349-390 | entering an entry fails exactly for a bound with no array, and for a member with no struct, before it |
| `DieScopes.TablesOf` | vaccs_dwarf/libs/read/dw_reader.cpp:349-394 | over a whole unit: in every table a name finds the record that was filed first for it, and the stack is back at the globals |
| `DieMembers.MemberFiledExactly` | vaccs_dwarf/libs/read/dw_reader.cpp:220-235 | a member of a struct is filed in the member table of that struct if and only if no other struct comes between the two, at any depth, in the order of the entries |
| `DieScopes.PlayContents` | vaccs_pin_cpp/libs/tables/symbol_table.cpp:25-27 | a table is the first-wins union of what was there and what was filed in it |
| `DieScopes.WalkCompletes` | vaccs_dwarf/libs/read/dw_reader.cpp:161-167 | the walk completes if and only if every bound has an array before it, and every member a struct, in the order of the entries |
| `DieTables.VisitAllShape` | vaccs_dwarf/libs/read/dw_reader.cpp:116-394 | on every tree of entries the walk keeps: a subprogram has a local table and nothing else has; a struct has a member table and no other type has; no type is two of array, pointer, struct, typedef and const; nothing is local and a parameter at once; no local variable among the globals; tables are in key order |
| `DieTables.StructShape` | vaccs_dwarf/libs/read/dw_reader.cpp:242-255 | a struct entry keeps all of this: its record has a member table of its own |
| `DieTables.VisitAllPlain` | vaccs_dwarf/libs/read/dw_reader.cpp:172-394 | over every tree: no pointer that the walk makes is called something that ends in a star, and no array something that ends in brackets, which the exact condition on names takes for granted |
| `DieTables.VisitAllClean` | vaccs_dwarf/libs/read/dw_reader.cpp:46-60 | from entries with proper strings the walk builds only records with strings that are not empty and have no NUL |
| `DieTables.WalkUnitsShape` | vaccs_dwarf/libs/read/dw_reader.cpp:401-424 | all of this over all units of a program, with a fresh type table and the void type for each |
| `TypeResolution.VdwTypeTable.GetBaseTypeIndex` | vaccs_dwarf/libs/tables/vdw_type_table.cpp:129-134 | on a chain of consts that ends, the recursion terminates and gives the type at its end |
| `TypeResolution.VdwTypeTable.UpdateBaseType` | vaccs_dwarf/libs/tables/vdw_type_table.cpp:136-141 | one record is rewritten to name that type, all others stay |
| `TypeResolution.VdwTypeTable.ResolveIndices` | vaccs_dwarf/libs/tables/vdw_type_table.cpp:147-154 | on a closed table with acyclic const chains, the first loop lets every pointer and array name the end of its original chain and changes nothing else |
| `TypeResolution.OrderIrrelevant` | vaccs_dwarf/libs/tables/vdw_type_table.cpp:147-154 | visiting the entries in any order, with repetitions, gives the same table |
| `TypeResolution.RebasedMeaning` | vaccs_dwarf/libs/tables/vdw_type_table.cpp:129-154 | afterwards no pointer or array names a const type, each base is in the table, and a second pass would change nothing |
| `TypeResolution.VdwTypeTable.BuildNames` | vaccs_dwarf/libs/tables/vdw_type_table.cpp:156-174 | the second loop completes exactly when no const type is named after a const type that sorts behind it, and then every name and array size is built from the final one of a base that sorts earlier and from the initial one otherwise |
| `TypeResolution.VdwTypeTable.ResolveBaseTypes` | vaccs_dwarf/libs/tables/vdw_type_table.cpp:143-176 | both loops together |
| `TypeResolution.RebasedReady` | vaccs_dwarf/libs/tables/vdw_type_table.cpp:143-174 | after the first loop no pointer or array step of the second one reads a name that is not there |
| `TypeResolution.SpelledExactly` | vaccs_dwarf/libs/tables/vdw_type_table.cpp:156-174 | on a table that the second loop completes, the name of a type with an ending chain is its full recursive spelling if and only if, all along the chain, each renamed type sorts before the type named after it |
| `TypeResolution.OutOfOrderName` | vaccs_dwarf/libs/tables/vdw_type_table.cpp:156-174 | an instance: a pointer that sorts before the pointer it points to |
| `NameFields.RebasedFields` | vaccs_dwarf/libs/tables/vdw_type_table.cpp:143-174 | the first loop, one record: a pointer or an array names the last type of a chain of consts from the one that it named, any other record its old base, and nothing else changes |
| `NameFields.OneChain` | vaccs_dwarf/libs/tables/vdw_type_table.cpp:128-133 | there is one such chain, so that the type at its end is determined |
| `NameFields.FinalFields` | vaccs_dwarf/libs/tables/vdw_type_table.cpp:143-174 | the second loop, one record, byte by byte: the name of its base with a star, with brackets, or behind "const ", the base as it is by then; the size of an array from the size of its base and its bound; "typedef " in front of the name of a typedef; every other field as it was |
| `NameFields.LessExactly` | vaccs_dwarf/libs/tables/vdw_type_table.cpp:143-174 | the order of the keys in which the loops go: lexicographic, by the first byte that differs |
| `DebugPipeline.WalkSpelledExactly` | vaccs_dwarf/libs/tables/vdw_type_table.cpp:143-174 | the same if and only if for every type table that the walk leaves, with no premise on its names |
| `DebugPipeline.DimensionsExactly` | vaccs_dwarf/libs/tables/vdw_type_table.cpp:165-168 | an array of any number of dimensions ends up with the size of (last bound + 1) elements; where elements have a size and the product does not wrap, this is the size of all its elements if and only if every bound before the last is 0 |
| `LoadedTypes.ArraySize` | vaccs_dwarf/libs/tables/vdw_type_table.cpp:165-168 | what the second loop makes of any array: bound and base are kept, and the size is that of (bound + 1) elements, of final size if the base is no array or sorts earlier |
| `LoadedTypes.ArrayExtent` | vaccs_dwarf/libs/tables/vdw_type_table.cpp:165-168 | so it is for the two types as the analyser has them |
| `DebugPipeline.LoadedArray` | vaccs_pin_cpp/libs/vaccs_read/vaccs_dw_reader.cpp:155-244 | so, of types that went through resolution, writer and reader, every array of elements that are no arrays is there with its element type and has exactly the bytes of its elements |
| `DebugPipeline.TreeWf` | vaccs_dwarf/libs/tables/vdw_var_table.cpp:73-116 | the variable tables that the walk leaves, nested ones included, can be written in full and are what the round trip asks for |
| `DebugPipeline.CanBeResolved` | vaccs_dwarf/libs/tables/vdw_type_table.cpp:129-154 | the type table that the walk leaves is fit for the resolution of types once its const chains end |
| `DebugPipeline.FinalClean` | vaccs_dwarf/libs/tables/vdw_type_table.cpp:156-174 | the names that resolution builds are not empty and have no NUL |
| `DebugPipeline.ResolvedWf` | vaccs_dwarf/libs/tables/vdw_type_table.cpp:68-113 | a table of resolved types can be written in full and read back |
| `DebugPipeline.AnalyserSeesTheWalk` | vaccs_dwarf/libs/read/dw_reader.cpp:401-453 | end to end, for whatever entries: if the walk completes and the types can be resolved, the file is written in full, every byte is read, and the analyser has exactly the variable tables of the walk and the standard streams of the executable, and, of the types, the first-wins union over the units |
| `ArrivedFields.FieldsArrive` | vaccs_dwarf/libs/read/dw_reader.cpp:401-453 | field by field, end to end: every global, local and member that the reader has in the end has the fields of an entry of the program that was called so, or is stdout, and every type those of the entry at its key, with const and typedef exchanged, or is void or the type of stdout |
| `StructLayout.MembersPlaced` | vaccs_pin_cpp/libs/tables/var_table.cpp:660-714 | after the member tables are made, a struct variable has exactly the members that its type prescribes, at every depth, each at the location of the variable plus the offsets on its path (modulo 2^64), local or a parameter as the variable is |
| `StructLayout.EveryMemberPlaced` | vaccs_pin_cpp/libs/tables/var_table.cpp:660-777 | the same for the variables of every scope, through subprograms nested in one another |
| `StructLayout.PropagatedMember` | vaccs_pin_cpp/libs/tables/var_table.cpp:660-673 | the same for a record that is moved by any location, which is what the recursion needs |
| `StructLayout.CreatedTwice` | vaccs_pin_cpp/libs/tables/cu_table.cpp:465-477 | making the member tables of a variable again changes nothing |
| `ViewFields.CopyFields` | vaccs_pin_cpp/libs/tables/var_table.cpp:50-76 | a copy has every field of the record, at every depth of its tables, but the declaring file, which is empty, and `is_param`, which is `is_local` |
| `ViewFields.CreatedFields` | vaccs_pin_cpp/libs/tables/var_table.cpp:643-736 | a variable keeps its own fields; it gets a member table exactly for a struct type, with the names of the type in order, and each member at every depth has the type, line and range that the type gives it |
| `ViewFields.ViewFields` | vaccs_pin_cpp/libs/vaccs_read/vaccs_dw_reader.cpp:47-130 | the record that the loader makes has the fields of what it reads, at every depth of its local variables |
| `ViewFields.RecordFields` | vaccs_pin_cpp/libs/tables/frame.cpp:276-360 | the record of a frame for a variable has its place, its name and the variable, no block, and "<NOVALUE>" as its value, or nothing in the frame of the globals |
| `ViewFields.UnitsInOrder` | vaccs_pin_cpp/libs/tables/frame.cpp:276-304 | the globals are those of one unit after the other |
| `StructLayout.CreatedAllTwice` | vaccs_pin_cpp/libs/tables/cu_table.cpp:465-477 | nor does it for a whole table |
| `StructTables.VarRecord.Copy` | vaccs_pin_cpp/libs/tables/var_table.cpp:50-76 | a deep copy: everything it owns is fresh; the declaring file is lost and is_param becomes is_local, since that is what `get_is_param` returns |
| `StructTables.VarTable.Copy` | vaccs_pin_cpp/libs/tables/var_table.cpp:721-737 | copies of all records in the same order, all of them fresh |
| `StructTables.VarTable.CopyFrom` | vaccs_pin_cpp/libs/tables/var_table.cpp:727-735 | the loop of the copy constructor |
| `StructTables.VarRecord.PropagateLocalInfo` | vaccs_pin_cpp/libs/tables/var_table.cpp:660-673 | moves the record, and replaces its members by a fresh placed copy of its type; the recursion ends by how deep structs lie in one another |
| `StructTables.VarTable.PropagateLocalInfo` | vaccs_pin_cpp/libs/tables/var_table.cpp:750-760 | the same for every record of a table |
| `StructTables.VarRecord.PlaceMembers` | vaccs_pin_cpp/libs/tables/var_table.cpp:666-672 | the members are a placed copy of those of the type, whose own table is read and not changed |
| `StructTables.VarRecord.CreateMemberTables` | vaccs_pin_cpp/libs/tables/var_table.cpp:695-714 | builds the layout that the values prescribe, in place; what it adds is fresh, so that no record of the type table changes |
| `StructTables.VarTable.CreateMemberTables` | vaccs_pin_cpp/libs/tables/var_table.cpp:766-777 | the same for every variable of a table |
| `StructTables.CreateForUnits` | vaccs_pin_cpp/libs/tables/cu_table.cpp:465-477 | one variable table shared by any number of units: creating the member tables once per unit is creating them once |
| `LoadedObjects.MakeTypes` | vaccs_pin_cpp/libs/vaccs_read/vaccs_dw_reader.cpp:155-244 | the types of a table as objects with member tables of their own, of which the first with a key counts |
| `LoadedObjects.LoadProgram` | vaccs_pin_cpp/libs/vaccs_read/vaccs_dw_reader.cpp:307-334 | from the bytes of a debug file to the objects: read, made, and the member tables created once for every unit, which leaves every variable of every scope with the members that the layout prescribes |
| `StructTables.MemberTablesNotShared` | vaccs_pin_cpp/libs/tables/var_table.cpp:721-736 | two variables own no member table, and nothing in one, in common |
| `HeapMap.Map.FindBlock` | vaccs_pin_cpp/libs/tables/heap.cpp:63-79 | the search that stops at the first block behind the address returns the same as one that looks at every block |
| `HeapMap.Map.DeleteBlock` | vaccs_pin_cpp/libs/tables/heap.cpp:81-98 | returns that block and takes exactly it out of the map |
| `HeapMap.ScanMeaning` | vaccs_pin_cpp/libs/tables/heap.cpp:63-79 | nothing is found exactly when no block contains the address; what is found is in the map and contains it |
| `HeapMap.UniqueBlock` | vaccs_pin_cpp/libs/tables/heap.cpp:63-79 | with disjoint blocks that do not wrap, the block that contains an address is the one that is found |
| `HeapMap.EraseMembers` | vaccs_pin_cpp/libs/tables/heap.cpp:81-98 | after a deletion the map has every block but the one that was found |
| `HeapMap.InsertMembers` | vaccs_pin_cpp/libs/tables/heap.h:150-154 | after an insertion it has every block it had, and the new one unless its start was taken |
| `HeapMap.RunHolds` | vaccs_pin_cpp/libs/tables/heap.cpp:63-98 | over every run of additions of disjoint blocks and of deletions, the map holds exactly the live blocks and the search finds the one live block with the address, if there is one |
| `EventFields.FoundExactly` | vaccs_pin_cpp/libs/tables/heap.cpp:63-98 | the block found is the first with start <= a < start + size modulo 2^64, and none is found exactly when no block has the address |
| `EventFields.ProgramHeap` | vaccs_pin_cpp/libs/tables/heap.cpp:63-98 | from the start of a program with an allocator that keeps live blocks apart, the map holds exactly the blocks allocated and not freed, whatever else happens |
| `Frames.FrameRecord.MarkDataClearStatus` | vaccs_pin_cpp/libs/tables/frame.cpp:51-95 | the first mark since a reset sizes the arrays by the heap block or the type; every mark is the last word on the bytes from the offset of its address up to the smaller of n and the size, and on no others: these are clear exactly if c is zero and set exactly if it is not, all others are what they were; all indexing is in bounds |
| `Frames.FrameRecord.IsDataClear` | vaccs_pin_cpp/libs/tables/frame.cpp:97-113 | clear exactly when there was a mark and for every byte the last mark that covers it cleared it |
| `Frames.FrameRecord.IsDataSet` | vaccs_pin_cpp/libs/tables/frame.cpp:123-139 | set exactly when for some byte the last mark that covers it set it |
| `Frames.FrameRecord.ResetClearSetStatus` | vaccs_pin_cpp/libs/tables/frame.cpp:115-121 | forgets all marks |
| `Frames.FrameRecord.RemoveHeapBlock` | vaccs_pin_cpp/libs/tables/frame.h:223-231 | forgets the block, and all marks with it |
| `SensitiveData.LastMeaning` | vaccs_pin_cpp/libs/tables/frame.cpp:84-91 | the verdict on a byte is that of the latest mark that covers it, and of no other |
| `SensitiveData.NeverBoth` | vaccs_pin_cpp/libs/tables/frame.cpp:97-139 | data is never clear and set at once |
| `SensitiveData.CoversMeantExactly` | vaccs_pin_cpp/libs/tables/frame.cpp:74-92 | a mark covers the bytes that the n bytes from its address on share with the data if and only if it begins at the data or behind them, or is empty, or is as long as the data, or lies in front of them |
| `SensitiveData.ClearNeedsWhole` | vaccs_pin_cpp/libs/tables/frame.cpp:74-92 | so data that is cleared in pieces shorter than itself is never clear |
| `SensitiveData.StatusByCalls` | vaccs_pin_cpp/libs/tables/frame.cpp:51-147 | over any sequence of calls: data is clear exactly when there was one and for each byte the last call that touches it had c zero, and set exactly when for some byte the last had c not zero; a call touches byte i exactly for (addr - base) modulo 2^64 <= i < the smaller of n and the size |
| `RuntimeStack.MakeGlobalFrame` | vaccs_pin_cpp/libs/tables/frame.cpp:276-304 | the frame of the globals has a record for every variable of every unit, in order |
| `RuntimeStack.AddRecords` | vaccs_pin_cpp/libs/tables/frame.cpp:326-355 | a fresh record, with its first value and no marks, for every entry of a table that is not a subprogram; the records before stay |
| `RuntimeStack.RuntimeStack.Push` | vaccs_pin_cpp/libs/tables/frame.cpp:315-360 | completes exactly when a function has the address; the new frame on top has the records of its own variables and the two words above the base pointer as links, and the addresses of the function; the frames below are the old ones |
| `RuntimeStack.RuntimeStack.Pop` | vaccs_pin_cpp/libs/tables/frame.cpp:365-379 | takes off the top frame; an empty stack is an error |
| `RuntimeStack.RuntimeStack.GetUpdatedArrayElements` | vaccs_pin_cpp/libs/tables/frame.cpp:428-535 | the loop and the branches compute the element updates of the scan, with their names, types, addresses and values |
| `RuntimeStack.RuntimeStack.GetUpdatedStructMembers` | vaccs_pin_cpp/libs/tables/frame.cpp:538-643 | the loops and the early exit compute the member updates of the scan, with their names, prefixes, scopes, types, addresses and values |
| `RuntimeStack.RuntimeStack.CheckScalar` | vaccs_pin_cpp/libs/tables/frame.cpp:694-754 | the value is compared, stored and reported as by the scan; a pointer into a heap block remembers the block |
| `RuntimeStack.RuntimeStack.GetUpdatedVariablesFromFrame` | vaccs_pin_cpp/libs/tables/frame.cpp:654-759 | the loop over the records computes the scan of the frame on values: new values, blocks and flags, and the list of updates; nothing else of the frame changes |
| `RuntimeStack.RuntimeStack.AddrGetUpdatedVariables` | vaccs_pin_cpp/libs/tables/frame.cpp:403-419 | the scan of all frames, innermost first, then of the globals; a record belongs to one frame, so no frame is touched by the scan of another |
| `RuntimeStack.RuntimeStack.GetAllUpdatedVariables` | vaccs_pin_cpp/libs/tables/frame.cpp:769-781 | the scan for no address |
| `RuntimeStack.RuntimeStack.RemoveBlock` | vaccs_pin_cpp/libs/tables/frame.cpp:1102-1111 | in every stack frame exactly the references to the freed block are gone; the globals are untouched |
| `Frames.Frame.RemoveBlock` | vaccs_pin_cpp/libs/tables/frame.cpp:248-258 | the same for one frame; a record that is not concerned keeps its marks, one that is has none left |
| `RuntimeStack.RuntimeStack.GetUpdatedLinks` | vaccs_pin_cpp/libs/tables/frame.cpp:1006-1075 | every saved link equals the word on the stack afterwards; the result has, in stack order, one record with both current words for each frame with a changed link; alarms for changed words only, in frames past stack setup only |
| `RuntimeStack.RuntimeStack.CheckLinks` | vaccs_pin_cpp/libs/tables/frame.cpp:1019-1071 | the record, put together from what is saved half-way, ends up with both current words |
| `StackLinks.SecondCheckQuiet` | vaccs_pin_cpp/libs/tables/frame.cpp:1005-1075 | a second check at once reports nothing and raises no alarm |
| `StackLinks.QuietExactly` | vaccs_pin_cpp/libs/tables/frame.cpp:1005-1075 | nothing is reported exactly when no link of any frame has changed |
| `StackLinks.FirstCheckExactly` | vaccs_pin_cpp/libs/tables/frame.cpp:158-169 | a frame is pushed with the base pointer of its caller and checked for the first time with its own: it is reported, without an alarm, unless its two link words are those one place further up in the frame of the caller |
| `LinkRuns.CallAndSetup` | pin/source/tools/PAS/monitor_registers.cpp:56-92 | a call and its setup in any run: the frame has the new base pointer and the links at it, its report is that of the first check, and every other frame is checked as always |
| `LinkRuns.RunAlarmsExactly` | vaccs_pin_cpp/libs/tables/frame.cpp:1005-1075 | over every run: no alarm is raised if and only if, from one scan to the next, the program leaves the saved frame pointer and the return address of every function past its setup alone; and the saved links are those on the stack at the last scan |
| `LinkRuns.ProgramAlarmsExactly` | vaccs_pin_cpp/libs/tables/frame.cpp:1005-1075 | so it is from the start of every program |
| `LinkFields.AlarmsOfOne` | vaccs_pin_cpp/libs/tables/frame.cpp:1019-1071 | the alarms of one frame: none before its setup; past it, `FramePointerFault` exactly when the saved frame pointer is not the word at the base pointer, then `ReturnAddressFault` exactly when the saved return address is not the word 8 above |
| `LinkFields.AlarmsExactly` | vaccs_pin_cpp/libs/tables/frame.cpp:1005-1075 | a check of all frames raises as many alarms of each kind as there are frames past their setup whose word of that kind differs, and so one of a kind exactly when there is such a frame |
| `LinkFields.CheckedInOrder` | vaccs_pin_cpp/libs/tables/frame.cpp:1005-1075 | alarms and records come in the order of the stack |
| `LinkFields.RecordsOfOne` | vaccs_pin_cpp/libs/tables/frame.cpp:1019-1071 | the record of a frame, before its setup or past it: exactly when either word differs, with the name of the function, the word at the base pointer and the word 8 above, in this order |
| `LinkFields.RefreshedFields` | vaccs_pin_cpp/libs/tables/frame.cpp:1019-1071 | what is saved for the next check is the word at the base pointer and the word 8 above |
| `LinkFields.PushedFields` | vaccs_pin_cpp/libs/tables/frame.cpp:159-168 | what is saved of a frame that is pushed is the words 8 and 16 above its base pointer |
| `LinkFields.StepAlarms` | vaccs_pin_cpp/libs/tables/frame.cpp:1005-1075 | in every run, `FramePointerFault` is raised by a step exactly for a function past its setup whose frame pointer on the stack the program has changed since the last scan, and `ReturnAddressFault` exactly for one whose return address it has changed, frame after frame |
| `LinkFields.ProgramAlarms` | vaccs_pin_cpp/libs/tables/frame.cpp:1005-1075 | from the start of every program, the alarms are exactly these faults of its steps, in order |
| `LinkFields.RaisedExactly` | vaccs_pin_cpp/libs/tables/frame.cpp:1005-1075 | an alarm of a kind is raised in a run exactly when some step has such a fault |
| `WordFields.LoadExactly` | vaccs_pin_cpp/libs/tables/deref.cpp:15-36 | a load gives the eight bytes from the address on, least significant first, and faults exactly when one of them is not mapped; its caller then has all ones |
| `ShadowRuns.AsOneList` | vaccs_pin_cpp/libs/tables/frame.cpp:402-419 | the scan of the frames and the globals is one scan over one list of frames |
| `ShadowRuns.FramesShape` | vaccs_pin_cpp/libs/tables/frame.cpp:653-758 | a scan changes values, blocks and first-access flags and nothing else |
| `ShadowRuns.RecordReports` | vaccs_pin_cpp/libs/tables/frame.cpp:653-758 | what a scan of a record reports is about its own frame and, if about a variable, about its own |
| `ShadowRuns.ValueInFrames` | vaccs_pin_cpp/libs/tables/frame.cpp:688-754 | the value of a scalar or pointer after a scan: that in memory if it is looked at, the one before otherwise |
| `ShadowRuns.TextsInFrames` | vaccs_pin_cpp/libs/tables/frame.cpp:688-754 | the reports of one record, or about one variable, in a scan of everything are those that its frame gives it |
| `ShadowRuns.StepOk` | vaccs_pin_cpp/libs/tables/frame.cpp:653-1111 | calls, setups, returns, scans, allocations and frees keep known types, different frames, different places in them and the order of the heap map |
| `ShadowRuns.RunFaithful` | vaccs_pin_cpp/libs/tables/frame.cpp:688-758 | over every run, whatever the program does to its memory: the reports that any frame record of a scalar, a string or a pointer has made, replayed, give its stored value, and no two consecutive ones are equal; also for a variable that a frame has several times |
| `ShadowRuns.ProgramFaithful` | vaccs_pin_cpp/libs/tables/frame.cpp:275-306 | so it is from the start of every program |
| `ShadowRuns.RunSettled` | vaccs_pin_cpp/libs/tables/frame.cpp:688-758 | over every run, for what a reader of the trace can tell apart, the variables: the last report is the stored value, and no report repeats the one before if and only if the frame has the variable once |
| `ShadowRuns.ProgramSettled` | vaccs_pin_cpp/libs/tables/frame.cpp:275-306 | so it is from the start of every program |
| `ShadowRuns.FaithfulExactly` | vaccs_pin_cpp/libs/tables/frame.cpp:275-306 | so, at any point of any run, the trace is faithful to a variable if and only if its frame has it once |
| `AddressTranslation.GlobalsFaithfulExactly` | vaccs_pin_cpp/libs/tables/frame.cpp:281-304 | from the start of a program, at any point after the first scan of the globals: the trace is faithful to a global if and only if the program has one unit |
| `AddressTranslation.GlobalsOnceExactly` | vaccs_pin_cpp/libs/tables/frame.cpp:281-304 | the frame of the globals has every variable as often as there are units, since all units share one table: once exactly when there is one unit |
| `ShadowCache.InStepExactly` | vaccs_pin_cpp/libs/tables/frame.cpp:402-419 | the scan of a written address leaves every scalar and pointer, and every string if strings are watched, with the rendering of memory if and only if the write is harmless: it changes the rendering of no variable that is not hit, and a hit one reads the same at the address and at its base |
| `ShadowCache.BasedIsHarmless` | vaccs_pin_cpp/libs/tables/frame.cpp:402-419 | a write that changes only variables based at the written address is harmless |
| `ShadowCache.RunInStep` | vaccs_pin_cpp/libs/tables/frame.cpp:402-419 | over every run whose scanned writes are such ones, every watched variable in every frame past its first access stores the rendering of current memory; strings may be watched or not |
| `ShadowCache.ProgramInStep` | vaccs_pin_cpp/libs/tables/frame.cpp:402-419 | so it is from the start of every program |
| `ShadowCache.RescanSilent` | vaccs_pin_cpp/libs/tables/frame.cpp:768-781 | and a full rescan would then report nothing about any of them |
| `ShadowCache.SecondRescanSilent` | vaccs_pin_cpp/libs/tables/frame.cpp:768-781 | a full rescan right after another reports nothing about scalars, strings and pointers, in whatever state the first found them |
| `ShadowCache.RunLive` | vaccs_pin_cpp/libs/tables/frame.cpp:248-258 | over every run of calls, setups, returns, scans, allocations and frees, a heap block that a record of a stack frame refers to is in the heap map |
| `ShadowCache.PointersFindBlocks` | vaccs_pin_cpp/libs/tables/frame.cpp:699-716 | after a full scan, every pointer, on the stack or global, that points into a live block refers to that block |
| `ShadowCache.GlobalsLiveExactly` | vaccs_pin_cpp/libs/tables/frame.cpp:1102-1111 | for the globals, which a free passes over, this survives a free if and only if no global refers to the block |
| `ShadowParts.ReportsTrue` | vaccs_pin_cpp/libs/tables/frame.cpp:402-419 | whatever a scan reports, of variables, elements and members, names a type and an address and carries the rendering of the bytes there; the address of a variable is its base or lies in it |
| `ShadowParts.RecordTrue` | vaccs_pin_cpp/libs/tables/frame.cpp:653-758 | the same for what one record reports, which is about its own variable, element or member |
| `ShadowParts.ElementAddresses` | vaccs_pin_cpp/libs/tables/frame.cpp:481-512 | a rescan lists each element of an array once, in order, at its first byte, with the value there |
| `ShadowParts.Tiling` | vaccs_pin_cpp/libs/tables/var_table.cpp:221-235 | for an array with the size that resolution gives it, the elements cover exactly the addresses that `is_at_address` accepts |
| `ShadowParts.ElementsDisjoint` | vaccs_pin_cpp/libs/tables/frame.cpp:481-512 | and no address is in two of them |
| `ShadowParts.IndexExact` | vaccs_pin_cpp/libs/tables/frame.cpp:516-517 | the index that is computed for a written address is that of its element if and only if the number of the element is below 2^31; above, it is negative |
| `ShadowParts.HitMeaning` | vaccs_pin_cpp/libs/tables/frame.cpp:611-637 | the member that a write is reported for is the first by name with the address in it; there is none exactly when no member has it |
| `ShadowParts.UniqueHit` | vaccs_pin_cpp/libs/tables/frame.cpp:611-637 | members that do not overlap there leave no choice |
| `ShadowParts.RescanPlacesExactly` | vaccs_pin_cpp/libs/tables/frame.cpp:572-596 | a rescan gives a member the right address if and only if its offset is the size of all members before it by name |
| `ScanFields.Where` | vaccs_pin_cpp/libs/tables/var_table.cpp:221-299 | a local or a parameter lies at base pointer + location, any other variable at location + data base, modulo 2^64, and has exactly the addresses from there on for its size |
| `ScanFields.KindExactly` | vaccs_pin_cpp/libs/tables/frame.cpp:428-535 | what is scanned member by member, element by element, or as one value: elements are those of an array of a known type without the letters c, h, a, r in its name |
| `ScanFields.ScalarExactly` | vaccs_pin_cpp/libs/tables/frame.cpp:538-759 | the scan of one value: looked at exactly for address 0, on the first access to the frame, or for an address in the variable; reported exactly on the first access or when the text of the bytes at its place, or at the written address, has changed; every field of the report and of the record, and the heap block of a pointer |
| `ScanFields.ArrayExactly` | vaccs_pin_cpp/libs/tables/frame.cpp:443-536 | the scan of an array: elements 0 to the bound, each at its first byte and behind one announcement exactly on a first access, when it is listed; and otherwise exactly one report, of the element with the written address, under its number and at that address |
| `ScanFields.IndexInside` | vaccs_pin_cpp/libs/tables/frame.cpp:504-521 | for an address in element i < 2^31 of an array that does not wrap, that number is i |
| `ScanFields.StructExactly` | vaccs_pin_cpp/libs/tables/frame.cpp:548-643 | the scan of a struct: all members in the order of the names, behind one announcement exactly on a first access, when it is listed; and otherwise exactly one report, of the first member with the written address, and none exactly when no member has it |
| `ScanFields.StackPart` | vaccs_pin_cpp/libs/tables/frame.cpp:403-419 | in a scan of the whole stack, what becomes of any record of any frame and what is reported of it is what its own scan does, with what was listed before or by earlier records |
| `EventFields.ReportedInOrder` | vaccs_pin_cpp/libs/tables/frame.cpp:403-419 | what a scan reports comes frame after frame, from the innermost to the globals, and in each frame record after record |
| `AddressTranslation.TranslateAddressToFunction` | vaccs_pin_cpp/libs/tables/cu_table.cpp:336-353 | the first subprogram, in key order, with the address in the first unit with it |
| `AddressTranslation.FindSubprog` | vaccs_pin_cpp/libs/tables/cu_table.cpp:54-69 | the search with its early exit finds the first subprogram with the address |
| `AddressTranslation.FindVariable` | vaccs_pin_cpp/libs/tables/var_table.cpp:134-160 | the first variable of the table at the address |
| `AddressTranslation.TranslateInUnit` | vaccs_pin_cpp/libs/tables/cu_table.cpp:109-128 | the first variable at the address in the table of the function that has the instruction |
| `AddressTranslation.TranslateAddressToVariable` | vaccs_pin_cpp/libs/tables/cu_table.cpp:281-328 | a local of the function that has the instruction, and otherwise the first global at the address, unit after unit |
| `AddressTranslation.FirstMeaning` | vaccs_pin_cpp/libs/tables/cu_table.cpp:281-328 | nothing is found exactly when nothing qualifies; what is found qualifies and nothing before it does |
| `AddressTranslation.FrameAgrees` | vaccs_pin_cpp/libs/tables/frame.cpp:314-360 | for an instruction of the function of a frame, the translation finds the variable that the frame has first at the address, and a global exactly when the frame has nothing there |
| `AddressTranslation.LiveFrameAgrees` | vaccs_pin_cpp/libs/tables/cu_table.cpp:281-328 | so it is for every frame on the stack after every run that was made for that function, with the base pointer that it was given last |
| `AddressTranslation.RunMade` | vaccs_pin_cpp/libs/tables/frame.cpp:314-360 | over every run the stack has exactly the functions that are entered and not left, each with its records, in order, and with the base pointer that it was given last: that of the caller until its setup, its own from then on |
| `TranslationFields.FunctionExactly` | vaccs_pin_cpp/libs/tables/cu_table.cpp:54-69 | the function of an instruction is the first subprogram with low + text base <= pc < high + text base modulo 2^64, in the first unit with such a range; none if no unit or no subprogram of that unit has it |
| `TranslationFields.VariableExactly` | vaccs_pin_cpp/libs/tables/cu_table.cpp:281-353 | the variable at an address is the first local of that function that has it, by base pointer + location for locals and parameters; otherwise the first of the first unit that has one; none exactly when there is neither |
| `Monitor.OnReleased` | pin/source/tools/PAS/malloc_free.cpp:54-60 | a free as the tool does it, the stack first and then the heap map, is the step of a run in which the map comes first |
| `Monitor.OnSetup` | pin/source/tools/PAS/monitor_registers.cpp:56-92 | the first instruction of a function behind its entry code: new context, full scan, check of the links, flag cleared, in this order, on the objects; nothing for a function that is set up |
| `EventFields.EnterEffect` | pin/source/tools/PAS/functionInvocation.cpp:76-192 | field by field: a function that is entered has a frame in front of all others, with the base pointer of its caller and a record without a value for each of its variables, and the words 8 and 16 above as its links; nothing else changes |
| `EventFields.SetupEffect` | pin/source/tools/PAS/monitor_registers.cpp:56-92 | field by field: the innermost frame alone gets its own base pointer and is past its setup, everything is scanned with it, and then every link is checked and saved; at a function past its setup nothing happens |
| `EventFields.AccessEffect` | pin/source/tools/PAS/memory_access.cpp:122-152 | field by field: a write is followed by a scan of its address and a check of the links exactly when the innermost function is past its setup, a library call by a full scan and a check |
| `EventFields.HeapEffect` | pin/source/tools/PAS/malloc_free.cpp:54-60 | field by field: an allocation adds its block unless one starts there, a free takes the block that has the address out of the map and out of every record of the stack, not of the globals, and nothing else changes |
| `Monitor.Perform` | pin/source/tools/PAS/functionInvocation.cpp:76-192 | one event, performed on the stack and the heap map: they end up showing the step of the run, and what is reported is what the step adds to its log, its link records and its alarms; it cannot happen exactly at a call of no known function and a return from no frame, and then nothing changes |
| `Monitor.Drive` | pin/source/tools/PAS/memory_access.cpp:122-152 | any sequence of events up to one that cannot happen: the objects end in the state of the run of their steps, and what has been reported is what the run reports; a write is looked at only when the innermost function is set up |
| `Monitor.MonitorProgram` | pin/source/tools/PAS/function_call.cpp:79-93 | from fresh objects through any events: the result is that of the run of their steps from the start; so the reports tell, record by record, every value that was stored, the links are in step, and no frame of the stack refers to a freed block |
| `Monitor.MonitoredFrameAgrees` | vaccs_pin_cpp/libs/tables/cu_table.cpp:281-353 | after any events the stack has exactly the functions entered and not left, each with the base pointer that it was given last, and for each the translation, for any instruction of that function, finds the variable that its frame has first at the address, and a global exactly when it has none |
| `LoadedViews.ParsedShape` | vaccs_pin_cpp/libs/vaccs_read/vaccs_dw_reader.cpp:124-130 | whatever bytes are loaded: a table behind every subprogram and nowhere else, a member table behind every struct and nowhere else, at every depth |
| `LoadedViews.ViewsWf` | vaccs_pin_cpp/libs/tables/var_table.cpp:695-777 | loaded variables with types that are there are what the making of member tables asks for |
| `LoadedViews.LoadedPremises` | vaccs_pin_cpp/libs/vaccs_read/vaccs_dw_reader.cpp:307-334 | for whatever file is loaded, if its types are there, structs do not lie in themselves and arrays are sized: all that member tables, translation and shadow stack take for granted |
| `ViewFields.UnitFields` | vaccs_pin_cpp/libs/vaccs_read/vaccs_dw_reader.cpp:307-334 | the program made of a loaded file, field by field: units in order with their ranges, subprograms with their ranges and local variables, variables with type, place and flags, and members at every depth, each at the first byte of its variable + offsets |
| `Monitor.LoadedCanBeMonitored` | vaccs_pin_cpp/libs/vaccs_read/vaccs_dw_reader.cpp:307-334 | so every program with such a file can be monitored through whatever events |
| `WholeProgram.OthersSized` | vaccs_dwarf/libs/tables/vdw_type_table.cpp:165-168 | of files that the walk wrote, every array whose elements are no arrays has elements of some size or no bytes |
| `WholeProgram.WalkCanBeMonitored` | vaccs_dwarf/libs/read/dw_reader.cpp:401-453 | whatever the debugging information: if the walk completes, types can be resolved and are there, and a key means one type, the file is loaded and the program can be monitored; of arrays it is asked only that they have fewer than 2^32 elements and that elements which are arrays have some size |

## Left out

- MarkDataClearStatus: the history of marks is a ghost field; a mark on a type that the type table does not know is a precondition, where the source follows a null pointer.
- GetUpdatedArrayElements: an array with 2^32 elements or more is excluded, because the 32-bit counter of the source then never ends its loop, and so is a written address in an array with an element size of 0 and a size that is not 0, by which the source divides.
- GetUpdatedStructMembers: the scope of a variable is an uninterpreted name, and the fields for what a pointer points to are not modelled.
- CheckScalar: `points_to_value` is not modelled, nor are the scans for updated targets of pointers.
- Push: the text base address is a parameter.
- AnalyserSeesTheWalk: tables and strings are taken to be shorter than 2^64, and the const chains of the debugging information to end; the values of the standard streams are parameters.
- LoadedArray: a key is taken to mean one type in all units that have it, since the first unit wins.
- Drive: the events are a parameter; `in_user_code` and line numbers, which decide which instructions are events, are left out.
- WriteUpdates: the field for the target of a pointer is a parameter, which the source leaves unset in some updates; link records and others that are written in between are not interleaved.
- CreateMemberTables: a depth of nesting of the structs stands for their being nested by value at all; `start_pc` is not among the fields of a record here.
- AddRecords: that the type table knows the types of the variables is a precondition of `Push`.
- FindSubprog: the list of pointers to an address (`translate_address_to_pointer_list`) and the names of scopes (`get_scope`) are left out.
- Who asks whether data is clear or set, and the events that result, are not part of this model.
- The tables of the walk over debugging entries are named by their places in a store, since records refer to tables and types to records while both still change; aliasing there is equality of places.
- In the walk, attributes are looked up already: libelfin, line tables, location expressions and exceptions in the middle of a unit (which would leave the scope stack as it is) are not modelled.
- `arch_record`, whose `read` does not match its `write`, and the reading of records with the ids of file operations: such an id ends the reading of a trace in the model.
- The end of a file counts as a read error, as it does for the readers, which ask for the error only.
- The table writers of the analysing side (`var_record::write`, `type_record::write`), which omit fields that the reader expects.
- `read_struct_value`, `read_array_value` and the rendering of single values.
- The first-access flags of variables are kept as a set of identities on the stack; the flags `sensitive_data` are left out.
- Heap blocks have an identity, a start and a size; copies of their contents, event ids and the bounds of the heap are left out.
- Signal handlers, saved processor contexts and operating-system calls: a context is its base pointer, memory is a map from addresses to bytes.
- Configuration, error texts, the table of file descriptors, and what else is under `pin/`.
