// The walk over the tree of debugging information entries (DWARF Version 4) that
// builds the symbol tables. Tables and type records are objects that others point
// to; here they live in two stores and are named by their places in them.
module DieWalk {
  import opened Words
  import opened SymbolTables
  import opened AsciiText

  // ------------------------------------------------------------------ entries

  // The tags that the walk reacts to.
  datatype Tag =
    | BaseType | ArrayType | Subprogram | Variable | FormalParameter | SubrangeType
    | PointerType | StructType | Member | Typedef | ConstType | OtherTag

  // An entry with those attributes that are read, already looked up: the path of
  // the declaring file, the value of the location expression, and the first line
  // of a subprogram behind its declaration.
  datatype Die = Die(tag: Tag, offset: Key, name: Option<seq<byte>>, typ: Option<Key>, byteSize: Option<u64>,
                     upperBound: Option<u64>, lowPc: Option<u64>, highPc: Option<u64>, declFile: seq<byte>,
                     declLine: Option<u64>, location: Option<u64>, startPc: u64, children: seq<Die>)

  const VOID := Ascii("void")
  const WORD_SIZE: u64 := 8

  function Name(d: Die): seq<byte> { d.name.GetOr(Ascii("<none>")) }

  function TypeOf(d: Die): Key { d.typ.GetOr(VOID) }

  // ------------------------------------------------------------------ state

  // A table id; the table of globals is number 0.
  type TableId = nat

  const GLOBALS: TableId := 0

  datatype VarRec = VarRec(isLocal: bool, isParam: bool, declFile: seq<byte>, declLine: u64, lowPc: u64, highPc: u64,
                           startPc: u64, location: u64, typ: Key, isSubprog: bool, local: Option<TableId>)

  datatype TypeRec = TypeRec(size: u64, name: Option<seq<byte>>, isArray: bool, upperBound: u64, isPointer: bool,
                             isStruct: bool, isConst: bool, isTypedef: bool, base: Option<Key>,
                             members: Option<TableId>)

  const NEW_TYPE := TypeRec(MINUS_ONE, None, false, MINUS_ONE, false, false, false, false, None, None)

  datatype State = State(
    stack: seq<TableId>,             // the scopes, innermost first
    tables: seq<Table<VarRec>>,      // every variable table made so far
    types: Table<nat>,               // the type table of the unit, naming records
    recs: seq<TypeRec>,              // every type record made so far
    lastArray: Option<nat>,
    lastStruct: Option<nat>)

  // ------------------------------------------------------------------ one entry

  function PutType(s: State, k: Key, r: TypeRec): State {
    s.(types := Put<nat>(s.types, k, |s.recs|), recs := s.recs + [r])
  }

  function PutVar(s: State, t: TableId, k: Key, r: VarRec): State {
    if t < |s.tables| then s.(tables := s.tables[t := Put(s.tables[t], k, r)]) else s
  }

  function ArrayRec(d: Die): TypeRec {
    NEW_TYPE.(name := Some(Ascii("<array>")), isArray := true, base := Some(TypeOf(d)), size := WORD_SIZE)
  }

  function PointerRec(d: Die): TypeRec {
    NEW_TYPE.(name := Some(Ascii("<pointer>")), isPointer := true, base := Some(TypeOf(d)),
              size := d.byteSize.GetOr(WORD_SIZE))
  }

  // `add_upper_bound`: a further dimension multiplies the size and shows in the
  // name; the bound that is kept is that of the last dimension.
  function Bounded(r: TypeRec, ub: u64): TypeRec {
    r.(upperBound := ub, size := Mul(r.size, Add(ub, 1)),
       name := Some(r.name.GetOr([]) + Ascii("[") + Decimal(ub) + Ascii("]")))
  }

  // An array with several dimensions.
  function BoundedAll(r: TypeRec, ubs: seq<u64>): TypeRec
    decreases |ubs|
  {
    if ubs == [] then r else BoundedAll(Bounded(r, ubs[0]), ubs[1..])
  }

  function ElementCount(ubs: seq<u64>): nat { if ubs == [] then 1 else (ubs[0] + 1) * ElementCount(ubs[1..]) }

  // All dimensions go into the size that the walk gives it, but of the bounds only
  // the last one is kept.
  lemma {:induction false} SeveralBounds(r: TypeRec, ubs: seq<u64>)
    requires ubs != []
    ensures BoundedAll(r, ubs).upperBound == ubs[|ubs| - 1]
    ensures BoundedAll(r, ubs).size == Wrap(r.size * ElementCount(ubs))
    ensures BoundedAll(r, ubs).isArray == r.isArray && BoundedAll(r, ubs).isPointer == r.isPointer
    decreases |ubs|
  {
    var r' := Bounded(r, ubs[0]);
    var n := ElementCount(ubs[1..]);
    hide Bounded, Ascii, Decimal;
    BoundedSize(r, ubs[0]);
    var size: nat := r.size;
    var ub: int := ubs[0];
    var k: nat := ub + 1;
    WrapTimes(size * k, n);
    TimesAssociative(size, k, n);
    if |ubs| > 1 {
      SeveralBounds(r', ubs[1..]);
    } else {
      assert BoundedAll(r, ubs) == r' && n == 1;
    }
  }

  // The number of elements as the last bound alone tells it.
  function LastCount(ubs: seq<u64>): nat
    requires ubs != []
  {
    var last: int := ubs[|ubs| - 1]; last + 1
  }

  // It is their number exactly when all other bounds are 0.
  lemma {:induction false} LastCountsExactly(ubs: seq<u64>)
    requires ubs != []
    ensures ElementCount(ubs) >= LastCount(ubs)
    ensures ElementCount(ubs) == LastCount(ubs) <==> forall k :: 0 <= k < |ubs| - 1 ==> ubs[k] == 0
  {
    var first: nat := ubs[0];
    var tail := ubs[1..];
    var n := ElementCount(tail);
    assert ElementCount(ubs) == (first + 1) * n;
    if |ubs| > 1 {
      LastCountsExactly(tail);
      assert LastCount(ubs) == LastCount(tail);
      assert forall k :: 0 <= k < |tail| ==> tail[k] == ubs[k + 1];
      MoreTimes(first, n);
    }
  }

  lemma MoreTimes(more: nat, n: nat)
    requires n > 0
    ensures (more + 1) * n >= n
    ensures (more + 1) * n == n <==> more == 0
  {}

  lemma BoundedSize(r: TypeRec, ub: u64)
    ensures Bounded(r, ub).size == Wrap(r.size * (ub + 1)) && Bounded(r, ub).upperBound == ub
    ensures Bounded(r, ub).isArray == r.isArray && Bounded(r, ub).isPointer == r.isPointer
  {
    hide Ascii, Decimal;
    TimesNext(r.size, ub);
  }

  lemma TimesNext(a: u64, ub: u64)
    ensures Mul(a, Add(ub, 1)) == Wrap(a * (ub + 1))
  {
    if ub + 1 == TWO_64 {
      WrapShift(0, a);
    }
  }

  lemma TimesAssociative(a: nat, b: nat, c: nat)
    ensures (a * b) * c == a * (b * c)
  {}

  lemma WrapTimes(x: nat, n: nat)
    ensures Wrap(Wrap(x) * n) == Wrap(x * n)
  {
    var q := x / TWO_64;
    var w := x % TWO_64;
    assert x == q * TWO_64 + w;
    assert x * n == (q * n) * TWO_64 + w * n by {
      TimesAssociative(q, TWO_64, n);
      TimesAssociative(q, n, TWO_64);
    }
    WrapShift(w * n, q * n);
  }

  function SubprogramRec(d: Die, local: TableId): VarRec {
    VarRec(false, false, d.declFile, d.declLine.GetOr(0), d.lowPc.GetOr(0), d.highPc.GetOr(0), d.startPc, 0,
           TypeOf(d), true, Some(local))
  }

  function VariableRec(d: Die, isParam: bool, isLocal: bool, location: u64): VarRec {
    VarRec(isLocal, isParam, d.declFile, d.declLine.GetOr(0), MINUS_ONE, MINUS_ONE, 0, location, TypeOf(d), false, None)
  }

  // What the walk does at one entry, before it goes on to the children. None
  // where it would follow a null pointer: a bound before any array, a member
  // before any struct.
  function Enter(s: State, d: Die): (r: Option<State>)
    requires s.stack != []
    ensures r.Some? ==> r.value.stack == if d.tag.Subprogram? then [|s.tables|] + s.stack else s.stack
  {
    match d.tag
    case BaseType =>
      Some(PutType(s, d.offset, NEW_TYPE.(name := Some(Name(d)), size := d.byteSize.GetOr(WORD_SIZE))))
    case ArrayType => Some(PutType(s, d.offset, ArrayRec(d)).(lastArray := Some(|s.recs|)))
    case Subprogram =>
      var local := |s.tables|;
      var s' := PutVar(s.(tables := s.tables + [[]]), s.stack[0], Name(d), SubprogramRec(d, local));
      Some(s'.(stack := [local] + s.stack))
    case Variable => Some(EnterVariable(s, d, false))
    case FormalParameter => Some(EnterVariable(s, d, true))
    case SubrangeType =>
      if s.lastArray.None? || s.lastArray.value >= |s.recs| then None
      else Some(s.(recs := s.recs[s.lastArray.value := Bounded(s.recs[s.lastArray.value], d.upperBound.GetOr(1))]))
    case PointerType => Some(PutType(s, d.offset, PointerRec(d)))
    case StructType =>
      var r := NEW_TYPE.(name := Some(Ascii("struct ") + Name(d)), isStruct := true,
                         size := d.byteSize.GetOr(WORD_SIZE), members := Some(|s.tables|));
      Some(PutType(s.(tables := s.tables + [[]]), d.offset, r).(lastStruct := Some(|s.recs|)))
    case Member =>
      var m :- LastMembers(s);
      Some(PutVar(s, m, Name(d), VariableRec(d, false, false, d.location.GetOr(0))))
    case Typedef =>
      Some(PutType(s, d.offset,
                   NEW_TYPE.(name := Some(Name(d)), size := d.byteSize.GetOr(WORD_SIZE), isTypedef := true)))
    case ConstType => Some(PutType(s, d.offset, NEW_TYPE.(base := Some(TypeOf(d)), isConst := true)))
    case OtherTag => Some(s)
  }

  // The member table of the struct that was seen last.
  function LastMembers(s: State): Option<TableId> {
    if s.lastStruct.Some? && s.lastStruct.value < |s.recs| then s.recs[s.lastStruct.value].members else None
  }

  // A variable without a location leaves no trace. It is local when some
  // subprogram is open and it is not a parameter.
  function EnterVariable(s: State, d: Die, isParam: bool): State
    requires s.stack != []
  {
    if d.location.None? then s
    else PutVar(s, s.stack[0], Name(d), VariableRec(d, isParam, |s.stack| > 1 && !isParam, d.location.value))
  }

  // ------------------------------------------------------------------ the walk

  function Visit(s: State, d: Die): (r: Option<State>)
    requires s.stack != []
    ensures r.Some? ==> r.value.stack == s.stack
    decreases d, 1
  {
    var s' :- Enter(s, d);
    var s'' :- VisitAll(s', d.children);
    Some(if d.tag.Subprogram? then s''.(stack := s''.stack[1..]) else s'')
  }

  function VisitAll(s: State, ds: seq<Die>): (r: Option<State>)
    requires s.stack != []
    ensures r.Some? ==> r.value.stack == s.stack
    decreases ds, 0
  {
    if ds == [] then Some(s)
    else
      var s' :- Visit(s, ds[0]);
      VisitAll(s', ds[1..])
  }

  // ------------------------------------------------------------------ an array and its bounds

  // The entries are bounds with nothing below them.
  predicate AreBounds(ds: seq<Die>) { forall d <- ds :: d.tag.SubrangeType? && d.children == [] }

  function Bounds(ds: seq<Die>): seq<u64> {
    if ds == [] then [] else [ds[0].upperBound.GetOr(1)] + Bounds(ds[1..])
  }

  lemma {:induction false} VisitBounds(s: State, ds: seq<Die>, k: nat)
    requires s.stack != [] && AreBounds(ds) && s.lastArray == Some(k) && k < |s.recs|
    ensures VisitAll(s, ds) == Some(s.(recs := s.recs[k := BoundedAll(s.recs[k], Bounds(ds))]))
    decreases |ds|
  {
    hide Bounded;
    if ds == [] {
      assert s.recs[k := s.recs[k]] == s.recs;
    } else {
      var d := ds[0];
      assert d in ds;
      var r := Bounded(s.recs[k], d.upperBound.GetOr(1));
      var s' := s.(recs := s.recs[k := r]);
      assert VisitAll(s', d.children) == Some(s');
      assert Visit(s, d) == Some(s');
      VisitBounds(s', ds[1..], k);
      assert s'.recs[k := BoundedAll(r, Bounds(ds[1..]))] == s.recs[k := BoundedAll(s.recs[k], Bounds(ds))];
    }
  }

  // The entry of an array with its bounds below it makes one record, with all of them.
  lemma VisitArray(s: State, d: Die)
    requires s.stack != [] && d.tag.ArrayType? && AreBounds(d.children)
    ensures Visit(s, d) ==
            Some(s.(types := Put<nat>(s.types, d.offset, |s.recs|),
                    recs := s.recs + [BoundedAll(ArrayRec(d), Bounds(d.children))], lastArray := Some(|s.recs|)))
  {
    hide BoundedAll, ArrayRec;
    var k := |s.recs|;
    var s1 := Enter(s, d).value;
    VisitBounds(s1, d.children, k);
    assert s1.recs[k := BoundedAll(ArrayRec(d), Bounds(d.children))] ==
           s.recs + [BoundedAll(ArrayRec(d), Bounds(d.children))];
  }

  class DwReader {
    var stack: seq<TableId>
    var tables: seq<Table<VarRec>>
    var types: Table<nat>
    var recs: seq<TypeRec>
    var lastArray: Option<nat>
    var lastStruct: Option<nat>

    function Now(): State
      reads this
    {
      State(stack, tables, types, recs, lastArray, lastStruct)
    }

    constructor ()
      ensures Now() == START
    {
      stack, tables, types, recs, lastArray, lastStruct := [GLOBALS], [[]], [], [], None, None;
    }

    method PutTypeRecord(k: Key, r: TypeRec)
      modifies this
      ensures Now() == PutType(old(Now()), k, r)
    {
      types := Put<nat>(types, k, |recs|);
      recs := recs + [r];
    }

    method PutVariable(t: TableId, k: Key, r: VarRec)
      modifies this
      ensures Now() == PutVar(old(Now()), t, k, r)
    {
      if t < |tables| {
        tables := tables[t := Put(tables[t], k, r)];
      }
    }

    method ProcessSubprogramDie(d: Die)
      requires stack != [] && d.tag.Subprogram?
      modifies this
      ensures Enter(old(Now()), d) == Some(Now())
    {
      var local := |tables|;
      tables := tables + [[]];
      PutVariable(stack[0], Name(d), SubprogramRec(d, local));
      stack := [local] + stack;
    }

    method ProcessVariableDie(d: Die, isParam: bool)
      requires stack != []
      modifies this
      ensures Now() == EnterVariable(old(Now()), d, isParam)
    {
      if d.location.Some? {
        PutVariable(stack[0], Name(d), VariableRec(d, isParam, |stack| > 1 && !isParam, d.location.value));
      }
    }

    method ProcessStructTypeDie(d: Die)
      requires stack != [] && d.tag.StructType?
      modifies this
      ensures Enter(old(Now()), d) == Some(Now())
    {
      var r := NEW_TYPE.(name := Some(Ascii("struct ") + Name(d)), isStruct := true,
                         size := d.byteSize.GetOr(WORD_SIZE), members := Some(|tables|));
      tables := tables + [[]];
      lastStruct := Some(|recs|);
      PutTypeRecord(d.offset, r);
    }

    // The switch over the tag.
    method ProcessDie(d: Die) returns (ok: bool)
      requires stack != []
      modifies this
      ensures match Enter(old(Now()), d)
              case None => !ok
              case Some(s) => ok && Now() == s
    {
      ok := true;
      match d.tag {
        case BaseType =>
          PutTypeRecord(d.offset, NEW_TYPE.(name := Some(Name(d)), size := d.byteSize.GetOr(WORD_SIZE)));
        case ArrayType =>
          lastArray := Some(|recs|);
          PutTypeRecord(d.offset, ArrayRec(d));
        case Subprogram => ProcessSubprogramDie(d);
        case Variable => ProcessVariableDie(d, false);
        case FormalParameter => ProcessVariableDie(d, true);
        case SubrangeType =>
          if lastArray.None? || lastArray.value >= |recs| { return false; }
          recs := recs[lastArray.value := Bounded(recs[lastArray.value], d.upperBound.GetOr(1))];
        case PointerType => PutTypeRecord(d.offset, PointerRec(d));
        case StructType => ProcessStructTypeDie(d);
        case Member =>
          var m := LastMembers(Now());
          if m.None? { return false; }
          PutVariable(m.value, Name(d), VariableRec(d, false, false, d.location.GetOr(0)));
        case Typedef =>
          PutTypeRecord(d.offset,
                        NEW_TYPE.(name := Some(Name(d)), size := d.byteSize.GetOr(WORD_SIZE), isTypedef := true));
        case ConstType => PutTypeRecord(d.offset, NEW_TYPE.(base := Some(TypeOf(d)), isConst := true));
        case OtherTag =>
      }
    }

    method ProcessDieTree(d: Die) returns (ok: bool)
      requires stack != []
      modifies this
      ensures match Visit(old(Now()), d)
              case None => !ok
              case Some(s) => ok && Now() == s
      decreases d
    {
      hide Enter;
      ok := ProcessDie(d);
      if !ok { return; }
      ghost var start := Now();
      var i := 0;
      while i < |d.children|
        invariant i <= |d.children|
        invariant stack == start.stack
        invariant VisitAll(Now(), d.children[i..]) == VisitAll(start, d.children)
      {
        ok := ProcessDieTree(d.children[i]);
        assert d.children[i..][1..] == d.children[i + 1..];
        if !ok { return; }
        i := i + 1;
      }
      if d.tag.Subprogram? {
        stack := stack[1..];
      }
      ok := true;
    }
  }

  const START := State([GLOBALS], [[]], [], [], None, None)
}
