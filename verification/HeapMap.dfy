// The map of live heap blocks, ordered by start address, with searches that stop
// early.
module HeapMap {
  import opened Words

  // A block of the heap; `id` tells apart block objects with equal fields.
  datatype Block = Block(id: nat, start: u64, size: u64) {
    predicate Contains(a: u64) { a >= start && a < Add(start, size) }

    predicate Earlier(a: u64) { a < start }

    ghost predicate NoWrap() { start + size < TWO_64 }
  }

  // The blocks of the map in iteration order.
  type Blocks = seq<Block>

  ghost predicate Ordered(bs: Blocks) {
    forall i, j :: 0 <= i < j < |bs| ==> bs[i].start < bs[j].start
  }

  // The first block that contains the address, found by looking at every block.
  function Scan(bs: Blocks, a: u64): Option<Block> {
    if bs == [] then None else if bs[0].Contains(a) then Some(bs[0]) else Scan(bs[1..], a)
  }

  // `insert`: nothing happens if some block already starts there.
  function Insert(bs: Blocks, b: Block): Blocks {
    if bs == [] then [b]
    else if b.start == bs[0].start then bs
    else if b.start < bs[0].start then [b] + bs
    else [bs[0]] + Insert(bs[1..], b)
  }

  // The map without the block that contains the address, if there is one.
  function Erase(bs: Blocks, a: u64): Blocks {
    if bs == [] then [] else if bs[0].Contains(a) then bs[1..] else [bs[0]] + Erase(bs[1..], a)
  }

  // ------------------------------------------------------------------ scans

  lemma {:induction false} ScanFrom(bs: Blocks, a: u64, i: nat)
    requires i <= |bs| && forall j :: 0 <= j < i ==> !bs[j].Contains(a)
    ensures Scan(bs, a) == Scan(bs[i..], a)
    ensures Erase(bs, a) == bs[..i] + Erase(bs[i..], a)
    decreases i
  {
    hide Block.Contains;
    if i == 0 {
      assert bs[0..] == bs && bs[..0] == [];
    } else {
      var tail := bs[1..];
      forall j | 0 <= j < i - 1 ensures !tail[j].Contains(a) {
        assert tail[j] == bs[j + 1];
      }
      ScanFrom(tail, a, i - 1);
      assert tail[i - 1..] == bs[i..];
      assert [bs[0]] + (tail[..i - 1] + Erase(bs[i..], a)) == bs[..i] + Erase(bs[i..], a);
    }
  }

  // Past an address that lies before a block, no block contains it: the early
  // exit loses nothing.
  lemma {:induction false} NoneBehind(bs: Blocks, a: u64)
    requires Ordered(bs) && (bs != [] ==> bs[0].Earlier(a))
    ensures Scan(bs, a) == None && Erase(bs, a) == bs
  {
    if bs != [] {
      assert bs == [bs[0]] + bs[1..];
      NoneBehind(bs[1..], a);
    }
  }

  // The three ways in which a search ends.
  lemma FoundAt(bs: Blocks, a: u64, i: nat)
    requires i < |bs| && bs[i].Contains(a) && forall j :: 0 <= j < i ==> !bs[j].Contains(a)
    ensures Scan(bs, a) == Some(bs[i]) && Erase(bs, a) == bs[..i] + bs[i + 1..]
  {
    ScanFrom(bs, a, i);
    assert bs[i..][1..] == bs[i + 1..];
  }

  lemma StoppedAt(bs: Blocks, a: u64, i: nat)
    requires Ordered(bs) && i <= |bs| && (i < |bs| ==> bs[i].Earlier(a))
    requires forall j :: 0 <= j < i ==> !bs[j].Contains(a)
    ensures Scan(bs, a) == None && Erase(bs, a) == bs
  {
    hide Block.Contains;
    ScanFrom(bs, a, i);
    var rest := bs[i..];
    forall j, k | 0 <= j < k < |rest| ensures rest[j].start < rest[k].start {
      assert rest[j] == bs[i + j] && rest[k] == bs[i + k];
    }
    NoneBehind(rest, a);
    assert bs[..i] + rest == bs;
  }

  lemma {:induction false} ScanMeaning(bs: Blocks, a: u64)
    ensures Scan(bs, a).None? <==> forall b <- bs :: !b.Contains(a)
    ensures Scan(bs, a).Some? ==> Scan(bs, a).value in bs && Scan(bs, a).value.Contains(a)
  {
    if bs != [] {
      ScanMeaning(bs[1..], a);
      assert bs == [bs[0]] + bs[1..];
    }
  }

  // ------------------------------------------------------------------ disjoint blocks

  ghost predicate Apart(b: Block, c: Block) {
    b.start != c.start && (b.start + b.size <= c.start || c.start + c.size <= b.start)
  }

  ghost predicate Disjoint(bs: Blocks) {
    && Ordered(bs)
    && (forall b <- bs :: b.NoWrap())
    && (forall b, c :: b in bs && c in bs && b != c ==> Apart(b, c))
  }

  lemma UniqueBlock(bs: Blocks, a: u64, b: Block)
    requires Disjoint(bs) && b in bs && b.Contains(a)
    ensures Scan(bs, a) == Some(b)
  {
    ScanMeaning(bs, a);
    var c := Scan(bs, a).value;
    assert b.NoWrap() && c.NoWrap();
    assert c == b || Apart(b, c);
  }

  lemma {:induction false} InsertMembers(bs: Blocks, b: Block)
    requires Ordered(bs)
    ensures Ordered(Insert(bs, b))
    ensures forall c :: c in Insert(bs, b) <==> c in bs || (c == b && forall d <- bs :: d.start != b.start)
  {
    if bs == [] || b.start <= bs[0].start {
      if bs != [] {
        forall d | d in bs[1..] ensures b.start < d.start {
          var j :| 1 <= j < |bs| && bs[j] == d;
        }
        assert bs == [bs[0]] + bs[1..];
      }
    } else {
      InsertMembers(bs[1..], b);
      assert bs == [bs[0]] + bs[1..];
      var u := Insert(bs[1..], b);
      forall j | 0 <= j < |u| ensures bs[0].start < u[j].start {
        assert u[j] in u;
        if u[j] in bs[1..] {
          var k :| 1 <= k < |bs| && bs[k] == u[j];
        }
      }
    }
  }

  // Erasing takes away the block that a scan finds, and no other.
  lemma {:induction false} EraseMembers(bs: Blocks, a: u64)
    requires Ordered(bs)
    ensures Ordered(Erase(bs, a))
    ensures forall c :: c in Erase(bs, a) <==> c in bs && Some(c) != Scan(bs, a)
  {
    if bs != [] {
      assert bs == [bs[0]] + bs[1..];
      NotInTail(bs);
      if !bs[0].Contains(a) {
        EraseMembers(bs[1..], a);
        ScanMeaning(bs[1..], a);
        var u := Erase(bs[1..], a);
        forall j | 0 <= j < |u| ensures bs[0].start < u[j].start {
          assert u[j] in u && u[j] in bs[1..];
          var k :| 1 <= k < |bs| && bs[k] == u[j];
        }
      }
    }
  }

  lemma NotInTail(bs: Blocks)
    requires Ordered(bs) && bs != []
    ensures bs[0] !in bs[1..]
  {
    forall k | 0 <= k < |bs[1..]| ensures bs[1..][k] != bs[0] {
      assert bs[0].start < bs[k + 1].start;
    }
  }

  // ------------------------------------------------------------------ runs

  datatype HeapOp = Added(b: Block) | Freed(a: u64)

  function After(bs: Blocks, op: HeapOp): Blocks {
    match op
    case Added(b) => Insert(bs, b)
    case Freed(a) => Erase(bs, a)
  }

  function AfterAll(bs: Blocks, ops: seq<HeapOp>): Blocks
    decreases |ops|
  {
    if ops == [] then bs else AfterAll(After(bs, ops[0]), ops[1..])
  }

  // The live blocks by set semantics: an allocation adds its block, a free takes
  // away every block that contains the address.
  ghost function Live(s: set<Block>, op: HeapOp): set<Block> {
    match op
    case Added(b) => s + {b}
    case Freed(a) => set b | b in s && !b.Contains(a)
  }

  ghost function LiveAll(s: set<Block>, ops: seq<HeapOp>): set<Block>
    decreases |ops|
  {
    if ops == [] then s else LiveAll(Live(s, ops[0]), ops[1..])
  }

  // An allocator hands out blocks that do not wrap and are apart from those live.
  ghost predicate Sound(s: set<Block>, ops: seq<HeapOp>)
    decreases |ops|
  {
    ops == [] ||
    (&& (ops[0].Added? ==> ops[0].b.NoWrap() && forall c <- s :: Apart(ops[0].b, c))
     && Sound(Live(s, ops[0]), ops[1..]))
  }

  ghost predicate Holds(bs: Blocks, s: set<Block>) { forall b :: b in bs <==> b in s }

  lemma StepHolds(bs: Blocks, s: set<Block>, op: HeapOp)
    requires Disjoint(bs) && Holds(bs, s)
    requires op.Added? ==> op.b.NoWrap() && forall c <- s :: Apart(op.b, c)
    ensures Disjoint(After(bs, op)) && Holds(After(bs, op), Live(s, op))
  {
    match op
    case Added(b) =>
      InsertMembers(bs, b);
    case Freed(a) =>
      EraseMembers(bs, a);
      ScanMeaning(bs, a);
      forall b | b in bs && b.Contains(a) ensures Scan(bs, a) == Some(b) {
        UniqueBlock(bs, a, b);
      }
  }

  // Over every sound run the map holds exactly the live blocks, and the search
  // finds the one live block that contains an address, if there is one.
  lemma {:induction false} RunHolds(bs: Blocks, s: set<Block>, ops: seq<HeapOp>, a: u64)
    requires Disjoint(bs) && Holds(bs, s) && Sound(s, ops)
    ensures var bs' := AfterAll(bs, ops); var s' := LiveAll(s, ops);
            && Disjoint(bs') && Holds(bs', s')
            && (Scan(bs', a).None? <==> forall b <- s' :: !b.Contains(a))
            && (forall b <- s' :: b.Contains(a) ==> Scan(bs', a) == Some(b))
    decreases |ops|
  {
    if ops == [] {
      ScanMeaning(bs, a);
      forall b | b in s && b.Contains(a) ensures Scan(bs, a) == Some(b) {
        UniqueBlock(bs, a, b);
      }
    } else {
      StepHolds(bs, s, ops[0]);
      RunHolds(After(bs, ops[0]), Live(s, ops[0]), ops[1..], a);
    }
  }

  // ------------------------------------------------------------------ the map

  class Map {
    var blocks: Blocks

    ghost predicate Valid()
      reads this
    {
      Ordered(blocks)
    }

    constructor ()
      ensures Valid() && blocks == []
    {
      blocks := [];
    }

    method AddBlock(b: Block)
      requires Valid()
      modifies `blocks
      ensures Valid() && blocks == Insert(old(blocks), b)
    {
      InsertMembers(blocks, b);
      blocks := Insert(blocks, b);
    }

    // The early-exit search finds what an exhaustive one would.
    method FindBlock(a: u64) returns (block: Option<Block>)
      requires Valid()
      ensures block == Scan(blocks, a)
    {
      hide Scan, Erase;
      var i := 0;
      while i < |blocks|
        invariant i <= |blocks|
        invariant forall j :: 0 <= j < i ==> !blocks[j].Contains(a)
      {
        var hb := blocks[i];
        if hb.Contains(a) {
          FoundAt(blocks, a, i);
          return Some(hb);
        } else if hb.Earlier(a) {
          StoppedAt(blocks, a, i);
          return None;
        }
        i := i + 1;
      }
      StoppedAt(blocks, a, i);
      block := None;
    }

    // Remove the block that contains the address, and return it.
    method DeleteBlock(a: u64) returns (block: Option<Block>)
      requires Valid()
      modifies `blocks
      ensures Valid() && blocks == Erase(old(blocks), a) && block == Scan(old(blocks), a)
    {
      hide Scan, Erase, Block.Contains;
      block := FindBlock(a);
      var i := 0;
      while i < |blocks|
        invariant i <= |blocks| && blocks == old(blocks)
        invariant forall j :: 0 <= j < i ==> !blocks[j].Contains(a)
      {
        var hb := blocks[i];
        if hb.Contains(a) {
          FoundAt(blocks, a, i);
          block := Some(hb);
          blocks := blocks[..i] + blocks[i + 1..];
          return;
        } else if hb.Earlier(a) {
          StoppedAt(blocks, a, i);
          return;
        }
        i := i + 1;
      }
      StoppedAt(blocks, a, i);
    }
  }
}
