// What the resolution of types makes of one type, field by field: the type that a pointer
// or an array names, the names byte by byte, and the sizes.
module NameFields {
  import opened Words
  import opened SymbolTables
  import opened DebugFile
  import opened TypeResolution

  // Each key is one of a const type that is made of the next, up to the last, which is that
  // of a type that is not const.
  ghost predicate IsChain(t: Table<TypeRec>, keys: seq<Key>) {
    && keys != []
    && (forall i :: 0 <= i < |keys| ==> Lookup(t, keys[i]).Some?)
    && (forall i :: 0 <= i < |keys| - 1 ==>
          Lookup(t, keys[i]).value.isConst && Lookup(t, keys[i]).value.base == Some(keys[i + 1]))
    && !Lookup(t, keys[|keys| - 1]).value.isConst
  }

  // The keys on the way of the recursion.
  ghost function ChainFrom(t: Table<TypeRec>, key: Key, n: nat): seq<Key>
    requires EndsIn(t, key, n)
    decreases n
  {
    var r := Lookup(t, key).value;
    if r.isConst then [key] + ChainFrom(t, r.base.value, n - 1) else [key]
  }

  lemma {:induction false} ChainExactly(t: Table<TypeRec>, key: Key, n: nat)
    requires EndsIn(t, key, n)
    ensures var keys := ChainFrom(t, key, n);
            IsChain(t, keys) && keys[0] == key && keys[|keys| - 1] == EndIn(t, key, n)
    decreases n
  {
    var r := Lookup(t, key).value;
    if r.isConst {
      ChainExactly(t, r.base.value, n - 1);
      var keys, tail := ChainFrom(t, key, n), ChainFrom(t, r.base.value, n - 1);
      assert keys[1..] == tail;
      forall i | 0 <= i < |keys| ensures Lookup(t, keys[i]).Some? {
        assert i > 0 ==> keys[i] == tail[i - 1];
      }
      forall i | 0 <= i < |keys| - 1
        ensures Lookup(t, keys[i]).value.isConst && Lookup(t, keys[i]).value.base == Some(keys[i + 1])
      {
        assert keys[i + 1] == tail[i] && (i > 0 ==> keys[i] == tail[i - 1]);
      }
    }
  }

  // There is one chain from a key on.
  lemma {:induction false} OneChain(t: Table<TypeRec>, keys: seq<Key>, keys': seq<Key>)
    requires IsChain(t, keys) && IsChain(t, keys') && keys[0] == keys'[0]
    ensures keys == keys'
    decreases |keys|
  {
    assert |keys| == 1 <==> |keys'| == 1;
    if |keys| > 1 {
      TailChain(t, keys);
      TailChain(t, keys');
      OneChain(t, keys[1..], keys'[1..]);
      assert keys == [keys[0]] + keys[1..] && keys' == [keys'[0]] + keys'[1..];
    }
  }

  lemma TailChain(t: Table<TypeRec>, keys: seq<Key>)
    requires IsChain(t, keys) && |keys| > 1
    ensures IsChain(t, keys[1..])
  {
    var tail := keys[1..];
    forall i | 0 <= i < |tail| ensures Lookup(t, tail[i]).Some? {
      assert tail[i] == keys[i + 1];
    }
    forall i | 0 <= i < |tail| - 1
      ensures Lookup(t, tail[i]).value.isConst && Lookup(t, tail[i]).value.base == Some(tail[i + 1])
    {
      assert tail[i] == keys[i + 1] && tail[i + 1] == keys[i + 2];
    }
  }

  // The first pass: a pointer or an array names the type at the end of the chain from the
  // one that it named before, and nothing else changes.
  lemma RebasedFields(t: Table<TypeRec>, u: Table<TypeRec>, i: nat)
    requires Closed(t) && IsRebased(t, u) && i < |t|
    ensures |u| == |t| && u[i].key == t[i].key && u[i].rec == t[i].rec.(base := u[i].rec.base)
    ensures !t[i].rec.isPointer && !t[i].rec.isArray ==> u[i].rec.base == t[i].rec.base
    ensures t[i].rec.isPointer || t[i].rec.isArray ==>
              exists keys :: IsChain(t, keys) && t[i].rec.base == Some(keys[0]) &&
                             u[i].rec.base == Some(keys[|keys| - 1])
  {
    hide IsChain, Sorted;
    var r := t[i].rec;
    assert ClosedRec(t, r);
    if Derived(r) {
      var key := r.base.value;
      var n :| EndsIn(t, key, n);
      ChainEndIs(t, key, n);
      ChainExactly(t, key, n);
    }
  }

  // The second pass: what a type that is named after another takes from it, as it is when
  // its own turn comes: a pointer its name with a star, an array its name with brackets
  // and, for each index up to the bound, its size, and a const type its name behind the
  // word. The name of a typedef gets its word.
  lemma FinalFields(u: Table<TypeRec>, i: nat)
    requires Ready(u) && i < |u|
    ensures var r, f := u[i].rec, Final(u, i);
            if r.isPointer || r.isArray || r.isConst then
              exists b :: && 0 <= b < |u| && r.base == Some(u[b].key)
                          && TakesFrom(r, if b < i then Final(u, b) else u[b].rec, f)
            else f == r.(name := if r.isTypedef then Some([0x74, 0x79, 0x70, 0x65, 0x64, 0x65, 0x66, 0x20] +
                                                          r.name.value) else r.name)
  {
    var r := u[i].rec;
    assert STAR == [0x2A] && BRACKETS == [0x5B, 0x5D] && CONST_SPACE == [0x63, 0x6F, 0x6E, 0x73, 0x74, 0x20];
    assert TYPEDEF_SPACE == [0x74, 0x79, 0x70, 0x65, 0x64, 0x65, 0x66, 0x20];
    if Named(r) {
      var b := BaseIndex(u, i);
      assert u[b].key == r.base.value;
      assert TakesFrom(r, if b < i then Final(u, b) else u[b].rec, Final(u, i));
    }
  }

  predicate TakesFrom(r: TypeRec, base: TypeRec, f: TypeRec) {
    var name := if base.name.Some? then base.name.value else [];
    && f == r.(name := f.name, size := f.size)
    && f.name == Some(if r.isPointer then name + [0x2A] else if r.isArray then name + [0x5B, 0x5D]
                      else [0x63, 0x6F, 0x6E, 0x73, 0x74, 0x20] + name)
    && f.size == if r.isArray && !r.isPointer
                 then (base.size * ((r.upperBound + 1) % 0x1_0000_0000_0000_0000)) % 0x1_0000_0000_0000_0000
                 else r.size
  }

  // The keys of a table are in lexicographic order: at the first difference, the byte is
  // smaller, or there is none.
  lemma {:induction false} LessExactly(a: Key, b: Key)
    ensures Less(a, b) <==> exists i :: DiffersAt(a, b, i)
  {
    if a != [] && b != [] && a[0] == b[0] {
      LessExactly(a[1..], b[1..]);
      if i :| DiffersAt(a[1..], b[1..], i) {
        assert a == [a[0]] + a[1..] && b == [b[0]] + b[1..];
        assert a[..i + 1] == [a[0]] + a[1..][..i] && b[..i + 1] == [b[0]] + b[1..][..i];
        assert DiffersAt(a, b, i + 1);
      }
      if i :| DiffersAt(a, b, i) {
        assert i > 0;
        assert a[1..][..i - 1] == a[..i][1..] && b[1..][..i - 1] == b[..i][1..];
        assert DiffersAt(a[1..], b[1..], i - 1);
      }
    } else {
      assert Less(a, b) ==> DiffersAt(a, b, 0);
      assert forall i :: DiffersAt(a, b, i) ==> a[..i] == b[..i] && (i > 0 ==> a[..i][0] == b[..i][0]);
    }
  }

  ghost predicate DiffersAt(a: Key, b: Key, i: int) {
    0 <= i <= |a| && i < |b| && a[..i] == b[..i] && (i == |a| || a[i] < b[i])
  }
}
