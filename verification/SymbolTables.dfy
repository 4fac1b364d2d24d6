// The symbol tables: ordered maps from strings, iterated in key order, whose
// `put` never replaces an entry that is already there.
module SymbolTables {
  import opened Words

  type Key = seq<byte>

  datatype Entry<+V> = Entry(key: Key, rec: V)

  // The entries in iteration order.
  type Table<+V> = seq<Entry<V>>

  // The order of `std::string`: lexicographic, bytes compared as unsigned.
  predicate Less(a: Key, b: Key) {
    b != [] && (a == [] || a[0] < b[0] || (a[0] == b[0] && Less(a[1..], b[1..])))
  }

  lemma {:induction false} LessIrreflexive(a: Key)
    ensures !Less(a, a)
  {
    if a != [] {
      LessIrreflexive(a[1..]);
    }
  }

  lemma {:induction false} LessTransitive(a: Key, b: Key, c: Key)
    requires Less(a, b) && Less(b, c)
    ensures Less(a, c)
  {
    if a != [] && a[0] == b[0] == c[0] {
      LessTransitive(a[1..], b[1..], c[1..]);
    }
  }

  lemma {:induction false} LessTotal(a: Key, b: Key)
    ensures a == b || Less(a, b) || Less(b, a)
  {
    if a != [] && b != [] && a[0] == b[0] {
      LessTotal(a[1..], b[1..]);
      assert a == [a[0]] + a[1..] && b == [b[0]] + b[1..];
    }
  }

  // The invariant of the map: keys strictly increase.
  ghost predicate Sorted<V>(t: Table<V>) {
    forall i, j :: 0 <= i < j < |t| ==> Less(t[i].key, t[j].key)
  }

  function Lookup<V>(t: Table<V>, k: Key): Option<V> {
    if t == [] then None
    else if t[0].key == k then Some(t[0].rec)
    else Lookup(t[1..], k)
  }

  function OrElse<V>(a: Option<V>, b: Option<V>): Option<V> {
    if a.Some? then a else b
  }

  // `put`: insert unless the key is taken.
  function Put<V>(t: Table<V>, k: Key, v: V): Table<V> {
    if t == [] then [Entry(k, v)]
    else if t[0].key == k then t
    else if Less(k, t[0].key) then [Entry(k, v)] + t
    else [t[0]] + Put(t[1..], k, v)
  }

  function PutAll<V>(t: Table<V>, es: Table<V>): Table<V>
    decreases |es|
  {
    if es == [] then t else PutAll(Put(t, es[0].key, es[0].rec), es[1..])
  }

  // Every entry of a table after a put was there before or is the new one.
  lemma {:induction false} PutMembers<V>(t: Table<V>, k: Key, v: V)
    ensures forall e :: e in Put(t, k, v) ==> e in t || e == Entry(k, v)
    ensures forall e :: e in t ==> e in Put(t, k, v)
    ensures |t| <= |Put(t, k, v)| <= |t| + 1
  {
    if t != [] && t[0].key != k && !Less(k, t[0].key) {
      PutMembers(t[1..], k, v);
      assert t == [t[0]] + t[1..];
    }
  }

  lemma {:induction false} PutSorted<V>(t: Table<V>, k: Key, v: V)
    requires Sorted(t)
    ensures Sorted(Put(t, k, v))
  {
    if t != [] && t[0].key != k {
      if Less(k, t[0].key) {
        forall j | 0 <= j < |t| ensures Less(k, t[j].key) {
          if j > 0 {
            LessTransitive(k, t[0].key, t[j].key);
          }
        }
      } else {
        LessTotal(k, t[0].key);
        PutSorted(t[1..], k, v);
        PutMembers(t[1..], k, v);
        var u := Put(t[1..], k, v);
        forall j | 0 <= j < |u| ensures Less(t[0].key, u[j].key) {
          assert u[j] in u;
        }
      }
    }
  }

  // First wins: a put answers the lookups of a new key and disturbs no other.
  lemma {:induction false} PutLookup<V>(t: Table<V>, k: Key, v: V, k': Key)
    requires Sorted(t)
    ensures Lookup(Put(t, k, v), k') == OrElse(Lookup(t, k'), if k' == k then Some(v) else None)
  {
    if t == [] {
    } else if t[0].key == k {
    } else if Less(k, t[0].key) {
      if k' == k {
        AbsentBefore(t, k);
      }
      assert Put(t, k, v)[1..] == t;
    } else {
      PutLookup(t[1..], k, v, k');
      assert Put(t, k, v)[1..] == Put(t[1..], k, v);
    }
  }

  lemma {:induction false} AbsentBefore<V>(t: Table<V>, k: Key)
    requires Sorted(t) && (t != [] ==> Less(k, t[0].key))
    ensures Lookup(t, k) == None
  {
    if t != [] {
      LessIrreflexive(k);
      if |t| > 1 {
        LessTransitive(k, t[0].key, t[1].key);
      }
      AbsentBefore(t[1..], k);
    }
  }

  lemma {:induction false} PutPresent<V>(t: Table<V>, k: Key, v: V)
    requires Sorted(t) && Lookup(t, k).Some?
    ensures Put(t, k, v) == t
  {
    if t[0].key != k {
      if Less(k, t[0].key) {
        AbsentBefore(t, k);
      }
      PutPresent(t[1..], k, v);
    }
  }

  // A key past the end goes to the end.
  lemma {:induction false} PutLast<V>(t: Table<V>, k: Key, v: V)
    requires forall i :: 0 <= i < |t| ==> Less(t[i].key, k)
    ensures Put(t, k, v) == t + [Entry(k, v)]
  {
    if t != [] {
      LessIrreflexive(k);
      if Less(k, t[0].key) {
        LessTransitive(k, t[0].key, k);
      }
      PutLast(t[1..], k, v);
      assert t + [Entry(k, v)] == [t[0]] + (t[1..] + [Entry(k, v)]);
    }
  }

  // ------------------------------------------------------------------ many puts

  lemma {:induction false} PutAllSorted<V>(t: Table<V>, es: Table<V>)
    requires Sorted(t)
    ensures Sorted(PutAll(t, es))
    decreases |es|
  {
    if es != [] {
      PutSorted(t, es[0].key, es[0].rec);
      PutAllSorted(Put(t, es[0].key, es[0].rec), es[1..]);
    }
  }

  // Putting entry after entry is the first-wins union.
  lemma {:induction false} PutAllLookup<V>(t: Table<V>, es: Table<V>, k: Key)
    requires Sorted(t)
    ensures Lookup(PutAll(t, es), k) == OrElse(Lookup(t, k), Lookup(es, k))
    decreases |es|
  {
    if es != [] {
      PutSorted(t, es[0].key, es[0].rec);
      PutLookup(t, es[0].key, es[0].rec, k);
      PutAllLookup(Put(t, es[0].key, es[0].rec), es[1..], k);
    }
  }

  // Entries that come in key order rebuild their own table.
  lemma {:induction false} PutAllInOrder<V>(t: Table<V>, es: Table<V>)
    requires Sorted(t + es)
    ensures PutAll(t, es) == t + es
    decreases |es|
  {
    if es == [] {
      assert t + es == t;
    } else {
      forall i | 0 <= i < |t| ensures Less(t[i].key, es[0].key) {
        assert (t + es)[i] == t[i] && (t + es)[|t|] == es[0];
      }
      PutLast(t, es[0].key, es[0].rec);
      assert (t + [Entry(es[0].key, es[0].rec)]) + es[1..] == t + es;
      PutAllInOrder(t + [es[0]], es[1..]);
    }
  }

  lemma {:induction false} PutAllPresent<V>(t: Table<V>, es: Table<V>)
    requires Sorted(t) && forall e <- es :: Lookup(t, e.key).Some?
    ensures PutAll(t, es) == t
    decreases |es|
  {
    if es != [] {
      assert es[0] in es;
      PutPresent(t, es[0].key, es[0].rec);
      PutAllPresent(t, es[1..]);
    }
  }

  lemma {:induction false} PutAllAppend<V>(t: Table<V>, a: Table<V>, b: Table<V>)
    ensures PutAll(t, a + b) == PutAll(PutAll(t, a), b)
    decreases |a|
  {
    if a == [] {
      assert a + b == b;
    } else {
      assert (a + b)[1..] == a[1..] + b;
      PutAllAppend(Put(t, a[0].key, a[0].rec), a[1..], b);
    }
  }

  lemma {:induction false} MembersFound<V>(t: Table<V>)
    ensures forall e <- t :: Lookup(t, e.key).Some?
  {
    if t != [] {
      MembersFound(t[1..]);
      assert t == [t[0]] + t[1..];
    }
  }

  lemma {:induction false} LookupAt<V>(t: Table<V>, i: nat)
    requires Sorted(t) && i < |t|
    ensures Lookup(t, t[i].key) == Some(t[i].rec)
  {
    if i > 0 {
      LessIrreflexive(t[i].key);
      LookupAt(t[1..], i - 1);
    }
  }

  // ------------------------------------------------------------------ the class

  class SymbolTable<V> {
    var tab: Table<V>

    ghost predicate Valid()
      reads this
    {
      Sorted(tab)
    }

    constructor ()
      ensures Valid() && tab == []
    {
      tab := [];
    }

    // `get`
    method GetRecord(k: Key) returns (r: Option<V>)
      requires Valid()
      ensures r == Lookup(tab, k)
    {
      r := Lookup(tab, k);
    }

    // `put`: whether the record was put, and what the table finds afterwards.
    method PutRecord(k: Key, v: V) returns (added: bool)
      requires Valid()
      modifies this
      ensures Valid() && tab == Put(old(tab), k, v)
      ensures added <==> Lookup(old(tab), k).None?
      ensures !added ==> tab == old(tab)
      ensures forall k' :: Lookup(tab, k') == OrElse(Lookup(old(tab), k'), if k' == k then Some(v) else None)
    {
      ghost var was := tab;
      added := Lookup(tab, k).None?;
      PutSorted(tab, k, v);
      if !added {
        PutPresent(tab, k, v);
      }
      tab := Put(tab, k, v);
      forall k' ensures Lookup(tab, k') == OrElse(Lookup(was, k'), if k' == k then Some(v) else None) {
        PutLookup(was, k, v, k');
      }
    }
  }
}
