// What the resolution of types and the `.vdw` file make of array types.
module LoadedTypes {
  import opened Words
  import opened SymbolTables
  import opened DebugFile
  import opened DebugFileRoundTrip
  import opened TypeResolution

  // The base type of an array has its final size when the size is taken: it is no array
  // itself, or it comes earlier.
  ghost predicate SizedBefore(u: Table<TypeRec>, i: nat)
    requires Ready(u) && i < |u| && Named(u[i].rec)
  {
    var b := BaseIndex(u, i);
    !u[b].rec.isArray || u[b].rec.isPointer || b < i
  }

  // Resolution gives an array the bytes of its elements, up to the bound that it keeps;
  // of an array that comes later it takes the size that the walk gave it.
  lemma ArraySize(u: Table<TypeRec>, i: nat)
    requires Ready(u) && i < |u| && u[i].rec.isArray && !u[i].rec.isPointer
    ensures var f := Final(u, i); var b := BaseIndex(u, i);
            && f.isArray && !f.isPointer && f.upperBound == u[i].rec.upperBound && f.base == u[i].rec.base
            && f.size == Mul(if SizedBefore(u, i) then Final(u, b).size else u[b].rec.size, Add(f.upperBound, 1))
  {}

  // An array type and its element type as the reader has them after resolution.
  ghost predicate FromResolution(t: LoadedType, et: LoadedType) {
    exists u, i :: ResolvedArray(u, i, t, et)
  }

  ghost predicate ResolvedArray(u: Table<TypeRec>, i: nat, t: LoadedType, et: LoadedType) {
    && Ready(u) && i < |u| && u[i].rec.isArray && !u[i].rec.isPointer && SizedBefore(u, i)
    && t == Kept(Final(u, i)) && et == Kept(Final(u, BaseIndex(u, i)))
  }

  // The size that the reader has for it is that of its elements.
  lemma ArrayExtent(t: LoadedType, et: LoadedType)
    requires FromResolution(t, et)
    ensures t.size == Mul(et.size, Add(t.upperBound, 1))
  {
    var u, i :| ResolvedArray(u, i, t, et);
    ArraySize(u, i);
  }
}
