// Machine integers of the analysed platform (x86-64) and their arithmetic.
module Words {

  datatype Option<+T> = None | Some(value: T) {
    predicate IsFailure() { None? }

    function PropagateFailure<U>(): Option<U>
      requires None?
    {
      None
    }

    function Extract(): T
      requires Some?
    {
      value
    }

    function GetOr(default: T): T {
      if Some? then value else default
    }
  }

  const TWO_64 := 0x1_0000_0000_0000_0000

  type byte = x: int | 0 <= x < 256

  // `Generic`: the unsigned 64-bit word that holds addresses, sizes and counts.
  type u64 = x: int | 0 <= x < TWO_64

  // `short`: line numbers and record ids.
  type i16 = x: int | -0x8000 <= x < 0x8000

  function Wrap(x: int): u64 { x % TWO_64 }

  function Add(a: u64, b: u64): u64 { Wrap(a + b) }

  function Sub(a: u64, b: u64): u64 { Wrap(a - b) }

  function Mul(a: u64, b: u64): u64 { Wrap(a * b) }

  // The word -1, which the source uses for "not set" and for a failed load.
  const MINUS_ONE: u64 := TWO_64 - 1

  // Two's complement view of a signed 16-bit value.
  function Unsigned16(x: i16): nat { if x < 0 then x + 0x1_0000 else x }

  function Signed16(x: nat): i16
    requires x < 0x1_0000
  {
    if x < 0x8000 then x else x - 0x1_0000
  }

  lemma AddAssociative(a: u64, b: u64, c: u64)
    ensures Add(Add(a, b), c) == Add(a, Add(b, c)) == Wrap(a + b + c)
  {
    WrapAdd(a + b, c);
    WrapAdd(b + c, a);
  }

  lemma WrapAdd(x: int, y: int)
    ensures Wrap(Wrap(x) + y) == Wrap(x + y)
  {
    var q := x / TWO_64;
    assert x == q * TWO_64 + x % TWO_64;
    assert x + y == q * TWO_64 + (x % TWO_64 + y);
    WrapShift(x % TWO_64 + y, q);
  }

  lemma WrapShift(x: int, q: int)
    ensures Wrap(q * TWO_64 + x) == Wrap(x)
  {
    var p := x / TWO_64;
    var r := x % TWO_64;
    assert q * TWO_64 + x == (q + p) * TWO_64 + r;
    assert (q * TWO_64 + x) % TWO_64 == r;
  }
}
