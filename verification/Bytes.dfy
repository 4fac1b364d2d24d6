// Fixed-width words and length-prefixed strings as they lie in a file, and the
// two file descriptors of the source: one that is appended to, one that is read
// through a cursor.
module Bytes {
  import opened Words

  // ------------------------------------------------------------------ words

  // The w low-order bytes of x, least significant first.
  function LittleEndian(w: nat, x: nat): (bs: seq<byte>)
    ensures |bs| == w
  {
    if w == 0 then [] else [x % 256] + LittleEndian(w - 1, x / 256)
  }

  function FromLittleEndian(bs: seq<byte>): nat {
    if bs == [] then 0 else bs[0] + 256 * FromLittleEndian(bs[1..])
  }

  function Power256(w: nat): nat {
    if w == 0 then 1 else 256 * Power256(w - 1)
  }

  lemma WidthBounds()
    ensures Power256(1) == 0x100
    ensures Power256(2) == 0x1_0000
    ensures Power256(4) == 0x1_0000_0000
    ensures Power256(8) == TWO_64
  {
    assert Power256(3) == 256 * Power256(2);
    assert Power256(4) == 256 * Power256(3);
    assert Power256(5) == 256 * Power256(4);
    assert Power256(6) == 256 * Power256(5);
    assert Power256(7) == 256 * Power256(6);
  }

  lemma {:induction false} WordRoundTrip(w: nat, x: nat)
    requires x < Power256(w)
    ensures FromLittleEndian(LittleEndian(w, x)) == x
  {
    if w > 0 {
      WordRoundTrip(w - 1, x / 256);
      assert LittleEndian(w, x)[1..] == LittleEndian(w - 1, x / 256);
    }
  }

  lemma {:induction false} WordInRange(bs: seq<byte>)
    ensures FromLittleEndian(bs) < Power256(|bs|)
    ensures LittleEndian(|bs|, FromLittleEndian(bs)) == bs
  {
    if bs != [] {
      WordInRange(bs[1..]);
      assert bs == [bs[0]] + bs[1..];
    }
  }

  // ------------------------------------------------------------------ strings

  // A C string: the bytes before its terminating NUL.
  type CString = s: seq<byte> | 0 !in s

  // What `std::string(buffer)` and every other reader of a `char *` sees of a
  // buffer with a NUL put behind its last byte.
  function UpToNul(s: seq<byte>): (c: CString)
    ensures |c| <= |s|
  {
    if s == [] || s[0] == 0 then [] else [s[0]] + UpToNul(s[1..])
  }

  lemma {:induction false} UpToNulIdentity(s: seq<byte>)
    ensures UpToNul(s) == s <==> 0 !in s
  {
    if s != [] && s[0] != 0 {
      UpToNulIdentity(s[1..]);
      assert s == [s[0]] + s[1..];
    }
  }

  // ------------------------------------------------------------------ encoders

  // Every encoder takes the bytes that follow, so that an encoding is one
  // expression whatever it is followed by.
  function PutWord(w: nat, x: nat, rest: seq<byte>): seq<byte> {
    LittleEndian(w, x) + rest
  }

  function PutRaw(s: seq<byte>, rest: seq<byte>): seq<byte> {
    s + rest
  }

  function PutText(s: seq<byte>, rest: seq<byte>): seq<byte> {
    PutWord(8, |s|, PutRaw(s, rest))
  }

  function PutFlag(b: bool, rest: seq<byte>): seq<byte> {
    PutWord(1, if b then 1 else 0, rest)
  }

  // ------------------------------------------------------------------ decoders

  function TakeWord(w: nat, bs: seq<byte>): (r: Option<(nat, seq<byte>)>)
    ensures r.Some? ==> |r.value.1| == |bs| - w
  {
    if |bs| < w then None else Some((FromLittleEndian(bs[..w]), bs[w..]))
  }

  function TakeU64(bs: seq<byte>): (r: Option<(u64, seq<byte>)>)
    ensures r.Some? ==> |r.value.1| == |bs| - 8
  {
    var (x, rest) :- TakeWord(8, bs);
    WidthBounds();
    WordInRange(bs[..8]);
    Some((x, rest))
  }

  function TakeI16(bs: seq<byte>): (r: Option<(i16, seq<byte>)>)
    ensures r.Some? ==> |r.value.1| == |bs| - 2
  {
    var (x, rest) :- TakeWord(2, bs);
    WidthBounds();
    WordInRange(bs[..2]);
    Some((Signed16(x), rest))
  }

  // A `bool` read back from its byte: every nonzero byte tests true.
  function TakeFlag(bs: seq<byte>): (r: Option<(bool, seq<byte>)>)
    ensures r.Some? ==> |r.value.1| == |bs| - 1
  {
    var (x, rest) :- TakeWord(1, bs);
    Some((x != 0, rest))
  }

  function TakeRaw(n: nat, bs: seq<byte>): (r: Option<(seq<byte>, seq<byte>)>)
    ensures r.Some? ==> |r.value.0| == n && |r.value.1| == |bs| - n
  {
    if |bs| < n then None else Some((bs[..n], bs[n..]))
  }

  // A length, then that many bytes, seen as a C string.
  function TakeText(bs: seq<byte>): (r: Option<(CString, seq<byte>)>)
    ensures r.Some? ==> |r.value.1| <= |bs| - 8
  {
    var (n, rest) :- TakeU64(bs);
    var (s, rest') :- TakeRaw(n, rest);
    Some((UpToNul(s), rest'))
  }

  // The same, where the reader also asserts a limit on the length.
  function TakeTextUpTo(limit: nat, bs: seq<byte>): (r: Option<(CString, seq<byte>)>)
    ensures r.Some? ==> |r.value.1| <= |bs| - 8
  {
    var (n, rest) :- TakeU64(bs);
    if n > limit then None
    else
      var (s, rest') :- TakeRaw(n, rest);
      Some((UpToNul(s), rest'))
  }

  // ------------------------------------------------------------------ one field at a time

  lemma TakePutWord(w: nat, x: nat, rest: seq<byte>)
    requires x < Power256(w)
    ensures TakeWord(w, PutWord(w, x, rest)) == Some((x, rest))
  {
    WordRoundTrip(w, x);
    assert PutWord(w, x, rest)[..w] == LittleEndian(w, x);
    assert PutWord(w, x, rest)[w..] == rest;
  }

  lemma TakePutText(s: seq<byte>, limit: nat, rest: seq<byte>)
    requires |s| < TWO_64
    ensures TakeText(PutText(s, rest)) == Some((UpToNul(s), rest))
    ensures TakeTextUpTo(limit, PutText(s, rest)) == if |s| <= limit then Some((UpToNul(s), rest)) else None
  {
    WidthBounds();
    TakePutWord(8, |s|, PutRaw(s, rest));
    assert PutRaw(s, rest)[..|s|] == s;
    assert PutRaw(s, rest)[|s|..] == rest;
  }

  // The round trips of the single fields, in a form the solver applies wherever
  // an encoder meets its decoder.
  lemma FieldRoundTrips()
    ensures forall x: u64, rest: seq<byte> {:trigger PutWord(8, x, rest)} ::
              TakeU64(PutWord(8, x, rest)) == Some((x, rest))
    ensures forall x: i16, rest: seq<byte> {:trigger PutWord(2, Unsigned16(x), rest)} ::
              TakeI16(PutWord(2, Unsigned16(x), rest)) == Some((x, rest))
    ensures forall x: nat, rest: seq<byte> {:trigger PutWord(4, x, rest)} ::
              x < 0x1_0000_0000 ==> TakeWord(4, PutWord(4, x, rest)) == Some((x, rest))
    ensures forall b: bool, rest: seq<byte> {:trigger PutFlag(b, rest)} :: TakeFlag(PutFlag(b, rest)) == Some((b, rest))
    ensures forall s: CString, rest: seq<byte> {:trigger PutText(s, rest)} ::
              |s| < TWO_64 ==> TakeText(PutText(s, rest)) == Some((s, rest))
    ensures forall s: CString, limit: nat, rest: seq<byte> {:trigger TakeTextUpTo(limit, PutText(s, rest))} ::
              |s| <= limit < TWO_64 ==> TakeTextUpTo(limit, PutText(s, rest)) == Some((s, rest))
  {
    WidthBounds();
    forall x: u64, rest: seq<byte> ensures TakeU64(PutWord(8, x, rest)) == Some((x, rest)) {
      TakePutWord(8, x, rest);
    }
    forall x: i16, rest: seq<byte> ensures TakeI16(PutWord(2, Unsigned16(x), rest)) == Some((x, rest)) {
      TakePutWord(2, Unsigned16(x), rest);
    }
    forall x: nat, rest: seq<byte> | x < 0x1_0000_0000 ensures TakeWord(4, PutWord(4, x, rest)) == Some((x, rest)) {
      TakePutWord(4, x, rest);
    }
    forall b: bool, rest: seq<byte> ensures TakeFlag(PutFlag(b, rest)) == Some((b, rest)) {
      TakePutWord(1, if b then 1 else 0, rest);
    }
    forall s: CString, rest: seq<byte> | |s| < TWO_64 ensures TakeText(PutText(s, rest)) == Some((s, rest)) {
      TakePutText(s, 0, rest);
      UpToNulIdentity(s);
    }
    forall s: CString, limit: nat, rest: seq<byte> | |s| <= limit < TWO_64
      ensures TakeTextUpTo(limit, PutText(s, rest)) == Some((s, rest))
    {
      TakePutText(s, limit, rest);
      UpToNulIdentity(s);
    }
  }

  // ------------------------------------------------------------------ files

  // A file open for writing: it only grows.
  class OutFile {
    var data: seq<byte>

    constructor ()
      ensures data == []
    {
      data := [];
    }

    method WriteWord(w: nat, x: nat)
      modifies this
      ensures data == old(data) + LittleEndian(w, x)
    {
      data := data + LittleEndian(w, x);
    }

    method WriteBytes(s: seq<byte>)
      modifies this
      ensures data == old(data) + s
    {
      data := data + s;
    }
  }

  // Appending field by field builds the encoding: what was written so far,
  // followed by the encoding of what is still to come, never changes.
  lemma AppendField()
    ensures forall a: seq<byte>, w: nat, x: nat, rest: seq<byte> {:trigger a + PutWord(w, x, rest)} ::
              a + PutWord(w, x, rest) == (a + LittleEndian(w, x)) + rest
    ensures forall a: seq<byte>, s: seq<byte>, rest: seq<byte> {:trigger a + PutRaw(s, rest)} ::
              a + PutRaw(s, rest) == (a + s) + rest
  {
    forall a: seq<byte>, w: nat, x: nat, rest: seq<byte>
      ensures a + PutWord(w, x, rest) == (a + LittleEndian(w, x)) + rest
    {
      assert a + (LittleEndian(w, x) + rest) == (a + LittleEndian(w, x)) + rest;
    }
    forall a: seq<byte>, s: seq<byte>, rest: seq<byte>
      ensures a + PutRaw(s, rest) == (a + s) + rest
    {
      assert a + (s + rest) == (a + s) + rest;
    }
  }

  // What follows an encoding may be put behind it later.
  lemma PutAppend()
    ensures forall w: nat, x: nat, a: seq<byte>, b: seq<byte> {:trigger PutWord(w, x, a) + b} ::
              PutWord(w, x, a) + b == PutWord(w, x, a + b)
    ensures forall s: seq<byte>, a: seq<byte>, b: seq<byte> {:trigger PutText(s, a) + b} ::
              PutText(s, a) + b == PutText(s, a + b)
    ensures forall f: bool, a: seq<byte>, b: seq<byte> {:trigger PutFlag(f, a) + b} ::
              PutFlag(f, a) + b == PutFlag(f, a + b)
  {
    forall w: nat, x: nat, a: seq<byte>, b: seq<byte> ensures PutWord(w, x, a) + b == PutWord(w, x, a + b) {
      assert (LittleEndian(w, x) + a) + b == LittleEndian(w, x) + (a + b);
    }
    forall s: seq<byte>, a: seq<byte>, b: seq<byte> ensures PutText(s, a) + b == PutText(s, a + b) {
      assert (s + a) + b == s + (a + b);
      assert (LittleEndian(8, |s|) + (s + a)) + b == LittleEndian(8, |s|) + ((s + a) + b);
    }
  }

  // A file open for reading. A read that asks for more than is left fails and
  // leaves the cursor where it was.
  class InFile {
    const data: seq<byte>
    var pos: nat

    ghost predicate Valid()
      reads this
    {
      pos <= |data|
    }

    // What is still to be read.
    ghost function Rest(): seq<byte>
      requires Valid()
      reads this
    {
      data[pos..]
    }

    constructor (data: seq<byte>)
      ensures Valid() && Rest() == data && this.data == data
    {
      this.data := data;
      pos := 0;
    }

    method ReadBytes(n: nat) returns (r: Option<seq<byte>>)
      requires Valid()
      modifies this
      ensures Valid()
      ensures match TakeRaw(n, old(Rest()))
              case None => r == None && pos == old(pos)
              case Some((s, rest)) => r == Some(s) && Rest() == rest
    {
      if |data| - pos < n {
        return None;
      }
      assert data[pos..][..n] == data[pos..pos + n];
      assert data[pos..][n..] == data[pos + n..];
      r := Some(data[pos..pos + n]);
      pos := pos + n;
    }

    method ReadWord(w: nat) returns (r: Option<nat>)
      requires Valid()
      modifies this
      ensures Valid()
      ensures match TakeWord(w, old(Rest()))
              case None => r == None && pos == old(pos)
              case Some((x, rest)) => r == Some(x) && Rest() == rest
    {
      var bs := ReadBytes(w);
      if bs.None? {
        return None;
      }
      r := Some(FromLittleEndian(bs.value));
    }

    method ReadU64() returns (r: Option<u64>)
      requires Valid()
      modifies this
      ensures Valid()
      ensures match TakeU64(old(Rest()))
              case None => r == None && pos == old(pos)
              case Some((x, rest)) => r == Some(x) && Rest() == rest
    {
      WidthBounds();
      if |data| - pos >= 8 {
        WordInRange(data[pos..][..8]);
      }
      var x :- ReadWord(8);
      r := Some(x);
    }

    method ReadI16() returns (r: Option<i16>)
      requires Valid()
      modifies this
      ensures Valid()
      ensures match TakeI16(old(Rest()))
              case None => r == None && pos == old(pos)
              case Some((x, rest)) => r == Some(x) && Rest() == rest
    {
      WidthBounds();
      if |data| - pos >= 2 {
        WordInRange(data[pos..][..2]);
      }
      var x :- ReadWord(2);
      r := Some(Signed16(x));
    }

    method ReadFlag() returns (r: Option<bool>)
      requires Valid()
      modifies this
      ensures Valid()
      ensures match TakeFlag(old(Rest()))
              case None => r == None && pos == old(pos)
              case Some((b, rest)) => r == Some(b) && Rest() == rest
    {
      var x :- ReadWord(1);
      r := Some(x != 0);
    }

    method ReadText() returns (r: Option<CString>)
      requires Valid()
      modifies this
      ensures Valid()
      ensures match TakeText(old(Rest()))
              case None => r == None
              case Some((s, rest)) => r == Some(s) && Rest() == rest
    {
      var n :- ReadU64();
      var s :- ReadBytes(n);
      r := Some(UpToNul(s));
    }

    method ReadTextUpTo(limit: nat) returns (r: Option<CString>)
      requires Valid()
      modifies this
      ensures Valid()
      ensures match TakeTextUpTo(limit, old(Rest()))
              case None => r == None
              case Some((s, rest)) => r == Some(s) && Rest() == rest
    {
      var n :- ReadU64();
      if n > limit {
        return None;
      }
      var s :- ReadBytes(n);
      r := Some(UpToNul(s));
    }
  }
}
