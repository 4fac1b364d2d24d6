// What words, texts and loads are, byte by byte.
module WordFields {
  import opened Words
  import opened Bytes
  import opened AsciiText
  import opened ShadowStack

  // ------------------------------------------------------------------ words

  // Byte k of a word has the weight of the k-th power of 256.
  lemma {:induction false} ByteOfWord(w: nat, x: nat, k: nat)
    requires k < w
    ensures Power256(k) > 0 && LittleEndian(w, x)[k] == x / Power256(k) % 256
  {
    if k > 0 {
      ByteOfWord(w - 1, x / 256, k - 1);
      DivideTwice(x, Power256(k - 1));
    }
  }

  lemma DivideTwice(x: nat, p: nat)
    requires p > 0
    ensures x / 256 / p == x / (256 * p)
  {
    var q, r := x / 256 / p, x / 256 % p;
    var s := x % 256;
    assert x == 256 * (q * p + r) + s;
    assert x == q * (256 * p) + (256 * r + s);
    Quotient(x, 256 * p, q, 256 * r + s);
  }

  lemma Quotient(x: nat, d: nat, q: nat, r: nat)
    requires d > 0 && x == q * d + r && r < d
    ensures x / d == q
  {
    var e := x / d - q;
    assert e * d == r - x % d;
    assert e != 0 ==> e * d >= d || e * d <= -1 * d;
  }

  // The words that are read: of two, four and eight bytes.
  lemma WordOfBytes(bs: seq<byte>)
    ensures |bs| == 1 ==> FromLittleEndian(bs) == bs[0]
    ensures |bs| == 2 ==> FromLittleEndian(bs) == At(bs, 0) + 0x100 * At(bs, 1)
    ensures |bs| == 4 ==>
              FromLittleEndian(bs) == At(bs, 0) + 0x100 * At(bs, 1) + 0x1_0000 * At(bs, 2) + 0x100_0000 * At(bs, 3)
    ensures |bs| == 8 ==> FromLittleEndian(bs) == EightBytes(bs)
  {
    if |bs| == 1 {
      Unfold(bs, 1);
    } else if |bs| == 2 {
      Unfold(bs, 2);
    } else if |bs| == 4 {
      Unfold(bs, 4);
      Unfold(bs[2..], 2);
    } else if |bs| == 8 {
      Unfold(bs, 8);
      Unfold(bs[2..], 6);
      Unfold(bs[4..], 4);
      Unfold(bs[6..], 2);
    }
  }

  function At(bs: seq<byte>, k: nat): int
    requires k < |bs|
  {
    bs[k]
  }

  function EightBytes(bs: seq<byte>): nat
    requires |bs| == 8
  {
    At(bs, 0) + 0x100 * At(bs, 1) + 0x1_0000 * At(bs, 2) + 0x100_0000 * At(bs, 3) + 0x1_0000_0000 * At(bs, 4) +
    0x100_0000_0000 * At(bs, 5) + 0x1_0000_0000_0000 * At(bs, 6) + 0x100_0000_0000_0000 * At(bs, 7)
  }

  lemma Unfold(bs: seq<byte>, n: nat)
    requires |bs| == n > 0
    ensures n == 1 ==> FromLittleEndian(bs) == bs[0]
    ensures n == 2 ==> FromLittleEndian(bs) == At(bs, 0) + 0x100 * At(bs, 1)
    ensures n > 2 ==> FromLittleEndian(bs) == At(bs, 0) + 0x100 * At(bs, 1) + 0x1_0000 * FromLittleEndian(bs[2..])
  {
    assert FromLittleEndian([]) == 0;
    assert bs[1..] == [] || bs[1..][0] == bs[1];
    if n == 2 {
      assert bs[1..][1..] == [];
    } else if n > 2 {
      assert bs[1..][1..] == bs[2..];
    }
  }

  // A signed 16-bit number is written as what it is modulo 65536, and read as the number
  // between -32768 and 32767 that is the same modulo 65536.
  lemma SixteenBits(x: i16, y: nat)
    ensures 0 <= Unsigned16(x) < 0x1_0000 && (x - Unsigned16(x)) % 0x1_0000 == 0
    ensures y < 0x1_0000 ==> -0x8000 <= Signed16(y) < 0x8000 && (y - Signed16(y)) % 0x1_0000 == 0
  {}

  // ------------------------------------------------------------------ loads

  // So many bytes above an address.
  function Above(a: u64, k: nat): u64 { (a + k) % 0x1_0000_0000_0000_0000 }

  predicate MappedAt(mem: Memory, a: u64) { forall k :: 0 <= k < 8 ==> Above(a, k) in mem }

  // The word at an address: its eight bytes, least significant first, or all ones where
  // not all of them can be read.
  function WordAt(mem: Memory, a: u64): u64 {
    if MappedAt(mem, a) then
      var bs := seq(8, k requires 0 <= k < 8 => mem[Above(a, k)]);
      EightBytes(bs)
    else 0xFFFF_FFFF_FFFF_FFFF
  }

  lemma {:induction false} MappedExactly(w: seq<Option<byte>>)
    ensures Mapped(w).Some? <==> forall k :: 0 <= k < |w| ==> w[k].Some?
    ensures var bs := Mapped(w);
            bs.Some? ==> |bs.value| == |w| && forall k :: 0 <= k < |w| ==> w[k] == Some(bs.value[k])
  {
    if w != [] {
      MappedExactly(w[1..]);
      assert w == [w[0]] + w[1..];
    }
  }

  // Byte k of what is read at an address is the one so far behind it.
  lemma WindowExactly(mem: Memory, a: u64, n: nat, k: nat)
    requires k < n
    ensures Window(mem, a, n)[k] == if Above(a, k) in mem then Some(mem[Above(a, k)]) else None
  {
    assert Wrap(a + k) == Above(a, k);
  }

  // A load faults exactly when one of the eight bytes is not mapped; otherwise it gives
  // the word.
  lemma LoadExactly(mem: Memory, a: u64)
    ensures Load(mem, a) == if MappedAt(mem, a) then Some(WordAt(mem, a)) else None
    ensures LoadedWord(Load(mem, a)) == WordAt(mem, a)
  {
    hide Window, Mapped, FromLittleEndian, EightBytes, Above, Power256;
    var w := Window(mem, a, 8);
    MappedExactly(w);
    forall k | 0 <= k < 8 ensures w[k].Some? <==> Above(a, k) in mem {
      WindowExactly(mem, a, 8, k);
    }
    if MappedAt(mem, a) {
      var bs := seq(8, k requires 0 <= k < 8 => mem[Above(a, k)]);
      forall k | 0 <= k < 8 ensures Mapped(w).value[k] == bs[k] {
        WindowExactly(mem, a, 8, k);
      }
      assert Mapped(w).value == bs;
      WordOfBytes(bs);
      WordInRange(bs);
      WidthBounds();
      SmallWord(EightBytes(bs));
    }
  }

  lemma SmallWord(x: nat)
    requires x < 0x1_0000_0000_0000_0000
    ensures Wrap(x) == x
  {}

  // ------------------------------------------------------------------ texts

  // The bytes before the first NUL, or all if there is none.
  lemma {:induction false} UpToNulExactly(s: seq<byte>)
    ensures var c := UpToNul(s); c <= s && 0 !in c && (|c| < |s| ==> s[|c|] == 0)
  {
    if s != [] && s[0] != 0 {
      UpToNulExactly(s[1..]);
      assert s == [s[0]] + s[1..];
    }
  }

  // What digits spell in the decimal system.
  function Spelled(ds: seq<byte>): int {
    if ds == [] then 0 else 10 * Spelled(ds[..|ds| - 1]) + (ds[|ds| - 1] - '0' as int)
  }

  // A number is spelled with digits, without a zero in front.
  lemma {:induction false} DecimalExactly(n: nat)
    ensures var ds := Decimal(n);
            && Spelled(ds) == n && (forall d <- ds :: '0' as int <= d <= '9' as int)
            && (|ds| > 1 ==> ds[0] != '0' as int)
  {
    if n >= 10 {
      DecimalExactly(n / 10);
      var ds := Decimal(n);
      assert ds[..|ds| - 1] == Decimal(n / 10);
      assert n / 10 < 10 ==> |Decimal(n / 10)| == 1;
    } else {
      assert Decimal(n)[..0] == [];
    }
  }

  // The words of the source.
  lemma Literals()
    ensures Ascii("void") == [0x76, 0x6F, 0x69, 0x64]
    ensures Ascii("char") == [0x63, 0x68, 0x61, 0x72]
    ensures Ascii("<multielement>") ==
            [0x3C, 0x6D, 0x75, 0x6C, 0x74, 0x69, 0x65, 0x6C, 0x65, 0x6D, 0x65, 0x6E, 0x74, 0x3E]
    ensures OPEN == [0x3A, 0x5B] && CLOSE == [0x5D] && MINUS == [0x2D] && COLON == [0x3A]
  {}
}
