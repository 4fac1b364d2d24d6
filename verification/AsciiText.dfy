// String constants and numbers as bytes.
module AsciiText {
  import opened Words

  function Ascii(s: string): (bs: seq<byte>)
    ensures |bs| == |s|
  {
    seq(|s|, i requires 0 <= i < |s| => s[i] as int % 256)
  }

  function Decimal(n: nat): (bs: seq<byte>)
    ensures bs != [] && 48 <= bs[|bs| - 1] < 58
  {
    if n < 10 then [48 + n] else Decimal(n / 10) + [48 + n % 10]
  }
}
