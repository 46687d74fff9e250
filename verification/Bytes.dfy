/** Little-endian integers, as encoding/binary reads and writes them. */
module Bytes {
  type byte = x: int | 0 <= x < 256

  const U32: nat := 0x1_0000_0000
  const U64: nat := 0x1_0000_0000_0000_0000

  function Pow256(w: nat): (p: nat)
    ensures p > 0
  {
    if w == 0 then 1 else 256 * Pow256(w - 1)
  }

  /** The low w bytes of n, least significant first. */
  function LE(n: nat, w: nat): (s: seq<byte>)
    ensures |s| == w
  {
    if w == 0 then [] else [n % 256] + LE(n / 256, w - 1)
  }

  function FromLE(s: seq<byte>): nat {
    if s == [] then 0 else s[0] + 256 * FromLE(s[1..])
  }

  lemma {:induction false} FromLEBound(s: seq<byte>)
    ensures FromLE(s) < Pow256(|s|)
  {
    if s != [] {
      FromLEBound(s[1..]);
    }
  }

  lemma {:induction false} DecodeEncode(n: nat, w: nat)
    requires n < Pow256(w)
    ensures FromLE(LE(n, w)) == n
  {
    if w > 0 {
      DecodeEncode(n / 256, w - 1);
      assert LE(n, w)[1..] == LE(n / 256, w - 1);
    }
  }

  lemma LowByte(low: byte, high: nat)
    ensures (low + 256 * high) % 256 == low && (low + 256 * high) / 256 == high
  {
  }

  lemma {:induction false} EncodeDecode(s: seq<byte>)
    ensures LE(FromLE(s), |s|) == s
  {
    if s != [] {
      EncodeDecode(s[1..]);
      LowByte(s[0], FromLE(s[1..]));
      assert LE(FromLE(s), |s|) == [s[0]] + LE(FromLE(s[1..]), |s| - 1);
    }
  }

  lemma Widths()
    ensures Pow256(4) == U32 && Pow256(8) == U64
  {
    assert Pow256(1) == 256 && Pow256(2) == 0x1_0000 && Pow256(3) == 0x100_0000;
    assert Pow256(4) == 0x1_0000_0000;
    assert Pow256(5) == 0x100_0000_0000 && Pow256(6) == 0x1_0000_0000_0000 && Pow256(7) == 0x100_0000_0000_0000;
  }

  /** Four and eight bytes read back what was put, and putting what was read changes nothing. */
  lemma {:induction false} FixedWidth(n: nat, w: nat, s: seq<byte>)
    requires w == 4 || w == 8
    ensures n < (if w == 4 then U32 else U64) ==> FromLE(LE(n, w)) == n
    ensures |s| == w ==> FromLE(s) < (if w == 4 then U32 else U64) && LE(FromLE(s), w) == s
  {
    Widths();
    if n < Pow256(w) {
      DecodeEncode(n, w);
    }
    if |s| == w {
      FromLEBound(s);
      EncodeDecode(s);
    }
  }

  // ---------------------------------------------------------------- four and eight bytes, written out

  /** Four bytes put. */
  lemma LowBytes(n: nat)
    ensures LE(n, 4) == [n % 0x100, n / 0x100 % 0x100, n / 0x1_0000 % 0x100, n / 0x100_0000 % 0x100]
  {
    var a := n / 0x100;
    var b := a / 0x100;
    var c := b / 0x100;
    assert LE(c, 1) == [c % 0x100] + LE(c / 0x100, 0);
    assert LE(a, 3) == [a % 0x100] + ([b % 0x100] + LE(c, 1));
    assert LE(n, 4) == [n % 0x100] + LE(a, 3);
  }

  lemma LESplit(n: nat)
    ensures LE(n, 8) == LE(n, 4) + LE(n / 0x1_0000_0000, 4)
  {
    var a := n / 0x100;
    var b := a / 0x100;
    var c := b / 0x100;
    var d := c / 0x100;
    assert d == n / 0x1_0000_0000;
    assert LE(c, 5) == [c % 0x100] + LE(d, 4) && LE(c, 1) == [c % 0x100] + LE(d, 0);
    assert LE(b, 6) == [b % 0x100] + LE(c, 5) && LE(b, 2) == [b % 0x100] + LE(c, 1);
    assert LE(a, 7) == [a % 0x100] + LE(b, 6) && LE(a, 3) == [a % 0x100] + LE(b, 2);
  }

  /** Eight bytes put. */
  lemma ShiftedBytes(n: nat)
    ensures LE(n, 8) == [n % 0x100, n / 0x100 % 0x100, n / 0x1_0000 % 0x100, n / 0x100_0000 % 0x100,
                         n / 0x1_0000_0000 % 0x100, n / 0x100_0000_0000 % 0x100,
                         n / 0x1_0000_0000_0000 % 0x100, n / 0x100_0000_0000_0000 % 0x100]
  {
    var high := n / 0x1_0000_0000;
    LowBytes(n);
    LowBytes(high);
    assert high / 0x100 == n / 0x100_0000_0000;
    assert high / 0x1_0000 == n / 0x1_0000_0000_0000;
    assert high / 0x100_0000 == n / 0x100_0000_0000_0000;
    LESplit(n);
  }

  lemma FromLECons(b: byte, s: seq<byte>)
    ensures FromLE([b] + s) == b + 0x100 * FromLE(s)
  {
    assert ([b] + s)[1..] == s;
  }

  /** Four bytes read. */
  lemma FourBytes(a: byte, b: byte, c: byte, d: byte)
    ensures FromLE([a, b, c, d]) == a + 0x100 * b + 0x1_0000 * c + 0x100_0000 * d
  {
    FromLECons(d, []);
    FromLECons(c, [d] + []);
    FromLECons(b, [c] + ([d] + []));
    FromLECons(a, [b] + ([c] + ([d] + [])));
    assert [a, b, c, d] == [a] + ([b] + ([c] + ([d] + [])));
    assert FromLE([]) == 0;
  }

  /** Eight bytes read. */
  lemma EightBytes(a: byte, b: byte, c: byte, d: byte, high: seq<byte>)
    ensures FromLE([a, b, c, d] + high) == FromLE([a, b, c, d]) + 0x1_0000_0000 * FromLE(high)
  {
    FourBytes(a, b, c, d);
    FromLECons(d, high);
    FromLECons(c, [d] + high);
    FromLECons(b, [c] + ([d] + high));
    FromLECons(a, [b] + ([c] + ([d] + high)));
    assert [a, b, c, d] + high == [a] + ([b] + ([c] + ([d] + high)));
  }
}
