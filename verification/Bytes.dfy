/** Octets, buffers and their big-endian integer fields. */
module Bytes {
  type byte = x: int | 0 <= x < 256
  type Buffer = seq<byte>

  /** 256 to the power w: the number of values of a field of w bytes. */
  function Radix(w: nat): (r: nat)
    ensures r > 0
  {
    if w == 0 then 1 else 256 * Radix(w - 1)
  }

  /** The w low-order bytes of n, most significant first. */
  function BigEndian(n: nat, w: nat): (s: Buffer)
    ensures |s| == w
  {
    if w == 0 then [] else BigEndian(n / 256, w - 1) + [n % 256]
  }

  function FromBigEndian(s: Buffer): nat {
    if s == [] then 0 else 256 * FromBigEndian(s[..|s| - 1]) + s[|s| - 1]
  }

  lemma {:induction false} BigEndianRoundTrip(n: nat, w: nat)
    requires n < Radix(w)
    ensures FromBigEndian(BigEndian(n, w)) == n
  {
    if w == 0 {
    } else {
      BigEndianRoundTrip(n / 256, w - 1);
      assert BigEndian(n, w)[..w - 1] == BigEndian(n / 256, w - 1);
    }
  }

  lemma {:induction false} FromBigEndianRoundTrip(s: Buffer)
    ensures FromBigEndian(s) < Radix(|s|)
    ensures BigEndian(FromBigEndian(s), |s|) == s
  {
    if s == [] {
    } else {
      var front, n := s[..|s| - 1], FromBigEndian(s[..|s| - 1]);
      FromBigEndianRoundTrip(front);
      assert (256 * n + s[|s| - 1]) / 256 == n;
      assert s == front + [s[|s| - 1]];
    }
  }

  /** Fields of four and eight octets, written out. */
  lemma FourOctets(s: Buffer)
    requires |s| == 4
    ensures var a: int, b: int, c: int, d: int := s[0], s[1], s[2], s[3];
            FromBigEndian(s) == ((a * 256 + b) * 256 + c) * 256 + d
  {
    assert s[..3][..2] == s[..2] && s[..2][..1] == s[..1] && s[..1][..0] == [];
    assert FromBigEndian(s[..1]) == s[0];
    assert FromBigEndian(s[..2]) == 256 * FromBigEndian(s[..1]) + s[1];
    assert FromBigEndian(s[..3]) == 256 * FromBigEndian(s[..2]) + s[2];
  }

  lemma EightOctets(s: Buffer)
    requires |s| == 8
    ensures FromBigEndian(s) == FromBigEndian(s[..4]) * 0x1_0000_0000 + FromBigEndian(s[4..])
  {
    var low := s[4..];
    assert s[..7][..6] == s[..6] && s[..6][..5] == s[..5] && s[..5][..4] == s[..4];
    assert FromBigEndian(s[..5]) == 256 * FromBigEndian(s[..4]) + s[4];
    assert FromBigEndian(s[..6]) == 256 * FromBigEndian(s[..5]) + s[5];
    assert FromBigEndian(s[..7]) == 256 * FromBigEndian(s[..6]) + s[6];
    FourOctets(low);
  }
}
