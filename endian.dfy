/** Unsigned integers of fixed width and their little- and big-endian byte encodings. */
module Endian {

  type uint8 = x: int | 0 <= x < 0x100
  type uint16 = x: int | 0 <= x < 0x1_0000
  type uint32 = x: int | 0 <= x < 0x1_0000_0000
  type uint64 = x: int | 0 <= x < 0x1_0000_0000_0000_0000

  /** 256 to the power n: the number of distinct values of an n-byte field. */
  function Pow256(n: nat): (p: nat)
    ensures p >= 1
  {
    if n == 0 then 1 else 256 * Pow256(n - 1)
  }

  lemma Pow256Widths()
    ensures Pow256(1) == 0x100 && Pow256(2) == 0x1_0000 && Pow256(4) == 0x1_0000_0000
    ensures Pow256(8) == 0x1_0000_0000_0000_0000
  {
    assert Pow256(4) == 0x1_0000_0000;
    assert Pow256(8) == Pow256(4) * Pow256(4) by {
      assert Pow256(8) == 256 * 256 * 256 * 256 * Pow256(4);
    }
  }

  /** The little-endian value of `bs`: the first byte is the least significant one
      (what `le16toh`/`le32toh`/`le64toh` give for bytes read from the stream). */
  function LE(bs: seq<uint8>): (v: nat)
    ensures v < Pow256(|bs|)
  {
    if bs == [] then 0 else bs[0] + 256 * LE(bs[1..])
  }

  /** The big-endian value of `bs`: the last byte is the least significant one. */
  function BE(bs: seq<uint8>): (v: nat)
    ensures v < Pow256(|bs|)
  {
    if bs == [] then 0 else BE(bs[..|bs| - 1]) * 256 + bs[|bs| - 1]
  }

  /** Reference definition of the little-endian value: the sum of bs[i] * 256^i. */
  function LeSum(bs: seq<uint8>): nat
  {
    if bs == [] then 0 else LeSum(bs[..|bs| - 1]) + bs[|bs| - 1] * Pow256(|bs| - 1)
  }

  function Reverse<T>(s: seq<T>): (r: seq<T>)
    ensures |r| == |s|
    ensures forall i :: 0 <= i < |s| ==> r[i] == s[|s| - 1 - i]
  {
    if s == [] then [] else Reverse(s[1..]) + [s[0]]
  }

  /** The n-byte little-endian encoding of v (the inverse of LE). */
  function LeBytes(v: nat, n: nat): (bs: seq<uint8>)
    ensures |bs| == n
  {
    if n == 0 then [] else [v % 256] + LeBytes(v / 256, n - 1)
  }

  lemma {:induction false} LeAppend(bs: seq<uint8>, b: uint8)
    ensures LE(bs + [b]) == LE(bs) + b * Pow256(|bs|)
  {
    if bs == [] {
      assert bs + [b] == [b];
    } else {
      assert (bs + [b])[1..] == bs[1..] + [b];
      LeAppend(bs[1..], b);
      var n := |bs| - 1;
      calc {
        LE(bs + [b]);
        bs[0] + 256 * LE(bs[1..] + [b]);
        bs[0] + 256 * (LE(bs[1..]) + b * Pow256(n));
        bs[0] + 256 * LE(bs[1..]) + 256 * (b * Pow256(n));
        { assert 256 * (b * Pow256(n)) == b * (256 * Pow256(n)); }
        LE(bs) + b * Pow256(n + 1);
      }
    }
  }

  /** The recursive decoder computes exactly the positional sum. */
  lemma {:induction false} LeIsSum(bs: seq<uint8>)
    ensures LE(bs) == LeSum(bs)
  {
    if bs != [] {
      var init := bs[..|bs| - 1];
      assert bs == init + [bs[|bs| - 1]];
      LeIsSum(init);
      LeAppend(init, bs[|bs| - 1]);
    }
  }

  /** Little-endian is big-endian of the reversed bytes: the byte swap that the
      GPT text form applies to its first three fields. */
  lemma {:induction false} LeIsBeOfReverse(bs: seq<uint8>)
    ensures LE(bs) == BE(Reverse(bs))
  {
    if bs != [] {
      var r := Reverse(bs);
      assert r[..|r| - 1] == Reverse(bs[1..]);
      LeIsBeOfReverse(bs[1..]);
    }
  }

  /** Decoding an encoding gives the value back, for every value that fits. */
  lemma {:induction false} LeOfLeBytes(v: nat, n: nat)
    requires v < Pow256(n)
    ensures LE(LeBytes(v, n)) == v
  {
    if n > 0 {
      LeOfLeBytes(v / 256, n - 1);
    }
  }

  /** Encoding a decoded field gives the bytes back: LE is injective on fields of one width. */
  lemma {:induction false} LeBytesOfLe(bs: seq<uint8>)
    ensures LeBytes(LE(bs), |bs|) == bs
  {
    if bs != [] {
      var v, rest := LE(bs), LE(bs[1..]);
      assert v == bs[0] + 256 * rest;
      assert v % 256 == bs[0] && v / 256 == rest;
      LeBytesOfLe(bs[1..]);
      assert LeBytes(v, |bs|) == [bs[0]] + LeBytes(rest, |bs| - 1);
    }
  }

  lemma {:induction false} BeInjective(a: seq<uint8>, b: seq<uint8>)
    requires |a| == |b| && BE(a) == BE(b)
    ensures a == b
  {
    if a != [] {
      var n := |a| - 1;
      assert a[n] == BE(a) % 256 && b[n] == BE(b) % 256;
      assert BE(a[..n]) == BE(a) / 256 && BE(b[..n]) == BE(b) / 256;
      BeInjective(a[..n], b[..n]);
      assert a == a[..n] + [a[n]] && b == b[..n] + [b[n]];
    }
  }

  lemma LeInjective(a: seq<uint8>, b: seq<uint8>)
    requires |a| == |b| && LE(a) == LE(b)
    ensures a == b
  {
    LeBytesOfLe(a);
    LeBytesOfLe(b);
  }
}
