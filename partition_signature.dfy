/** The Hard-Drive media device-path node (type 0x04, sub-type 0x01, section 10.3.5.1 of
    the UEFI Specification) and the PARTUUID text derived from its partition signature:
    `get_partuuid_from_harddrive_device_path`. */
module PartitionSignature {

  import opened Endian
  import opened Format
  import opened Errors
  import opened ByteReader

  /** Bytes of a Hard-Drive node after its 4-byte header: 4 + 8 + 8 + 16 + 1 + 1. */
  const PayloadSize: nat := 38

  const MbrSignatureType: uint8 := 1
  const GptSignatureType: uint8 := 2

  type Signature = s: seq<uint8> | |s| == 16 witness [0, 0, 0, 0, 0, 0, 0, 0, 0, 0, 0, 0, 0, 0, 0, 0]

  /** The payload of a Hard-Drive node, field by field. */
  datatype HardDrive = HardDrive(
    partitionNumber: uint32,
    partitionStart: uint64,
    partitionSize: uint64,
    signature: Signature,
    mbrType: uint8,
    signatureType: uint8)

  /** The payload as it is stored: little-endian integers, the raw signature, two tag bytes. */
  function EncodeHardDrive(hd: HardDrive): (bs: seq<uint8>)
    ensures |bs| == PayloadSize
  {
    LeBytes(hd.partitionNumber, 4) + LeBytes(hd.partitionStart, 8) + LeBytes(hd.partitionSize, 8)
      + hd.signature + [hd.mbrType, hd.signatureType]
  }

  /** The fields the decoder reads from the 38 payload bytes, in stream order. */
  function ParseHardDrive(bs: seq<uint8>): HardDrive
    requires |bs| == PayloadSize
  {
    Pow256Widths();
    HardDrive(LE(bs[0..4]), LE(bs[4..12]), LE(bs[12..20]), bs[20..36], bs[36], bs[37])
  }

  lemma ParseEncodeHardDrive(hd: HardDrive)
    ensures ParseHardDrive(EncodeHardDrive(hd)) == hd
  {
    var bs := EncodeHardDrive(hd);
    assert bs[0..4] == LeBytes(hd.partitionNumber, 4);
    assert bs[4..12] == LeBytes(hd.partitionStart, 8);
    assert bs[12..20] == LeBytes(hd.partitionSize, 8);
    assert bs[20..36] == hd.signature;
    LeOfLeBytes(hd.partitionNumber, 4);
    LeOfLeBytes(hd.partitionStart, 8);
    LeOfLeBytes(hd.partitionSize, 8);
  }

  lemma EncodeParseHardDrive(bs: seq<uint8>)
    requires |bs| == PayloadSize
    ensures EncodeHardDrive(ParseHardDrive(bs)) == bs
  {
    LeBytesOfLe(bs[0..4]);
    LeBytesOfLe(bs[4..12]);
    LeBytesOfLe(bs[12..20]);
    assert bs == bs[0..4] + bs[4..12] + bs[12..20] + bs[20..36] + [bs[36], bs[37]];
  }

  /** The payload fields of a node whose payload starts at offset `p` of `data`. */
  lemma PayloadAt(data: seq<uint8>, p: nat)
    requires p + PayloadSize <= |data|
    ensures var hd := ParseHardDrive(data[p..p + PayloadSize]);
      hd.partitionNumber == LE(data[p..p + 4]) && hd.partitionStart == LE(data[p + 4..p + 12]) &&
      hd.partitionSize == LE(data[p + 12..p + 20]) && hd.signature == data[p + 20..p + 36] &&
      hd.mbrType == data[p + 36] && hd.signatureType == data[p + 37]
  {
    SliceOfSlice(data, p, p + PayloadSize, 0, 4);
    SliceOfSlice(data, p, p + PayloadSize, 4, 12);
    SliceOfSlice(data, p, p + PayloadSize, 12, 20);
    SliceOfSlice(data, p, p + PayloadSize, 20, 36);
  }

  lemma SliceOfSlice(s: seq<uint8>, p: nat, q: nat, i: nat, j: nat)
    requires p <= q <= |s| && i <= j <= q - p
    ensures s[p..q][i..j] == s[p + i..p + j]
  {
    assert forall k | 0 <= k < j - i :: s[p..q][i..j][k] == s[p + i + k];
  }

  /** The C cast `(int)` of an unsigned 32-bit value: two's complement reinterpretation. */
  function AsInt32(u: uint32): (i: int)
    ensures -0x8000_0000 <= i < 0x8000_0000
    ensures i % 0x1_0000_0000 == u
  {
    if u < 0x8000_0000 then u else u - 0x1_0000_0000
  }

  /** `%08x-%02d` of the little-endian disk signature and the partition number. */
  function MbrPartUuid(sig: Signature, partitionNumber: uint32): string
  {
    Hex(LE(sig[0..4]), 8, false) + "-" + Dec02(AsInt32(partitionNumber))
  }

  /** `%08x-%04x-%04x-%04x-%04x%08x` of the signature viewed as little-endian u32, u16, u16
      and big-endian u16, u16, u32. */
  function GptPartUuid(sig: Signature): string
  {
    Hex(LE(sig[0..4]), 8, false) + "-" + Hex(LE(sig[4..6]), 4, false) + "-" + Hex(LE(sig[6..8]), 4, false) + "-"
      + Hex(BE(sig[8..10]), 4, false) + "-" + Hex(BE(sig[10..12]), 4, false) + Hex(BE(sig[12..16]), 8, false)
  }

  /** The PARTUUID a Hard-Drive node names, or None for a signature type other than 1 or 2. */
  function PartUuid(hd: HardDrive): (r: Option<string>)
    ensures r.Some? <==> hd.signatureType == MbrSignatureType || hd.signatureType == GptSignatureType
  {
    if hd.signatureType == MbrSignatureType then Some(MbrPartUuid(hd.signature, hd.partitionNumber))
    else if hd.signatureType == GptSignatureType then Some(GptPartUuid(hd.signature))
    else None
  }

  lemma {:induction false} HexBytesAppend(a: seq<uint8>, b: seq<uint8>)
    ensures HexBytes(a + b) == HexBytes(a) + HexBytes(b)
  {
    if b == [] {
      assert a + b == a;
    } else {
      assert (a + b)[..|a + b| - 1] == a + b[..|b| - 1];
      assert (a + b)[|a + b| - 1] == b[|b| - 1];
      HexBytesAppend(a, b[..|b| - 1]);
    }
  }

  /** Two hex strings of bytes are equal only for equal bytes. */
  lemma {:induction false} HexBytesInjective(a: seq<uint8>, b: seq<uint8>)
    requires |a| == |b| && HexBytes(a) == HexBytes(b)
    ensures a == b
  {
    if a != [] {
      var n := |a|;
      var ha, hb := HexBytes(a), HexBytes(b);
      assert ha[..2 * n - 2] == HexBytes(a[..n - 1]);
      assert hb[..2 * n - 2] == HexBytes(b[..n - 1]);
      assert ha[2 * n - 2..] == Hex(a[n - 1], 2, false);
      assert hb[2 * n - 2..] == Hex(b[n - 1], 2, false);
      HexBytesInjective(a[..n - 1], b[..n - 1]);
      HexInjective(a[n - 1], b[n - 1], 2, false);
      assert a == a[..n - 1] + [a[n - 1]];
      assert b == b[..n - 1] + [b[n - 1]];
    }
  }

  lemma ReverseInjective(a: seq<uint8>, b: seq<uint8>)
    requires Reverse(a) == Reverse(b)
    ensures a == b
  {
    assert |a| == |b|;
    forall i | 0 <= i < |a| ensures a[i] == b[i] {
      assert a[i] == Reverse(a)[|a| - 1 - i];
    }
  }

  /** The MBR form: the four signature bytes in reverse order as lower-case hex, a dash,
      then the partition number (taken as a signed 32-bit int) printed by `%02d`. */
  lemma MbrPartUuidText(sig: Signature, partitionNumber: uint32)
    ensures MbrPartUuid(sig, partitionNumber) == HexBytes(Reverse(sig[0..4])) + "-" + Dec02(AsInt32(partitionNumber))
    ensures partitionNumber < 0x8000_0000 ==> MbrPartUuid(sig, partitionNumber)[9..] == Dec02(partitionNumber)
  {
    HexOfLe(sig[0..4]);
  }

  /** The stack buffer the MBR text is printed into. */
  const MbrBufferSize: nat := 16

  /** What `sprintf` stores into that buffer as written: the whole text and its NUL. */
  function MbrBytesWritten(sig: Signature, partitionNumber: uint32): nat
  {
    |MbrPartUuid(sig, partitionNumber)| + 1
  }

  /** The text and its terminator fit in the buffer exactly when the partition number,
      read as a signed 32-bit value, prints in at most six characters. */
  lemma MbrBufferFits(sig: Signature, partitionNumber: uint32)
    ensures MbrBytesWritten(sig, partitionNumber) <= MbrBufferSize <==>
      partitionNumber < 1_000_000 || partitionNumber >= 0x1_0000_0000 - 99_999
  {
    var x := AsInt32(partitionNumber);
    assert Pow10(6) == 1_000_000 && Pow10(5) == 100_000;
    if x >= 10 {
      DecimalLengthBound(x, 6);
    } else if x < 0 {
      DecimalLengthBound(-x, 5);
    }
  }

  /** Partition 1000000 makes `sprintf` store 17 bytes into the 16-byte buffer. */
  lemma MbrBufferOverflow(sig: Signature)
    ensures MbrBytesWritten(sig, 1_000_000) == MbrBufferSize + 1
  {
    assert AsInt32(1_000_000) == 1_000_000;
    DecimalLength7(1_000_000);
  }

  lemma DecimalLength7(n: nat)
    requires 1_000_000 <= n < 10_000_000
    ensures |Decimal(n)| == 7
  {
    assert Pow10(6) == 1_000_000 && Pow10(7) == 10_000_000;
    DecimalLengthBound(n, 7);
    DecimalLengthBound(n, 6);
  }

  /** The GPT form is the RFC 4122 text layout over the mixed-endian GUID bytes: the first
      three groups are byte-reversed, the last two are in stored order. */
  lemma GptPartUuidText(sig: Signature)
    ensures GptPartUuid(sig) ==
      HexBytes(Reverse(sig[0..4])) + "-" + HexBytes(Reverse(sig[4..6])) + "-" + HexBytes(Reverse(sig[6..8])) + "-"
        + HexBytes(sig[8..10]) + "-" + HexBytes(sig[10..16])
  {
    HexOfLe(sig[0..4]);
    HexOfLe(sig[4..6]);
    HexOfLe(sig[6..8]);
    HexOfBe(sig[8..10]);
    HexOfBe(sig[10..12]);
    HexOfBe(sig[12..16]);
    assert sig[10..16] == sig[10..12] + sig[12..16];
    HexBytesAppend(sig[10..12], sig[12..16]);
  }

  /** The GPT text is 8-4-4-4-12 lower-case hex digits. */
  lemma GptPartUuidShape(sig: Signature)
    ensures |GptPartUuid(sig)| == 36
    ensures forall i :: 0 <= i < 36 ==>
      if i in {8, 13, 18, 23} then GptPartUuid(sig)[i] == '-' else IsLowerHexDigit(GptPartUuid(sig)[i])
  {
    var a, b, c := Hex(LE(sig[0..4]), 8, false), Hex(LE(sig[4..6]), 4, false), Hex(LE(sig[6..8]), 4, false);
    var d, e, f := Hex(BE(sig[8..10]), 4, false), Hex(BE(sig[10..12]), 4, false), Hex(BE(sig[12..16]), 8, false);
    var t := GptPartUuid(sig);
    assert t == a + "-" + b + "-" + c + "-" + d + "-" + e + f;
    forall i | 0 <= i < 36
      ensures if i in {8, 13, 18, 23} then t[i] == '-' else IsLowerHexDigit(t[i])
    {
      if i < 8 { assert t[i] == a[i]; }
      else if 8 < i < 13 { assert t[i] == b[i - 9]; }
      else if 13 < i < 18 { assert t[i] == c[i - 14]; }
      else if 18 < i < 23 { assert t[i] == d[i - 19]; }
      else if 23 < i < 28 { assert t[i] == e[i - 24]; }
      else if 28 <= i { assert t[i] == f[i - 28]; }
    }
  }

  /** Where each group sits in an 8-4-4-4-12 text. */
  lemma GroupSlices(a: string, b: string, c: string, d: string, e: string, f: string)
    requires |a| == 8 && |b| == 4 && |c| == 4 && |d| == 4 && |e| == 4 && |f| == 8
    ensures var t := a + "-" + b + "-" + c + "-" + d + "-" + e + f;
      |t| == 36 && t[0..8] == a && t[9..13] == b && t[14..18] == c && t[19..23] == d && t[24..28] == e && t[28..36] == f
  {
  }

  lemma LeGroupInjective(x: seq<uint8>, y: seq<uint8>)
    requires |x| == |y| && Hex(LE(x), 2 * |x|, false) == Hex(LE(y), 2 * |y|, false)
    ensures x == y
  {
    Pow256IsPow16(|x|);
    HexInjective(LE(x), LE(y), 2 * |x|, false);
    LeInjective(x, y);
  }

  /** Two byte groups of equal length print as the same big-endian hex text. */
  predicate SameBeGroup(x: seq<uint8>, y: seq<uint8>)
  {
    |x| == |y| && Hex(BE(x), 2 * |x|, false) == Hex(BE(y), 2 * |y|, false)
  }

  lemma BeGroupInjective(x: seq<uint8>, y: seq<uint8>)
    requires SameBeGroup(x, y)
    ensures x == y
  {
    Pow256IsPow16(|x|);
    HexInjective(BE(x), BE(y), 2 * |x|, false);
    BeInjective(x, y);
  }

  lemma GptPartUuidGroups(sig: Signature)
    ensures var t := GptPartUuid(sig);
      |t| == 36 &&
      t[0..8] == Hex(LE(sig[0..4]), 8, false) && t[9..13] == Hex(LE(sig[4..6]), 4, false) &&
      t[14..18] == Hex(LE(sig[6..8]), 4, false) && t[19..23] == Hex(BE(sig[8..10]), 4, false) &&
      t[24..28] == Hex(BE(sig[10..12]), 4, false) && t[28..36] == Hex(BE(sig[12..16]), 8, false)
  {
    GroupSlices(Hex(LE(sig[0..4]), 8, false), Hex(LE(sig[4..6]), 4, false), Hex(LE(sig[6..8]), 4, false),
                Hex(BE(sig[8..10]), 4, false), Hex(BE(sig[10..12]), 4, false), Hex(BE(sig[12..16]), 8, false));
  }

  /** Slices that agree piece by piece agree as a whole. */
  lemma SlicesJoin(x: seq<uint8>, y: seq<uint8>, i: nat, j: nat, k: nat, l: nat)
    requires i <= j <= k <= l <= |x| && l <= |y|
    requires x[i..j] == y[i..j] && x[j..k] == y[j..k] && x[k..l] == y[k..l]
    ensures x[i..l] == y[i..l]
  {
    assert x[i..l] == x[i..j] + x[j..k] + x[k..l];
    assert y[i..l] == y[i..j] + y[j..k] + y[k..l];
  }

  lemma GptLeGroupsDetermined(s1: Signature, s2: Signature)
    requires GptPartUuid(s1) == GptPartUuid(s2)
    ensures s1[0..8] == s2[0..8]
  {
    GptPartUuidGroups(s1);
    GptPartUuidGroups(s2);
    LeGroupInjective(s1[0..4], s2[0..4]);
    LeGroupInjective(s1[4..6], s2[4..6]);
    LeGroupInjective(s1[6..8], s2[6..8]);
    SlicesJoin(s1, s2, 0, 4, 6, 8);
  }

  lemma GptBeGroupDetermined(s1: Signature, s2: Signature, i: nat, j: nat, lo: nat, hi: nat)
    requires GptPartUuid(s1) == GptPartUuid(s2)
    requires lo <= hi <= 16 && j <= 36 && i <= j
    requires GptPartUuid(s1)[i..j] == Hex(BE(s1[lo..hi]), 2 * (hi - lo), false)
    requires GptPartUuid(s2)[i..j] == Hex(BE(s2[lo..hi]), 2 * (hi - lo), false)
    ensures s1[lo..hi] == s2[lo..hi]
  {
    assert SameBeGroup(s1[lo..hi], s2[lo..hi]);
    BeGroupInjective(s1[lo..hi], s2[lo..hi]);
  }

  lemma GptBeGroupsDetermined(s1: Signature, s2: Signature)
    requires GptPartUuid(s1) == GptPartUuid(s2)
    ensures s1[8..16] == s2[8..16]
  {
    GptPartUuidGroups(s1);
    GptPartUuidGroups(s2);
    GptBeGroupDetermined(s1, s2, 19, 23, 8, 10);
    GptBeGroupDetermined(s1, s2, 24, 28, 10, 12);
    GptBeGroupDetermined(s1, s2, 28, 36, 12, 16);
    SlicesJoin(s1, s2, 8, 10, 12, 16);
  }

  /** Distinct GPT signatures give distinct PARTUUIDs. */
  lemma GptPartUuidInjective(s1: Signature, s2: Signature)
    requires GptPartUuid(s1) == GptPartUuid(s2)
    ensures s1 == s2
  {
    GptLeGroupsDetermined(s1, s2);
    GptBeGroupsDetermined(s1, s2);
    assert s1 == s1[0..8] + s1[8..16];
    assert s2 == s2[0..8] + s2[8..16];
  }

  lemma HexBytesCons(b: uint8, bs: seq<uint8>)
    ensures HexBytes([b] + bs) == Hex(b, 2, false) + HexBytes(bs)
  {
    HexBytesAppend([b], bs);
    assert [b][..0] == [];
  }

  lemma HexBytes2(b0: uint8, b1: uint8)
    ensures HexBytes([b0, b1]) == Hex(b0, 2, false) + Hex(b1, 2, false)
  {
    HexBytesCons(b0, [b1]);
    HexBytesCons(b1, []);
    assert [b0, b1] == [b0] + [b1];
    assert [b1] == [b1] + [];
  }

  lemma HexBytes4(b0: uint8, b1: uint8, b2: uint8, b3: uint8)
    ensures HexBytes([b0, b1, b2, b3]) == Hex(b0, 2, false) + Hex(b1, 2, false) + Hex(b2, 2, false) + Hex(b3, 2, false)
  {
    HexBytes2(b0, b1);
    HexBytes2(b2, b3);
    HexBytesAppend([b0, b1], [b2, b3]);
    assert [b0, b1, b2, b3] == [b0, b1] + [b2, b3];
  }

  lemma MbrExampleSignature(sig: Signature)
    requires sig[0..4] == [0x78, 0x56, 0x34, 0x12]
    ensures HexBytes(Reverse(sig[0..4])) == "12345678"
  {
    assert Reverse(sig[0..4]) == [0x12, 0x34, 0x56, 0x78];
    HexBytes4(0x12, 0x34, 0x56, 0x78);
    assert Hex(0x12, 2, false) == "12" && Hex(0x34, 2, false) == "34";
    assert Hex(0x56, 2, false) == "56" && Hex(0x78, 2, false) == "78";
  }

  lemma MbrExampleAssemble(a: string, b: string)
    requires a == "12345678" && b == "01"
    ensures a + "-" + b == "12345678-01"
  {
  }

  /** Signature bytes 78 56 34 12 (the other twelve bytes do not matter) on partition 1
      give "12345678-01". */
  lemma MbrExample(sig: Signature)
    requires sig[0..4] == [0x78, 0x56, 0x34, 0x12]
    ensures MbrPartUuid(sig, 1) == "12345678-01"
  {
    MbrPartUuidText(sig, 1);
    MbrExampleSignature(sig);
    assert Dec02(AsInt32(1)) == "01";
    MbrExampleAssemble(HexBytes(Reverse(sig[0..4])), Dec02(AsInt32(1)));
  }

  /** The example signature of the GPT form, as a precondition. */
  predicate IsGptExample(sig: Signature)
  {
    sig[..8] == [0x01, 0x02, 0x03, 0x04, 0x05, 0x06, 0x07, 0x08] &&
    sig[8..] == [0xAA, 0xBB, 0xCC, 0xDD, 0xEE, 0xFF, 0x00, 0x11]
  }

  lemma GptExampleGroup1(sig: Signature)
    requires IsGptExample(sig)
    ensures HexBytes(Reverse(sig[0..4])) == "04030201"
  {
    assert sig[0..4] == sig[..8][0..4];
    assert Reverse(sig[0..4]) == [0x04, 0x03, 0x02, 0x01];
    HexBytes4(0x04, 0x03, 0x02, 0x01);
    assert Hex(0x04, 2, false) == "04" && Hex(0x03, 2, false) == "03";
    assert Hex(0x02, 2, false) == "02" && Hex(0x01, 2, false) == "01";
  }

  lemma GptExampleGroup2(sig: Signature)
    requires IsGptExample(sig)
    ensures HexBytes(Reverse(sig[4..6])) == "0605"
  {
    assert sig[4..6] == sig[..8][4..6];
    assert Reverse(sig[4..6]) == [0x06, 0x05];
    HexBytes2(0x06, 0x05);
    assert Hex(0x06, 2, false) == "06" && Hex(0x05, 2, false) == "05";
  }

  lemma GptExampleGroup3(sig: Signature)
    requires IsGptExample(sig)
    ensures HexBytes(Reverse(sig[6..8])) == "0807"
  {
    assert sig[6..8] == sig[..8][6..8];
    assert Reverse(sig[6..8]) == [0x08, 0x07];
    HexBytes2(0x08, 0x07);
    assert Hex(0x08, 2, false) == "08" && Hex(0x07, 2, false) == "07";
  }

  lemma GptExampleGroup4(sig: Signature)
    requires IsGptExample(sig)
    ensures HexBytes(sig[8..10]) == "aabb"
  {
    assert sig[8..10] == sig[8..][0..2];
    HexBytes2(0xAA, 0xBB);
    assert Hex(0xAA, 2, false) == "aa" && Hex(0xBB, 2, false) == "bb";
  }

  lemma GptExampleGroup5(sig: Signature)
    requires IsGptExample(sig)
    ensures HexBytes(sig[10..16]) == "ccddeeff0011"
  {
    assert sig[10..16] == sig[8..][2..8];
    assert sig[10..16] == [0xCC, 0xDD] + [0xEE, 0xFF, 0x00, 0x11];
    HexBytesAppend([0xCC, 0xDD], [0xEE, 0xFF, 0x00, 0x11]);
    HexBytes2(0xCC, 0xDD);
    HexBytes4(0xEE, 0xFF, 0x00, 0x11);
    assert Hex(0xCC, 2, false) == "cc" && Hex(0xDD, 2, false) == "dd";
    assert Hex(0xEE, 2, false) == "ee" && Hex(0xFF, 2, false) == "ff";
    assert Hex(0x00, 2, false) == "00" && Hex(0x11, 2, false) == "11";
  }

  lemma GptExampleAssemble(a: string, b: string, c: string, d: string, e: string)
    requires a == "04030201" && b == "0605" && c == "0807" && d == "aabb" && e == "ccddeeff0011"
    ensures a + "-" + b + "-" + c + "-" + d + "-" + e == "04030201-0605-0807-aabb-ccddeeff0011"
  {
  }

  /** Signature bytes 01 02 .. 08 AA BB CC DD EE FF 00 11 give
      "04030201-0605-0807-aabb-ccddeeff0011". */
  lemma GptExample(sig: Signature)
    requires IsGptExample(sig)
    ensures GptPartUuid(sig) == "04030201-0605-0807-aabb-ccddeeff0011"
  {
    GptPartUuidText(sig);
    GptExampleGroup1(sig);
    GptExampleGroup2(sig);
    GptExampleGroup3(sig);
    GptExampleGroup4(sig);
    GptExampleGroup5(sig);
    GptExampleAssemble(HexBytes(Reverse(sig[0..4])), HexBytes(Reverse(sig[4..6])), HexBytes(Reverse(sig[6..8])),
                       HexBytes(sig[8..10]), HexBytes(sig[10..16]));
  }

  /** `get_partuuid_from_harddrive_device_path`: reads the 38 payload bytes field by field,
      whatever length the node declared, and formats the signature. */
  method GetPartUuidFromHardDrive(rd: Reader) returns (r: Result<Option<string>>)
    requires rd.Valid()
    modifies rd`pos
    ensures rd.Valid()
    ensures old(rd.pos) + PayloadSize <= |rd.data| ==>
      r == Ok(PartUuid(ParseHardDrive(rd.data[old(rd.pos)..old(rd.pos) + PayloadSize]))) && rd.pos == old(rd.pos) + PayloadSize
    ensures old(rd.pos) + PayloadSize > |rd.data| ==> r == Err(Truncated) && rd.pos == |rd.data|
  {
    ghost var p := rd.pos;
    var partitionNumber :- rd.ReadLe32();
    assert rd.pos == p + 4;
    var partitionStart :- rd.ReadLe64();
    assert rd.pos == p + 12;
    var partitionSize :- rd.ReadLe64();
    assert rd.pos == p + 20;
    var signature :- rd.Read(16);
    assert rd.pos == p + 36;
    var mbrType :- rd.ReadU8();
    var signatureType :- rd.ReadU8();
    PayloadAt(rd.data, p);
    assert HardDrive(partitionNumber, partitionStart, partitionSize, signature, mbrType, signatureType)
      == ParseHardDrive(rd.data[p..p + PayloadSize]);
    if signatureType == MbrSignatureType {
      assert |signature| == 16;
      r := Ok(Some(MbrPartUuid(signature, partitionNumber)));
    } else if signatureType == GptSignatureType {
      r := Ok(Some(GptPartUuid(signature)));
    } else {
      r := Ok(None);
    }
  }
}
