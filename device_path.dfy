/** The device-path walk of `detect_efi_boot_partition`: generic nodes (section 10.3.1 of
    the UEFI Specification) are a 1-byte type, a 1-byte sub-type and a 2-byte
    little-endian length that counts the 4-byte header. */
module DevicePath {

  import opened Endian
  import opened Errors
  import opened ByteReader
  import opened PartitionSignature

  const HeaderSize: nat := 4
  const EndType: uint8 := 0x7F
  const EndEntireSubType: uint8 := 0xFF
  const MediaType: uint8 := 0x04
  const HardDriveSubType: uint8 := 0x01

  predicate IsEndEntire(nodeType: uint8, subType: uint8)
  {
    nodeType == EndType && subType == EndEntireSubType
  }

  predicate IsHardDrive(nodeType: uint8, subType: uint8)
  {
    nodeType == MediaType && subType == HardDriveSubType
  }

  /** The outcome of reading one node: the walk ends with a result, or it goes on
      after the given number of bytes. */
  datatype Step = Done(result: Result<Option<string>>) | Next(consumed: nat)

  /** One turn of the loop over the bytes `s`: End-Entire ends the walk before any length
      is read; a length below 4 is malformed; a Hard-Drive node is decoded from the 38
      bytes after its header, whatever length it declares; any other node is skipped
      by its declared length. */
  function NodeStep(s: seq<uint8>): (st: Step)
    ensures st.Next? ==> HeaderSize <= st.consumed <= |s|
  {
    if |s| < 2 then Done(Err(Truncated))
    else if IsEndEntire(s[0], s[1]) then Done(Ok(None))
    else if |s| < HeaderSize then Done(Err(Truncated))
    else
      var length := LE(s[2..4]);
      if length < HeaderSize then Done(Err(Malformed))
      else if !IsHardDrive(s[0], s[1]) then
        if |s| < length then Done(Err(Truncated)) else Next(length)
      else if |s| < HeaderSize + PayloadSize then Done(Err(Truncated))
      else
        match PartUuid(ParseHardDrive(s[HeaderSize..HeaderSize + PayloadSize]))
        case Some(partuuid) => Done(Ok(Some(partuuid)))
        case None => Next(HeaderSize + PayloadSize)
  }

  /** What the walk yields when started on the bytes `s`: the first PARTUUID a Hard-Drive
      node names, None when End-Entire comes first, or the error that stops it. */
  function Walk(s: seq<uint8>): Result<Option<string>>
    decreases |s|
  {
    match NodeStep(s)
    case Done(r) => r
    case Next(n) => Walk(s[n..])
  }

  /** A device-path node as firmware writes it, its length field computed from its body. */
  datatype Node = Node(nodeType: uint8, subType: uint8, body: seq<uint8>)

  predicate Encodable(n: Node)
  {
    HeaderSize + |n.body| < 0x1_0000
  }

  /** A node the walk steps over: any type other than End-Entire and Hard-Drive,
      including an End node of another sub-type. */
  predicate Skipped(n: Node)
  {
    Encodable(n) && !IsEndEntire(n.nodeType, n.subType) && !IsHardDrive(n.nodeType, n.subType)
  }

  /** A path of skipped nodes. */
  predicate AllSkipped(ns: seq<Node>)
    ensures AllSkipped(ns) ==> forall i :: 0 <= i < |ns| ==> Encodable(ns[i])
    ensures AllSkipped(ns) && ns != [] ==> Skipped(ns[0]) && AllSkipped(ns[1..])
  {
    forall i :: 0 <= i < |ns| ==> Skipped(ns[i])
  }

  function EncodeNode(n: Node): (bs: seq<uint8>)
    requires Encodable(n)
    ensures |bs| == HeaderSize + |n.body|
  {
    [n.nodeType, n.subType] + LeBytes(HeaderSize + |n.body|, 2) + n.body
  }

  function EncodeNodes(ns: seq<Node>): (bs: seq<uint8>)
    requires forall i :: 0 <= i < |ns| ==> Encodable(ns[i])
  {
    if ns == [] then [] else EncodeNode(ns[0]) + EncodeNodes(ns[1..])
  }

  /** The End-Entire node. */
  const EndEntireNode: seq<uint8> := [EndType, EndEntireSubType, 4, 0]

  /** A Hard-Drive node carrying `hd`, whatever length its header declares. */
  function HardDriveNode(declaredLength: uint16, hd: HardDrive): (bs: seq<uint8>)
    ensures |bs| == HeaderSize + PayloadSize
  {
    [MediaType, HardDriveSubType] + LeBytes(declaredLength, 2) + EncodeHardDrive(hd)
  }

  lemma EncodedLength(n: Node)
    requires Encodable(n)
    ensures LE(EncodeNode(n)[2..4]) == HeaderSize + |n.body|
  {
    assert EncodeNode(n)[2..4] == LeBytes(HeaderSize + |n.body|, 2);
    Pow256Widths();
    LeOfLeBytes(HeaderSize + |n.body|, 2);
  }

  /** The walk steps over a skipped node by exactly its declared length and goes on
      with whatever follows it. */
  lemma WalkSkipsNode(n: Node, rest: seq<uint8>)
    requires Skipped(n)
    ensures Walk(EncodeNode(n) + rest) == Walk(rest)
  {
    var s := EncodeNode(n) + rest;
    assert s[2..4] == EncodeNode(n)[2..4];
    EncodedLength(n);
    assert s[HeaderSize + |n.body|..] == rest;
  }

  lemma {:induction false} WalkSkipsNodes(ns: seq<Node>, rest: seq<uint8>)
    requires AllSkipped(ns)
    ensures Walk(EncodeNodes(ns) + rest) == Walk(rest)
  {
    if ns != [] {
      assert EncodeNodes(ns) + rest == EncodeNode(ns[0]) + (EncodeNodes(ns[1..]) + rest);
      WalkSkipsNode(ns[0], EncodeNodes(ns[1..]) + rest);
      WalkSkipsNodes(ns[1..], rest);
    } else {
      assert EncodeNodes(ns) + rest == rest;
    }
  }

  /** End-Entire stops the walk with nothing found; its own length field is never read. */
  lemma WalkStopsAtEnd(rest: seq<uint8>)
    ensures Walk([EndType, EndEntireSubType] + rest) == Ok(None)
  {
  }

  /** A declared length below the header size is malformed, for every node type but
      End-Entire. */
  lemma WalkRejectsShortLength(s: seq<uint8>)
    requires |s| >= HeaderSize && !IsEndEntire(s[0], s[1]) && LE(s[2..4]) < HeaderSize
    ensures Walk(s) == Err(Malformed)
  {
  }

  /** A Hard-Drive node consumes exactly its 38 payload bytes whatever length it declares;
      with a recognised signature type the walk ends with its PARTUUID, otherwise it
      goes on with the next node. */
  lemma WalkHardDrive(declaredLength: uint16, hd: HardDrive, rest: seq<uint8>)
    requires declaredLength >= HeaderSize
    ensures Walk(HardDriveNode(declaredLength, hd) + rest) ==
      if PartUuid(hd).Some? then Ok(PartUuid(hd)) else Walk(rest)
  {
    var s := HardDriveNode(declaredLength, hd) + rest;
    assert s[2..4] == LeBytes(declaredLength, 2);
    Pow256Widths();
    LeOfLeBytes(declaredLength, 2);
    assert s[HeaderSize..HeaderSize + PayloadSize] == EncodeHardDrive(hd);
    ParseEncodeHardDrive(hd);
    assert s[HeaderSize + PayloadSize..] == rest;
  }

  /** Skipped nodes and then a Hard-Drive node with a recognised signature: the walk
      yields that node's PARTUUID. */
  lemma WalkFindsHardDrive(ns: seq<Node>, declaredLength: uint16, hd: HardDrive, rest: seq<uint8>)
    requires AllSkipped(ns) && declaredLength >= HeaderSize && PartUuid(hd).Some?
    ensures Walk(EncodeNodes(ns) + HardDriveNode(declaredLength, hd) + rest) == Ok(PartUuid(hd))
  {
    var tail := HardDriveNode(declaredLength, hd) + rest;
    assert EncodeNodes(ns) + HardDriveNode(declaredLength, hd) + rest == EncodeNodes(ns) + tail;
    WalkSkipsNodes(ns, tail);
    WalkHardDrive(declaredLength, hd, rest);
  }

  /** Skipped nodes and then End-Entire: the walk ends without a PARTUUID. */
  lemma WalkSkipsToEnd(ns: seq<Node>, rest: seq<uint8>)
    requires AllSkipped(ns)
    ensures Walk(EncodeNodes(ns) + EndEntireNode + rest) == Ok(None)
  {
    var tail := EndEntireNode + rest;
    assert EncodeNodes(ns) + EndEntireNode + rest == EncodeNodes(ns) + tail;
    WalkSkipsNodes(ns, tail);
    assert tail == [EndType, EndEntireSubType] + ([4, 0] + rest);
    WalkStopsAtEnd([4, 0] + rest);
  }

  /** Skipped nodes, a Hard-Drive node whose signature type is neither MBR nor GPT, and
      End-Entire: the walk passes over the Hard-Drive node and ends without a PARTUUID,
      not with a decoding error. */
  lemma WalkPassesUnrecognisedHardDrive(ns: seq<Node>, declaredLength: uint16, hd: HardDrive, rest: seq<uint8>)
    requires AllSkipped(ns) && declaredLength >= HeaderSize && PartUuid(hd).None?
    ensures Walk(EncodeNodes(ns) + HardDriveNode(declaredLength, hd) + EndEntireNode + rest) == Ok(None)
  {
    var tail := HardDriveNode(declaredLength, hd) + (EndEntireNode + rest);
    assert EncodeNodes(ns) + HardDriveNode(declaredLength, hd) + EndEntireNode + rest == EncodeNodes(ns) + tail;
    WalkSkipsNodes(ns, tail);
    WalkHardDrive(declaredLength, hd, EndEntireNode + rest);
    assert EndEntireNode + rest == [EndType, EndEntireSubType] + ([4, 0] + rest);
    WalkStopsAtEnd([4, 0] + rest);
  }

  /** A skipped node cut anywhere before its end fails as truncated. */
  lemma WalkTruncatedNode(n: Node, k: nat)
    requires Skipped(n) && k < |EncodeNode(n)|
    ensures Walk(EncodeNode(n)[..k]) == Err(Truncated)
  {
    var s := EncodeNode(n)[..k];
    if k >= HeaderSize {
      assert s[2..4] == EncodeNode(n)[2..4];
      EncodedLength(n);
    }
  }

  /** A path of skipped nodes closed by End-Entire, cut anywhere before End-Entire's type
      and sub-type are both present, fails as truncated: no field is ever read past the
      end of the data. */
  lemma {:induction false} WalkTruncatedPrefix(ns: seq<Node>, k: nat)
    requires AllSkipped(ns)
    requires k < |EncodeNodes(ns)| + 2
    ensures Walk((EncodeNodes(ns) + EndEntireNode)[..k]) == Err(Truncated)
  {
    var path := EncodeNodes(ns) + EndEntireNode;
    if ns == [] {
      assert path[..k] == EndEntireNode[..k];
    } else {
      var first, others := EncodeNode(ns[0]), EncodeNodes(ns[1..]) + EndEntireNode;
      assert path == first + others;
      if k < |first| {
        assert path[..k] == first[..k];
        WalkTruncatedNode(ns[0], k);
      } else {
        assert path[..k] == first + others[..k - |first|];
        WalkSkipsNode(ns[0], others[..k - |first|]);
        WalkTruncatedPrefix(ns[1..], k - |first|);
      }
    }
  }

  /** A Hard-Drive node cut anywhere before the end of its payload fails as truncated. */
  lemma WalkTruncatedHardDrive(declaredLength: uint16, hd: HardDrive, k: nat)
    requires declaredLength >= HeaderSize && k < HeaderSize + PayloadSize
    ensures Walk(HardDriveNode(declaredLength, hd)[..k]) == Err(Truncated)
  {
    var node := HardDriveNode(declaredLength, hd);
    var s := node[..k];
    if k >= HeaderSize {
      assert s[0] == MediaType && s[1] == HardDriveSubType;
      assert s[2..4] == node[2..4] == LeBytes(declaredLength, 2);
      Pow256Widths();
      LeOfLeBytes(declaredLength, 2);
      assert NodeStep(s) == Done(Err(Truncated));
    }
  }

  /** One turn of the `while (!partuuid)` loop: reads a node header from `rd` and then
      skips or decodes the node. */
  method ReadNode(rd: Reader) returns (step: Step)
    requires rd.Valid()
    modifies rd`pos
    ensures rd.Valid()
    ensures step == NodeStep(old(rd.Remaining()))
    ensures old(rd.pos) <= rd.pos
    ensures step.Next? ==> rd.pos == old(rd.pos) + step.consumed
  {
    ghost var s := rd.Remaining();
    ghost var p := rd.pos;
    var nodeType := rd.ReadU8();
    if nodeType.Err? {
      return Done(Err(nodeType.error));
    }
    var subType := rd.ReadU8();
    if subType.Err? {
      return Done(Err(subType.error));
    }
    assert s[0] == nodeType.value && s[1] == subType.value;
    if IsEndEntire(nodeType.value, subType.value) {
      return Done(Ok(None));
    }
    var length := rd.ReadLe16();
    if length.Err? {
      return Done(Err(length.error));
    }
    assert LE(s[2..4]) == length.value by {
      assert s[2..4] == rd.data[p + 2..p + 4];
    }
    if length.value < HeaderSize {
      return Done(Err(Malformed));
    }
    if !IsHardDrive(nodeType.value, subType.value) {
      var skipped := rd.Read(length.value - HeaderSize);
      if skipped.Err? {
        return Done(Err(skipped.error));
      }
      return Next(length.value);
    }
    var partuuid := GetPartUuidFromHardDrive(rd);
    if partuuid.Err? {
      return Done(Err(partuuid.error));
    }
    assert s[HeaderSize..HeaderSize + PayloadSize] == rd.data[p + HeaderSize..p + HeaderSize + PayloadSize];
    step := if partuuid.value.Some? then Done(Ok(partuuid.value)) else Next(HeaderSize + PayloadSize);
  }

  /** The `while (!partuuid)` loop: reads nodes from `rd` until the End-Entire node,
      a Hard-Drive node with a recognised signature, or an error. */
  method WalkDevicePath(rd: Reader) returns (r: Result<Option<string>>)
    requires rd.Valid()
    modifies rd`pos
    ensures rd.Valid()
    ensures r == Walk(old(rd.Remaining()))
  {
    var partuuid: Option<string> := None;
    while partuuid.None?
      invariant rd.Valid()
      invariant partuuid.None? ==> Walk(rd.Remaining()) == Walk(old(rd.Remaining()))
      invariant partuuid.Some? ==> Walk(old(rd.Remaining())) == Ok(partuuid)
      decreases |rd.data| - rd.pos, if partuuid.None? then 1 else 0
    {
      ghost var s := rd.Remaining();
      var step := ReadNode(rd);
      if step.Done? {
        partuuid :- step.result;
        if partuuid.None? {
          break;
        }
      } else {
        assert rd.Remaining() == s[step.consumed..];
      }
    }
    r := Ok(partuuid);
  }
}
