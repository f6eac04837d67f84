/** The body of `detect_efi_boot_partition`: read BootCurrent, derive the Boot#### name,
    skip the load-option preamble (the EFI_LOAD_OPTION layout of section 3.1.3 of the
    UEFI Specification, behind the 4-byte attribute word that efivarfs prepends), walk
    the device path and look the PARTUUID up. */
module BootEntry {

  import opened Endian
  import opened Format
  import opened Errors
  import opened ByteReader
  import opened PartitionSignature
  import opened DevicePath

  /** The vendor GUID of the UEFI global variables, as efivarfs spells it in file names. */
  const GlobalVariableGuid: string := "8be4df61-93ca-11d2-aa0d-00e098032b8c"

  const BootCurrentName: string := "BootCurrent-" + GlobalVariableGuid

  /** efivarfs' attribute word in front of every variable's contents. */
  const AttributesSize: nat := 4

  /** Attributes, load-option flags and the device-path list length. */
  const PreambleSize: nat := AttributesSize + 4 + 2

  /** `Boot%04X-8be4df61-93ca-11d2-aa0d-00e098032b8c` of the boot index. */
  function BootVarName(index: uint16): string
  {
    "Boot" + Hex(index, 4, true) + "-" + GlobalVariableGuid
  }

  /** The name is "Boot", exactly four upper-case hex digits that read back as the index,
      and the fixed suffix, for every 16-bit index. */
  lemma BootVarNameShape(index: uint16)
    ensures |BootVarName(index)| == 45
    ensures BootVarName(index)[..4] == "Boot"
    ensures forall i :: 4 <= i < 8 ==> IsUpperHexDigit(BootVarName(index)[i])
    ensures HexValue(BootVarName(index)[4..8]) == index
    ensures BootVarName(index)[8..] == "-" + GlobalVariableGuid
  {
    var name, digits := BootVarName(index), Hex(index, 4, true);
    assert name[4..8] == digits;
    forall i | 4 <= i < 8 ensures IsUpperHexDigit(name[i]) {
      assert name[i] == digits[i - 4];
    }
    assert Pow16(4) == 0x1_0000;
    HexRoundTrip(index, 4, true);
  }

  /** Distinct boot indices name distinct variables. */
  lemma BootVarNameInjective(a: uint16, b: uint16)
    requires BootVarName(a) == BootVarName(b)
    ensures a == b
  {
    BootVarNameShape(a);
    BootVarNameShape(b);
  }

  /** The first and the last boot index, spelled out. */
  lemma BootVarNameFirst()
    ensures BootVarName(0x0001) == "Boot0001-" + GlobalVariableGuid
  {
    assert Hex(0x0001, 4, true) == "0001";
    assert "Boot" + "0001" + "-" == "Boot0001-";
  }

  lemma BootVarNameLast()
    ensures BootVarName(0xFFFF) == "BootFFFF-" + GlobalVariableGuid
  {
    assert Hex(0xFFFF, 4, true) == "FFFF";
    assert "Boot" + "FFFF" + "-" == "BootFFFF-";
  }

  /** The boot index in the contents of BootCurrent: a little-endian u16 after the
      attribute word. */
  function BootCurrent(contents: seq<uint8>): (r: Result<uint16>)
    ensures r.Err? <==> |contents| < AttributesSize + 2
    ensures r.Err? ==> r.error == Truncated
    ensures r.Ok? ==> LeBytes(r.value, 2) == contents[AttributesSize..AttributesSize + 2]
  {
    if |contents| < AttributesSize + 2 then Err(Truncated)
    else
      LeBytesOfLe(contents[AttributesSize..AttributesSize + 2]);
      Ok(LE(contents[AttributesSize..AttributesSize + 2]))
  }

  /** A byte count added to a successful result. */
  function Plus(r: Result<nat>, k: nat): (r': Result<nat>)
    ensures r'.Ok? == r.Ok? && (r.Err? ==> r'.error == r.error)
    ensures r.Ok? ==> r'.value == r.value + k
  {
    match r
    case Ok(n) => Ok(n + k)
    case Err(e) => Err(e)
  }

  /** The 16-bit unit at unit index k of `s` is present and zero. */
  predicate ZeroUnitAt(s: seq<uint8>, k: nat)
  {
    2 * k + 2 <= |s| && s[2 * k] == 0 && s[2 * k + 1] == 0
  }

  /** How many bytes the description occupies: 16-bit units up to and including the
      first zero unit. */
  function DescriptionLength(s: seq<uint8>): (r: Result<nat>)
    ensures r.Ok? ==> 2 <= r.value <= |s|
    ensures r.Err? ==> r.error == Truncated
    decreases |s|
  {
    if |s| < 2 then Err(Truncated)
    else if LE(s[..2]) == 0 then Ok(2)
    else Plus(DescriptionLength(s[2..]), 2)
  }

  /** One unit of the description read at offset `p` of `data`, `p - start` bytes into it. */
  lemma DescriptionUnitAt(data: seq<uint8>, start: nat, p: nat)
    requires start <= p && p + 2 <= |data|
    ensures Plus(DescriptionLength(data[p..]), p - start) ==
      if LE(data[p..p + 2]) == 0 then Ok(p + 2 - start) else Plus(DescriptionLength(data[p + 2..]), p + 2 - start)
  {
    assert data[p..][..2] == data[p..p + 2];
    assert data[p..][2..] == data[p + 2..];
  }

  /** The loop of `SkipDescription` after reading the unit `next` at offset `p`. */
  lemma DescriptionStep(description: seq<uint8>, data: seq<uint8>, start: nat, p: nat, next: uint16)
    requires start <= p && p + 2 <= |data| && next == LE(data[p..p + 2])
    requires DescriptionLength(description) == Plus(DescriptionLength(data[p..]), p - start)
    ensures DescriptionLength(description) ==
      if next == 0 then Ok(p + 2 - start) else Plus(DescriptionLength(data[p + 2..]), p + 2 - start)
  {
    DescriptionUnitAt(data, start, p);
  }

  lemma LeUnitZero(s: seq<uint8>)
    requires |s| >= 2
    ensures LE(s[..2]) == 0 <==> ZeroUnitAt(s, 0)
  {
    assert s[..2][1..] == [s[1]];
  }

  /** The description ends right after the first zero unit; when the data holds no
      zero unit the read runs out and fails as truncated. */
  lemma {:induction false} DescriptionLengthMeaning(s: seq<uint8>)
    ensures DescriptionLength(s).Ok? ==>
      var n := DescriptionLength(s).value;
      n % 2 == 0 && n >= 2 && ZeroUnitAt(s, n / 2 - 1) && forall k :: 0 <= k < n / 2 - 1 ==> !ZeroUnitAt(s, k)
    ensures DescriptionLength(s).Err? ==>
      DescriptionLength(s).error == Truncated && forall k :: 0 <= k < |s| / 2 ==> !ZeroUnitAt(s, k)
    decreases |s|
  {
    if |s| >= 2 {
      LeUnitZero(s);
      if LE(s[..2]) != 0 {
        var t := s[2..];
        DescriptionLengthMeaning(t);
        forall k | 1 <= k ensures ZeroUnitAt(s, k) <==> ZeroUnitAt(t, k - 1) {
          if 2 * k + 2 <= |s| {
            assert s[2 * k] == t[2 * (k - 1)] && s[2 * k + 1] == t[2 * (k - 1) + 1];
          }
        }
      }
    }
  }

  /** The load-option bytes of a description: each unit little-endian. */
  function EncodeUnits(units: seq<uint16>): (bs: seq<uint8>)
    ensures |bs| == 2 * |units|
  {
    if units == [] then [] else LeBytes(units[0], 2) + EncodeUnits(units[1..])
  }

  /** A description of non-zero units and its terminator occupy exactly their bytes. */
  lemma {:induction false} DescriptionOfUnits(units: seq<uint16>, rest: seq<uint8>)
    requires forall i :: 0 <= i < |units| ==> units[i] != 0
    ensures DescriptionLength(EncodeUnits(units) + [0, 0] + rest) == Ok(2 * |units| + 2)
  {
    var s := EncodeUnits(units) + [0, 0] + rest;
    if units == [] {
      LeUnitZero(s);
    } else {
      assert s[..2] == LeBytes(units[0], 2);
      Pow256Widths();
      LeOfLeBytes(units[0], 2);
      assert s[2..] == EncodeUnits(units[1..]) + [0, 0] + rest;
      DescriptionOfUnits(units[1..], rest);
    }
  }

  /** Bytes of a load option before its device path: the fixed preamble and the description. */
  function PreambleLength(option: seq<uint8>): (r: Result<nat>)
    ensures r.Ok? ==> PreambleSize + 2 <= r.value <= |option|
  {
    if |option| < PreambleSize then Err(Truncated)
    else Plus(DescriptionLength(option[PreambleSize..]), PreambleSize)
  }

  /** What `detect_efi_boot_partition` returns for the variables in `efivars` (file name to
      contents; a missing name is a variable that cannot be opened) and the block devices
      in `partitions` (PARTUUID to device path). */
  function Detect(efivars: map<string, seq<uint8>>, partitions: map<string, string>): Result<string>
  {
    if BootCurrentName !in efivars then Err(NoEfiVars)
    else
      var index :- BootCurrent(efivars[BootCurrentName]);
      var name := BootVarName(index);
      if name !in efivars then Err(BootOptionUnavailable(index))
      else DetectInOption(efivars[name], partitions)
  }

  /** The detection from the contents of the current Boot#### variable on. */
  function DetectInOption(option: seq<uint8>, partitions: map<string, string>): Result<string>
  {
    var skip :- PreambleLength(option);
    DetectInPath(option[skip..], partitions)
  }

  /** The detection from the start of the device path on. */
  function DetectInPath(path: seq<uint8>, partitions: map<string, string>): Result<string>
  {
    var found :- Walk(path);
    if found.None? then Err(NotInDevicePath)
    else if found.value !in partitions then Err(PartitionNotFound(found.value))
    else Ok(partitions[found.value])
  }

  /** The contents of a Boot#### variable as efivarfs shows it: the attribute word, the
      load-option flags, the device-path list length, the description with its zero
      terminator, then the device path. */
  function EncodeLoadOption(attributes: uint32, flags: uint32, pathLength: uint16,
                            description: seq<uint16>, path: seq<uint8>): seq<uint8>
  {
    LeBytes(attributes, 4) + LeBytes(flags, 4) + LeBytes(pathLength, 2) + EncodeUnits(description) + [0, 0] + path
  }

  /** The preamble of an encoded load option ends exactly where its device path begins. */
  lemma PreambleOfLoadOption(attributes: uint32, flags: uint32, pathLength: uint16,
                             description: seq<uint16>, path: seq<uint8>)
    requires forall i :: 0 <= i < |description| ==> description[i] != 0
    ensures var option := EncodeLoadOption(attributes, flags, pathLength, description, path);
      PreambleLength(option) == Ok(PreambleSize + 2 * |description| + 2) &&
      option[PreambleSize + 2 * |description| + 2..] == path
  {
    var option := EncodeLoadOption(attributes, flags, pathLength, description, path);
    var tail := EncodeUnits(description) + [0, 0] + path;
    assert option[PreambleSize..] == tail;
    DescriptionOfUnits(description, path);
    assert option[PreambleSize + 2 * |description| + 2..] == tail[2 * |description| + 2..];
  }

  /** BootCurrent as efivarfs shows it: the attribute word, then the index. */
  lemma BootCurrentOfEncoding(attributes: uint32, index: uint16)
    ensures BootCurrent(LeBytes(attributes, 4) + LeBytes(index, 2)) == Ok(index)
  {
    var contents := LeBytes(attributes, 4) + LeBytes(index, 2);
    assert contents[AttributesSize..AttributesSize + 2] == LeBytes(index, 2);
    Pow256Widths();
    LeOfLeBytes(index, 2);
  }

  /** With a readable BootCurrent and its Boot#### variable present, the detection goes on
      in that variable. */
  lemma DetectReachesOption(efivars: map<string, seq<uint8>>, partitions: map<string, string>,
                            attributes: uint32, index: uint16)
    requires BootCurrentName in efivars && efivars[BootCurrentName] == LeBytes(attributes, 4) + LeBytes(index, 2)
    requires BootVarName(index) in efivars
    ensures Detect(efivars, partitions) == DetectInOption(efivars[BootVarName(index)], partitions)
  {
    BootCurrentOfEncoding(attributes, index);
  }

  /** In an encoded load option the detection goes on at the start of its device path. */
  lemma DetectReachesPath(attributes: uint32, flags: uint32, pathLength: uint16,
                          description: seq<uint16>, path: seq<uint8>, partitions: map<string, string>)
    requires forall i :: 0 <= i < |description| ==> description[i] != 0
    ensures DetectInOption(EncodeLoadOption(attributes, flags, pathLength, description, path), partitions)
      == DetectInPath(path, partitions)
  {
    PreambleOfLoadOption(attributes, flags, pathLength, description, path);
  }

  /** A device path of skipped nodes and then a Hard-Drive node with a recognised signature
      yields the device registered under its PARTUUID, or PartitionNotFound. */
  lemma DetectInPathFindsHardDrive(skipped: seq<Node>, declaredLength: uint16, hd: HardDrive,
                                   rest: seq<uint8>, partitions: map<string, string>)
    requires AllSkipped(skipped) && declaredLength >= HeaderSize && PartUuid(hd).Some?
    ensures var partuuid := PartUuid(hd).value;
      DetectInPath(EncodeNodes(skipped) + HardDriveNode(declaredLength, hd) + rest, partitions) ==
        if partuuid in partitions then Ok(partitions[partuuid]) else Err(PartitionNotFound(partuuid))
  {
    WalkFindsHardDrive(skipped, declaredLength, hd, rest);
  }

  /** A device path of skipped nodes closed by End-Entire names no partition. */
  lemma DetectInPathWithoutHardDrive(skipped: seq<Node>, rest: seq<uint8>, partitions: map<string, string>)
    requires AllSkipped(skipped)
    ensures DetectInPath(EncodeNodes(skipped) + EndEntireNode + rest, partitions) == Err(NotInDevicePath)
  {
    WalkSkipsToEnd(skipped, rest);
  }

  /** A Hard-Drive node with an unrecognised signature type is passed over: a path of
      skipped nodes, such a node and End-Entire names no partition. */
  lemma DetectInPathUnrecognisedHardDrive(skipped: seq<Node>, declaredLength: uint16, hd: HardDrive,
                                          rest: seq<uint8>, partitions: map<string, string>)
    requires AllSkipped(skipped) && declaredLength >= HeaderSize && PartUuid(hd).None?
    ensures DetectInPath(EncodeNodes(skipped) + HardDriveNode(declaredLength, hd) + EndEntireNode + rest, partitions)
      == Err(NotInDevicePath)
  {
    WalkPassesUnrecognisedHardDrive(skipped, declaredLength, hd, rest);
  }

  /** The whole detection on well-formed variables: BootCurrent names an entry whose
      device path holds some skipped nodes and then a Hard-Drive node with a recognised
      signature. */
  lemma DetectFindsHardDrive(efivars: map<string, seq<uint8>>, partitions: map<string, string>,
                             attributes: uint32, index: uint16, flags: uint32, pathLength: uint16,
                             description: seq<uint16>, skipped: seq<Node>, declaredLength: uint16,
                             hd: HardDrive, rest: seq<uint8>)
    requires BootCurrentName in efivars && efivars[BootCurrentName] == LeBytes(attributes, 4) + LeBytes(index, 2)
    requires forall i :: 0 <= i < |description| ==> description[i] != 0
    requires AllSkipped(skipped) && declaredLength >= HeaderSize && PartUuid(hd).Some?
    requires BootVarName(index) in efivars
    requires efivars[BootVarName(index)] == EncodeLoadOption(attributes, flags, pathLength, description,
                                             EncodeNodes(skipped) + HardDriveNode(declaredLength, hd) + rest)
    ensures var partuuid := PartUuid(hd).value;
      Detect(efivars, partitions) ==
        if partuuid in partitions then Ok(partitions[partuuid]) else Err(PartitionNotFound(partuuid))
  {
    DetectReachesOption(efivars, partitions, attributes, index);
    var path := EncodeNodes(skipped) + HardDriveNode(declaredLength, hd) + rest;
    DetectReachesPath(attributes, flags, pathLength, description, path, partitions);
    DetectInPathFindsHardDrive(skipped, declaredLength, hd, rest, partitions);
  }

  /** The whole detection when the current entry's device path ends before any Hard-Drive
      node. */
  lemma DetectWithoutHardDrive(efivars: map<string, seq<uint8>>, partitions: map<string, string>,
                               attributes: uint32, index: uint16, flags: uint32, pathLength: uint16,
                               description: seq<uint16>, skipped: seq<Node>, rest: seq<uint8>)
    requires BootCurrentName in efivars && efivars[BootCurrentName] == LeBytes(attributes, 4) + LeBytes(index, 2)
    requires forall i :: 0 <= i < |description| ==> description[i] != 0
    requires AllSkipped(skipped)
    requires BootVarName(index) in efivars
    requires efivars[BootVarName(index)] == EncodeLoadOption(attributes, flags, pathLength, description,
                                             EncodeNodes(skipped) + EndEntireNode + rest)
    ensures Detect(efivars, partitions) == Err(NotInDevicePath)
  {
    DetectReachesOption(efivars, partitions, attributes, index);
    var path := EncodeNodes(skipped) + EndEntireNode + rest;
    DetectReachesPath(attributes, flags, pathLength, description, path, partitions);
    DetectInPathWithoutHardDrive(skipped, rest, partitions);
  }

  /** The description "Linux" as UTF-16 code units. */
  const LinuxDescription: seq<uint16> := [0x4C, 0x69, 0x6E, 0x75, 0x78]

  /** An ACPI device-path node (type 0x02, sub-type 0x01) with its 8-byte _HID/_UID body. */
  function AcpiNode(body: seq<uint8>): Node
  {
    Node(0x02, 0x01, body)
  }

  /** A boot entry described "Linux" whose device path is an ACPI node, a Hard-Drive node
      with a GPT signature 01 02 .. 08 AA BB CC DD EE FF 00 11, and End-Entire: the result
      is the device registered under 04030201-0605-0807-aabb-ccddeeff0011. */
  lemma DetectGptExample(efivars: map<string, seq<uint8>>, partitions: map<string, string>,
                         attributes: uint32, index: uint16, flags: uint32, pathLength: uint16,
                         acpiBody: seq<uint8>, declaredLength: uint16, hd: HardDrive)
    requires BootCurrentName in efivars && efivars[BootCurrentName] == LeBytes(attributes, 4) + LeBytes(index, 2)
    requires |acpiBody| == 8 && declaredLength >= HeaderSize
    requires hd.signatureType == GptSignatureType && IsGptExample(hd.signature)
    requires BootVarName(index) in efivars
    requires efivars[BootVarName(index)] == EncodeLoadOption(attributes, flags, pathLength, LinuxDescription,
                                             EncodeNodes([AcpiNode(acpiBody)]) + HardDriveNode(declaredLength, hd) + EndEntireNode)
    ensures var partuuid := "04030201-0605-0807-aabb-ccddeeff0011";
      Detect(efivars, partitions) ==
        if partuuid in partitions then Ok(partitions[partuuid]) else Err(PartitionNotFound(partuuid))
  {
    GptExample(hd.signature);
    assert AllSkipped([AcpiNode(acpiBody)]);
    DetectFindsHardDrive(efivars, partitions, attributes, index, flags, pathLength, LinuxDescription,
                         [AcpiNode(acpiBody)], declaredLength, hd, EndEntireNode);
  }

  /** Opens BootCurrent and reads the attribute word and the boot index. */
  method ReadBootCurrent(efivars: map<string, seq<uint8>>) returns (r: Result<uint16>)
    ensures BootCurrentName !in efivars ==> r == Err(NoEfiVars)
    ensures BootCurrentName in efivars ==> r == BootCurrent(efivars[BootCurrentName])
  {
    if BootCurrentName !in efivars {
      return Err(NoEfiVars);
    }
    var rd := new Reader(efivars[BootCurrentName]);
    var _ :- rd.ReadLe32(); // variable attributes
    r := rd.ReadLe16();
  }

  /** Skips attributes, flags, the path-list length and the description. */
  method SkipPreamble(rd: Reader) returns (r: Result<()>)
    requires rd.Valid()
    modifies rd`pos
    ensures rd.Valid()
    ensures PreambleLength(old(rd.Remaining())).Ok? ==>
      r == Ok(()) && rd.pos == old(rd.pos) + PreambleLength(old(rd.Remaining())).value
    ensures PreambleLength(old(rd.Remaining())).Err? ==> r == Err(PreambleLength(old(rd.Remaining())).error)
  {
    ghost var s := rd.Remaining();
    var _ :- rd.ReadLe32(); // variable attributes
    var _ :- rd.ReadLe32(); // load-option flags
    var _ :- rd.ReadLe16(); // length of the device-path list
    assert rd.Remaining() == s[PreambleSize..];
    r := SkipDescription(rd);
  }

  /** Reads 16-bit units up to and including the first zero unit. */
  method SkipDescription(rd: Reader) returns (r: Result<()>)
    requires rd.Valid()
    modifies rd`pos
    ensures rd.Valid()
    ensures DescriptionLength(old(rd.Remaining())).Ok? ==>
      r == Ok(()) && rd.pos == old(rd.pos) + DescriptionLength(old(rd.Remaining())).value
    ensures DescriptionLength(old(rd.Remaining())).Err? ==> r == Err(Truncated)
  {
    ghost var start := rd.pos;
    ghost var description := rd.Remaining();
    assert DescriptionLength(description) == Plus(DescriptionLength(rd.data[start..]), start - start);
    var unit :- rd.ReadLe16();
    DescriptionStep(description, rd.data, start, start, unit);
    while unit != 0
      invariant rd.Valid() && start + 2 <= rd.pos
      invariant DescriptionLength(description) ==
        if unit == 0 then Ok(rd.pos - start) else Plus(DescriptionLength(rd.data[rd.pos..]), rd.pos - start)
      decreases |rd.data| - rd.pos
    {
      ghost var p := rd.pos;
      var next :- rd.ReadLe16();
      DescriptionStep(description, rd.data, start, p, next);
      unit := next;
    }
    r := Ok(());
  }

  /** `detect_efi_boot_partition` on the variables in `efivars` and the devices in
      `partitions`. */
  method DetectEfiBootPartition(efivars: map<string, seq<uint8>>, partitions: map<string, string>)
    returns (r: Result<string>)
    ensures r == Detect(efivars, partitions)
  {
    var bootCurrent :- ReadBootCurrent(efivars);
    var name := BootVarName(bootCurrent);
    if name !in efivars {
      return Err(BootOptionUnavailable(bootCurrent));
    }
    var option := efivars[name];
    var rd := new Reader(option);
    var _ :- SkipPreamble(rd);
    assert PreambleLength(option) == Ok(rd.pos);
    assert rd.Remaining() == option[rd.pos..];
    var partuuid :- WalkDevicePath(rd);
    assert Walk(option[PreambleLength(option).value..]) == Ok(partuuid);
    if partuuid.None? {
      return Err(NotInDevicePath);
    }
    if partuuid.value !in partitions {
      return Err(PartitionNotFound(partuuid.value));
    }
    r := Ok(partitions[partuuid.value]);
  }
}
