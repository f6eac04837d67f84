/** Sequential, boundary-checked reads from an open firmware variable: the C++
    `read(fd, buf, size)`, `read<T>(fd)` and `read_le16/32/64(fd)`. */
module ByteReader {

  import opened Endian
  import opened Errors

  /** An open firmware variable: its contents and the file offset that every read advances. */
  class Reader {
    const data: seq<uint8>
    var pos: nat

    ghost predicate Valid()
      reads this
    {
      pos <= |data|
    }

    /** The bytes not yet read. */
    function Remaining(): (s: seq<uint8>)
      reads this
      requires Valid()
      ensures |s| == |data| - pos
    {
      data[pos..]
    }

    /** A freshly opened variable, positioned at its first byte. */
    constructor (contents: seq<uint8>)
      ensures Valid() && data == contents && pos == 0
    {
      data := contents;
      pos := 0;
    }

    /** Reads exactly n bytes. With fewer than n left, the short read still moves the
        offset to the end of the variable and the call fails; no partial or padded
        value is ever returned. */
    method Read(n: nat) returns (r: Result<seq<uint8>>)
      requires Valid()
      modifies this`pos
      ensures Valid()
      ensures old(pos) + n <= |data| ==> r == Ok(data[old(pos)..old(pos) + n]) && pos == old(pos) + n
      ensures old(pos) + n > |data| ==> r == Err(Truncated) && pos == |data|
    {
      if pos + n <= |data| {
        r := Ok(data[pos..pos + n]);
        pos := pos + n;
      } else {
        r := Err(Truncated);
        pos := |data|;
      }
    }

    /** `read<uint8_t>(fd)`. */
    method ReadU8() returns (r: Result<uint8>)
      requires Valid()
      modifies this`pos
      ensures Valid()
      ensures old(pos) + 1 <= |data| ==> r == Ok(data[old(pos)]) && pos == old(pos) + 1
      ensures old(pos) + 1 > |data| ==> r == Err(Truncated) && pos == |data|
    {
      var bs :- Read(1);
      r := Ok(bs[0]);
    }

    /** `read_le16(fd)`. */
    method ReadLe16() returns (r: Result<uint16>)
      requires Valid()
      modifies this`pos
      ensures Valid()
      ensures old(pos) + 2 <= |data| ==> r == Ok(LE(data[old(pos)..old(pos) + 2])) && pos == old(pos) + 2
      ensures old(pos) + 2 > |data| ==> r == Err(Truncated) && pos == |data|
    {
      var bs :- Read(2);
      r := Ok(LE(bs));
    }

    /** `read_le32(fd)`. */
    method ReadLe32() returns (r: Result<uint32>)
      requires Valid()
      modifies this`pos
      ensures Valid()
      ensures old(pos) + 4 <= |data| ==> r == Ok(LE(data[old(pos)..old(pos) + 4])) && pos == old(pos) + 4
      ensures old(pos) + 4 > |data| ==> r == Err(Truncated) && pos == |data|
    {
      var bs :- Read(4);
      r := Ok(LE(bs));
    }

    /** `read_le64(fd)`. */
    method ReadLe64() returns (r: Result<uint64>)
      requires Valid()
      modifies this`pos
      ensures Valid()
      ensures old(pos) + 8 <= |data| ==> r == Ok(LE(data[old(pos)..old(pos) + 8])) && pos == old(pos) + 8
      ensures old(pos) + 8 > |data| ==> r == Err(Truncated) && pos == |data|
    {
      var bs :- Read(8);
      r := Ok(LE(bs));
    }
  }
}
