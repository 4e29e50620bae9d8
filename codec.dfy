/**
 * The row codec: a Row is copied column by column into a 291-byte slot of a
 * page, and copied back out of one. The id is written least significant
 * byte first.
 */
module Codec {
  import opened Layout

  /** Division by 256 splits `lo + 256 * hi` back into its two parts. */
  lemma SplitByte(x: int, lo: int, hi: int)
    requires 0 <= lo < 0x100 && 0 <= hi && x == lo + 0x100 * hi
    ensures x % 0x100 == lo && x / 0x100 == hi
  {
  }

  /** The number four bytes spell as base-256 digits, least significant first. */
  function LittleEndianValue(b: seq<byte>): (v: int)
    requires |b| == IdSize
  {
    b[0] as int + 0x100 * b[1] as int + 0x1_0000 * b[2] as int + 0x100_0000 * b[3] as int
  }

  /** The four bytes of an id, least significant first: they spell the id. */
  function EncodeId(id: uint32): (b: seq<byte>)
    ensures |b| == IdSize && LittleEndianValue(b) == id as int
  {
    var x := id as int;
    assert x == x % 0x100 + 0x100 * (x / 0x100);
    assert x / 0x100 == x / 0x100 % 0x100 + 0x100 * (x / 0x1_0000);
    assert x / 0x1_0000 == x / 0x1_0000 % 0x100 + 0x100 * (x / 0x100_0000);
    [(id % 0x100) as byte,
     (id / 0x100 % 0x100) as byte,
     (id / 0x1_0000 % 0x100) as byte,
     (id / 0x100_0000) as byte]
  }

  /**
   * The id whose four little-endian bytes are `b`. Every four bytes are the
   * encoding of the id they decode to, so no byte pattern is lost.
   */
  function DecodeId(b: seq<byte>): (id: uint32)
    requires |b| == IdSize
    ensures EncodeId(id) == b
  {
    var x := LittleEndianValue(b);
    var hi2 := b[2] as int + 0x100 * b[3] as int;
    var hi1 := b[1] as int + 0x100 * hi2;
    SplitByte(x, b[0] as int, hi1);
    SplitByte(hi1, b[1] as int, hi2);
    SplitByte(hi2, b[2] as int, b[3] as int);
    assert x / 0x1_0000 == hi2;
    assert x / 0x100_0000 == b[3] as int;
    x as uint32
  }

  /** Every uint32 id fits the four-byte column: it reads back unchanged from the bytes written for it. */
  lemma IdRoundTrip(id: uint32)
    ensures DecodeId(EncodeId(id)) == id
  {
  }

  /**
   * The serialized form of a row: the id at [0, 4), the username at [4, 36)
   * and the email at [36, 291).
   */
  function EncodeRow(r: Row): (b: seq<byte>)
    ensures |b| == RowSize
    ensures b[IdOffset..UsernameOffset] == EncodeId(r.id)
    ensures b[UsernameOffset..EmailOffset] == r.username
    ensures b[EmailOffset..RowSize] == r.email
  {
    EncodeId(r.id) + r.username + r.email
  }

  /** The row held in a 291-byte slot; every slot decodes to the row that encodes to it. */
  function DecodeRow(b: seq<byte>): (r: Row)
    requires |b| == RowSize
    ensures EncodeRow(r) == b
  {
    var r := Row(DecodeId(b[IdOffset..UsernameOffset]), b[UsernameOffset..EmailOffset], b[EmailOffset..RowSize]);
    assert EncodeRow(r) == b[IdOffset..UsernameOffset] + b[UsernameOffset..EmailOffset] + b[EmailOffset..RowSize];
    r
  }

  /** Decoding what was encoded gives back the same id, username and email. */
  lemma DecodeEncode(r: Row)
    ensures DecodeRow(EncodeRow(r)) == r
  {
    IdRoundTrip(r.id);
  }

  /** `s` with the bytes at [at, at + |w|) replaced by `w`. */
  function Splice(s: seq<byte>, at: nat, w: seq<byte>): (r: seq<byte>)
    requires at + |w| <= |s|
    ensures |r| == |s|
    ensures forall k :: at <= k < at + |w| ==> r[k] == w[k - at]
    ensures forall k :: 0 <= k < |s| && !(at <= k < at + |w|) ==> r[k] == s[k]
  {
    s[..at] + w + s[at + |w|..]
  }

  /** Two splices side by side are one splice of the concatenation. */
  lemma SpliceAdjacent(s: seq<byte>, at: nat, x: seq<byte>, y: seq<byte>)
    requires at + |x| + |y| <= |s|
    ensures Splice(Splice(s, at, x), at + |x|, y) == Splice(s, at, x + y)
  {
  }

  /** A splice leaves every window it does not overlap as it was. */
  lemma SpliceKeeps(s: seq<byte>, at: nat, w: seq<byte>, lo: nat, len: nat)
    requires at + |w| <= |s| && lo + len <= |s|
    requires lo + len <= at || at + |w| <= lo
    ensures Splice(s, at, w)[lo..lo + len] == s[lo..lo + len]
  {
  }

  /** The window a splice writes holds exactly the bytes written. */
  lemma SpliceWindow(s: seq<byte>, at: nat, w: seq<byte>)
    requires at + |w| <= |s|
    ensures Splice(s, at, w)[at..at + |w|] == w
  {
  }

  /** `memcpy(dest + at, src, |src|)`. */
  method MemCopy(dest: array<byte>, at: nat, src: seq<byte>)
    requires at + |src| <= dest.Length
    modifies dest
    ensures dest[..] == Splice(old(dest[..]), at, src)
  {
    forall k | 0 <= k < |src| {
      dest[at + k] := src[k];
    }
    assert dest[..] == Splice(old(dest[..]), at, src) by {
      var r := Splice(old(dest[..]), at, src);
      forall k | 0 <= k < dest.Length ensures dest[k] == r[k] {
        if at <= k < at + |src| {
          assert dest[at + (k - at)] == src[k - at];
        }
      }
    }
  }

  /**
   * Serializes `row` into the slot starting at `at`: afterwards that slot
   * holds `EncodeRow(row)` and every other byte of `dest` is as it was.
   */
  method ConvertToBinary(row: Row, dest: array<byte>, at: nat)
    requires at + RowSize <= dest.Length
    modifies dest
    ensures dest[..] == Splice(old(dest[..]), at, EncodeRow(row))
  {
    ghost var s := dest[..];
    MemCopy(dest, at + IdOffset, EncodeId(row.id));
    MemCopy(dest, at + UsernameOffset, row.username);
    SpliceAdjacent(s, at, EncodeId(row.id), row.username);
    MemCopy(dest, at + EmailOffset, row.email);
    SpliceAdjacent(s, at, EncodeId(row.id) + row.username, row.email);
  }

  /** Reads the row held in the slot starting at `at`, and no byte outside it. */
  method ConvertFromBinary(source: array<byte>, at: nat) returns (row: Row)
    requires at + RowSize <= source.Length
    ensures EncodeRow(row) == source[at..at + RowSize]
    ensures row == DecodeRow(source[at..at + RowSize])
  {
    var id := DecodeId(source[at + IdOffset..at + UsernameOffset]);
    var username := source[at + UsernameOffset..at + EmailOffset];
    var email := source[at + EmailOffset..at + RowSize];
    assert |username| == 32 && |email| == 255;
    row := Row(id, username, email);
    assert source[at..at + RowSize] == source[at + IdOffset..at + UsernameOffset] + username + email;
  }
}
