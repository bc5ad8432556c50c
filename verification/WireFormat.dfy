/** The on-disk records, byte by byte on sample values (src/journal.rs, src/directory.rs). */
module WireFormat {
  import opened Bytes
  import opened MetadataOps
  import opened Frames
  import opened Ring
  import Directory

  lemma Bytes64(v: u64)
    requires v < 0x1_0000
    ensures LE64(v) == [v % 256, v / 256, 0, 0, 0, 0, 0, 0]
  {
    ZeroLE(6);
    assert LE(v, 8) == [v % 256] + LE(v / 256, 7);
    assert LE(v / 256, 7) == [v / 256] + LE(0, 6);
  }

  lemma Bytes32(v: u32)
    requires v < 0x1_0000
    ensures LE32(v) == [v % 256, v / 256, 0, 0]
  {
    ZeroLE(2);
    assert LE(v, 4) == [v % 256] + LE(v / 256, 3);
    assert LE(v / 256, 3) == [v / 256] + LE(0, 2);
  }

  lemma Four(a: byte, b: byte, c: byte, d: byte)
    ensures LE32(a + 0x100 * b + 0x1_0000 * c + 0x100_0000 * d) == [a, b, c, d]
  {
    var v := a + 0x100 * b + 0x1_0000 * c + 0x100_0000 * d;
    var w := b + 0x100 * c + 0x1_0000 * d;
    assert v % 256 == a && v / 256 == w;
    assert w % 256 == b && w / 256 == c + 0x100 * d;
    assert LE(v, 4) == [a] + LE(w, 3);
    assert LE(w, 3) == [b] + LE(c + 0x100 * d, 2);
    assert LE(c + 0x100 * d, 2) == [c] + LE(d, 1);
  }

  /** A tag, the id in eight bytes, and a flag. */
  lemma BitBytes()
    ensures Encode(SetInodeBitmap(0x0102, true)) == [1, 2, 1, 0, 0, 0, 0, 0, 0, 1]
    ensures Encode(SetDataBitmap(0x0102, false)) == [2, 2, 1, 0, 0, 0, 0, 0, 0, 0]
  {
    hide LE64;
    Bytes64(0x0102);
  }

  /** The same with a count. */
  lemma RangeBytes()
    ensures Encode(SetDataBitmapRange(0x0102, 0x0304, true)) == [5, 2, 1, 0, 0, 0, 0, 0, 0, 4, 3, 0, 0, 1]
  {
    hide LE64, LE32;
    Bytes64(0x0102);
    Bytes32(0x0304);
  }

  lemma ImageBytes(image: InodeBytes)
    ensures Encode(WriteInode(0x0102, image)) == [3, 2, 1, 0, 0, 0, 0, 0, 0] + image
  {
    hide LE64;
    Bytes64(0x0102);
  }

  /** Block, offset, length, data. */
  lemma SliceBytes()
    ensures Encode(WriteBlockSlice(0x0102, 0x0304, [7, 8])) ==
            [4, 2, 1, 0, 0, 0, 0, 0, 0] + [4, 3, 0, 0] + [2, 0, 0, 0] + [7, 8]
  {
    hide LE64, LE32;
    Bytes64(0x0102);
    Bytes32(0x0304);
    Bytes32(2);
  }

  lemma BitsStep(v: nat, n: nat)
    ensures ToBits(v, 0) == [] && ToBits(v, n + 1) == [v % 2 == 1] + ToBits(v / 2, n)
  {
  }

  /** The bits of a byte, lowest first. */
  lemma ByteBits()
    ensures ToBits(0xA5, 8) == [true, false, true, false, false, true, false, true]
  {
    hide ToBits;
    BitsStep(0xA5, 7); BitsStep(0x52, 6); BitsStep(0x29, 5); BitsStep(0x14, 4);
    BitsStep(0xA, 3); BitsStep(5, 2); BitsStep(2, 1); BitsStep(1, 0); BitsStep(0, 0);
  }

  /** Magic, version, ring blocks, head, tail, number, the clean flag, and three zero bytes. */
  lemma HeaderBytes()
    ensures EncodeHeader(Header(0x0102, 0x0304, 0x0506, true)) ==
            [0x4C, 0x4E, 0x52, 0x4A, 1, 0, 0, 0, 32, 0, 0, 0]
            + [2, 1, 0, 0, 0, 0, 0, 0] + [4, 3, 0, 0, 0, 0, 0, 0] + [6, 5, 0, 0, 0, 0, 0, 0] + [1, 0, 0, 0]
  {
    hide LE64, LE32;
    Four(0x4C, 0x4E, 0x52, 0x4A);
    Bytes32(1);
    Bytes32(32);
    Bytes64(0x0102);
    Bytes64(0x0304);
    Bytes64(0x0506);
  }

  /** Magic, number, payload length, checksum, payload, commit marker. */
  lemma FrameBytes(crc: Checksum)
    requires crc(0x0102, 2, [7, 8]) == 0x0304
    ensures FrameOf(crc, 0x0102, [7, 8]) ==
            [0x54, 0x4C, 0x41, 0x57] + [2, 1, 0, 0, 0, 0, 0, 0] + [2, 0, 0, 0] + [4, 3, 0, 0] + [7, 8]
            + [0xEF, 0xBE, 0xAD, 0xDE]
  {
    hide LE64, LE32;
    Four(0x54, 0x4C, 0x41, 0x57);
    Four(0xEF, 0xBE, 0xAD, 0xDE);
    Bytes64(0x0102);
    Bytes32(2);
    Bytes32(0x0304);
  }

  /** Inode, hash, name length, name. */
  lemma DirectoryBytes()
    ensures Directory.Encode(Directory.Entry(0x0102, 0x0304, [97, 98])) ==
            [2, 1, 0, 0, 0, 0, 0, 0] + [4, 3, 0, 0, 0, 0, 0, 0] + [2, 0] + [97, 98]
  {
    hide LE64;
    Bytes64(0x0102);
    Bytes64(0x0304);
    assert LE16(2) == [2, 0];
  }
}
