/** Reading back what was written: the properties that join `fsWrite`,
    `fsSeek` and `fsRead`. */
module RoundTrip {
  import opened Blocks
  import opened Files
  import opened Cursor
  import opened Reading
  import opened Writing

  /** A file whose bytes from a block-aligned `c` on are `data` reads back
      `data` when its cursor is `c`. */
  lemma ReadBackAligned(f: OpenFile, g: OpenFile, numb: nat, data: seq<Byte>)
    requires f.cursor >= 0 && f.cursor % BYTES_PER_BLOCK == 0
    requires numb <= |data| && numb <= BYTES_PER_DISK
    requires WrittenAs(f, g, numb, data)
    ensures Read(g.(cursor := f.cursor), numb).bytes == data[..numb]
  {
    var back := g.(cursor := f.cursor);
    ReadBytes(back, numb);
    var r := Read(back, numb);
    assert BlockStart(f.cursor) == f.cursor;
    forall k | 0 <= k < numb
      ensures r.bytes[k] == data[k]
    {
      assert ByteAt(back, f.cursor + k) == ByteAt(g, f.cursor + k);
    }
  }

  /** A long read whose buffer came back as `data` trims by the zero bytes of
      the last whole block of `data`. */
  lemma ReadBackTrim(back: OpenFile, numb: nat, data: seq<Byte>)
    requires back.cursor >= 0
    requires BYTES_PER_BLOCK < numb <= BYTES_PER_DISK && numb <= |data|
    requires Read(back, numb).bytes == data[..numb]
    ensures var full := numb / BYTES_PER_BLOCK;
      Read(back, numb).count == numb - ZeroCount(data[(full - 1) * BYTES_PER_BLOCK .. full * BYTES_PER_BLOCK])
  {
    ReadTrim(back, numb);
    var bytes := Read(back, numb).bytes;
    var full := numb / BYTES_PER_BLOCK;
    assert bytes[(full - 1) * BYTES_PER_BLOCK .. full * BYTES_PER_BLOCK]
        == data[(full - 1) * BYTES_PER_BLOCK .. full * BYTES_PER_BLOCK];
  }

  /** Write `numb` bytes at a block-aligned cursor, seek back to where the
      write began, and read `numb` bytes: the buffer holds exactly what was
      written. The count is `numb` for a short read; for a long one it is
      `numb` less the zero bytes in the last whole block of the data. */
  lemma WriteThenReadAligned(f: OpenFile, numb: int, data: seq<Byte>, size: int)
    requires WriteFits(f, numb, data)
    requires f.cursor % BYTES_PER_BLOCK == 0
    requires Write(f, numb, data).Ok?
    ensures numb >= 0
    ensures Seek(Write(f, numb, data).value, f.cursor, SEEK_SET, size).Ok?
    ensures var back := Seek(Write(f, numb, data).value, f.cursor, SEEK_SET, size).value;
      var r := Read(back, numb);
      && r.bytes == data[..numb]
      && (numb <= BYTES_PER_BLOCK ==> r.count == numb)
      && (numb > BYTES_PER_BLOCK ==>
            var full := numb / BYTES_PER_BLOCK;
            r.count == numb - ZeroCount(data[(full - 1) * BYTES_PER_BLOCK .. full * BYTES_PER_BLOCK]))
  {
    var g := Write(f, numb, data).value;
    WriteBytes(f, numb, data);
    var back := Seek(g, f.cursor, SEEK_SET, size).value;
    assert back == g.(cursor := f.cursor);
    ReadBackAligned(f, g, numb, data);
    if numb > BYTES_PER_BLOCK {
      ReadBackTrim(back, numb, data);
    }
  }

  /** Data whose first `numb` bytes are zero-free, read back from a block-aligned position where it was
      written comes back with its full count. */
  lemma ReadBackNoZeros(f: OpenFile, g: OpenFile, numb: nat, data: seq<Byte>)
    requires f.cursor >= 0 && f.cursor % BYTES_PER_BLOCK == 0
    requires numb <= |data| && numb <= BYTES_PER_DISK
    requires WrittenAs(f, g, numb, data)
    requires forall k :: 0 <= k < numb ==> data[k] != 0
    ensures Read(g.(cursor := f.cursor), numb).count == numb
  {
    if numb > BYTES_PER_BLOCK {
      var full := numb / BYTES_PER_BLOCK;
      ReadBackAligned(f, g, numb, data);
      ReadBackTrim(g.(cursor := f.cursor), numb, data);
      var written := data[..numb];
      ZeroFreeSlice(written, (full - 1) * BYTES_PER_BLOCK, full * BYTES_PER_BLOCK);
      assert written[(full - 1) * BYTES_PER_BLOCK .. full * BYTES_PER_BLOCK]
          == data[(full - 1) * BYTES_PER_BLOCK .. full * BYTES_PER_BLOCK];
    }
  }

  /** With no zero byte among the `numb` bytes written (whatever padding
      follows them in the caller's buffer), reading back an aligned write returns
      the full count. */
  lemma WriteThenReadNoZeros(f: OpenFile, numb: int, data: seq<Byte>, size: int)
    requires WriteFits(f, numb, data)
    requires f.cursor % BYTES_PER_BLOCK == 0
    requires Write(f, numb, data).Ok?
    requires forall k :: 0 <= k < numb ==> data[k] != 0
    ensures numb >= 0
    ensures Seek(Write(f, numb, data).value, f.cursor, SEEK_SET, size).Ok?
    ensures Read(Seek(Write(f, numb, data).value, f.cursor, SEEK_SET, size).value, numb).count == numb
  {
    var g := Write(f, numb, data).value;
    WriteBytes(f, numb, data);
    assert Seek(g, f.cursor, SEEK_SET, size).value == g.(cursor := f.cursor);
    ReadBackNoZeros(f, g, numb, data);
  }

  /** At any unaligned cursor `c`, one byte written at `c` and read back
      from `c` is not what comes back: the read returns the byte at the start
      of `c`'s block, which the write did not touch. */
  lemma UnalignedWriteThenRead(f: OpenFile, d: Byte, size: int)
    requires f.cursor >= 0 && f.cursor % BYTES_PER_BLOCK != 0
    ensures Write(f, 1, [d]).Ok?
    ensures Seek(Write(f, 1, [d]).value, f.cursor, SEEK_SET, size).Ok?
    ensures Read(Seek(Write(f, 1, [d]).value, f.cursor, SEEK_SET, size).value, 1).bytes
      == [ByteAt(f, BlockStart(f.cursor))]
  {
    var g := Write(f, 1, [d]).value;
    SingleBlockWriteBytes(f, 1, [d]);
    var back := Seek(g, f.cursor, SEEK_SET, size).value;
    assert back == g.(cursor := f.cursor);
    ReadBytes(back, 1);
    assert BlockStart(f.cursor) < f.cursor;
    assert ByteAt(back, BlockStart(f.cursor)) == ByteAt(g, BlockStart(f.cursor));
  }

  /** At an unaligned cursor the round trip fails: one byte `7` written at
      offset 1 of an empty file and read back from offset 1 comes back as the
      `0` at offset 0, because the read copies from the start of the block. */
  lemma UnalignedWriteThenReadDiffers()
    ensures var f := OpenFile(map[], 1);
      && Write(f, 1, [7]).Ok?
      && Seek(Write(f, 1, [7]).value, 1, SEEK_SET, 0).Ok?
      && Read(Seek(Write(f, 1, [7]).value, 1, SEEK_SET, 0).value, 1).bytes == [0]
  {
    var f := OpenFile(map[], 1);
    var g := Write(f, 1, [7]).value;
    SingleBlockWriteBytes(f, 1, [7]);
    var back := Seek(g, 1, SEEK_SET, 0).value;
    ReadBytes(back, 1);
    assert ByteAt(back, 0) == ByteAt(f, 0);
  }
}
