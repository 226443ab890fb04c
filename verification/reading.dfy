/** `fsRead`: a byte-range read turned into whole-block reads. */
module Reading {
  import opened Blocks
  import opened Files
  import opened Cursor

  /** What one read produces: the caller's buffer, the count returned, and the
      file state afterwards. */
  datatype ReadOutcome = ReadOutcome(bytes: seq<Byte>, count: int, after: OpenFile)

  /** The last whole block of a `Span` is the block it ends with. */
  lemma SpanLastBlock(f: OpenFile, fbn: nat, n: nat)
    requires n > 0
    ensures Span(f, fbn, n)[(n - 1) * BYTES_PER_BLOCK .. n * BYTES_PER_BLOCK] == BlockAt(f, fbn + n - 1)
  {
    var init := Span(f, fbn, n - 1);
    assert Span(f, fbn, n) == init + BlockAt(f, fbn + n - 1);
    assert |init| == (n - 1) * BYTES_PER_BLOCK;
  }

  /** `fsRead(fd, numb, buf)` on a file whose cursor is `f.cursor`.

      A request of at most one block returns `numb`; a longer one returns
      `numb` less the number of zero bytes in one of the blocks it copied, so
      between `numb - BYTES_PER_BLOCK` and `numb`, and never zero. The cursor
      moves by the count returned and no block changes. */
  function Read(f: OpenFile, numb: nat): (r: ReadOutcome)
    requires f.cursor >= 0
    requires numb <= BYTES_PER_DISK
    ensures |r.bytes| == numb
    ensures numb <= BYTES_PER_BLOCK ==> r.count == numb
    ensures numb > BYTES_PER_BLOCK ==> 0 < numb - BYTES_PER_BLOCK <= r.count <= numb
    ensures r.after.blocks == f.blocks
    ensures r.after.cursor == f.cursor + r.count
  {
    var fbn := f.cursor / BYTES_PER_BLOCK;
    if numb > BYTES_PER_BLOCK then
      var full := numb / BYTES_PER_BLOCK;
      var bytes := Span(f, fbn, full) + BlockAt(f, fbn + full)[..numb % BYTES_PER_BLOCK];
      // The length trim re-reads block fbn + full - 1 and counts its zeros.
      var trimmed := BlockAt(f, fbn + full - 1);
      ZeroCountBound(trimmed);
      var count := numb - ZeroCount(trimmed);
      ReadOutcome(bytes, count, f.(cursor := f.cursor + count))
    else
      ReadOutcome(BlockAt(f, fbn)[..numb], numb, f.(cursor := f.cursor + numb))
  }

  /** Both paths of a read copy from the START of the cursor's block, not from
      the cursor itself: byte `k` of the buffer is the file's byte at
      `BlockStart(cursor) + k`. */
  lemma ReadBytes(f: OpenFile, numb: nat)
    requires f.cursor >= 0
    requires numb <= BYTES_PER_DISK
    ensures forall k :: 0 <= k < numb ==>
      Read(f, numb).bytes[k] == ByteAt(f, BlockStart(f.cursor) + k)
  {
    var bytes := Read(f, numb).bytes;
    var fbn := f.cursor / BYTES_PER_BLOCK;
    assert BlockStart(f.cursor) == fbn * BYTES_PER_BLOCK;
    if numb > BYTES_PER_BLOCK {
      var full := numb / BYTES_PER_BLOCK;
      var whole := Span(f, fbn, full);
      var tail := BlockAt(f, fbn + full)[..numb % BYTES_PER_BLOCK];
      assert bytes == whole + tail;
      SpanBytes(f, fbn, full);
      forall k | 0 <= k < numb
        ensures bytes[k] == ByteAt(f, fbn * BYTES_PER_BLOCK + k)
      {
        if k >= |whole| {
          ByteAtInBlock(f, fbn + full, k - |whole|);
        }
      }
    } else {
      forall k | 0 <= k < numb
        ensures bytes[k] == ByteAt(f, fbn * BYTES_PER_BLOCK + k)
      {
        ByteAtInBlock(f, fbn, k);
      }
    }
  }

  /** A slice that lies inside the first part of a concatenation. */
  lemma SliceOfPrefix(a: seq<Byte>, b: seq<Byte>, i: nat, j: nat)
    requires i <= j <= |a|
    ensures (a + b)[i..j] == a[i..j]
  {
  }

  /** The count a long read returns is `numb` less the number of zero bytes,
      in any position, in the last WHOLE block it copied into the buffer --
      not a trailing run, and not the final partial block. */
  lemma ReadTrim(f: OpenFile, numb: nat)
    requires f.cursor >= 0
    requires BYTES_PER_BLOCK < numb <= BYTES_PER_DISK
    ensures var r := Read(f, numb);
      var full := numb / BYTES_PER_BLOCK;
      r.count == numb - ZeroCount(r.bytes[(full - 1) * BYTES_PER_BLOCK .. full * BYTES_PER_BLOCK])
  {
    var fbn := f.cursor / BYTES_PER_BLOCK;
    var full := numb / BYTES_PER_BLOCK;
    var whole := Span(f, fbn, full);
    var rest := BlockAt(f, fbn + full)[..numb % BYTES_PER_BLOCK];
    var r := Read(f, numb);
    assert r.bytes == whole + rest && r.count == numb - ZeroCount(BlockAt(f, fbn + full - 1));
    SliceOfPrefix(whole, rest, (full - 1) * BYTES_PER_BLOCK, full * BYTES_PER_BLOCK);
    SpanLastBlock(f, fbn, full);
  }

  /** A long read reports its full length exactly when the last whole block
      it copied holds no zero byte; a single zero anywhere in that block, even
      one followed by data, shortens the count. */
  lemma ReadCountIsFull(f: OpenFile, numb: nat)
    requires f.cursor >= 0
    requires BYTES_PER_BLOCK < numb <= BYTES_PER_DISK
    ensures var last := BlockAt(f, f.cursor / BYTES_PER_BLOCK + numb / BYTES_PER_BLOCK - 1);
      Read(f, numb).count == numb <==> forall j :: 0 <= j < BYTES_PER_BLOCK ==> last[j] != 0
  {
    var last := BlockAt(f, f.cursor / BYTES_PER_BLOCK + numb / BYTES_PER_BLOCK - 1);
    NoZerosMeansZeroCountZero(last);
  }

  /** A read ends with the relative seek `fsSeek(fd, count, SEEK_CUR)`, which
      always succeeds because the count is never negative. */
  lemma ReadEndsWithRelativeSeek(f: OpenFile, numb: nat, size: int)
    requires f.cursor >= 0
    requires numb <= BYTES_PER_DISK
    ensures Seek(f, Read(f, numb).count, SEEK_CUR, size) == Ok(Read(f, numb).after)
  {
  }

  /** One inner copy loop of `fsRead` (fs.c:95-98, 103-106): append the
      first `n` bytes of a block to the staging buffer, one at a time. */
  method CopyBytes(whole: seq<Byte>, block: Block, n: nat) returns (r: seq<Byte>)
    requires n <= BYTES_PER_BLOCK
    ensures r == whole + block[..n]
  {
    r := whole;
    var j := 0;
    while j < n
      invariant 0 <= j <= n
      invariant r == whole + block[..j]
    {
      r := r + [block[j]];
      j := j + 1;
    }
  }

  /** The loops of `fsRead` (fs.c:85-126): whole blocks copied byte by byte
      into the staging buffer, then the leading bytes of one more block, then
      the zero count of the last whole block, then the relative seek. */
  method ReadBlocks(f: OpenFile, numb: nat) returns (buf: seq<Byte>, count: int, after: OpenFile)
    requires f.cursor >= 0
    requires numb <= BYTES_PER_DISK
    ensures ReadOutcome(buf, count, after) == Read(f, numb)
  {
    var fbn := f.cursor / BYTES_PER_BLOCK;
    count := numb;
    if numb > BYTES_PER_BLOCK {
      var whole: seq<Byte> := [];
      var i := 0;
      while i < numb / BYTES_PER_BLOCK
        invariant 0 <= i <= numb / BYTES_PER_BLOCK
        invariant whole == Span(f, fbn, i)
      {
        var block := BlockAt(f, fbn + i);
        whole := CopyBytes(whole, block, BYTES_PER_BLOCK);
        assert block[..BYTES_PER_BLOCK] == block;
        i := i + 1;
      }
      if numb % BYTES_PER_BLOCK != 0 {
        whole := CopyBytes(whole, BlockAt(f, fbn + numb / BYTES_PER_BLOCK), numb % BYTES_PER_BLOCK);
      }
      buf := whole;
      var noWriting := CountZeroBytes(BlockAt(f, fbn + numb / BYTES_PER_BLOCK - 1));
      count := numb - noWriting;
    } else {
      buf := BlockAt(f, fbn)[..numb];
    }
    after := f.(cursor := f.cursor + count);
  }
}
