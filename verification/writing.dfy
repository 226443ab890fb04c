/** `fsWrite`: a byte-range write turned into whole-block writes, with
    merge-on-write for the partially covered first and last blocks. */
module Writing {
  import opened Blocks
  import opened Files
  import opened Cursor

  /** Capacity of the write path's staging buffer (`wholeBuffer[2048]`). */
  const WRITE_BUFFER: int := 2048

  /** What `fsWrite` needs of its caller to stay inside its own buffers: a
      non-negative cursor, at least `numb` bytes of data, no more than the
      staging buffer holds, and a short write that ends inside its block. */
  predicate WriteFits(f: OpenFile, numb: int, data: seq<Byte>)
  {
    && f.cursor >= 0
    && numb <= |data|
    && numb <= WRITE_BUFFER
    && (numb <= BYTES_PER_BLOCK ==> f.cursor % BYTES_PER_BLOCK + numb <= BYTES_PER_BLOCK)
  }

  /** The FBN that receives the last byte of a write of `numb` bytes at
      cursor `c`; the cursor's own block for an empty write. */
  function LastFbn(c: nat, numb: int): (last: nat)
  {
    if numb <= 0 then c / BYTES_PER_BLOCK else (c + numb - 1) / BYTES_PER_BLOCK
  }

  /** The last block of a non-empty write holds its last byte, and it lies
      beyond the cursor's block exactly when the write crosses a block
      boundary. */
  lemma LastFbnBounds(c: nat, numb: int)
    requires numb > 0
    ensures LastFbn(c, numb) * BYTES_PER_BLOCK < c + numb <= LastFbn(c, numb) * BYTES_PER_BLOCK + BYTES_PER_BLOCK
    ensures c / BYTES_PER_BLOCK <= LastFbn(c, numb)
    ensures c / BYTES_PER_BLOCK < LastFbn(c, numb) <==> c % BYTES_PER_BLOCK + numb > BYTES_PER_BLOCK
  {
    var last := LastFbn(c, numb);
    var fbn := c / BYTES_PER_BLOCK;
    assert c + numb - 1 == last * BYTES_PER_BLOCK + (c + numb - 1) % BYTES_PER_BLOCK;
    assert c == fbn * BYTES_PER_BLOCK + c % BYTES_PER_BLOCK;
  }

  /** A short write that stays inside its block ends in the cursor's block. */
  lemma LastFbnShort(c: nat, numb: int)
    requires 0 <= numb && c % BYTES_PER_BLOCK + numb <= BYTES_PER_BLOCK
    ensures LastFbn(c, numb) == c / BYTES_PER_BLOCK
  {
    if numb > 0 {
      LastFbnBounds(c, numb);
    }
  }

  /** Every block strictly between the first and the last block of the write
      is already allocated: the blocks the source writes without allocating. */
  predicate MiddleAllocated(f: OpenFile, numb: int)
    requires f.cursor >= 0
  {
    forall q :: f.cursor / BYTES_PER_BLOCK < q < LastFbn(f.cursor, numb) ==> q in f.blocks
  }

  /** The FBNs `lo` up to but excluding `hi`. */
  function FbnRange(lo: nat, hi: nat): (r: set<nat>)
    ensures forall q :: q in r <==> lo <= q < hi
    decreases hi - lo
  {
    if lo >= hi then {} else {lo} + FbnRange(lo + 1, hi)
  }

  /** The `BYTES_PER_BLOCK` bytes of `data` from index `start` on. */
  function WholeBlock(data: seq<Byte>, start: nat): (b: Block)
    requires start + BYTES_PER_BLOCK <= |data|
    ensures forall i :: 0 <= i < BYTES_PER_BLOCK ==> b[i] == data[start + i]
  {
    data[start .. start + BYTES_PER_BLOCK]
  }

  /** Block `q` after a long write (`numb > BYTES_PER_BLOCK`). The cursor's
      block keeps its bytes before the cursor and takes the first bytes of
      `data` up to its end. Each middle block is replaced outright by the
      `BYTES_PER_BLOCK` bytes of `data` that belong at its position, with no
      merge read. The last block takes the remaining bytes at its start and
      keeps the rest. The first and last blocks start from zeros when
      unallocated; every other block is left alone. */
  function LongWriteBlock(f: OpenFile, numb: int, data: seq<Byte>, q: nat): (b: Block)
    requires WriteFits(f, numb, data) && numb > BYTES_PER_BLOCK
  {
    var c := f.cursor;
    var fbn := c / BYTES_PER_BLOCK;
    var last := LastFbn(c, numb);
    LastFbnBounds(c, numb);
    if q == fbn then Splice(BlockAt(f, fbn), c % BYTES_PER_BLOCK, data[..BYTES_PER_BLOCK - c % BYTES_PER_BLOCK])
    else if fbn < q < last then WholeBlock(data, q * BYTES_PER_BLOCK - c)
    else if q == last then Splice(BlockAt(f, last), 0, data[last * BYTES_PER_BLOCK - c .. numb])
    else BlockAt(f, q)
  }

  /** The blocks after a long write: every block from the first to the last
      of the write is present, and every other allocated block stays. */
  function LongWriteBlocks(f: OpenFile, numb: int, data: seq<Byte>): (r: map<nat, Block>)
    requires WriteFits(f, numb, data) && numb > BYTES_PER_BLOCK
    ensures forall q: nat :: q in r <==> q in f.blocks || f.cursor / BYTES_PER_BLOCK <= q <= LastFbn(f.cursor, numb)
  {
    var touched := FbnRange(f.cursor / BYTES_PER_BLOCK, LastFbn(f.cursor, numb) + 1);
    map q: nat | q in f.blocks.Keys + touched :: LongWriteBlock(f, numb, data, q)
  }

  /** `fsWrite(fd, numb, buf)` on a file whose cursor is `f.cursor`.

      It fails on a negative count (the closing relative seek rejects it) and
      on a long write whose middle blocks are not all allocated; otherwise the
      cursor moves by `numb`, and the blocks allocated afterwards are those
      allocated before plus the first and the last block of the write. */
  function Write(f: OpenFile, numb: int, data: seq<Byte>): (r: Result<OpenFile>)
    requires WriteFits(f, numb, data)
    ensures r.Err? <==> numb < 0 || (numb > BYTES_PER_BLOCK && !MiddleAllocated(f, numb))
    ensures r.Err? ==> r.error == if numb < 0 then BadCursor else UnallocatedBlock
    ensures r.Ok? ==> r.value.cursor == f.cursor + numb
    ensures r.Ok? ==>
      r.value.blocks.Keys == f.blocks.Keys + {f.cursor / BYTES_PER_BLOCK, LastFbn(f.cursor, numb)}
  {
    var fbn := f.cursor / BYTES_PER_BLOCK;
    var off := f.cursor % BYTES_PER_BLOCK;
    if numb < 0 then Err(BadCursor)
    else if numb <= BYTES_PER_BLOCK then
      // One block, read or freshly zeroed, with `numb` bytes merged in at `off`.
      var block := Splice(BlockAt(f, fbn), off, data[..numb]);
      LastFbnShort(f.cursor, numb);
      Ok(OpenFile(f.blocks[fbn := block], f.cursor + numb))
    else if !MiddleAllocated(f, numb) then Err(UnallocatedBlock)
    else Ok(OpenFile(LongWriteBlocks(f, numb, data), f.cursor + numb))
  }

  /** What a successful write does to the file's bytes: the `numb` bytes from
      the cursor on now hold `data`, and every other byte of the file, inside
      the touched blocks or not, reads as before. A block the write allocates
      counts as all zeros before it. */
  ghost predicate WrittenAs(f: OpenFile, g: OpenFile, numb: nat, data: seq<Byte>)
    requires f.cursor >= 0 && numb <= |data|
  {
    forall p: nat :: ByteAt(g, p) ==
      if f.cursor <= p < f.cursor + numb then data[p - f.cursor] else ByteAt(f, p)
  }

  lemma SingleBlockWriteBytes(f: OpenFile, numb: int, data: seq<Byte>)
    requires WriteFits(f, numb, data) && 0 <= numb <= BYTES_PER_BLOCK
    ensures Write(f, numb, data).Ok?
    ensures WrittenAs(f, Write(f, numb, data).value, numb, data)
  {
    var g := Write(f, numb, data).value;
    var c := f.cursor;
    var fbn := c / BYTES_PER_BLOCK;
    var off := c % BYTES_PER_BLOCK;
    assert c == fbn * BYTES_PER_BLOCK + off;
    forall p: nat
      ensures ByteAt(g, p) == if c <= p < c + numb then data[p - c] else ByteAt(f, p)
    {
      var q := p / BYTES_PER_BLOCK;
      var o := p % BYTES_PER_BLOCK;
      assert p == q * BYTES_PER_BLOCK + o;
      if q != fbn {
        assert BlockAt(g, q) == BlockAt(f, q);
      }
    }
  }

  /** Byte `o` of block `q` after a long write, for the block the cursor is
      in, a middle block, the last block, and any other block in turn. */
  ghost predicate LongWriteByteAt(f: OpenFile, numb: int, data: seq<Byte>, q: nat, o: nat)
    requires WriteFits(f, numb, data) && numb > BYTES_PER_BLOCK && o < BYTES_PER_BLOCK
  {
    var p := q * BYTES_PER_BLOCK + o;
    LongWriteBlock(f, numb, data, q)[o] ==
      if f.cursor <= p < f.cursor + numb then data[p - f.cursor] else BlockAt(f, q)[o]
  }

  lemma LongWriteFirstByte(f: OpenFile, numb: int, data: seq<Byte>, o: nat)
    requires WriteFits(f, numb, data) && numb > BYTES_PER_BLOCK && o < BYTES_PER_BLOCK
    ensures LongWriteByteAt(f, numb, data, f.cursor / BYTES_PER_BLOCK, o)
  {
    var fbn := f.cursor / BYTES_PER_BLOCK;
    var off := f.cursor % BYTES_PER_BLOCK;
    assert f.cursor == fbn * BYTES_PER_BLOCK + off;
    assert LongWriteBlock(f, numb, data, fbn) == Splice(BlockAt(f, fbn), off, data[..BYTES_PER_BLOCK - off]);
  }

  lemma LongWriteMiddleByte(f: OpenFile, numb: int, data: seq<Byte>, q: nat, o: nat)
    requires WriteFits(f, numb, data) && numb > BYTES_PER_BLOCK && o < BYTES_PER_BLOCK
    requires f.cursor / BYTES_PER_BLOCK < q < LastFbn(f.cursor, numb)
    ensures LongWriteByteAt(f, numb, data, q, o)
  {
    LongWriteMiddleBlock(f, numb, data, q);
  }

  lemma LongWriteLastByte(f: OpenFile, numb: int, data: seq<Byte>, o: nat)
    requires WriteFits(f, numb, data) && numb > BYTES_PER_BLOCK && o < BYTES_PER_BLOCK
    ensures LongWriteByteAt(f, numb, data, LastFbn(f.cursor, numb), o)
  {
    LongWriteLastBlock(f, numb, data);
  }

  lemma LongWriteOtherByte(f: OpenFile, numb: int, data: seq<Byte>, q: nat, o: nat)
    requires WriteFits(f, numb, data) && numb > BYTES_PER_BLOCK && o < BYTES_PER_BLOCK
    requires q < f.cursor / BYTES_PER_BLOCK || LastFbn(f.cursor, numb) < q
    ensures LongWriteByteAt(f, numb, data, q, o)
  {
    var fbn := f.cursor / BYTES_PER_BLOCK;
    LongWriteOtherBlock(f, numb, data, q);
    LastFbnBounds(f.cursor, numb);
    assert f.cursor == fbn * BYTES_PER_BLOCK + f.cursor % BYTES_PER_BLOCK;
  }

  /** Every byte of every block after a long write, by the region its block
      lies in. */
  lemma LongWriteBlockBytes(f: OpenFile, numb: int, data: seq<Byte>, q: nat, o: nat)
    requires WriteFits(f, numb, data) && numb > BYTES_PER_BLOCK && o < BYTES_PER_BLOCK
    ensures LongWriteByteAt(f, numb, data, q, o)
  {
    var fbn := f.cursor / BYTES_PER_BLOCK;
    var last := LastFbn(f.cursor, numb);
    if q == fbn {
      LongWriteFirstByte(f, numb, data, o);
    } else if q < fbn || last < q {
      LongWriteOtherByte(f, numb, data, q, o);
    } else if q == last {
      LongWriteLastByte(f, numb, data, o);
    } else {
      LongWriteMiddleByte(f, numb, data, q, o);
    }
  }

  /** The file after a long write reads block `q` as `LongWriteBlock` gives
      it, allocated or not. */
  lemma LongWriteBlockAt(f: OpenFile, numb: int, data: seq<Byte>, q: nat)
    requires WriteFits(f, numb, data) && numb > BYTES_PER_BLOCK
    ensures BlockAt(OpenFile(LongWriteBlocks(f, numb, data), f.cursor + numb), q) == LongWriteBlock(f, numb, data, q)
  {
    if q !in LongWriteBlocks(f, numb, data) {
      LongWriteOtherBlock(f, numb, data, q);
    }
  }

  /** One byte of the file after a long write. */
  lemma LongWriteByte(f: OpenFile, numb: int, data: seq<Byte>, p: nat)
    requires WriteFits(f, numb, data) && numb > BYTES_PER_BLOCK
    ensures ByteAt(OpenFile(LongWriteBlocks(f, numb, data), f.cursor + numb), p) ==
      if f.cursor <= p < f.cursor + numb then data[p - f.cursor] else ByteAt(f, p)
  {
    var q := p / BYTES_PER_BLOCK;
    var o := p % BYTES_PER_BLOCK;
    assert p == q * BYTES_PER_BLOCK + o;
    LongWriteBlockAt(f, numb, data, q);
    LongWriteBlockBytes(f, numb, data, q, o);
  }

  lemma MultiBlockWriteBytes(f: OpenFile, numb: int, data: seq<Byte>)
    requires WriteFits(f, numb, data) && numb > BYTES_PER_BLOCK
    requires Write(f, numb, data).Ok?
    ensures WrittenAs(f, Write(f, numb, data).value, numb, data)
  {
    forall p: nat
      ensures ByteAt(Write(f, numb, data).value, p) ==
        if f.cursor <= p < f.cursor + numb then data[p - f.cursor] else ByteAt(f, p)
    {
      LongWriteByte(f, numb, data, p);
    }
  }

  /** A write that succeeds places `data` at the cursor and leaves every other
      byte of the file as it was. */
  lemma WriteBytes(f: OpenFile, numb: int, data: seq<Byte>)
    requires WriteFits(f, numb, data)
    requires Write(f, numb, data).Ok?
    ensures numb >= 0 && WrittenAs(f, Write(f, numb, data).value, numb, data)
  {
    if numb <= BYTES_PER_BLOCK {
      SingleBlockWriteBytes(f, numb, data);
    } else {
      MultiBlockWriteBytes(f, numb, data);
    }
  }

  /** A write ends with the relative seek `fsSeek(fd, numb, SEEK_CUR)`: a
      negative count fails exactly as that seek does, and a successful write
      leaves the cursor where that seek puts it. */
  lemma WriteEndsWithRelativeSeek(f: OpenFile, numb: int, data: seq<Byte>, size: int)
    requires WriteFits(f, numb, data)
    ensures numb < 0 ==> Write(f, numb, data) == Seek(f, numb, SEEK_CUR, size)
    ensures Write(f, numb, data).Ok? ==>
      Write(f, numb, data) == Seek(f.(blocks := Write(f, numb, data).value.blocks), numb, SEEK_CUR, size)
  {
  }

  /** A middle block is the `BYTES_PER_BLOCK` bytes of `data` that belong at
      its position, whatever it held before. */
  lemma LongWriteMiddleBlock(f: OpenFile, numb: int, data: seq<Byte>, q: nat)
    requires WriteFits(f, numb, data) && numb > BYTES_PER_BLOCK
    requires f.cursor / BYTES_PER_BLOCK < q < LastFbn(f.cursor, numb)
    ensures 0 <= q * BYTES_PER_BLOCK - f.cursor && q * BYTES_PER_BLOCK - f.cursor + BYTES_PER_BLOCK <= numb
    ensures LongWriteBlock(f, numb, data, q) == WholeBlock(data, q * BYTES_PER_BLOCK - f.cursor)
  {
    LastFbnBounds(f.cursor, numb);
  }

  /** The last block takes the bytes of `data` from its own start to the end
      of the write, and keeps the rest. */
  lemma LongWriteLastBlock(f: OpenFile, numb: int, data: seq<Byte>)
    requires WriteFits(f, numb, data) && numb > BYTES_PER_BLOCK
    ensures 0 <= LastFbn(f.cursor, numb) * BYTES_PER_BLOCK - f.cursor < numb
    ensures numb - (LastFbn(f.cursor, numb) * BYTES_PER_BLOCK - f.cursor) <= BYTES_PER_BLOCK
    ensures LongWriteBlock(f, numb, data, LastFbn(f.cursor, numb)) ==
      Splice(BlockAt(f, LastFbn(f.cursor, numb)), 0, data[LastFbn(f.cursor, numb) * BYTES_PER_BLOCK - f.cursor .. numb])
  {
    LastFbnBounds(f.cursor, numb);
  }

  lemma LongWriteOtherBlock(f: OpenFile, numb: int, data: seq<Byte>, q: nat)
    requires WriteFits(f, numb, data) && numb > BYTES_PER_BLOCK
    requires q < f.cursor / BYTES_PER_BLOCK || LastFbn(f.cursor, numb) < q
    ensures LongWriteBlock(f, numb, data, q) == BlockAt(f, q)
  {
  }

  /** The merge loops of `fsWrite` (fs.c:213-217, 241-244, 249-252): copy
      `d` into the staging block from position `off` on, one byte at a time. */
  method MergeBytes(block: Block, off: nat, d: seq<Byte>) returns (r: Block)
    requires off + |d| <= BYTES_PER_BLOCK
    ensures r == Splice(block, off, d)
  {
    r := block;
    var i := 0;
    while i < |d|
      invariant 0 <= i <= |d|
      invariant forall k :: 0 <= k < BYTES_PER_BLOCK ==>
        r[k] == if off <= k < off + i then d[k - off] else block[k]
    {
      r := r[off + i := d[i]];
      i := i + 1;
    }
    assert forall k :: 0 <= k < BYTES_PER_BLOCK ==> r[k] == Splice(block, off, d)[k];
  }

  /** The middle-block loop of `fsWrite` (fs.c:221-225): overwrite the whole
      staging block with the `BYTES_PER_BLOCK` bytes of `data` from `start`. */
  method FillBlock(block: Block, data: seq<Byte>, start: nat) returns (r: Block)
    requires start + BYTES_PER_BLOCK <= |data|
    ensures r == data[start .. start + BYTES_PER_BLOCK]
  {
    r := block;
    var j := 0;
    while j < BYTES_PER_BLOCK
      invariant 0 <= j <= BYTES_PER_BLOCK
      invariant forall k :: 0 <= k < j ==> r[k] == data[start + k]
    {
      r := r[j := data[start + j]];
      j := j + 1;
    }
  }

  /** `blocks` is `orig` with the blocks of FBNs `lo` to `hi` taken from
      `target` instead; of those FBNs only `lo` may be new. */
  ghost predicate Agrees(blocks: map<nat, Block>, orig: map<nat, Block>, target: map<nat, Block>, lo: nat, hi: nat)
  {
    && blocks.Keys == orig.Keys + {lo}
    && (forall q: nat {:trigger blocks[q]} :: q in blocks ==>
          if lo <= q <= hi then q in target && blocks[q] == target[q]
          else q in orig && blocks[q] == orig[q])
  }

  /** Taking one more block from `target` extends the agreement by one FBN. */
  lemma AgreesStep(blocks: map<nat, Block>, orig: map<nat, Block>, target: map<nat, Block>, lo: nat, hi: nat, b: Block)
    requires Agrees(blocks, orig, target, lo, hi)
    requires lo <= hi
    requires hi + 1 in orig && hi + 1 in target && target[hi + 1] == b
    ensures Agrees(blocks[hi + 1 := b], orig, target, lo, hi + 1)
  {
    var next := blocks[hi + 1 := b];
    forall q: nat | q in next
      ensures if lo <= q <= hi + 1 then q in target && next[q] == target[q]
              else q in orig && next[q] == orig[q]
    {
      if q != hi + 1 {
        assert next[q] == blocks[q];
      }
    }
  }

  /** Once every FBN up to `hi` has been taken from `target`, and `target`
      differs from `orig` nowhere else but at `hi + 1`, adding that block
      gives `target` itself. */
  lemma AgreesFinish(blocks: map<nat, Block>, orig: map<nat, Block>, target: map<nat, Block>, lo: nat, hi: nat, b: Block)
    requires Agrees(blocks, orig, target, lo, hi)
    requires forall q: nat :: lo < q <= hi ==> q in orig
    requires forall q: nat :: q in target <==> q in orig || lo <= q <= hi + 1
    requires forall q: nat :: q in orig && !(lo <= q <= hi + 1) ==> target[q] == orig[q]
    requires hi + 1 in target && target[hi + 1] == b
    ensures blocks[hi + 1 := b] == target
  {
    var all := blocks[hi + 1 := b];
    assert all.Keys == target.Keys;
    forall q: nat | q in all
      ensures all[q] == target[q]
    {
      if q != hi + 1 {
        assert all[q] == blocks[q];
      }
    }
  }

  /** The state of the middle loop of a long write once blocks up to `cur`
      are done: the first block and the middle blocks up to `cur` hold their
      final contents, those middle blocks were all allocated, and every other
      block is untouched. */
  ghost predicate FilledThrough(f: OpenFile, numb: int, data: seq<Byte>, blocks: map<nat, Block>, cur: nat)
    requires WriteFits(f, numb, data) && numb > BYTES_PER_BLOCK
  {
    var fbn := f.cursor / BYTES_PER_BLOCK;
    && fbn <= cur < LastFbn(f.cursor, numb)
    && (forall q :: fbn < q <= cur ==> q in f.blocks)
    && Agrees(blocks, f.blocks, LongWriteBlocks(f, numb, data), fbn, cur)
  }

  /** The first block of a long write starts `FilledThrough`. */
  lemma FilledStart(f: OpenFile, numb: int, data: seq<Byte>, buffer: Block)
    requires WriteFits(f, numb, data) && numb > BYTES_PER_BLOCK
    requires buffer == Splice(BlockAt(f, f.cursor / BYTES_PER_BLOCK), f.cursor % BYTES_PER_BLOCK,
                              data[..BYTES_PER_BLOCK - f.cursor % BYTES_PER_BLOCK])
    ensures FilledThrough(f, numb, data, f.blocks[f.cursor / BYTES_PER_BLOCK := buffer], f.cursor / BYTES_PER_BLOCK)
  {
    var fbn := f.cursor / BYTES_PER_BLOCK;
    var target := LongWriteBlocks(f, numb, data);
    var blocks := f.blocks[fbn := buffer];
    LastFbnBounds(f.cursor, numb);
    assert target[fbn] == buffer;
    forall q: nat | q in blocks
      ensures if fbn <= q <= fbn then q in target && blocks[q] == target[q]
              else q in f.blocks && blocks[q] == f.blocks[q]
    {
    }
  }

  /** One pass of the middle loop keeps `FilledThrough`. */
  lemma FilledStep(f: OpenFile, numb: int, data: seq<Byte>, blocks: map<nat, Block>, cur: nat, buffer: Block)
    requires WriteFits(f, numb, data) && numb > BYTES_PER_BLOCK
    requires FilledThrough(f, numb, data, blocks, cur)
    requires cur + 1 < LastFbn(f.cursor, numb)
    requires cur + 1 in f.blocks
    requires 0 <= (cur + 1) * BYTES_PER_BLOCK - f.cursor
    requires (cur + 1) * BYTES_PER_BLOCK - f.cursor + BYTES_PER_BLOCK <= |data|
    requires buffer == WholeBlock(data, (cur + 1) * BYTES_PER_BLOCK - f.cursor)
    ensures FilledThrough(f, numb, data, blocks[cur + 1 := buffer], cur + 1)
  {
    var target := LongWriteBlocks(f, numb, data);
    LongWriteMiddleBlock(f, numb, data, cur + 1);
    assert cur + 1 in target;
    assert target[cur + 1] == buffer;
    AgreesStep(blocks, f.blocks, target, f.cursor / BYTES_PER_BLOCK, cur, buffer);
  }

  /** The merge into the last block completes the long write. */
  lemma FilledFinish(f: OpenFile, numb: int, data: seq<Byte>, blocks: map<nat, Block>, buffer: Block)
    requires WriteFits(f, numb, data) && numb > BYTES_PER_BLOCK
    requires FilledThrough(f, numb, data, blocks, LastFbn(f.cursor, numb) - 1)
    requires LongWriteBlock(f, numb, data, LastFbn(f.cursor, numb)) == buffer
    ensures MiddleAllocated(f, numb)
    ensures blocks[LastFbn(f.cursor, numb) := buffer] == LongWriteBlocks(f, numb, data)
  {
    var fbn := f.cursor / BYTES_PER_BLOCK;
    var last := LastFbn(f.cursor, numb);
    var target := LongWriteBlocks(f, numb, data);
    assert target[last] == buffer;
    forall q: nat | q in f.blocks && !(fbn <= q <= last)
      ensures target[q] == f.blocks[q]
    {
      LongWriteOtherBlock(f, numb, data, q);
    }
    AgreesFinish(blocks, f.blocks, target, fbn, last - 1, buffer);
  }

  /** The middle loop runs on exactly while the block after `cur` is a
      middle block, which is while more than a block of data remains. */
  lemma MiddleLoopGuard(c: nat, numb: int, cur: nat)
    requires numb > 0
    requires c / BYTES_PER_BLOCK <= cur < LastFbn(c, numb)
    ensures c + numb - (cur + 1) * BYTES_PER_BLOCK > BYTES_PER_BLOCK <==> cur + 1 < LastFbn(c, numb)
    ensures 0 < c + numb - (cur + 1) * BYTES_PER_BLOCK
    ensures 0 <= (cur + 1) * BYTES_PER_BLOCK - c
  {
    LastFbnBounds(c, numb);
    assert c < (c / BYTES_PER_BLOCK + 1) * BYTES_PER_BLOCK;
  }

  /** The middle loop of `fsWrite` (fs.c:219-229): while more than a block
      remains, fill the staging block from the data and write it to the next
      FBN, which must already have a disk block. It returns the count of
      bytes left for the last block. */
  method FillMiddle(f: OpenFile, numb: int, data: seq<Byte>, blocks0: map<nat, Block>, buffer0: Block)
    returns (ok: bool, blocks: map<nat, Block>, remainder: int)
    requires WriteFits(f, numb, data) && numb > BYTES_PER_BLOCK
    requires FilledThrough(f, numb, data, blocks0, f.cursor / BYTES_PER_BLOCK)
    ensures ok <==> MiddleAllocated(f, numb)
    ensures ok ==> FilledThrough(f, numb, data, blocks, LastFbn(f.cursor, numb) - 1)
    ensures ok ==> remainder == f.cursor + numb - LastFbn(f.cursor, numb) * BYTES_PER_BLOCK
  {
    var fbn := f.cursor / BYTES_PER_BLOCK;
    remainder := numb - (BYTES_PER_BLOCK - f.cursor % BYTES_PER_BLOCK);
    var cur: nat := fbn;
    var buffer := buffer0;
    blocks := blocks0;
    assert f.cursor == fbn * BYTES_PER_BLOCK + f.cursor % BYTES_PER_BLOCK;
    while remainder > BYTES_PER_BLOCK
      invariant remainder == f.cursor + numb - (cur + 1) * BYTES_PER_BLOCK
      invariant FilledThrough(f, numb, data, blocks, cur)
    {
      MiddleLoopGuard(f.cursor, numb, cur);
      buffer := FillBlock(buffer, data, numb - remainder);
      if cur + 1 !in f.blocks {
        // bfsFbnToDbn finds no disk block for a middle FBN.
        return false, blocks, remainder;
      }
      FilledStep(f, numb, data, blocks, cur, buffer);
      blocks := blocks[cur + 1 := buffer];
      remainder := remainder - BYTES_PER_BLOCK;
      cur := cur + 1;
    }
    MiddleLoopGuard(f.cursor, numb, cur);
    ok := true;
  }

  /** The tail of a long write (fs.c:230-245): merge the `remainder` bytes
      left after the middle loop into the block after the middle ones, read
      or freshly zeroed, and write it. */
  method MergeLast(f: OpenFile, numb: int, data: seq<Byte>, blocks: map<nat, Block>, remainder: int)
    returns (r: map<nat, Block>)
    requires WriteFits(f, numb, data) && numb > BYTES_PER_BLOCK
    requires FilledThrough(f, numb, data, blocks, LastFbn(f.cursor, numb) - 1)
    requires remainder == f.cursor + numb - LastFbn(f.cursor, numb) * BYTES_PER_BLOCK
    ensures r == LongWriteBlocks(f, numb, data)
  {
    var last := LastFbn(f.cursor, numb);
    LongWriteLastBlock(f, numb, data);
    var start := numb - remainder;
    assert start == last * BYTES_PER_BLOCK - f.cursor;
    var buffer := MergeBytes(BlockAt(f, last), 0, data[start .. numb]);
    FilledFinish(f, numb, data, blocks, buffer);
    r := blocks[last := buffer];
  }

  /** The long-write branch of `fsWrite` (fs.c:210-246): merge into the
      cursor's block, fill the middle blocks one after another, merge into the
      block after them. */
  method LongWrite(f: OpenFile, numb: int, data: seq<Byte>) returns (r: Result<map<nat, Block>>)
    requires WriteFits(f, numb, data) && numb > BYTES_PER_BLOCK
    ensures r.Err? <==> !MiddleAllocated(f, numb)
    ensures r.Err? ==> r.error == UnallocatedBlock
    ensures r.Ok? ==> r.value == LongWriteBlocks(f, numb, data)
  {
    var fbn := f.cursor / BYTES_PER_BLOCK;
    var off := f.cursor % BYTES_PER_BLOCK;
    // Merge read of the cursor's block, or a fresh zero block once allocated.
    var buffer := MergeBytes(BlockAt(f, fbn), off, data[..BYTES_PER_BLOCK - off]);
    FilledStart(f, numb, data, buffer);
    var ok, blocks, remainder := FillMiddle(f, numb, data, f.blocks[fbn := buffer], buffer);
    if !ok {
      return Err(UnallocatedBlock);
    }
    var all := MergeLast(f, numb, data, blocks, remainder);
    r := Ok(all);
  }

  /** `fsWrite` as the source performs it (fs.c:193-257): the merge-on-write
      of one block, or the long-write loops, then the relative seek. */
  method WriteBlocks(f: OpenFile, numb: int, data: seq<Byte>) returns (r: Result<OpenFile>)
    requires WriteFits(f, numb, data)
    ensures r == Write(f, numb, data)
  {
    var blocks := f.blocks;
    if numb > BYTES_PER_BLOCK {
      var written := LongWrite(f, numb, data);
      if written.Err? {
        return Err(written.error);
      }
      blocks := written.value;
    } else {
      var fbn := f.cursor / BYTES_PER_BLOCK;
      var count := if numb < 0 then 0 else numb;
      var buffer := MergeBytes(BlockAt(f, fbn), f.cursor % BYTES_PER_BLOCK, data[..count]);
      blocks := blocks[fbn := buffer];
    }
    // fsSeek(fd, numb, SEEK_CUR) rejects a negative count.
    if numb < 0 {
      return Err(BadCursor);
    }
    r := Ok(OpenFile(blocks, f.cursor + numb));
  }
}
