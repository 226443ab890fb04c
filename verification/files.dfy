/** The state one open file presents to the I/O layer, and the byte view of
    it that the contracts of seek, read and write are stated against. */
module Files {
  import opened Blocks

  /** The failures the source turns into `FATAL` (or that its hidden
      collaborators would). Each one leaves the file state unchanged. */
  datatype Error =
    | BadCursor         // EBADCURS: a negative seek offset
    | BadWhence         // EBADWHENCE: a seek mode other than SET, CUR, END
    | UnallocatedBlock  // a middle block of a multi-block write has no disk block

  datatype Result<T> = Ok(value: T) | Err(error: Error)

  /** One open file, as seen through its descriptor: the blocks the volume
      manager has allocated for its inode, keyed by file-block number (FBN),
      and the byte cursor of its open-file-table entry. The allocated FBNs are
      exactly `blocks.Keys`. */
  datatype OpenFile = OpenFile(blocks: map<nat, Block>, cursor: int)

  /** The block `bfsRead` yields for FBN `fbn`: its stored contents, or zeros
      for an FBN that has never been allocated. */
  function BlockAt(f: OpenFile, fbn: nat): (b: Block)
  {
    if fbn in f.blocks then f.blocks[fbn] else ZeroBlock()
  }

  /** The byte at file offset `pos`. */
  function ByteAt(f: OpenFile, pos: nat): (b: Byte)
  {
    BlockAt(f, pos / BYTES_PER_BLOCK)[pos % BYTES_PER_BLOCK]
  }

  /** The offset of the first byte of the block that holds `pos`. */
  function BlockStart(pos: nat): (start: nat)
  {
    (pos / BYTES_PER_BLOCK) * BYTES_PER_BLOCK
  }

  /** Byte `j` of block `fbn` sits at file offset `fbn * BYTES_PER_BLOCK + j`. */
  lemma ByteAtInBlock(f: OpenFile, fbn: nat, j: int)
    requires 0 <= j < BYTES_PER_BLOCK
    ensures ByteAt(f, fbn * BYTES_PER_BLOCK + j) == BlockAt(f, fbn)[j]
  {
    var p := fbn * BYTES_PER_BLOCK + j;
    assert p / BYTES_PER_BLOCK == fbn;
    assert p % BYTES_PER_BLOCK == j;
  }

  /** The `n` whole blocks from FBN `fbn` on, laid end to end. */
  function Span(f: OpenFile, fbn: nat, n: nat): (s: seq<Byte>)
    ensures |s| == n * BYTES_PER_BLOCK
  {
    if n == 0 then [] else Span(f, fbn, n - 1) + BlockAt(f, fbn + n - 1)
  }

  /** Byte `k` of a span is the file's byte at `fbn * BYTES_PER_BLOCK + k`:
      the blocks are laid out in order without gaps. */
  lemma {:induction false} SpanBytes(f: OpenFile, fbn: nat, n: nat)
    ensures forall k :: 0 <= k < n * BYTES_PER_BLOCK ==>
      Span(f, fbn, n)[k] == ByteAt(f, fbn * BYTES_PER_BLOCK + k)
  {
    if n > 0 {
      SpanBytes(f, fbn, n - 1);
      var init := Span(f, fbn, n - 1);
      var s := Span(f, fbn, n);
      assert s == init + BlockAt(f, fbn + n - 1);
      forall k | |init| <= k < |s|
        ensures s[k] == ByteAt(f, fbn * BYTES_PER_BLOCK + k)
      {
        ByteAtInBlock(f, fbn + n - 1, k - |init|);
      }
    }
  }
}
