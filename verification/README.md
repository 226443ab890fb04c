# Byte-range file I/O over a block store

A Dafny model of the byte-range layer of a small teaching file system
(`fs.c`). The layer gives a file a byte cursor (`fsSeek`, `fsTell`) and turns
byte reads and writes (`fsRead`, `fsWrite`) into whole-block transfers on a
store of fixed-size blocks. The store's own routines (`bfsRead`, `bioWrite`,
`bfsFbnToDbn`, `bfsAllocBlock`, `bfsGetSize`) are not part of this model. They
are represented by their effect on an abstract state, `Files.OpenFile`:

- a map from file-block number (FBN) to a block of `BYTES_PER_BLOCK` bytes,
  whose keys are the allocated FBNs;
- the cursor of the file's open-file-table entry.

An FBN that has no block reads as all zeros. The file size is not stored.
`fsSize` appears only as the `size` argument of `Cursor.Seek`, the value the
store would report at the time of the call.

`FATAL` is modelled as an `Err` result, and the file state stays as it was.
Every operation is a pure function from the old state to the new one:
`Cursor.Seek`, `Reading.Read`, `Writing.Write`. The C loops are mirrored by
methods that are proved equal to those functions: `Reading.ReadBlocks`,
`Writing.WriteBlocks` and the loop methods they call.

Modules:

- `Blocks`: bytes, blocks, splicing and zero counting.
- `Files`: the state and its byte view, `ByteAt`.
- `Cursor`: seek and tell.
- `Reading`: `fsRead`.
- `Writing`: `fsWrite`.
- `RoundTrip`: properties that join writes, seeks and reads.

The model follows the code where its comments suggest something else:

- **A read starts at a block boundary.** It copies from the start of block
  `cursor / BYTES_PER_BLOCK`, not from the cursor (fs.c:97, fs.c:122-123).
  `RoundTrip.UnalignedWriteThenReadDiffers` shows a write that does not read
  back because of this.
- **A long read's count is trimmed by zeros.** The count is `numb` less the
  number of zero bytes anywhere in block `fbn + numb / BYTES_PER_BLOCK - 1`.
  That is the last whole block copied, not the final partial one, and the
  count is not limited to a trailing run (fs.c:110-118).
- **Middle blocks of a long write are never allocated** (fs.c:227). When one
  is missing, the model's write fails with `UnallocatedBlock`.
- **Buffer overflows become preconditions** (`Writing.WriteFits` and the
  requires of `Reading.Read`):
  - a short write must end inside its block (fs.c:251);
  - a write is at most 2048 bytes (fs.c:194-195);
  - a read is at most `BYTES_PER_DISK` bytes (fs.c:86).

## Model

| member | source | states |
|---|---|---|
| `Cursor.Seek` | fs.c:140-163 | A negative offset fails with `BadCursor` whatever the mode. Otherwise the seek succeeds exactly for SET, CUR and END and fails with `BadWhence` for any other mode. A successful seek leaves every block as it was. |
| `Cursor.Tell` | fs.c:170-172 | Tell returns the cursor of the file's open-file-table entry: an absolute seek to the position told leaves the file exactly as it was, and a negative position could not be sought. |
| `Cursor.TellAfterSeekSet` | fs.c:147-150 | After an absolute seek to `k >= 0`, tell returns `k`. |
| `Cursor.SeekCurAdvances` | fs.c:151-152 | A relative seek by `k >= 0` moves the cursor forward by exactly `k`. A negative `k` is rejected. |
| `Cursor.SeekCurComposes` | fs.c:151-152 | Two relative seeks equal one seek by their sum, and a relative seek never moves the cursor back. |
| `Cursor.SeekEndIsSetFromSize` | fs.c:154-157 | Seeking `offset` from the end is the absolute seek to `size + offset`. |
| `Cursor.SeekKeepsCursorNonNegative` | fs.c:142-158 | From a non-negative cursor and size, every successful seek ends at a non-negative cursor. |
| `Files.SpanBytes` | fs.c:92-99 | When whole blocks from `fbn` on are copied one after another, byte `k` of the result is the file's byte at `fbn * BYTES_PER_BLOCK + k`: no gaps and no reordering. |
| `Blocks.CountZeroBytes` | fs.c:109-117 | The counting loop returns the number of zero bytes in the block, which is at most the block length. |
| `Blocks.ZeroCountBound` | fs.c:109-118 | A sequence holds at most as many zero bytes as it has bytes, so the trim cannot make a count negative. |
| `Blocks.NoZerosMeansZeroCountZero` | fs.c:111-117 | The zero count is zero exactly when no byte is zero. |
| `Reading.Read` | fs.c:85-127 | The buffer has `numb` bytes. A short read returns `numb`. A long read returns a count between `numb - BYTES_PER_BLOCK` and `numb` that is always positive. The cursor advances by the count, and no block changes. |
| `Reading.ReadBytes` | fs.c:89-124 | Buffer byte `k` is the file's byte at the start of the cursor's block plus `k`. This covers the whole blocks, the partial last block and the short path. |
| `Reading.ReadTrim` | fs.c:109-118 | A long read's count is `numb` less the number of zero bytes in the last whole block of the buffer. |
| `Reading.ReadCountIsFull` | fs.c:110-118 | A long read returns its full length exactly when block `fbn + numb / BYTES_PER_BLOCK - 1` has no zero byte. |
| `Reading.ReadEndsWithRelativeSeek` | fs.c:125-126 | The read's final state is what a relative seek by its count gives, and that seek cannot fail. |
| `Reading.CopyBytes` | fs.c:95-98 | The inner copy loop appends the first `n` bytes of a block to the staging buffer, in order. |
| `Reading.ReadBlocks` | fs.c:85-126 | The copy loops, the partial-block loop and the zero-count loop produce the buffer, count and state of `Reading.Read`. |
| `Writing.LastFbnBounds` | fs.c:212-230 | The block a non-empty write ends in holds its last byte, leaving 1 to `BYTES_PER_BLOCK` bytes for it. It lies beyond the cursor's block exactly when the write crosses a block boundary. |
| `Writing.MiddleLoopGuard` | fs.c:219-226 | The middle loop's test, more than a block remaining, holds exactly when the next FBN is a middle block rather than the last one. |
| `Writing.LongWriteBlocks` | fs.c:210-246 | After a long write, the allocated FBNs are the old ones plus every FBN from the cursor's block to the last block written. `Writing.Write` uses it only when every middle FBN is already allocated, because the source allocates only the first and the last block (fs.c:206, fs.c:237). So the FBNs actually added are those two. |
| `Writing.Write` | fs.c:193-257 | The write fails exactly on a negative count (`BadCursor`) or on a long write with an unallocated middle block (`UnallocatedBlock`). On success, the cursor advances by `numb` and the allocated FBNs grow by the first and the last block of the write. |
| `Writing.SingleBlockWriteBytes` | fs.c:247-254 | A short write succeeds. Afterwards the bytes from the cursor hold `data`, and every other byte, an unallocated block's zeros included, is unchanged. |
| `Writing.MultiBlockWriteBytes` | fs.c:210-246 | A successful long write puts `data` at the cursor and changes no other byte of the file. |
| `Writing.WriteBytes` | fs.c:193-256 | Any successful write has a non-negative count, places `data[..numb]` at the cursor, and leaves every other byte as it was. |
| `Writing.LongWriteMiddleBlock` | fs.c:219-229 | Middle block `q` becomes the `BYTES_PER_BLOCK` bytes of data from index `q * BYTES_PER_BLOCK - cursor`, whatever it held before. No merge read is involved. |
| `Writing.LongWriteLastBlock` | fs.c:230-245 | The last block takes the remaining bytes at its start and keeps the rest of its old contents, or zeros if it was unallocated. |
| `Writing.WriteEndsWithRelativeSeek` | fs.c:255-256 | A negative count fails exactly as the closing relative seek does. A successful write leaves the cursor where that seek puts it. |
| `Writing.MergeBytes` | fs.c:241-244 | The merge loop replaces positions `[off, off + len)` of the staging block with the data and keeps every other position. |
| `Writing.FillBlock` | fs.c:221-225 | The fill loop makes the staging block equal to `BYTES_PER_BLOCK` consecutive bytes of the data. |
| `Writing.FillMiddle` | fs.c:219-229 | The middle loop runs to completion exactly when every middle block is allocated. It then leaves the first and all middle blocks in their final contents. |
| `Writing.MergeLast` | fs.c:230-245 | Merging the bytes left after the middle loop into the last block, read or zeroed, completes exactly the blocks of `Writing.LongWriteBlocks`. |
| `Writing.LongWrite` | fs.c:210-246 | The three loops of a long write fail exactly when a middle block is unallocated. Otherwise they produce the blocks of `Writing.LongWriteBlocks`. |
| `Writing.WriteBlocks` | fs.c:193-257 | The loop version of the write returns the same result as `Writing.Write`, errors included. |
| `RoundTrip.WriteThenReadAligned` | fs.c:85-257 | At a block-aligned cursor: write, seek back and read the same length. The buffer then equals the data written. A long read's count is the length less the zeros in the last whole block of the data. |
| `RoundTrip.WriteThenReadNoZeros` | fs.c:109-118 | Data with no zero byte, written at an aligned cursor and read back, returns its full length. |
| `RoundTrip.UnalignedWriteThenRead` | fs.c:120-124 | At any cursor that is not block-aligned, a one-byte write read back from the cursor returns the byte at the start of the cursor's block, which the write left as it was. |
| `RoundTrip.UnalignedWriteThenReadDiffers` | fs.c:120-124 | A byte written at offset 1 of an empty file and read back from offset 1 comes back as the zero at offset 0. |

## Left out

- `fsFormat`, `fsMount` (fs.c:35-64): creating and checking the disk file is pure host I/O.
- `fsOpen`, `fsCreate`, `fsClose` (fs.c:11-27, fs.c:72-76): one-line delegations to the directory and open-file-table manager, which is not part of this model. The model starts from an open file.
- `bfsRead`, `bioWrite`, `bfsFbnToDbn`, `bfsAllocBlock`, `bfsGetSize`: their inode table, free list and disk layout are not visible. Only their effect on the block map is modelled. An allocation that fails is not modelled.
- File size: a write is not claimed to change the size. Growing it is the store's unseen work, so the size is a parameter of `Cursor.Seek` and nothing more.
- `g_oft` and the lack of locking: the model is single-threaded. The open-file-table entry is folded into `Files.OpenFile`.
- `i32` arithmetic: cursor, offsets and counts are unbounded integers, so an overflowing `curs += offset` is not modelled.
- `BYTESPERBLOCK` and `BYTESPERDISK` are defined in a header that is not part of this model. The values 512 and 512 × 100 are assumed here.
- `memcpy(wholeBuffer, buf, 2048)` (fs.c:195) reads 2048 bytes of the caller's buffer whatever `numb` is. The model reads only the `numb` bytes it uses, and requires `numb <= |data|`.
- `Writing.Write`: on an error the state is left as it was, which follows the convention that `FATAL` aborts. The source has already done some work by then. With a negative count, it has allocated and written the cursor's block before the closing seek fails. With an unallocated middle block, it has written the first block and some middle blocks, and then passes a negative block number to `bioWrite`, whose behaviour is not visible. The model reports `UnallocatedBlock`.
- `Reading.Read`: assumes that `bfsRead` of an FBN with no disk block yields a block of zeros. That routine is not part of this model. The write path never reads an unallocated FBN, because it checks `dbn >= 0` first (fs.c:200-209, fs.c:231-240). The read path has no such check (fs.c:94, 102, 110, 122). So what the model says about reading past the allocated blocks rests on this assumption. That includes a trim that removes a full `BYTES_PER_BLOCK`.
- `Reading.Read`: a negative `numb` is excluded by the precondition, because the source passes it to `memcpy` as a size.
