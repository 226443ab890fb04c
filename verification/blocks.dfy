/** Bytes and fixed-size blocks: the unit of every transfer between the file
    layer and the block store underneath it. */
module Blocks {

  /** Bytes per block (`BYTESPERBLOCK`). The header that fixes it is not part of
      this model; 512 is the value assumed here. */
  const BYTES_PER_BLOCK: int := 512

  /** Blocks on the volume; with BYTES_PER_BLOCK it sizes `BYTESPERDISK`, the
      staging buffer of a read. Also an assumed value. */
  const BLOCKS_PER_DISK: int := 100

  const BYTES_PER_DISK: int := BYTES_PER_BLOCK * BLOCKS_PER_DISK

  /** One byte as the C code stores it: a signed 8-bit `i8`. */
  type Byte = b: int | -128 <= b < 128

  /** The contents of one block. */
  type Block = s: seq<Byte> | |s| == BYTES_PER_BLOCK witness ZeroBlock()

  /** The all-zero block: a freshly allocated block before anything is
      merged into it. */
  function ZeroBlock(): (b: seq<Byte>)
    ensures |b| == BYTES_PER_BLOCK
    ensures forall i :: 0 <= i < |b| ==> b[i] == 0
  {
    seq(BYTES_PER_BLOCK, _ => 0)
  }

  /** `b` with the bytes `[off, off + |d|)` replaced by `d`: the staging
      buffer of a merge-on-write after the copy loop has run. */
  function Splice(b: Block, off: nat, d: seq<Byte>): (r: Block)
    requires off + |d| <= BYTES_PER_BLOCK
    ensures forall i :: 0 <= i < BYTES_PER_BLOCK ==>
      r[i] == if off <= i < off + |d| then d[i - off] else b[i]
  {
    b[..off] + d + b[off + |d|..]
  }

  /** The number of zero bytes anywhere in `s`, in any position. */
  function ZeroCount(s: seq<Byte>): (n: nat)
  {
    multiset(s)[0]
  }

  lemma ZeroCountSnoc(s: seq<Byte>, b: Byte)
    ensures ZeroCount(s + [b]) == ZeroCount(s) + (if b == 0 then 1 else 0)
  {
    assert multiset(s + [b]) == multiset(s) + multiset{b};
  }

  /** A sequence has no zero byte exactly when its zero count is zero. */
  lemma NoZerosMeansZeroCountZero(s: seq<Byte>)
    ensures ZeroCount(s) == 0 <==> forall i :: 0 <= i < |s| ==> s[i] != 0
  {
    if ZeroCount(s) == 0 {
      forall i | 0 <= i < |s|
        ensures s[i] != 0
      {
        assert s[i] in multiset(s);
      }
    } else {
      assert 0 in multiset(s);
      var i :| 0 <= i < |s| && s[i] == 0;
    }
  }

  /** A slice of a zero-free sequence has no zero bytes to count. */
  lemma ZeroFreeSlice(s: seq<Byte>, i: nat, j: nat)
    requires i <= j <= |s|
    requires forall k :: 0 <= k < |s| ==> s[k] != 0
    ensures ZeroCount(s[i..j]) == 0
  {
    var t := s[i..j];
    forall k | 0 <= k < |t|
      ensures t[k] != 0
    {
      assert t[k] == s[i + k];
    }
    NoZerosMeansZeroCountZero(t);
  }

  /** A block holds at most as many zero bytes as it has bytes. */
  lemma {:induction false} ZeroCountBound(s: seq<Byte>)
    ensures ZeroCount(s) <= |s|
  {
    if |s| > 0 {
      var init := s[..|s| - 1];
      assert s == init + [s[|s| - 1]];
      ZeroCountBound(init);
      ZeroCountSnoc(init, s[|s| - 1]);
    }
  }

  /** The counting loop of the read path's length trim (fs.c:109-117): one
      pass over the block, one increment per zero byte. */
  method CountZeroBytes(block: Block) returns (n: nat)
    ensures n == ZeroCount(block)
    ensures n <= BYTES_PER_BLOCK
  {
    n := 0;
    var i := 0;
    while i < BYTES_PER_BLOCK
      invariant 0 <= i <= BYTES_PER_BLOCK
      invariant n == ZeroCount(block[..i])
    {
      assert block[..i + 1] == block[..i] + [block[i]];
      ZeroCountSnoc(block[..i], block[i]);
      if block[i] == 0 {
        n := n + 1;
      }
      i := i + 1;
    }
    assert block[..i] == block;
    ZeroCountBound(block);
  }
}
