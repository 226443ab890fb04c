/** Cursor arithmetic: `fsSeek` and `fsTell`. */
module Cursor {
  import opened Files

  /** The `whence` codes of C's stdio, as `fsSeek` receives them. Any other
      value is a caller error. */
  const SEEK_SET: int := 0
  const SEEK_CUR: int := 1
  const SEEK_END: int := 2

  /** `fsTell`: the cursor of the file's open-file-table entry. An absolute
      seek to the position told puts the file back exactly as it was, and a
      negative position (never produced by a seek) could not be sought. */
  function Tell(f: OpenFile): (r: int)
    ensures r >= 0 ==> Seek(f, r, SEEK_SET, 0) == Ok(f)
    ensures r < 0 ==> Seek(f, r, SEEK_SET, 0) == Err(BadCursor)
  {
    f.cursor
  }

  /** `fsSeek(fd, offset, whence)`. `size` is the byte count the volume manager
      reports for the file at the moment of the call (`fsSize`), consulted only
      for SEEK_END. A negative offset is rejected before the mode is looked at;
      success changes nothing but the cursor. */
  function Seek(f: OpenFile, offset: int, whence: int, size: int): (r: Result<OpenFile>)
    ensures offset < 0 ==> r == Err(BadCursor)
    ensures offset >= 0 ==>
      (r.Ok? <==> whence == SEEK_SET || whence == SEEK_CUR || whence == SEEK_END)
    ensures offset >= 0 && r.Err? ==> r.error == BadWhence
    ensures r.Ok? ==> r.value.blocks == f.blocks
  {
    if offset < 0 then Err(BadCursor)
    else if whence == SEEK_SET then Ok(f.(cursor := offset))
    else if whence == SEEK_CUR then Ok(f.(cursor := f.cursor + offset))
    else if whence == SEEK_END then Ok(f.(cursor := size + offset))
    else Err(BadWhence)
  }

  /** Telling after an absolute seek gives back the offset sought. */
  lemma TellAfterSeekSet(f: OpenFile, k: int, size: int)
    requires k >= 0
    ensures Seek(f, k, SEEK_SET, size).Ok?
    ensures Tell(Seek(f, k, SEEK_SET, size).value) == k
  {
  }

  /** A relative seek moves the cursor forward by exactly the offset, and a
      negative offset leaves the file as it was. */
  lemma SeekCurAdvances(f: OpenFile, k: int, size: int)
    ensures k >= 0 ==> Seek(f, k, SEEK_CUR, size).Ok? && Tell(Seek(f, k, SEEK_CUR, size).value) == Tell(f) + k
    ensures k < 0 ==> Seek(f, k, SEEK_CUR, size) == Err(BadCursor)
  {
  }

  /** Seeking from the end is an absolute seek to `size + offset`. */
  lemma SeekEndIsSetFromSize(f: OpenFile, offset: int, size: int)
    requires offset >= 0 && size >= 0
    ensures Seek(f, offset, SEEK_END, size) == Seek(f, size + offset, SEEK_SET, size)
  {
  }

  /** Two relative seeks add up to one; a relative seek never moves the cursor
      backwards. */
  lemma SeekCurComposes(f: OpenFile, a: int, b: int, size: int)
    requires a >= 0 && b >= 0
    ensures Seek(f, a, SEEK_CUR, size).Ok?
    ensures Seek(Seek(f, a, SEEK_CUR, size).value, b, SEEK_CUR, size) == Seek(f, a + b, SEEK_CUR, size)
    ensures Tell(f) <= Tell(Seek(f, a, SEEK_CUR, size).value)
  {
  }

  /** The cursor never becomes negative: starting from a non-negative cursor
      and a non-negative size, every successful seek ends at a non-negative
      cursor. */
  lemma SeekKeepsCursorNonNegative(f: OpenFile, offset: int, whence: int, size: int)
    requires Tell(f) >= 0 && size >= 0
    requires Seek(f, offset, whence, size).Ok?
    ensures Tell(Seek(f, offset, whence, size).value) >= 0
  {
  }
}
