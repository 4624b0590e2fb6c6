/**
 * The large-file tests: `make_large_file` writes a 4096-byte block into an
 * otherwise empty (sparse) file so that half of it lies before a boundary
 * of 2^31 or 2^32 bytes and half after, and `drive_start` asks for a
 * quarter-block range starting a few bytes from the boundary and predicts
 * the slice of the block that comes back.  Python integers are unbounded,
 * and so are the integers here; nothing in the harness wraps around.
 */
module LargeFile {
  import opened Wrappers
  import opened Text
  import opened DecimalText
  import opened RangeTable

  /** `BOUNDARY` of TestLargeFile2G (`1<<31`) and of TestLargeFile4G (`1<<32`). */
  const Boundary2G: int := 0x8000_0000
  const Boundary4G: int := 0x1_0000_0000
  /** `self.datalen` of the large-file tests. */
  const BlockLen: nat := 4096

  /** How `make_large_file` can fail. */
  datatype FileError =
    | SeekError        // `f.seek(pos)` with a negative position raises IOError
    | AssertionFailed  // one of its `assert`s fails

  /**
   * `(pos, filesize)` from `make_large_file(fn, boundary, data)` with
   * `len(data) == dataLen`.  Its checks that `f.tell()` is `pos` after the
   * seek and `pos + len(data)` after the write always hold and are not
   * branches here.
   */
  function MakeLargeFile(boundary: int, dataLen: nat): (r: Result<(int, int), FileError>)
    ensures r.Ok? <==> 2 <= dataLen && dataLen / 2 <= boundary
    ensures r == Err(SeekError) <==> boundary < dataLen / 2
    ensures r.Ok? ==> 0 <= r.value.0 < boundary < r.value.1
    ensures r.Ok? ==> r.value.1 - r.value.0 == dataLen
    ensures r.Ok? ==> boundary - r.value.0 == dataLen / 2
  {
    var pos := boundary - dataLen / 2;
    if pos < 0 then Err(SeekError)
    else if !(pos < boundary) then Err(AssertionFailed)
    else
      var filesize := pos + dataLen;
      if !(filesize > boundary) then Err(AssertionFailed)
      else Ok((pos, filesize))
  }

  /** With a 4096-byte block, the block starts 2048 bytes before the boundary. */
  lemma MakeLargeFileBlock(boundary: int)
    requires 2048 <= boundary
    ensures MakeLargeFile(boundary, BlockLen) == Ok((boundary - 2048, boundary + 2048))
  {
    assert BlockLen / 2 == 2048;
  }

  /** The file `make_large_file` leaves: a hole of zero bytes up to `pos`, then the data. */
  function FileContents(pos: nat, data: string): (f: string)
    ensures |f| == pos + |data|
    ensures f[pos..] == data
  {
    seq(pos, _ => '\0') + data
  }

  /** `"%d-%d"` of two positions in order is the text of that range, and its Content-Range follows section 4.2 of RFC 7233. */
  lemma DashRange(a: int, b: int, len: int)
    ensures 0 <= a <= b && 0 <= len ==>
      Dash(a, b) == RangeText(FromTo(a, b)) && Over(Dash(a, b), len) == ByteRangeResp(a, b, len)
  {
    if 0 <= a <= b && 0 <= len {
      FormatNat(a);
      FormatNat(b);
      OverDash(a, b, len);
    }
  }

  /** A Python slice between two indices inside the string is the Dafny slice. */
  lemma SliceWithin(s: string, a: int, b: int)
    ensures 0 <= a <= b <= |s| ==> PySlice(s, Some(a), Some(b)) == s[a..b]
  {
    if 0 <= a <= b <= |s| {
      PySliceInside(s, a, b);
    }
  }

  /**
   * The `drive_range` call `drive_start(ofs)` makes, given `setUp`'s
   * `filepos` and `filesize`: a range of a quarter of the data starting
   * `ofs` bytes from the boundary, and the slice of the data that lies there.
   */
  function DriveStart(boundary: int, filepos: int, filesize: int, ofs: int, data: string): (c: RangeCase)
    ensures c.expected.Partial?
    ensures 0 <= boundary + ofs && 0 < |data| / 4 && 0 <= filesize ==>
      && c.rangeIn == RangeText(FromTo(boundary + ofs, boundary + ofs + |data| / 4 - 1))
      && c.expected.rangeOut == ByteRangeResp(boundary + ofs, boundary + ofs + |data| / 4 - 1, filesize)
    ensures filepos <= boundary + ofs && boundary + ofs + |data| / 4 <= filepos + |data| ==>
      c.expected.dataOut == data[boundary + ofs - filepos..boundary + ofs - filepos + |data| / 4]
  {
    var reqStart := boundary + ofs;
    var reqEnd := reqStart + |data| / 4 - 1;
    var dataStart := reqStart - filepos;
    var dataEnd := dataStart + |data| / 4;
    DashRange(reqStart, reqEnd, filesize);
    SliceWithin(data, dataStart, dataEnd);
    RangeCase(Dash(reqStart, reqEnd), Partial(Over(Dash(reqStart, reqEnd), filesize), |data| / 4, PySlice(data, Some(dataStart), Some(dataEnd))))
  }

  /** A slice of the file that starts at or after the hole is a slice of the data. */
  lemma FileSlice(pos: nat, data: string, s: nat, e: nat)
    requires pos <= s <= e <= pos + |data|
    ensures FileContents(pos, data)[s..e] == data[s - pos..e - pos]
  {
    var f := FileContents(pos, data);
    assert f[s..e] == f[pos..][s - pos..e - pos];
  }

  /** The call `drive_start(ofs)` makes: bytes s..e of the file, expected as the data at s - filepos. */
  lemma DriveStartShape(boundary: int, ofs: int, data: string)
    requires |data| == BlockLen
    requires 2048 <= boundary
    requires -2048 <= ofs <= 1024
    ensures var s, e, pos := boundary + ofs, boundary + ofs + 1023, boundary - 2048;
      DriveStart(boundary, pos, boundary + 2048, ofs, data) ==
      RangeCase(RangeText(FromTo(s, e)), Partial(ByteRangeResp(s, e, boundary + 2048), 1024, data[s - pos..e + 1 - pos]))
  {
    var pos, size := boundary - 2048, boundary + 2048;
    var s, e := boundary + ofs, boundary + ofs + 1023;
    assert |data| / 4 == 1024;
    FormatNat(s);
    FormatNat(e);
    OverDash(s, e, size);
    PySliceInside(data, s - pos, e + 1 - pos);
  }

  /**
   * For a 4096-byte block around any boundary of at least 2048 and any
   * offset from -2048 to 1024, `make_large_file` succeeds, the requested
   * range lies inside the block, the predicted slice indices stay within
   * the data, and the expectation `drive_start` passes to `drive_range` is
   * exactly what RFC 7233 serves from the file: Content-Range
   * `start-end/filesize`, Content-Length `datalen/4` and the data bytes
   * `data[data_start:data_end]`.
   */
  lemma DriveStartAgrees(boundary: int, ofs: int, data: string)
    requires |data| == BlockLen
    requires 2048 <= boundary
    requires -2048 <= ofs <= 1024
    ensures MakeLargeFile(boundary, |data|) == Ok((boundary - 2048, boundary + 2048))
    ensures boundary - 2048 <= boundary + ofs && boundary + ofs + 1023 < boundary + 2048
    ensures 0 <= ofs + 2048 <= ofs + 2048 + 1024 <= |data|
    ensures RowAgrees(DriveStart(boundary, boundary - 2048, boundary + 2048, ofs, data),
                      FileContents(boundary - 2048, data))
  {
    var pos := boundary - 2048;
    var s, e := boundary + ofs, boundary + ofs + 1023;
    var file := FileContents(pos, data);
    MakeLargeFileBlock(boundary);
    DriveStartShape(boundary, ofs, data);
    FileSlice(pos, data, s, e + 1);
    InsideRow(DriveStart(boundary, pos, boundary + 2048, ofs, data), file, s, e);
  }

  /** The seven tests of TestLargeFile2G and TestLargeFile4G (offsets -3 to 3) all expect what the file holds. */
  lemma LargeFileTestsAgree(ofs: int, data: string)
    requires |data| == BlockLen && -3 <= ofs <= 3
    ensures MakeLargeFile(Boundary2G, |data|) == Ok((Boundary2G - 2048, Boundary2G + 2048))
    ensures MakeLargeFile(Boundary4G, |data|) == Ok((Boundary4G - 2048, Boundary4G + 2048))
    ensures RowAgrees(DriveStart(Boundary2G, Boundary2G - 2048, Boundary2G + 2048, ofs, data),
                      FileContents(Boundary2G - 2048, data))
    ensures RowAgrees(DriveStart(Boundary4G, Boundary4G - 2048, Boundary4G + 2048, ofs, data),
                      FileContents(Boundary4G - 2048, data))
  {
    DriveStartAgrees(Boundary2G, ofs, data);
    DriveStartAgrees(Boundary4G, ofs, data);
  }
}
