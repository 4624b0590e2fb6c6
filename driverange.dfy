/**
 * The request `drive_range` sends: `Conn.get` with its default version
 * (1.0), line ending (LF) and method (GET), and a fresh header dictionary
 * holding only `Range: bytes=<range_in>`.
 */
module DriveRange {
  import opened Wrappers
  import opened Fields
  import opened Request
  import opened RangeTable

  method DriveRangeRequest(url: string, rangeIn: string) returns (req: string, fs: seq<Field>)
    ensures req == RequestText("GET", url, Some("1.0"), "\n", fs)
    ensures FieldMap(fs) == map["Range" := BytesEq + rangeIn, "User-Agent" := "test.py", "Connection" := "close"]
    ensures UniqueNames(fs) && |fs| == 3
  {
    var hdrs := new HeaderDict([("Range", BytesEq + rangeIn)]);
    assert FieldMap(hdrs.items) == map["Range" := BytesEq + rangeIn];
    req := Get(url, reqHdrs := hdrs);
    fs := hdrs.items;
    FieldMapKeys(fs);
    assert Names(fs) == {"Range", "User-Agent", "Connection"};
    UniqueNamesCount(fs);
  }
}
