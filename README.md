# darkhttpd test harness: requests, response parsing, test names and range expectations

A Dafny model of the pure and imperative core of darkhttpd's Python test
harness `devel/test.py`. The model covers these parts of the harness:

- **Conn.get.** It builds the HTTP request text. When a version is given, it
  stores `User-Agent` and `Connection` into the caller's header dictionary,
  which it changes in place, and writes one `k: v` line per entry.
- **parse.** It splits a raw response at the first blank line (`\r\n\r\n`)
  into a head and a body. It takes the status line off the head, then fills
  a header dictionary line by line. Each line is split at its first `": "`,
  and a later line with the same name wins.
- **Test names.** `nerf`, `makeCase` and `makeCases` produce the names under
  which the generated directory-listing and invalid-URL tests are registered
  on `TestCases`.
- **Range table.** This is the table of `Range` requests in `TestFileGet`
  and the 206/416 answers they expect. Every row is proved to agree with a
  reference reading of byte ranges, after sections 2.1 and 4.2 of RFC 7233.
- **Large-file tests.** `make_large_file` and `drive_start` do the arithmetic
  for the 2 GiB and 4 GiB tests. A 4096-byte block straddles the boundary,
  and a quarter-block range is requested a few bytes from it.

Modules, in dependency order:

| module | file | contents |
|---|---|---|
| `Wrappers` | wrappers.dfy | `Option` and `Result` |
| `Text` | text.dfy | `str.index`, `split(p, 1)`, `split(p)`, `join`, occurrence lemmas |
| `Fields` | fields.dfy | header lines `k: v` and the later-wins dictionary |
| `ResponseParser` | response.dfy | `parse` as a method, its specification and its framing lemmas |
| `Request` | request.dfy | the header dictionary as a class, and `Conn.get` as a method |
| `DecimalText` | decimal.dfy | `str(n)`, `"%d"`, and digit strings |
| `TestNames` | names.dfy | `nerf`, test names, and `makeCases` as a method |
| `RangeTable` | ranges.dfy | range syntax, the reference evaluation, and the table rows |
| `DriveRange` | driverange.dfy | the request `drive_range` sends, through the defaults of `Conn.get` |
| `LargeFile` | largefile.dfy | `make_large_file`, `drive_start`, and the large-file tests |

Errors that Python raises as exceptions are values here:
- `resp.index` finding nothing is `NoHeadEnd`.
- Unpacking a `split` without a separator is `NoHeaderLines` or
  `MalformedHeader(line)`.
- A line ending with no name tag (`KeyError`) gives `None` from `TestName`.
- A negative `seek` is `SeekError`.

Python integers are unbounded, like Dafny's, and only non-negative operands
reach `/` in the harness.

## Model

Each `RangeTable.Range<Name>Agrees` row below covers the function `RangeTable.Range<Name>` too. That function builds the arguments the harness passes to `drive_range` at the same lines (`RangeSingle` for `test_range_single`, and so on).

| member | source | states |
|---|---|---|
| ResponseParser.Parse | devel/test.py:42-54 | the loop version of `parse` returns exactly what the specification function gives for every input, errors included |
| ResponseParser.ParseRoundTrip | devel/test.py:42-54 | a response made of a status line, well-formed fields, a blank line and any body parses back to that status, the later-wins dictionary of the fields, and the same body, even when the body holds blank lines |
| ResponseParser.FrameParses | devel/test.py:46-51 | with no line break inside the status line or the header lines, the first blank line is the one ending the head, and the status line and body come back unchanged |
| ResponseParser.ParseNeedsHeadEnd | devel/test.py:46 | `parse` fails with the missing-blank-line error exactly when the response holds no `\r\n\r\n` |
| ResponseParser.ParseRejectsNoHeaders | devel/test.py:49 | a status line followed directly by the blank line has no header lines, and `parse` raises there |
| ResponseParser.ParseRejectsMalformedLine | devel/test.py:51-52 | a header line without `": "` makes `parse` fail, and it reports the first such line |
| ResponseParser.HeaderMapSucceeds | devel/test.py:51-53 | the header loop succeeds exactly when every line holds `": "` |
| ResponseParser.HeaderMapFirstMalformed | devel/test.py:51-53 | the header loop stops at the first line without `": "` and reports it |
| ResponseParser.HeaderMapErrorPersists | devel/test.py:51-53 | once the loop has raised, the later lines do not matter |
| ResponseParser.HeaderMapOfFields | devel/test.py:51-53 | the loop over the lines of fields gives the later-wins dictionary of those fields |
| Fields.FieldLineSplits | devel/test.py:52 | `k: v` splits at the first `": "` back into `k` and all of `v`, even when `v` holds `": "` |
| Fields.FieldLineNoBreak | devel/test.py:28 | the line of a well-formed field holds no line break |
| Fields.FieldMapKeys | devel/test.py:53 | the dictionary's names are exactly the fields' names |
| Fields.FieldMapLastWins | devel/test.py:53 | the dictionary keeps the value of the last field with a given name |
| Text.FindFirst | devel/test.py:46 | `str.index`: an occurrence at the index returned, none before it, and None only when there is no occurrence |
| Text.SplitOnce | devel/test.py:49 | `split(p, 1)` unpacked into two: None exactly when `p` is absent, otherwise the text is `a + p + b`, cut at the first occurrence of `p` (none starts before the end of `a`) |
| Text.SplitAll | devel/test.py:51 | `split(p)`: at least one part, no part holds `p`, and joining the parts with `p` gives the text back |
| Text.SplitAllJoin | devel/test.py:51 | splitting parts that were joined by a separator of two different characters, none of which holds it, gives the parts back |
| Text.NoBlankLineAcrossBreak | devel/test.py:46 | joining two texts with one line break creates no blank line unless a line break touches the seam |
| Request.HeaderDict.Set | devel/test.py:25-26 | `d[k] = v` keeps the names unique, and the dictionary becomes the old one updated at `k` |
| Request.AssignUpdates | devel/test.py:25-26 | assigning into a list of unique fields keeps the names unique and updates the dictionary at exactly one name |
| Request.AssignNames | devel/test.py:25-26 | assigning adds exactly the assigned name |
| Request.HeaderLines | devel/test.py:27-28 | the `items()` loop writes one `k: v` line and line ending per entry, in order |
| Request.Get | devel/test.py:19-29 | the request is the request line, the header lines when a version is given, and a closing line ending; without a version the caller's dictionary is untouched; with one it gains `User-Agent: test.py` and `Connection: close` |
| DriveRange.DriveRangeRequest | devel/test.py:76-78 | `drive_range`'s call of `Conn.get` with only `req_hdrs` given sends a GET, HTTP/1.0 and LF request whose three header lines are `Range: bytes=<range_in>`, `User-Agent: test.py` and `Connection: close` |
| Request.RequestParsesBack | devel/test.py:19-29 | a CRLF request with a version and well-formed fields, read back by `parse`, gives the request line, the dictionary and an empty body |
| DecimalText.Decimal | devel/test.py:83 | `str(n)` is a non-empty digit string with no leading zero |
| DecimalText.DecimalRoundTrip | devel/test.py:83 | reading the digits of `str(n)` gives `n` back |
| DecimalText.DecimalInjective | devel/test.py:225 | different numbers are written differently, so the `"%d"` texts in the table identify their numbers |
| TestNames.Nerf | devel/test.py:103-104 | same length; every output character is in `[a-zA-Z0-9_]`; alphanumerics are kept and every other character becomes `_` |
| TestNames.NerfIdempotent | devel/test.py:103-104 | nerfing twice is nerfing once |
| TestNames.NerfFixes | devel/test.py:103-104 | `nerf` leaves a string unchanged exactly when it is made of `[a-zA-Z0-9_]` |
| TestNames.TestName | devel/test.py:130-138 | the name `makeCase` registers; there is none (the `KeyError` of line 137) exactly when the line ending is neither LF nor CRLF |
| TestNames.TestNameSplits | devel/test.py:130-138 | the name is `test_`, the nerfed case name, `_`, the nerfed `HTTP<ver>` with `0.9` for no version, `_`, and `LF` or `CRLF` |
| TestNames.TestNameIsIdentifier | devel/test.py:130-140 | for either line ending the name exists, starts with `test_` and is made of `[a-zA-Z0-9_]`, so unittest collects it |
| TestNames.TestNameInjective | devel/test.py:130-138 | on the version and line-ending grid, two names coincide exactly when the nerfed case names, the versions and the line endings all coincide |
| TestNames.MakeCases | devel/test.py:142-147 | six names, in order version-major, each equal to `makeCase`'s name for its pair, and pairwise distinct |
| TestNames.SetUpModuleNamesDistinct | devel/test.py:153-163 | none of the 42 tests registered by `setUpModule` overwrites another |
| RangeTable.ParseRangeRoundTrip | devel/test.py:78 | the text of any range, read back as an RFC 7233 range, is that range |
| RangeTable.RangeHeaderRoundTrip | devel/test.py:78 | a `bytes=` header value made from a range reads back as that range |
| RangeTable.Evaluate | devel/test.py:76-84 | the reference outcome: a served range lies inside the data; invalid exactly when last is before first; for a range that is not invalid, unsatisfiable exactly when it starts at or past the end, or is a suffix that is empty or taken of empty data |
| RangeTable.EvaluateBeyondEnd | devel/test.py:256-260 | a last position past the end selects the same bytes as the suffix of the same length |
| RangeTable.EvaluateOversizeSuffix | devel/test.py:262-266 | a suffix at least as long as the data selects all of it |
| RangeTable.RangeSingleAgrees | devel/test.py:224-226 | `5-5` expects Content-Range `5-5/L`, length 1, and byte 5 |
| RangeTable.RangeSingleFirstAgrees | devel/test.py:228-230 | `0-0` expects Content-Range `0-0/L`, length 1, and byte 0 |
| RangeTable.RangeSingleLastAgrees | devel/test.py:232-235 | `L-1` to `L-1` expects length 1 and the last byte, `data[-1]` |
| RangeTable.RangeSingleBadAgrees | devel/test.py:237-241 | `L-L` reads back as first L, last L, which is unsatisfiable (not invalid), so the 416 the harness expects is right |
| RangeTable.RangeReasonableAgrees | devel/test.py:243-245 | `10-20` expects eleven bytes, `data[10:21]` |
| RangeTable.RangeStartGivenAgrees | devel/test.py:247-249 | `10-` expects bytes 10 to the end, and Content-Range `10-(L-1)/L` |
| RangeTable.RangeEndGivenAgrees | devel/test.py:251-254 | `-25` expects the last 25 bytes, `data[-25:]` |
| RangeTable.RangeBeyondEndAgrees | devel/test.py:256-260 | `(L-25)-2L` is clamped to the same answer as `-25` |
| RangeTable.RangeEndGivenOversizeAgrees | devel/test.py:262-266 | `-3L` expects the whole file and Content-Range `0-(L-1)/L` |
| RangeTable.RangeBadStartAgrees | devel/test.py:268-272 | `2L-` reads back as a range from 2L, which starts past the end and is unsatisfiable, so the 416 the harness expects is right |
| RangeTable.RangeBackwardsAgrees | devel/test.py:274-277 | `20-10` parses as first 20, last 10; it is invalid and not served, so no 206 is expected |
| LargeFile.MakeLargeFile | devel/test.py:279-294 | succeeds exactly when half the data fits before the boundary and there are at least two bytes; the seek fails exactly when the boundary is below half the data length, and once the seek succeeds, fewer than two bytes fail the asserts; then `0 <= pos < boundary < filesize`, `filesize - pos` is the data length, and half the data lies before the boundary |
| LargeFile.MakeLargeFileBlock | devel/test.py:285-294 | a 4096-byte block starts 2048 bytes before the boundary and the file ends 2048 bytes after it |
| LargeFile.DriveStart | devel/test.py:311-321 | the call `drive_start(ofs)` makes: when the start `boundary + ofs` is not negative and a quarter of the data is at least one byte, the range text is that of the range from the start covering a quarter of the data, which `RangeHeaderRoundTrip` reads back, and the Content-Range is that range over `filesize`; when the range lies inside `[filepos, filepos + datalen)`, the expected body is the data from `start - filepos`, a quarter of it long |
| LargeFile.DriveStartAgrees | devel/test.py:311-321 | for any boundary of at least 2048 and any offset from -2048 to 1024: the requested range lies inside `[filepos, filesize)`; the slice indices stay in `[0, 4096]`; Content-Range, a count of `datalen/4` bytes and `data[data_start:data_end]` are exactly the bytes of the file |
| LargeFile.LargeFileTestsAgree | devel/test.py:331-340 | the seven offsets -3 to 3 at both boundaries, 2^31 and 2^32, all expect what the file holds |

## Left out

- Sockets, `connect`, `send`, the `recv` loop and `signal.alarm` in `Conn` (lines 13-17 and 30-40) are I/O. `Get` returns the request it would send.
- File I/O in `setUp`/`tearDown`, `open`/`write`/`seek`/`tell` and `os.unlink`/`mkdir`/`rmdir` are left out. `FileContents` stands for the file `make_large_file` leaves: zero bytes up to `pos`, then the data.
- The random test data becomes a parameter: any string of the right length.
- The server itself is not part of this model. The expectations about directory listings, redirects, `If-Modified-Since`, HEAD, `Accept-Ranges`, `Content-Type` and `Server` describe server behaviour and are out of scope (lines 56-74, 86-98, 109-128, 165-222, 323-329). So are the status-line checks of `drive_range` (line 80).
- Default arguments: `Request.Get` gives `httpVer`, `endl` and `httpMethod` the defaults of `Conn.get` (`"1.0"`, LF, `GET`), and `TestNames.TestName` gives `httpVer` and `endl` the defaults of `makeCase` (none, LF). A default dictionary cannot be a parameter default, so `reqHdrs` is always passed. The defaults `{}` of `Conn.get` and `{"User-Agent": "test.py"}` of `makeCase`/`makeCases` are not modelled. Neither are the `hdr_checker`/`body_checker` callbacks, which check server output.
- The unittest plumbing is not modelled: `setattr` on `TestCases`, `do_test.__name__`, the closures of `makeSimpleCases`, and `unittest.main`. `MakeCases` returns the names it would register.
- Dictionary iteration order is a parameter. `HeaderDict` keeps its entries in insertion order, with a reassigned name keeping its place. Python 2 makes no such promise, so `Get` is stated for the order the dictionary holds.
- The shared mutable default `req_hdrs` of `Conn.get` and `makeCase` shows up only in that `Get` changes the `HeaderDict` object it is given. The model does not follow that one object through many calls.
- The self-checks on `big = 1<<33` in `make_large_file` (lines 280-282) are constant facts about Python, not about the file, and are not modelled.
- MakeLargeFile: the `tell()` checks after the seek and the write (lines 287 and 291) always hold and are not branches. Only the checks that can fail (lines 288 and 292) are.
- RangeTable.PyItem: requires an index inside the string. The table indexes only data long enough, so the `IndexError` case is not modelled.
- RangeTable.RangeSingleAgrees and the other table lemmas are stated for any data long enough for their row (at least 25 bytes for the suffix rows), not only the 2345 bytes `setUp` writes.
- LargeFile.DriveStartAgrees: stated for a 4096-byte block only, as `setUp` writes, not for any `datalen`.
- ResponseParser.Parse follows the harness, not RFC 7230 section 3.2. A field separator must be exactly `": "`, with no optional whitespace, and a head with a status line but no header lines is rejected.
- RangeTable.Evaluate is a reference reading of sections 2.1 and 4.2 of RFC 7233 for one range. It is not darkhttpd's range logic, and multi-range requests are left out.
- RangeTable.RangeBackwardsAgrees: section 2.1 of RFC 7233 calls `20-10` invalid, and section 3.1 lets a server ignore or reject such a header. The harness expects 416. The model proves only that the range is invalid and not served, not which of the two answers a server must give.
