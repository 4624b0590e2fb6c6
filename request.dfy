/**
 * The request that `Conn.get` writes to its socket.  The request line is
 * `method url`, followed by ` HTTP/<ver>` when a version is given; with a
 * version, `User-Agent` and `Connection` are first stored into the caller's
 * header dictionary (changing it in place) and then one `k: v` line is
 * written per dictionary entry; a final line ending closes the request.
 * Opening the socket, sending and the receive loop are not modelled.
 */
module Request {
  import opened Wrappers
  import opened Text
  import opened Fields
  import opened ResponseParser

  predicate UniqueNames(fs: seq<Field>) {
    forall i, j :: 0 <= i < j < |fs| ==> fs[i].0 != fs[j].0
  }

  /**
   * `d[k] = v` on a dictionary listed in iteration order: an existing entry
   * keeps its place and takes the new value; a new entry is listed last.
   */
  function Assign(fs: seq<Field>, k: string, v: string): seq<Field> {
    if k in Names(fs) then seq(|fs|, i requires 0 <= i < |fs| => if fs[i].0 == k then (k, v) else fs[i])
    else fs + [(k, v)]
  }

  /** With unique names, the dictionary holds each entry's own value. */
  lemma FieldMapOfUnique(fs: seq<Field>)
    requires UniqueNames(fs)
    ensures FieldMap(fs).Keys == Names(fs)
    ensures forall i :: 0 <= i < |fs| ==> FieldMap(fs)[fs[i].0] == fs[i].1
  {
    FieldMapKeys(fs);
    forall i | 0 <= i < |fs| ensures FieldMap(fs)[fs[i].0] == fs[i].1 {
      FieldMapLastWins(fs, i);
    }
  }

  /** With unique names, there are as many names as entries. */
  lemma {:induction false} UniqueNamesCount(fs: seq<Field>)
    requires UniqueNames(fs)
    ensures |Names(fs)| == |fs|
    decreases |fs|
  {
    if fs != [] {
      var init, last := fs[..|fs| - 1], fs[|fs| - 1];
      assert UniqueNames(init) by {
        forall i, j | 0 <= i < j < |init| ensures init[i].0 != init[j].0 {
          assert init[i] == fs[i] && init[j] == fs[j];
        }
      }
      UniqueNamesCount(init);
      assert Names(fs) == Names(init) + {last.0} by {
        forall x | x in Names(fs) ensures x in Names(init) + {last.0} {
          var i :| 0 <= i < |fs| && fs[i].0 == x;
          if i < |init| { assert init[i] == fs[i]; }
        }
        forall x | x in Names(init) ensures x in Names(fs) {
          var i :| 0 <= i < |init| && init[i].0 == x;
          assert fs[i] == init[i];
        }
      }
      assert last.0 !in Names(init) by {
        forall i | 0 <= i < |init| ensures init[i].0 != last.0 {
          assert init[i] == fs[i];
        }
      }
    }
  }

  /** Where the assigned entry lands, and that every other entry keeps its place. */
  lemma AssignShape(fs: seq<Field>, k: string, v: string) returns (p: nat)
    requires UniqueNames(fs)
    ensures p < |Assign(fs, k, v)| && Assign(fs, k, v)[p] == (k, v)
    ensures forall i :: 0 <= i < |fs| && fs[i].0 != k ==> Assign(fs, k, v)[i] == fs[i]
    ensures forall i :: 0 <= i < |Assign(fs, k, v)| && i != p ==> Assign(fs, k, v)[i].0 != k
    ensures forall i :: 0 <= i < |Assign(fs, k, v)| && i != p ==> Assign(fs, k, v)[i] == fs[i]
  {
    var gs := Assign(fs, k, v);
    if k in Names(fs) {
      var i :| 0 <= i < |fs| && fs[i].0 == k;
      p := i;
    } else {
      p := |fs|;
      assert forall i :: 0 <= i < |fs| ==> fs[i].0 != k;
    }
  }

  /** Assigning keeps names unique and adds exactly the assigned name. */
  lemma AssignNames(fs: seq<Field>, k: string, v: string)
    requires UniqueNames(fs)
    ensures UniqueNames(Assign(fs, k, v))
    ensures Names(Assign(fs, k, v)) == Names(fs) + {k}
  {
    var gs := Assign(fs, k, v);
    var p := AssignShape(fs, k, v);
    forall i, j | 0 <= i < j < |gs| ensures gs[i].0 != gs[j].0 {
      if i != p && j != p {
        assert gs[i] == fs[i] && gs[j] == fs[j];
      }
    }
    forall x | x in Names(gs) ensures x in Names(fs) + {k} {
      var i :| 0 <= i < |gs| && gs[i].0 == x;
      if i != p { assert gs[i] == fs[i]; }
    }
    forall x | x in Names(fs) ensures x in Names(gs) {
      var i :| 0 <= i < |fs| && fs[i].0 == x;
      if x != k { assert gs[i] == fs[i]; } else { assert gs[p].0 == x; }
    }
  }

  /** After assigning, the dictionary has the old names and the assigned one. */
  lemma AssignKeys(fs: seq<Field>, k: string, v: string)
    requires UniqueNames(fs)
    ensures FieldMap(Assign(fs, k, v)).Keys == FieldMap(fs).Keys + {k}
  {
    AssignNames(fs, k, v);
    FieldMapKeys(fs);
    FieldMapKeys(Assign(fs, k, v));
  }

  /** After assigning, every name looks up its updated value. */
  lemma AssignLookup(fs: seq<Field>, k: string, v: string, x: string)
    requires UniqueNames(fs)
    requires x in FieldMap(fs) || x == k
    ensures x in FieldMap(Assign(fs, k, v))
    ensures FieldMap(Assign(fs, k, v))[x] == FieldMap(fs)[k := v][x]
  {
    var gs := Assign(fs, k, v);
    var p := AssignShape(fs, k, v);
    AssignKeys(fs, k, v);
    AssignNames(fs, k, v);
    FieldMapOfUnique(gs);
    if x == k {
      assert gs[p] == (k, v);
    } else {
      FieldMapOfUnique(fs);
      var i :| 0 <= i < |fs| && fs[i].0 == x;
      assert gs[i] == fs[i];
    }
  }

  /** Assigning keeps names unique and updates the dictionary at exactly one name. */
  lemma AssignUpdates(fs: seq<Field>, k: string, v: string)
    requires UniqueNames(fs)
    ensures UniqueNames(Assign(fs, k, v))
    ensures FieldMap(Assign(fs, k, v)) == FieldMap(fs)[k := v]
  {
    var gs := Assign(fs, k, v);
    var want := FieldMap(fs)[k := v];
    AssignNames(fs, k, v);
    AssignKeys(fs, k, v);
    forall x | x in want ensures FieldMap(gs)[x] == want[x] {
      AssignLookup(fs, k, v, x);
    }
    assert FieldMap(gs).Keys == want.Keys;
  }

  /** The caller's request-header dictionary, which `Conn.get` changes in place. */
  class HeaderDict {
    /** The entries in iteration order. */
    var items: seq<Field>

    ghost predicate Valid()
      reads this
    {
      UniqueNames(items)
    }

    function AsMap(): map<string, string>
      reads this
    {
      FieldMap(items)
    }

    constructor (fields: seq<Field>)
      requires UniqueNames(fields)
      ensures Valid() && items == fields
    {
      items := fields;
    }

    /** `d[k] = v`. */
    method Set(k: string, v: string)
      requires Valid()
      modifies this
      ensures Valid()
      ensures items == Assign(old(items), k, v)
      ensures AsMap() == old(AsMap())[k := v]
    {
      AssignUpdates(items, k, v);
      items := Assign(items, k, v);
    }
  }

  function RequestLine(httpMethod: string, url: string, httpVer: Option<string>): string {
    if httpVer.None? then httpMethod + " " + url
    else httpMethod + " " + url + " HTTP/" + httpVer.value
  }

  /** One `k: v` line, each ended by `endl`, per entry in iteration order. */
  function HeaderBlock(fs: seq<Field>, endl: string): string
    decreases |fs|
  {
    if fs == [] then ""
    else HeaderBlock(fs[..|fs| - 1], endl) + FieldLine(fs[|fs| - 1]) + endl
  }

  /** The whole request text for the given dictionary entries. */
  function RequestText(httpMethod: string, url: string, httpVer: Option<string>, endl: string, fs: seq<Field>): string {
    RequestLine(httpMethod, url, httpVer) + endl
      + (if httpVer.None? then "" else HeaderBlock(fs, endl))
      + endl
  }

  /** The `for k, v in req_hdrs.items()` loop: one `k: v` line per entry. */
  method HeaderLines(items: seq<Field>, endl: string) returns (block: string)
    ensures block == HeaderBlock(items, endl)
  {
    block := "";
    for i := 0 to |items|
      invariant block == HeaderBlock(items[..i], endl)
    {
      assert items[..i + 1][..i] == items[..i];
      block := block + FieldLine(items[i]) + endl;
    }
    assert items[..|items|] == items;
  }

  /** `Conn.get` up to `self.s.send(req)`: returns the request it would send. */
  method Get(url: string, httpVer: Option<string> := Some("1.0"), endl: string := "\n", reqHdrs: HeaderDict, httpMethod: string := "GET")
    returns (req: string)
    requires reqHdrs.Valid()
    modifies reqHdrs
    ensures reqHdrs.Valid()
    ensures req == RequestText(httpMethod, url, httpVer, endl, reqHdrs.items)
    ensures httpVer.None? ==> req == httpMethod + " " + url + endl + endl
    ensures httpVer.None? ==> reqHdrs.items == old(reqHdrs.items)
    ensures httpVer.Some? ==>
      reqHdrs.AsMap() == old(reqHdrs.AsMap())["User-Agent" := "test.py"]["Connection" := "close"]
    ensures httpVer.Some? ==> |reqHdrs.items| > 0
  {
    req := httpMethod + " " + url;
    if httpVer.Some? {
      req := req + " HTTP/" + httpVer.value;
    }
    req := req + endl;
    if httpVer.Some? {
      reqHdrs.Set("User-Agent", "test.py");
      reqHdrs.Set("Connection", "close");
      assert reqHdrs.items != [] by { assert "Connection" in reqHdrs.AsMap(); }
      var block := HeaderLines(reqHdrs.items, endl);
      req := req + block;
    }
    req := req + endl;
  }

  lemma ConcatAssoc(a: string, b: string, c: string)
    ensures a + (b + c) + c == a + b + (c + c)
  {
  }

  /** `Join` extended at its end. */
  lemma {:induction false} JoinSnoc(parts: seq<string>, x: string, p: string)
    requires |parts| > 0
    ensures Join(parts + [x], p) == Join(parts, p) + p + x
    decreases |parts|
  {
    if |parts| > 1 {
      assert (parts + [x])[1..] == parts[1..] + [x];
      JoinSnoc(parts[1..], x, p);
    } else {
      assert (parts + [x])[1..] == [x];
    }
  }

  /** The header block is the field lines joined by `endl`, with one more `endl` at the end. */
  lemma {:induction false} HeaderBlockIsJoin(fs: seq<Field>, endl: string)
    requires |fs| > 0
    ensures HeaderBlock(fs, endl) == Join(FieldLines(fs), endl) + endl
    decreases |fs|
  {
    var init := fs[..|fs| - 1];
    if |fs| == 1 {
      assert HeaderBlock(init, endl) == "";
    } else {
      HeaderBlockIsJoin(init, endl);
      assert FieldLines(fs) == FieldLines(init) + [FieldLine(fs[|fs| - 1])];
      JoinSnoc(FieldLines(init), FieldLine(fs[|fs| - 1]), endl);
    }
  }

  /** A CRLF request with a version is the response framing of its request line, its fields and no body. */
  lemma RequestTextFrame(httpMethod: string, url: string, ver: string, fs: seq<Field>)
    requires |fs| > 0
    ensures RequestText(httpMethod, url, Some(ver), CRLF, fs) == Serialize(RequestLine(httpMethod, url, Some(ver)), fs, "")
  {
    var line := RequestLine(httpMethod, url, Some(ver));
    var j := Join(FieldLines(fs), CRLF);
    HeaderBlockIsJoin(fs, CRLF);
    var a := line + CRLF;
    assert RequestText(httpMethod, url, Some(ver), CRLF, fs) == a + (j + CRLF) + CRLF;
    assert CRLF + CRLF == HeadEnd;
    ConcatAssoc(a, j, CRLF);
    assert Serialize(line, fs, "") == a + j + HeadEnd + "";
    assert a + j + HeadEnd + "" == a + j + HeadEnd;
  }

  /**
   * A CRLF request with a version has exactly the framing `parse` reads: the
   * request line in place of a status line, the dictionary as its headers,
   * and an empty body.
   */
  lemma RequestParsesBack(httpMethod: string, url: string, ver: string, fs: seq<Field>)
    requires Absent(RequestLine(httpMethod, url, Some(ver)), CRLF)
    requires |fs| > 0
    requires forall i :: 0 <= i < |fs| ==> WellFormed(fs[i])
    ensures ParseSpec(RequestText(httpMethod, url, Some(ver), CRLF, fs)) ==
            Ok(Response(RequestLine(httpMethod, url, Some(ver)), FieldMap(fs), ""))
  {
    RequestTextFrame(httpMethod, url, ver, fs);
    ParseRoundTrip(RequestLine(httpMethod, url, Some(ver)), fs, "");
  }
}
