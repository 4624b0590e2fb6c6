/**
 * Header fields as the harness writes and reads them: one `name: value`
 * line per field, split at the first `": "`, and a dictionary in which a
 * later field overrides an earlier one with the same name.
 */
module Fields {
  import opened Wrappers
  import opened Text

  const ColonSpace: string := ": "

  type Field = (string, string)

  /** `k + ": " + v`, the text of one header line without its line ending. */
  function FieldLine(f: Field): string {
    f.0 + ColonSpace + f.1
  }

  function FieldLines(fs: seq<Field>): (r: seq<string>)
    ensures |r| == |fs|
    ensures forall i :: 0 <= i < |fs| ==> r[i] == FieldLine(fs[i])
  {
    seq(|fs|, i requires 0 <= i < |fs| => FieldLine(fs[i]))
  }

  /** A field that survives being written as a line and split back at the first `": "`. */
  ghost predicate WellFormed(f: Field) {
    Absent(f.0, ColonSpace) && Absent(f.0, CRLF) && Absent(f.1, CRLF)
  }

  /** The dictionary built by assigning `hdrs[k] = v` for each field in order. */
  function FieldMap(fs: seq<Field>): map<string, string>
    decreases |fs|
  {
    if fs == [] then map[]
    else FieldMap(fs[..|fs| - 1])[fs[|fs| - 1].0 := fs[|fs| - 1].1]
  }

  lemma AbsentColonSpace()
    ensures Absent(ColonSpace, CRLF)
  {
    forall j: nat ensures !OccursAt(ColonSpace, CRLF, j) {
      if j == 0 { OccursAt2(ColonSpace, CRLF, 0); }
    }
  }

  /**
   * Splitting a field line at the first `": "` gives back the name and the
   * whole value, even when the value itself holds `": "`.
   */
  lemma FieldLineSplits(f: Field)
    requires Absent(f.0, ColonSpace)
    ensures SplitOnce(FieldLine(f), ColonSpace) == Some(f)
  {
    FindAfterAbsent2(f.0, ColonSpace, f.1);
  }

  /** The line of a well-formed field holds no line break and is at least two characters long. */
  lemma FieldLineNoBreak(f: Field)
    requires WellFormed(f)
    ensures Absent(FieldLine(f), CRLF)
    ensures |FieldLine(f)| >= 2
  {
    AbsentColonSpace();
    AbsentConcat2(f.0, ColonSpace, CRLF);
    AbsentConcat2(f.0 + ColonSpace, f.1, CRLF);
    assert (f.0 + ColonSpace)[|f.0 + ColonSpace| - 1] == ' ';
  }

  /** The names of a list of fields. */
  function Names(fs: seq<Field>): set<string> {
    set i | 0 <= i < |fs| :: fs[i].0
  }

  /** The names in the dictionary are exactly the names of the fields. */
  lemma {:induction false} FieldMapKeys(fs: seq<Field>)
    ensures FieldMap(fs).Keys == Names(fs)
    decreases |fs|
  {
    if fs != [] {
      var init := fs[..|fs| - 1];
      FieldMapKeys(init);
      forall x | x in Names(fs) ensures x in Names(init) + {fs[|fs| - 1].0} {
        var i :| 0 <= i < |fs| && fs[i].0 == x;
        if i < |init| { assert init[i] == fs[i]; }
      }
      forall x | x in Names(init) ensures x in Names(fs) {
        var i :| 0 <= i < |init| && init[i].0 == x;
        assert fs[i] == init[i];
      }
      assert Names(fs) == Names(init) + {fs[|fs| - 1].0};
    }
  }

  /** A field no later field renames is the one the dictionary keeps: the later line wins. */
  lemma {:induction false} FieldMapLastWins(fs: seq<Field>, i: nat)
    requires i < |fs|
    requires forall j :: i < j < |fs| ==> fs[j].0 != fs[i].0
    ensures fs[i].0 in FieldMap(fs) && FieldMap(fs)[fs[i].0] == fs[i].1
    decreases |fs|
  {
    if i < |fs| - 1 {
      var init := fs[..|fs| - 1];
      assert init[i] == fs[i];
      forall j | i < j < |init| ensures init[j].0 != init[i].0 {
        assert init[j] == fs[j];
      }
      FieldMapLastWins(init, i);
    }
  }
}
