/** Reading the input table: each non-blank line becomes a row of cell type,
    tissue and TF tokens; lines with fewer than two fields are skipped. The
    lines are given as a sequence (the file itself is not modelled). */
module Rows {
  import opened Text
  import opened Records
  import opened Seqs

  datatype Row = Row(cellType: string, tissue: string, tokens: seq<string>)

  /** `line.split('\t')`, falling back to the whitespace split of the
      stripped line when there are fewer than two tab-separated fields. */
  function Fields(line: string): (parts: seq<string>)
    ensures |Split(line, IsTab)| >= 2 ==> parts == Split(line, IsTab)
    ensures |Split(line, IsTab)| < 2 ==> parts == Words(line)
  {
    var parts := Split(line, IsTab);
    if |parts| < 2 then Words(line) else parts
  }

  /** `[p.strip() for p in parts if p.strip()]`. */
  function KeepTokens(ps: seq<string>): (ts: seq<string>)
    ensures |ts| <= |ps|
    ensures forall k :: 0 <= k < |ts| ==> ts[k] != [] && IsTrimmed(ts[k])
  {
    if ps == [] then []
    else if Strip(ps[0]) == [] then KeepTokens(ps[1..])
    else [Strip(ps[0])] + KeepTokens(ps[1..])
  }

  /** Every non-blank field is kept, stripped, and every kept token is a
      stripped field. */
  lemma {:induction false} KeepTokensHas(ps: seq<string>)
    ensures forall p :: p in ps && Strip(p) != [] ==> Strip(p) in KeepTokens(ps)
    ensures forall t :: t in KeepTokens(ps) ==> exists p :: p in ps && t == Strip(p)
  {
    if ps != [] {
      var rest := ps[1..];
      KeepTokensHas(rest);
      forall p | p in ps && Strip(p) != [] ensures Strip(p) in KeepTokens(ps) {
        if p != ps[0] {
          assert p in rest;
        }
      }
      forall t | t in KeepTokens(ps) ensures exists p :: p in ps && t == Strip(p) {
        if t in KeepTokens(rest) {
          var p :| p in rest && t == Strip(p);
          assert p in ps;
        } else {
          assert ps[0] in ps;
        }
      }
    }
  }

  /** Fields are kept in order: keeping from a concatenation keeps from the
      two parts (and `KeepTokensOne` says what one field gives). */
  lemma {:induction false} KeepTokensAppend(a: seq<string>, b: seq<string>)
    ensures KeepTokens(a + b) == KeepTokens(a) + KeepTokens(b)
  {
    if a == [] {
      assert a + b == b;
    } else {
      assert KeepTokens(a + b) == KeepTokensOf(a[0]) + KeepTokens(a[1..] + b) by {
        assert (a + b)[0] == a[0];
        assert (a + b)[1..] == a[1..] + b;
        KeepTokensStep(a + b);
      }
      KeepTokensStep(a);
      KeepTokensAppend(a[1..], b);
      AppendAssoc(KeepTokensOf(a[0]), KeepTokens(a[1..]), KeepTokens(b));
    }
  }

  /** What one field contributes: itself stripped, or nothing when blank. */
  function KeepTokensOf(p: string): seq<string>
  {
    if Strip(p) == [] then [] else [Strip(p)]
  }

  lemma KeepTokensStep(ps: seq<string>)
    requires ps != []
    ensures KeepTokens(ps) == KeepTokensOf(ps[0]) + KeepTokens(ps[1..])
  {
  }

  /** A single field is kept, stripped, exactly when it is not blank. */
  lemma KeepTokensOne(p: string)
    ensures KeepTokens([p]) == if Strip(p) == [] then [] else [Strip(p)]
  {
    assert [p][1..] == [];
  }

  /** One line of the table: `None` for a blank line or one with fewer than two
      fields, otherwise the stripped cell type and tissue and the kept tokens. */
  function ParseRow(line: string): (r: Option<Row>)
    ensures (forall i :: 0 <= i < |line| ==> IsSpace(line[i])) ==> r.None?
    ensures r.Some? <==> Strip(line) != [] && |Fields(line)| >= 2
    ensures r.Some? ==> |Fields(line)| >= 2
    ensures r.Some? ==> IsTrimmed(r.value.cellType) && IsTrimmed(r.value.tissue)
    ensures r.Some? ==> forall k :: 0 <= k < |r.value.tokens| ==>
                          r.value.tokens[k] != [] && IsTrimmed(r.value.tokens[k])
  {
    if Strip(line) == [] then None
    else
      var parts := Fields(line);
      if |parts| < 2 then None
      else Some(Row(Strip(parts[0]), Strip(parts[1]), KeepTokens(parts[2..])))
  }

  /** The rows kept from `lines`, in input order. */
  function RowsOf(lines: seq<string>): seq<Row> {
    FilterMap(lines, ParseRow)
  }

  /** The reading loop: append the row of every line that yields one. */
  method ReadRows(lines: seq<string>) returns (rows: seq<Row>)
    ensures rows == RowsOf(lines)
  {
    rows := [];
    for i := 0 to |lines|
      invariant rows == RowsOf(lines[..i])
    {
      assert lines[..i + 1][..i] == lines[..i];
      var parsed := ParseRow(lines[i]);
      if parsed.Some? {
        rows := rows + [parsed.value];
      }
    }
    assert lines[..|lines|] == lines;
  }

  /** Lines are read independently: the rows of two consecutive stretches of
      the file are the rows of each, one after the other. */
  lemma RowsOfAppend(a: seq<string>, b: seq<string>)
    ensures RowsOf(a + b) == RowsOf(a) + RowsOf(b)
  {
    FilterMapAppend(a, b, ParseRow);
  }

  /** A line written as tab-separated fields, each already stripped and free
      of tabs, is read back as exactly those fields. */
  lemma ParseJoinedRow(cellType: string, tissue: string, tokens: seq<string>)
    requires IsTrimmed(cellType) && NoneOf(cellType, IsTab)
    requires IsTrimmed(tissue) && NoneOf(tissue, IsTab)
    requires forall k :: 0 <= k < |tokens| ==>
               tokens[k] != [] && IsTrimmed(tokens[k]) && NoneOf(tokens[k], IsTab)
    requires cellType != [] || tissue != [] || tokens != []
    ensures ParseRow(Join([cellType, tissue] + tokens, '\t')) == Some(Row(cellType, tissue, tokens))
  {
    var parts := [cellType, tissue] + tokens;
    var line := Join(parts, '\t');
    FieldsTabFree(cellType, tissue, tokens);
    JoinedFields(parts);
    var k := if cellType != [] then 0 else if tissue != [] then 1 else 2;
    JoinedNotBlank(parts, k);
    StripTrimmed(cellType);
    StripTrimmed(tissue);
    assert parts[2..] == tokens;
    KeepTrimmed(tokens);
    RowOfFields(line, parts);
  }

  /** A line that is not blank and has at least two fields reads as its fields. */
  lemma RowOfFields(line: string, parts: seq<string>)
    requires Strip(line) != [] && Fields(line) == parts && |parts| >= 2
    ensures ParseRow(line) == Some(Row(Strip(parts[0]), Strip(parts[1]), KeepTokens(parts[2..])))
  {
  }

  lemma FieldsTabFree(cellType: string, tissue: string, tokens: seq<string>)
    requires NoneOf(cellType, IsTab) && NoneOf(tissue, IsTab)
    requires forall k :: 0 <= k < |tokens| ==> NoneOf(tokens[k], IsTab)
    ensures forall k :: 0 <= k < |[cellType, tissue] + tokens| ==> NoneOf(([cellType, tissue] + tokens)[k], IsTab)
  {
    var parts := [cellType, tissue] + tokens;
    forall k | 0 <= k < |parts| ensures NoneOf(parts[k], IsTab) {
      if k >= 2 {
        assert parts[k] == tokens[k - 2];
      }
    }
  }

  /** Joining at least two tab-free fields with tabs splits back into them. */
  lemma JoinedFields(parts: seq<string>)
    requires |parts| >= 2 && forall k :: 0 <= k < |parts| ==> NoneOf(parts[k], IsTab)
    ensures Fields(Join(parts, '\t')) == parts
  {
    SplitJoin(parts, '\t', IsTab);
  }

  /** A line holding a field that is non-empty and trimmed is not blank. */
  lemma JoinedNotBlank(parts: seq<string>, k: nat)
    requires k < |parts| && parts[k] != [] && IsTrimmed(parts[k])
    ensures Strip(Join(parts, '\t')) != []
  {
    assert !IsSpace(parts[k][0]);
    JoinHolds(parts, '\t', k, 0);
  }

  /** Every character of a joined piece occurs in the joined string. */
  lemma {:induction false} JoinHolds(parts: seq<string>, sep: char, k: nat, i: nat)
    requires |parts| >= 1 && k < |parts| && i < |parts[k]|
    ensures parts[k][i] in Join(parts, sep)
  {
    if k > 0 {
      JoinHolds(parts[1..], sep, k - 1, i);
    }
  }

  lemma {:induction false} KeepTrimmed(tokens: seq<string>)
    requires forall k :: 0 <= k < |tokens| ==> tokens[k] != [] && IsTrimmed(tokens[k])
    ensures KeepTokens(tokens) == tokens
  {
    if tokens != [] {
      StripTrimmed(tokens[0]);
      KeepTrimmed(tokens[1..]);
      assert [tokens[0]] + tokens[1..] == tokens;
    }
  }
}
