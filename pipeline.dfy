/** The preprocessing run from the lines of the input table to the summary
    document: rows, counts, rankings, matrix and aggregates, in the order
    `main` computes them. */
module Pipeline {
  import opened Seqs
  import opened Records
  import opened Counters
  import opened Ranking
  import opened Rows
  import opened Aggregate
  import opened Summary

  /** The document written for the lines of the input file. */
  function SummaryOf(lines: seq<string>): Dataset {
    DocumentOf(RowsOf(lines))
  }

  /** The document computed from the parsed rows. */
  function DocumentOf(rows: seq<Row>): Dataset {
    var obs := Observations(rows);
    var stats := Tally(obs);
    var tissues := MostCommon(CounterOf(TissuesOf(rows)));
    var tfs := MostCommonTop(CounterOf(TfsOf(obs)));
    var matrix := MatrixOf(stats, tissues, tfs);
    Dataset(tissues, tfs, matrix, PerTissue(stats, tissues, tfs), PerTf(stats, tissues, tfs), Some(MaxTotal(matrix)))
  }

  /** Lines 21-91 of `main`, with the file read replaced by its lines. */
  method Preprocess(lines: seq<string>) returns (data: Dataset)
    ensures data == SummaryOf(lines)
  {
    var rows := ReadRows(lines);
    var stats, tissueTotals, tfTotals := Aggregate.Aggregate(rows);
    var tissues := MostCommon(tissueTotals);
    var tfs := MostCommonTop(tfTotals);
    var matrix, maxTotal := BuildMatrix(stats, tissues, tfs);
    var perTissue := BuildPerTissue(stats, tissues, tfs);
    var perTf := BuildPerTf(stats, tissues, tfs);
    data := Dataset(tissues, tfs, matrix, perTissue, perTf, Some(maxTotal));
  }

  /** The tissues of the document are those of the rows, each once, ordered
      by non-increasing number of rows. */
  lemma SummaryTissues(rows: seq<Row>)
    ensures var ts := DocumentOf(rows).tissues;
            && Distinct(ts)
            && (forall t :: t in ts <==> exists i :: 0 <= i < |rows| && rows[i].tissue == t)
            && (forall a, b :: 0 <= a < b < |ts| ==>
                  multiset(TissuesOf(rows))[ts[a]] >= multiset(TissuesOf(rows))[ts[b]])
  {
    var ts := MostCommon(CounterOf(TissuesOf(rows)));
    assert DocumentOf(rows).tissues == ts;
    MostCommonOf(TissuesOf(rows));
    forall t ensures t in ts <==> exists i :: 0 <= i < |rows| && rows[i].tissue == t {
      TissuesOfHas(rows, t);
    }
  }

  /** The top TFs of the document (`DocumentOf(rows).tfs` is the ranking
      below for `Observations(rows)`) are `TopN` of the TF names read from
      the tokens, or all of them when there are fewer, each once, ordered by non-increasing number of tokens, and
      no TF left out was read more often than any TF kept. */
  lemma TopTfs(obs: seq<Obs>)
    ensures var fs := MostCommonTop(CounterOf(TfsOf(obs)));
            var n, d := multiset(TfsOf(obs)), |set f | f in TfsOf(obs)|;
            && |fs| == (if d <= TopN then d else TopN) && Distinct(fs)
            && (forall f :: f in fs ==> exists i :: 0 <= i < |obs| && obs[i].tf == f)
            && (forall a, b :: 0 <= a < b < |fs| ==> n[fs[a]] >= n[fs[b]])
            && (forall f, g :: f in fs && g in TfsOf(obs) && g !in fs ==> n[g] <= n[f])
  {
    var fs := MostCommonTop(CounterOf(TfsOf(obs)));
    MostCommonTopOf(TfsOf(obs));
    forall f | f in fs ensures exists i :: 0 <= i < |obs| && obs[i].tf == f {
      TfsOfHas(obs, f);
    }
  }

  /** Every cell of the document carries the numbers of `+`, `-` and unsigned
      tokens read for its (tissue, TF) pair, is well-formed, and pairs a
      listed tissue with a top TF; `max_total` bounds every cell's total and
      is attained unless the matrix is empty. */
  lemma SummaryCells(rows: seq<Row>)
    ensures var d := DocumentOf(rows);
            var obs := Observations(rows);
            && (forall c :: c in d.matrix ==>
                  c == CellOf(c.tissue, c.tf, CountsIn(obs, (c.tissue, c.tf)))
                  && WellFormedCell(c) && c.tissue in d.tissues && c.tf in d.tfs)
            && d.maxTotal.Some?
            && (forall c :: c in d.matrix ==> c.total <= d.maxTotal.value)
            && (d.matrix != [] ==> exists c :: c in d.matrix && c.total == d.maxTotal.value)
            && (d.matrix == [] ==> d.maxTotal.value == 0)
  {
    var d := DocumentOf(rows);
    var obs := Observations(rows);
    assert d.matrix == MatrixOf(Tally(obs), d.tissues, d.tfs);
    assert d.maxTotal == Some(MaxTotal(d.matrix));
    CellsOfTally(obs, d.tissues, d.tfs);
    MaxTotalSpec(d.matrix);
  }

  /** The cells built from the tally of `obs` carry the counts of the
      observations of their own key. */
  lemma CellsOfTally(obs: seq<Obs>, tissues: seq<string>, tfs: seq<string>)
    ensures forall c :: c in MatrixOf(Tally(obs), tissues, tfs) ==>
              c == CellOf(c.tissue, c.tf, CountsIn(obs, (c.tissue, c.tf)))
              && WellFormedCell(c) && c.tissue in tissues && c.tf in tfs
  {
    var stats := Tally(obs);
    TallyBalanced(obs);
    MatrixCells(stats, tissues, tfs);
    forall c | c in MatrixOf(stats, tissues, tfs)
      ensures c == CellOf(c.tissue, c.tf, CountsIn(obs, (c.tissue, c.tf)))
    {
      TallyAt(obs, (c.tissue, c.tf));
    }
  }
}
