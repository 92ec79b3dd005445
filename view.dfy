/** The browser's derived views of the summary document: the top-N subset,
    the bar series of one TF, the direction label and the colour-scale
    parameter. Drawing is not modelled; these are the values it draws. */
module View {
  import opened Seqs
  import opened Records
  import opened Counters
  import opened Ranking
  import opened Rows
  import opened Aggregate
  import opened Summary
  import opened Pipeline

  function Min(a: nat, b: nat): nat {
    if a <= b then a else b
  }

  /** `d3.max(cells, d => d.total)`: undefined when there are no cells. */
  function MaxOf(cells: seq<Cell>): Option<nat> {
    if cells == [] then None else Some(MaxTotal(cells))
  }

  /** The cell filter `d => tfSet.has(d.tf)`. */
  function CellHasTf(tfs: seq<string>): Cell -> bool {
    (c: Cell) => c.tf in tfs
  }

  /** The per-TF filter `d => tfSet.has(d.tf)`. */
  function SummaryHasTf(tfs: seq<string>): TfSummary -> bool {
    (p: TfSummary) => p.tf in tfs
  }

  /** Membership in `tfs`, as a filter on TF names. */
  function IsIn(tfs: seq<string>): string -> bool {
    (f: string) => f in tfs
  }

  /** `subsetData`: the first `tfCount` TFs, the matrix and per-TF rows of
      those TFs, and the largest total recomputed over the kept cells; every
      other field is copied. */
  function Subset(full: Dataset, tfCount: nat): Dataset {
    var tfs := full.tfs[..Min(tfCount, |full.tfs|)];
    var matrix := Filter(full.matrix, CellHasTf(tfs));
    full.(tfs := tfs, matrix := matrix, maxTotal := MaxOf(matrix), perTf := Filter(full.perTf, SummaryHasTf(tfs)))
  }

  /** The subset keeps the first `min(tfCount, |tfs|)` TFs in order, exactly
      the cells and per-TF rows of those TFs, the tissues and per-tissue rows
      unchanged, and a maximum that is absent for no cells and otherwise
      bounds and is attained by the kept cells, never exceeding the full
      matrix's largest total. */
  lemma SubsetSpec(full: Dataset, tfCount: nat)
    ensures var r := Subset(full, tfCount);
            && |r.tfs| == (if tfCount <= |full.tfs| then tfCount else |full.tfs|)
            && (forall i :: 0 <= i < |r.tfs| ==> r.tfs[i] == full.tfs[i])
            && r.tissues == full.tissues && r.perTissue == full.perTissue
            && (forall c :: c in r.matrix <==> c in full.matrix && c.tf in r.tfs)
            && (forall p :: p in r.perTf <==> p in full.perTf && p.tf in r.tfs)
            && (r.maxTotal.None? <==> r.matrix == [])
            && (r.maxTotal.Some? ==>
                  && (forall c :: c in r.matrix ==> c.total <= r.maxTotal.value)
                  && (exists c :: c in r.matrix && c.total == r.maxTotal.value)
                  && r.maxTotal.value <= MaxTotal(full.matrix))
  {
    var r := Subset(full, tfCount);
    forall c ensures c in r.matrix <==> c in full.matrix && c.tf in r.tfs {
      FilterHas(full.matrix, CellHasTf(r.tfs), c);
    }
    forall p ensures p in r.perTf <==> p in full.perTf && p.tf in r.tfs {
      FilterHas(full.perTf, SummaryHasTf(r.tfs), p);
    }
    MaxTotalSpec(r.matrix);
    MaxTotalSpec(full.matrix);
    if r.matrix != [] {
      var c :| c in r.matrix && c.total == MaxTotal(r.matrix);
      assert c in full.matrix;
    }
  }

  /** Taking a subset of a subset is taking the smaller subset. */
  lemma SubsetTwice(full: Dataset, a: nat, b: nat)
    ensures Subset(Subset(full, a), b) == Subset(full, Min(a, b))
  {
    var s := Subset(full, a);
    var t := Subset(s, b);
    var u := Subset(full, Min(a, b));
    PrefixTwice(full.tfs, a, b, "");
    forall i | 0 <= i < |full.matrix|
      ensures CellHasTf(u.tfs)(full.matrix[i]) == (CellHasTf(s.tfs)(full.matrix[i]) && CellHasTf(t.tfs)(full.matrix[i]))
    {
      PrefixTwice(full.tfs, a, b, full.matrix[i].tf);
    }
    FilterTwice(full.matrix, CellHasTf(s.tfs), CellHasTf(t.tfs), CellHasTf(u.tfs));
    forall i | 0 <= i < |full.perTf|
      ensures SummaryHasTf(u.tfs)(full.perTf[i]) == (SummaryHasTf(s.tfs)(full.perTf[i]) && SummaryHasTf(t.tfs)(full.perTf[i]))
    {
      PrefixTwice(full.tfs, a, b, full.perTf[i].tf);
    }
    FilterTwice(full.perTf, SummaryHasTf(s.tfs), SummaryHasTf(t.tfs), SummaryHasTf(u.tfs));
  }

  /** The first `b` of the first `a` TFs are the first `min(a, b)`, and a TF
      is among them exactly when it is among both prefixes. */
  lemma PrefixTwice(tfs: seq<string>, a: nat, b: nat, f: string)
    ensures var s := tfs[..Min(a, |tfs|)];
            var t := s[..Min(b, |s|)];
            var u := tfs[..Min(Min(a, b), |tfs|)];
            t == u && (f in u <==> f in s && f in t)
  {
    var s := tfs[..Min(a, |tfs|)];
    var u := tfs[..Min(Min(a, b), |tfs|)];
    if f in u {
      var k :| 0 <= k < |u| && u[k] == f;
      assert s[k] == f;
    }
  }

  /** Filtering a row of cells by TF is building the row over the kept TFs. */
  lemma {:induction false} RowFilter(stats: Stats, tissue: string, tfs: seq<string>, keep: seq<string>)
    ensures Filter(MatrixRow(stats, tissue, tfs), CellHasTf(keep)) == MatrixRow(stats, tissue, Filter(tfs, IsIn(keep)))
  {
    if tfs != [] {
      var init := tfs[..|tfs| - 1];
      var f := tfs[|tfs| - 1];
      var cell := CellOf(tissue, f, Lookup(stats, (tissue, f)));
      RowFilter(stats, tissue, init, keep);
      assert MatrixRow(stats, tissue, tfs) == MatrixRow(stats, tissue, init) + [cell];
      FilterAppend(MatrixRow(stats, tissue, init), [cell], CellHasTf(keep));
      FilterOne(cell, CellHasTf(keep));
      var kept := Filter(init, IsIn(keep));
      assert Filter(tfs, IsIn(keep)) == kept + (if f in keep then [f] else []);
      if f in keep {
        assert (kept + [f])[..|kept|] == kept;
        assert MatrixRow(stats, tissue, kept + [f]) == MatrixRow(stats, tissue, kept) + [cell];
      } else {
        assert kept + [] == kept;
      }
    }
  }

  lemma FilterOne<T>(x: T, p: T -> bool)
    ensures Filter([x], p) == if p(x) then [x] else []
  {
    assert [x][..0] == [];
  }

  /** Filtering the matrix by TF is building the matrix over the kept TFs. */
  lemma {:induction false} MatrixFilter(stats: Stats, tissues: seq<string>, tfs: seq<string>, keep: seq<string>)
    ensures Filter(MatrixOf(stats, tissues, tfs), CellHasTf(keep)) == MatrixOf(stats, tissues, Filter(tfs, IsIn(keep)))
  {
    if tissues != [] {
      var init := tissues[..|tissues| - 1];
      var t := tissues[|tissues| - 1];
      MatrixFilter(stats, init, tfs, keep);
      RowFilter(stats, t, tfs, keep);
      FilterAppend(MatrixOf(stats, init, tfs), MatrixRow(stats, t, tfs), CellHasTf(keep));
    }
  }

  /** Filtering the per-TF rows by TF is summing over the kept TFs. */
  lemma {:induction false} PerTfFilter(stats: Stats, tissues: seq<string>, tfs: seq<string>, keep: seq<string>)
    ensures Filter(PerTf(stats, tissues, tfs), SummaryHasTf(keep)) == PerTf(stats, tissues, Filter(tfs, IsIn(keep)))
  {
    if tfs != [] {
      var init := tfs[..|tfs| - 1];
      var f := tfs[|tfs| - 1];
      var row := TfSummaryOf(stats, tissues, f);
      PerTfFilter(stats, tissues, init, keep);
      assert PerTf(stats, tissues, tfs) == PerTf(stats, tissues, init) + [row];
      FilterAppend(PerTf(stats, tissues, init), [row], SummaryHasTf(keep));
      FilterOne(row, SummaryHasTf(keep));
      var kept := Filter(init, IsIn(keep));
      assert Filter(tfs, IsIn(keep)) == kept + (if f in keep then [f] else []);
      if f in keep {
        assert (kept + [f])[..|kept|] == kept;
        assert PerTf(stats, tissues, kept + [f]) == PerTf(stats, tissues, kept) + [row];
      } else {
        assert kept + [] == kept;
      }
    }
  }

  /** In a list without repetitions, the elements found in its first `k`
      are exactly those first `k`. */
  lemma {:induction false} PrefixFilter(tfs: seq<string>, k: nat)
    requires Distinct(tfs) && k <= |tfs|
    ensures Filter(tfs, IsIn(tfs[..k])) == tfs[..k]
  {
    if k == |tfs| {
      assert tfs[..k] == tfs;
      FilterKeepsAll(tfs, IsIn(tfs));
    } else {
      var init := tfs[..|tfs| - 1];
      var f := tfs[|tfs| - 1];
      assert init[..k] == tfs[..k];
      assert f !in tfs[..k];
      PrefixFilter(init, k);
    }
  }

  /** Keeping the cells and per-TF rows of the first `k` TFs of a list
      without repetitions gives the matrix and per-TF rows over those `k`. */
  lemma SubsetOfMatrix(stats: Stats, tissues: seq<string>, tfs: seq<string>, k: nat)
    requires Distinct(tfs) && k <= |tfs|
    ensures Filter(MatrixOf(stats, tissues, tfs), CellHasTf(tfs[..k])) == MatrixOf(stats, tissues, tfs[..k])
    ensures Filter(PerTf(stats, tissues, tfs), SummaryHasTf(tfs[..k])) == PerTf(stats, tissues, tfs[..k])
  {
    PrefixFilter(tfs, k);
    MatrixFilter(stats, tissues, tfs, tfs[..k]);
    PerTfFilter(stats, tissues, tfs, tfs[..k]);
  }

  lemma DistinctTop(ks: seq<string>)
    ensures Distinct(MostCommonTop(CounterOf(ks)))
  {
    MostCommonTopOf(ks);
  }

  /** The subset of a preprocessed document is the document the preprocessor
      would have written with only the first `tfCount` top TFs: the same
      tissue-major matrix and per-TF rows over those TFs. */
  lemma SubsetOfDocument(rows: seq<Row>, tfCount: nat)
    ensures var d := DocumentOf(rows);
            var r := Subset(d, tfCount);
            var stats := Tally(Observations(rows));
            && r.matrix == MatrixOf(stats, d.tissues, r.tfs)
            && r.perTf == PerTf(stats, d.tissues, r.tfs)
  {
    var d := DocumentOf(rows);
    var obs := Observations(rows);
    var stats := Tally(obs);
    assert d.matrix == MatrixOf(stats, d.tissues, d.tfs);
    assert d.perTf == PerTf(stats, d.tissues, d.tfs);
    DistinctTop(TfsOf(obs));
    SubsetOfMatrix(stats, d.tissues, d.tfs, Min(tfCount, |d.tfs|));
  }

  /** One bar of the stacked chart. */
  datatype Bar = Bar(tissue: string, plus: nat, minus: nat, unknown: nat, total: nat, imputed: bool, score: real)

  /** `matrix.find(d => d.tissue === tissue && d.tf === tf)`; no TF (an
      empty TF list's `tfs[0]`) matches nothing. */
  function FindCell(matrix: seq<Cell>, tissue: string, tf: Option<string>): Option<Cell> {
    if matrix == [] then None
    else if tf.Some? && matrix[0].tissue == tissue && matrix[0].tf == tf.value then Some(matrix[0])
    else FindCell(matrix[1..], tissue, tf)
  }

  /** `find` answers the first cell of the pair, and nothing exactly when no
      cell has that pair. */
  lemma {:induction false} FindCellSpec(matrix: seq<Cell>, tissue: string, tf: Option<string>)
    ensures FindCell(matrix, tissue, tf).None? <==>
              tf.None? || forall c :: c in matrix ==> KeyOf(c) != (tissue, tf.value)
    ensures FindCell(matrix, tissue, tf).Some? ==>
              exists i :: 0 <= i < |matrix| && matrix[i] == FindCell(matrix, tissue, tf).value
                          && KeyOf(matrix[i]) == (tissue, tf.value)
                          && forall j :: 0 <= j < i ==> KeyOf(matrix[j]) != (tissue, tf.value)
  {
    if matrix == [] {
    } else if tf.Some? && matrix[0].tissue == tissue && matrix[0].tf == tf.value {
      assert matrix[0] in matrix;
    } else {
      var rest := matrix[1..];
      FindCellSpec(rest, tissue, tf);
      assert matrix == [matrix[0]] + rest;
      assert tf.Some? ==> KeyOf(matrix[0]) != (tissue, tf.value);
      assert forall c :: c in matrix <==> c == matrix[0] || c in rest;
      if FindCell(rest, tissue, tf).Some? {
        var i :| 0 <= i < |rest| && rest[i] == FindCell(rest, tissue, tf).value
                 && KeyOf(rest[i]) == (tissue, tf.value)
                 && forall j :: 0 <= j < i ==> KeyOf(rest[j]) != (tissue, tf.value);
        assert matrix[i + 1] == rest[i];
        forall j | 0 <= j < i + 1 ensures KeyOf(matrix[j]) != (tissue, tf.value) {
          if j > 0 {
            assert matrix[j] == rest[j - 1];
          }
        }
      }
    }
  }

  /** The bar of a tissue for the record found, or the imputed all-zero bar. */
  function BarOf(tissue: string, rec: Option<Cell>): Bar {
    match rec
    case Some(c) => Bar(tissue, c.plus, c.minus, c.unknown, c.total, c.imputed, c.score)
    case None => Bar(tissue, 0, 0, 0, 0, true, 0.0)
  }

  /** The bar series of `drawBars` for the selected TF: one bar per tissue,
      in order. */
  function Series(data: Dataset, selected: Option<string>): seq<Bar> {
    SeriesOver(data.tissues, data.matrix, selected)
  }

  function SeriesOver(tissues: seq<string>, matrix: seq<Cell>, selected: Option<string>): (r: seq<Bar>)
    ensures |r| == |tissues|
  {
    if tissues == [] then []
    else
      var t := tissues[|tissues| - 1];
      SeriesOver(tissues[..|tissues| - 1], matrix, selected) + [BarOf(t, FindCell(matrix, t, selected))]
  }

  /** The TF the bar chart shows after `render` or an unpin: the first of the
      subset, or none for an empty list. */
  function FirstTf(data: Dataset): Option<string> {
    if data.tfs == [] then None else Some(data.tfs[0])
  }

  /** Bar `i` belongs to tissue `i` and copies the first record of its pair;
      with no record it is the all-zero bar flagged imputed. */
  lemma {:induction false} SeriesAt(tissues: seq<string>, matrix: seq<Cell>, selected: Option<string>, i: nat)
    requires i < |tissues|
    ensures var b := SeriesOver(tissues, matrix, selected)[i];
            && b.tissue == tissues[i]
            && b == BarOf(tissues[i], FindCell(matrix, tissues[i], selected))
            && ((selected.None? || forall c :: c in matrix ==> KeyOf(c) != (tissues[i], selected.value)) ==>
                  b.plus == 0 && b.minus == 0 && b.unknown == 0 && b.total == 0 && b.imputed && b.score == 0.0)
  {
    if i < |tissues| - 1 {
      SeriesAt(tissues[..|tissues| - 1], matrix, selected, i);
    }
    FindCellSpec(matrix, tissues[i], selected);
  }

  /** Over a matrix built from balanced counts, the bar of tissue `i` for a
      listed TF shows the counts looked up for that pair. */
  lemma SeriesOfMatrix(stats: Stats, tissues: seq<string>, tfs: seq<string>, f: string, i: nat)
    requires forall k :: k in stats ==> Balanced(stats[k])
    requires f in tfs && i < |tissues|
    ensures SeriesOver(tissues, MatrixOf(stats, tissues, tfs), Some(f))[i]
            == BarOf(tissues[i], Some(CellOf(tissues[i], f, Lookup(stats, (tissues[i], f)))))
  {
    FindInMatrix(stats, tissues, tfs, tissues[i], f);
    SeriesAt(tissues, MatrixOf(stats, tissues, tfs), Some(f), i);
  }

  /** In a matrix built from balanced counts, `find` on a listed tissue and
      TF answers the cell of that pair. */
  lemma FindInMatrix(stats: Stats, tissues: seq<string>, tfs: seq<string>, t: string, f: string)
    requires forall k :: k in stats ==> Balanced(stats[k])
    requires t in tissues && f in tfs
    ensures FindCell(MatrixOf(stats, tissues, tfs), t, Some(f)) == Some(CellOf(t, f, Lookup(stats, (t, f))))
  {
    var m := MatrixOf(stats, tissues, tfs);
    MatrixHas(stats, tissues, tfs, t, f);
    CellOfSpec(t, f, Lookup(stats, (t, f)));
    FindCellSpec(m, t, Some(f));
    FoundIn(m, t, f);
    MatrixCells(stats, tissues, tfs);
  }

  /** The cell of a listed pair is in the matrix. */
  lemma MatrixHas(stats: Stats, tissues: seq<string>, tfs: seq<string>, t: string, f: string)
    requires t in tissues && f in tfs
    ensures CellOf(t, f, Lookup(stats, (t, f))) in MatrixOf(stats, tissues, tfs)
  {
    var i :| 0 <= i < |tissues| && tissues[i] == t;
    var j :| 0 <= j < |tfs| && tfs[j] == f;
    MatrixAt(stats, tissues, tfs, i, j);
    var m := MatrixOf(stats, tissues, tfs);
    assert m[i * |tfs| + j] in m;
  }

  /** A record `find` answers is a cell of the matrix with the pair asked for. */
  lemma FoundIn(m: seq<Cell>, t: string, f: string)
    requires FindCell(m, t, Some(f)).Some?
    ensures FindCell(m, t, Some(f)).value in m
    ensures KeyOf(FindCell(m, t, Some(f)).value) == (t, f)
  {
    FindCellSpec(m, t, Some(f));
  }

  /** For a preprocessed document and a TF of its list, bar `i` shows the
      counts read for tissue `i` and that TF, flagged imputed exactly when
      there are none, with their signed proportion. */
  lemma SeriesOfDocument(rows: seq<Row>, f: string, i: nat)
    requires f in DocumentOf(rows).tfs && i < |DocumentOf(rows).tissues|
    ensures var d := DocumentOf(rows);
            var s := CountsIn(Observations(rows), (d.tissues[i], f));
            var b := Series(d, Some(f))[i];
            && b.tissue == d.tissues[i]
            && b.plus == s.plus && b.minus == s.minus && b.unknown == s.unknown && b.total == s.total
            && (b.imputed <==> s.total == 0)
            && b.score == Score(s.plus, s.minus, s.total)
  {
    var d := DocumentOf(rows);
    var obs := Observations(rows);
    var stats := Tally(obs);
    var t := d.tissues[i];
    assert d.matrix == MatrixOf(stats, d.tissues, d.tfs);
    TallyBalanced(obs);
    SeriesOfMatrix(stats, d.tissues, d.tfs, f, i);
    TallyAt(obs, (t, f));
    CellOfSpec(t, f, CountsIn(obs, (t, f)));
  }

  /** The qualitative label of the details panel: "more + (enriched)",
      "more − (depleted)" or "balanced" (`Even`). */
  datatype Direction = Enriched | Depleted | Even

  function DirectionOf(score: real): Direction {
    if score > 0.0 then Enriched else if score < 0.0 then Depleted else Even
  }

  /** For a well-formed cell the label compares the `+` and `-` counts:
      enriched for more `+`, depleted for more `-`, balanced for as many
      (which includes a cell without evidence). */
  lemma DirectionOfCell(c: Cell)
    requires WellFormedCell(c)
    ensures DirectionOf(c.score) == Enriched <==> c.plus > c.minus
    ensures DirectionOf(c.score) == Depleted <==> c.plus < c.minus
    ensures DirectionOf(c.score) == Even <==> c.plus == c.minus
  {
  }

  /** The argument `1 - (score + 1) / 2` passed to the diverging colour scale. */
  function ColorParam(score: real): real {
    1.0 - (score + 1.0) / 2.0
  }

  /** The parameter maps [-1, 1] onto [0, 1] reversed: -1 to 1, 0 to 1/2,
      1 to 0, strictly decreasing, every point of [0, 1] reached. */
  lemma ColorParamSpec(score: real)
    ensures -1.0 <= score <= 1.0 ==> 0.0 <= ColorParam(score) <= 1.0
    ensures ColorParam(-1.0) == 1.0 && ColorParam(0.0) == 0.5 && ColorParam(1.0) == 0.0
    ensures forall s :: s < score ==> ColorParam(s) > ColorParam(score)
    ensures 0.0 <= score <= 1.0 ==> -1.0 <= 1.0 - 2.0 * score <= 1.0 && ColorParam(1.0 - 2.0 * score) == score
  {
  }

  /** The legend's stop at offset `d` (drawn with `signedColor(d*2 - 1)`)
      takes the scale at `1 - d`. */
  lemma LegendStop(d: real)
    ensures ColorParam(d * 2.0 - 1.0) == 1.0 - d
  {
  }
}
