/** The summary document built from the counts: the tissue x top-TF matrix
    with its largest total, and the per-tissue and per-TF sums. */
module Summary {
  import opened Seqs
  import opened Records
  import opened Counters
  import opened Ranking
  import opened Rows
  import opened Aggregate

  /** The matrix entry for (tissue, tf) with counts `s`: a cell without
      evidence is imputed and scores 0. */
  function CellOf(tissue: string, tf: string, s: Counts): Cell {
    Cell(tissue, tf, s.plus, s.minus, s.unknown, s.total, Score(s.plus, s.minus, s.total), s.total == 0)
  }

  /** The entry for a key carries that key and its counts, is imputed exactly
      when there is no evidence, and is well-formed with a score in [-1, 1]
      when the counts are balanced. */
  lemma CellOfSpec(tissue: string, tf: string, s: Counts)
    ensures KeyOf(CellOf(tissue, tf, s)) == (tissue, tf)
    ensures CountsOf(CellOf(tissue, tf, s)) == s
    ensures CellOf(tissue, tf, s).imputed <==> s.total == 0
    ensures CellOf(tissue, tf, s).imputed ==> CellOf(tissue, tf, s).score == 0.0
    ensures Balanced(s) ==> WellFormedCell(CellOf(tissue, tf, s)) && -1.0 <= CellOf(tissue, tf, s).score <= 1.0
  {
  }

  /** The four counts a cell carries. */
  function CountsOf(c: Cell): Counts {
    Counts(c.plus, c.minus, c.unknown, c.total)
  }

  /** The cells of one tissue, one per TF in `tfs` order. */
  function MatrixRow(stats: Stats, tissue: string, tfs: seq<string>): (r: seq<Cell>)
    ensures |r| == |tfs|
  {
    if tfs == [] then []
    else
      var tf := tfs[|tfs| - 1];
      MatrixRow(stats, tissue, tfs[..|tfs| - 1]) + [CellOf(tissue, tf, Lookup(stats, (tissue, tf)))]
  }

  /** The matrix in tissue-major order: the row of every tissue, one after the other. */
  function MatrixOf(stats: Stats, tissues: seq<string>, tfs: seq<string>): seq<Cell> {
    if tissues == [] then []
    else MatrixOf(stats, tissues[..|tissues| - 1], tfs) + MatrixRow(stats, tissues[|tissues| - 1], tfs)
  }

  /** Cell `j` of a row is the entry for TF `j`, with the counts found under
      its key or all zeros when the key was never counted. */
  lemma {:induction false} MatrixRowAt(stats: Stats, tissue: string, tfs: seq<string>, j: nat)
    requires j < |tfs|
    ensures MatrixRow(stats, tissue, tfs)[j] == CellOf(tissue, tfs[j], Lookup(stats, (tissue, tfs[j])))
  {
    if j < |tfs| - 1 {
      MatrixRowAt(stats, tissue, tfs[..|tfs| - 1], j);
    }
  }

  lemma {:induction false} MatrixSize(stats: Stats, tissues: seq<string>, tfs: seq<string>)
    ensures |MatrixOf(stats, tissues, tfs)| == |tissues| * |tfs|
  {
    if tissues != [] {
      MatrixSize(stats, tissues[..|tissues| - 1], tfs);
      assert |tissues| * |tfs| == (|tissues| - 1) * |tfs| + |tfs|;
    }
  }

  /** Block `i` of `|tfs|` consecutive cells is the row of tissue `i`. */
  lemma {:induction false} MatrixBlock(stats: Stats, tissues: seq<string>, tfs: seq<string>, i: nat)
    requires i < |tissues|
    ensures |MatrixOf(stats, tissues, tfs)| == |tissues| * |tfs|
    ensures i * |tfs| + |tfs| <= |tissues| * |tfs|
    ensures MatrixOf(stats, tissues, tfs)[i * |tfs| .. i * |tfs| + |tfs|] == MatrixRow(stats, tissues[i], tfs)
  {
    var n := |tissues|;
    var w := |tfs|;
    var init := tissues[..n - 1];
    var m := MatrixOf(stats, init, tfs);
    var r := MatrixRow(stats, tissues[n - 1], tfs);
    MatrixSize(stats, init, tfs);
    MulStep(n, w);
    assert MatrixOf(stats, tissues, tfs) == m + r;
    if i == n - 1 {
      SliceRight(m, r);
    } else {
      MatrixBlock(stats, init, tfs, i);
      MulStep(i + 1, w);
      MulMono(i + 1, n - 1, w);
      MulMono(0, i, w);
      SliceLeft(m, r, i * w, i * w + w);
    }
  }

  lemma MulStep(n: nat, w: nat)
    requires n >= 1
    ensures n * w == (n - 1) * w + w
  {
  }

  lemma SliceLeft<T>(a: seq<T>, b: seq<T>, lo: int, hi: int)
    requires 0 <= lo <= hi <= |a|
    ensures (a + b)[lo..hi] == a[lo..hi]
  {
  }

  lemma SliceRight<T>(a: seq<T>, b: seq<T>)
    ensures (a + b)[|a|..|a| + |b|] == b
  {
  }

  lemma MulMono(a: nat, b: nat, c: nat)
    requires a <= b
    ensures a * c <= b * c
  {
  }

  /** The matrix has `|tissues| * |tfs|` cells, and the cell at position
      `i * |tfs| + j` is the entry for tissue `i` and TF `j`. */
  lemma MatrixAt(stats: Stats, tissues: seq<string>, tfs: seq<string>, i: nat, j: nat)
    requires i < |tissues| && j < |tfs|
    ensures |MatrixOf(stats, tissues, tfs)| == |tissues| * |tfs|
    ensures i * |tfs| + j < |tissues| * |tfs|
    ensures MatrixOf(stats, tissues, tfs)[i * |tfs| + j]
            == CellOf(tissues[i], tfs[j], Lookup(stats, (tissues[i], tfs[j])))
  {
    MatrixBlock(stats, tissues, tfs, i);
    MatrixRowAt(stats, tissues[i], tfs, j);
    MulMono(0, i, |tfs|);
    BlockAt(MatrixOf(stats, tissues, tfs), MatrixRow(stats, tissues[i], tfs), i * |tfs|, j);
  }

  /** Entry `j` of a block found at `base` is entry `base + j` of the whole. */
  lemma BlockAt<T>(m: seq<T>, r: seq<T>, base: int, j: nat)
    requires 0 <= base && base + |r| <= |m| && m[base..base + |r|] == r && j < |r|
    ensures base + j < |m| && m[base + j] == r[j]
  {
  }

  /** Every cell of a row is the entry of its own key, and is well-formed
      when the counts are. */
  lemma RowCells(stats: Stats, tissue: string, tfs: seq<string>)
    requires forall k :: k in stats ==> Balanced(stats[k])
    ensures forall c :: c in MatrixRow(stats, tissue, tfs) ==>
              c == CellOf(tissue, c.tf, Lookup(stats, (tissue, c.tf)))
              && c.tissue == tissue && c.tf in tfs && WellFormedCell(c)
  {
    var row := MatrixRow(stats, tissue, tfs);
    forall c | c in row
      ensures c == CellOf(tissue, c.tf, Lookup(stats, (tissue, c.tf)))
              && c.tissue == tissue && c.tf in tfs && WellFormedCell(c)
    {
      var j :| 0 <= j < |tfs| && row[j] == c;
      MatrixRowAt(stats, tissue, tfs, j);
      CellOfSpec(tissue, tfs[j], Lookup(stats, (tissue, tfs[j])));
    }
  }

  /** Every cell of the matrix is the entry of its own key, with a tissue and
      a TF from the lists, and is well-formed when the counts are. */
  lemma {:induction false} MatrixCells(stats: Stats, tissues: seq<string>, tfs: seq<string>)
    requires forall k :: k in stats ==> Balanced(stats[k])
    ensures forall c :: c in MatrixOf(stats, tissues, tfs) ==>
              c == CellOf(c.tissue, c.tf, Lookup(stats, (c.tissue, c.tf)))
              && c.tissue in tissues && c.tf in tfs && WellFormedCell(c)
  {
    if tissues != [] {
      var init := tissues[..|tissues| - 1];
      var t := tissues[|tissues| - 1];
      MatrixCells(stats, init, tfs);
      RowCells(stats, t, tfs);
      forall c | c in MatrixOf(stats, init, tfs) ensures c.tissue in tissues {
        assert c.tissue in init;
      }
    }
  }

  /** The largest `total` of the cells, 0 for none (`max_total`). */
  function MaxTotal(cells: seq<Cell>): nat {
    if cells == [] then 0
    else Max(MaxTotal(cells[..|cells| - 1]), cells[|cells| - 1].total)
  }

  function Max(a: nat, b: nat): nat {
    if a >= b then a else b
  }

  /** `max_total` bounds every cell's total and is the total of one of them,
      or 0 when there are no cells. */
  lemma {:induction false} MaxTotalSpec(cells: seq<Cell>)
    ensures forall c :: c in cells ==> c.total <= MaxTotal(cells)
    ensures cells == [] ==> MaxTotal(cells) == 0
    ensures cells != [] ==> exists c :: c in cells && c.total == MaxTotal(cells)
  {
    if cells != [] {
      var init := cells[..|cells| - 1];
      var last := cells[|cells| - 1];
      MaxTotalSpec(init);
      assert cells == init + [last];
      if MaxTotal(cells) == last.total {
        assert last in cells;
      } else {
        var c :| c in init && c.total == MaxTotal(init);
        assert c in cells;
      }
    }
  }

  lemma MaxTotalSnoc(cells: seq<Cell>, c: Cell)
    ensures MaxTotal(cells + [c]) == Max(MaxTotal(cells), c.total)
  {
    assert (cells + [c])[..|cells|] == cells;
  }

  /** Lines 58-75: the nested loop appending one cell per (tissue, TF) pair
      and keeping the running maximum of the totals. */
  method BuildMatrix(stats: Stats, tissues: seq<string>, tfs: seq<string>)
    returns (matrix: seq<Cell>, maxTotal: nat)
    ensures matrix == MatrixOf(stats, tissues, tfs)
    ensures maxTotal == MaxTotal(matrix)
  {
    matrix := [];
    maxTotal := 0;
    for i := 0 to |tissues|
      invariant matrix == MatrixOf(stats, tissues[..i], tfs)
      invariant maxTotal == MaxTotal(matrix)
    {
      assert tissues[..i + 1][..i] == tissues[..i];
      matrix, maxTotal := AppendRow(stats, tissues[i], tfs, matrix, maxTotal);
    }
    assert tissues[..|tissues|] == tissues;
  }

  /** The inner loop of lines 60-75: the cells of one tissue appended to the
      matrix, the running maximum updated with each. */
  method AppendRow(stats: Stats, tissue: string, tfs: seq<string>, matrix0: seq<Cell>, maxTotal0: nat)
    returns (matrix: seq<Cell>, maxTotal: nat)
    requires maxTotal0 == MaxTotal(matrix0)
    ensures matrix == matrix0 + MatrixRow(stats, tissue, tfs)
    ensures maxTotal == MaxTotal(matrix)
  {
    matrix, maxTotal := matrix0, maxTotal0;
    ghost var row: seq<Cell> := [];
    assert matrix0 + row == matrix0;
    for j := 0 to |tfs|
      invariant row == MatrixRow(stats, tissue, tfs[..j])
      invariant matrix == matrix0 + row
      invariant maxTotal == MaxTotal(matrix)
    {
      var s := Lookup(stats, (tissue, tfs[j]));
      var cell := CellOf(tissue, tfs[j], s);
      assert tfs[..j + 1][..j] == tfs[..j];
      AppendAssoc(matrix0, row, [cell]);
      MaxTotalSnoc(matrix, cell);
      matrix := matrix + [cell];
      maxTotal := Max(maxTotal, s.total);
      row := row + [cell];
    }
    assert tfs[..|tfs|] == tfs;
  }

  /** Component-wise sum of counts. */
  function SumCounts(cs: seq<Counts>): Counts {
    if cs == [] then Zero
    else
      var s := SumCounts(cs[..|cs| - 1]);
      var c := cs[|cs| - 1];
      Counts(s.plus + c.plus, s.minus + c.minus, s.unknown + c.unknown, s.total + c.total)
  }

  /** A sum of balanced counts is balanced. */
  lemma {:induction false} SumBalanced(cs: seq<Counts>)
    requires forall i :: 0 <= i < |cs| ==> Balanced(cs[i])
    ensures Balanced(SumCounts(cs))
  {
    if cs != [] {
      SumBalanced(cs[..|cs| - 1]);
    }
  }

  /** The counts of one tissue across `tfs`. */
  function RowCounts(stats: Stats, tissue: string, tfs: seq<string>): (r: seq<Counts>)
    ensures |r| == |tfs|
  {
    if tfs == [] then []
    else RowCounts(stats, tissue, tfs[..|tfs| - 1]) + [Lookup(stats, (tissue, tfs[|tfs| - 1]))]
  }

  /** The counts of one TF across `tissues`. */
  function ColumnCounts(stats: Stats, tissues: seq<string>, tf: string): (r: seq<Counts>)
    ensures |r| == |tissues|
  {
    if tissues == [] then []
    else ColumnCounts(stats, tissues[..|tissues| - 1], tf) + [Lookup(stats, (tissues[|tissues| - 1], tf))]
  }

  /** The counts carried by a sequence of cells. */
  function CellCounts(cells: seq<Cell>): (r: seq<Counts>)
    ensures |r| == |cells|
  {
    if cells == [] then [] else CellCounts(cells[..|cells| - 1]) + [CountsOf(cells[|cells| - 1])]
  }

  /** Lines 78-82: a tissue's sums over the top TFs; `total` is the sum of the three buckets. */
  function TissueSummaryOf(stats: Stats, tissue: string, tfs: seq<string>): TissueSummary {
    var s := SumCounts(RowCounts(stats, tissue, tfs));
    TissueSummary(tissue, s.plus, s.minus, s.unknown, s.plus + s.minus + s.unknown)
  }

  /** Lines 85-91: a TF's sums over all tissues and their signed proportion. */
  function TfSummaryOf(stats: Stats, tissues: seq<string>, tf: string): TfSummary {
    var s := SumCounts(ColumnCounts(stats, tissues, tf));
    var total := s.plus + s.minus + s.unknown;
    TfSummary(tf, s.plus, s.minus, s.unknown, total, Score(s.plus, s.minus, total))
  }

  function PerTissue(stats: Stats, tissues: seq<string>, tfs: seq<string>): (r: seq<TissueSummary>)
    ensures |r| == |tissues|
  {
    if tissues == [] then []
    else PerTissue(stats, tissues[..|tissues| - 1], tfs) + [TissueSummaryOf(stats, tissues[|tissues| - 1], tfs)]
  }

  function PerTf(stats: Stats, tissues: seq<string>, tfs: seq<string>): (r: seq<TfSummary>)
    ensures |r| == |tfs|
  {
    if tfs == [] then []
    else PerTf(stats, tissues, tfs[..|tfs| - 1]) + [TfSummaryOf(stats, tissues, tfs[|tfs| - 1])]
  }

  lemma {:induction false} PerTissueAt(stats: Stats, tissues: seq<string>, tfs: seq<string>, i: nat)
    requires i < |tissues|
    ensures PerTissue(stats, tissues, tfs)[i] == TissueSummaryOf(stats, tissues[i], tfs)
  {
    if i < |tissues| - 1 {
      PerTissueAt(stats, tissues[..|tissues| - 1], tfs, i);
    }
  }

  lemma {:induction false} PerTfAt(stats: Stats, tissues: seq<string>, tfs: seq<string>, j: nat)
    requires j < |tfs|
    ensures PerTf(stats, tissues, tfs)[j] == TfSummaryOf(stats, tissues, tfs[j])
  {
    if j < |tfs| - 1 {
      PerTfAt(stats, tissues, tfs[..|tfs| - 1], j);
    }
  }

  /** A row of the matrix carries exactly the counts looked up for its tissue. */
  lemma {:induction false} RowCountsOfCells(stats: Stats, tissue: string, tfs: seq<string>)
    ensures CellCounts(MatrixRow(stats, tissue, tfs)) == RowCounts(stats, tissue, tfs)
  {
    if tfs != [] {
      var init := tfs[..|tfs| - 1];
      RowCountsOfCells(stats, tissue, init);
      var r := MatrixRow(stats, tissue, tfs);
      assert r[..|r| - 1] == MatrixRow(stats, tissue, init);
    }
  }

  /** The counts of cell `i * |tfs| + j` for every tissue `i` are the counts
      the per-TF sum adds up for TF `j`. */
  lemma {:induction false} ColumnCountsAt(stats: Stats, tissues: seq<string>, tf: string, i: nat)
    requires i < |tissues|
    ensures ColumnCounts(stats, tissues, tf)[i] == Lookup(stats, (tissues[i], tf))
  {
    if i < |tissues| - 1 {
      ColumnCountsAt(stats, tissues[..|tissues| - 1], tf, i);
    }
  }

  /** A tissue's summary adds up the counts of its row of cells; with
      balanced counts its total is the sum of the cells' totals. */
  lemma TissueSummarySumsRow(stats: Stats, tissue: string, tfs: seq<string>)
    requires forall k :: k in stats ==> Balanced(stats[k])
    ensures var s := SumCounts(CellCounts(MatrixRow(stats, tissue, tfs)));
            var p := TissueSummaryOf(stats, tissue, tfs);
            p.tissue == tissue && p.plus == s.plus && p.minus == s.minus
            && p.unknown == s.unknown && p.total == s.total
  {
    RowCountsOfCells(stats, tissue, tfs);
    RowCountsBalanced(stats, tissue, tfs);
  }

  lemma {:induction false} RowCountsBalanced(stats: Stats, tissue: string, tfs: seq<string>)
    requires forall k :: k in stats ==> Balanced(stats[k])
    ensures Balanced(SumCounts(RowCounts(stats, tissue, tfs)))
  {
    if tfs != [] {
      var init := tfs[..|tfs| - 1];
      RowCountsBalanced(stats, tissue, init);
      var cs := RowCounts(stats, tissue, tfs);
      assert cs[..|cs| - 1] == RowCounts(stats, tissue, init);
    }
  }

  /** Each `per_tissue` entry sums block `i` of the matrix: its buckets are
      the sums of the cells' buckets, and, the counts being balanced, its
      total is the sum of the cells' totals. */
  lemma PerTissueSumsMatrix(stats: Stats, tissues: seq<string>, tfs: seq<string>, i: nat)
    requires i < |tissues|
    requires forall k :: k in stats ==> Balanced(stats[k])
    ensures i * |tfs| + |tfs| <= |MatrixOf(stats, tissues, tfs)|
    ensures var s := SumCounts(CellCounts(MatrixOf(stats, tissues, tfs)[i * |tfs| .. i * |tfs| + |tfs|]));
            var p := PerTissue(stats, tissues, tfs)[i];
            p.tissue == tissues[i] && p.plus == s.plus && p.minus == s.minus
            && p.unknown == s.unknown && p.total == s.total
  {
    MatrixBlock(stats, tissues, tfs, i);
    PerTissueAt(stats, tissues, tfs, i);
    TissueSummarySumsRow(stats, tissues[i], tfs);
  }

  lemma {:induction false} RowCountsAt(stats: Stats, tissue: string, tfs: seq<string>, j: nat)
    requires j < |tfs|
    ensures RowCounts(stats, tissue, tfs)[j] == Lookup(stats, (tissue, tfs[j]))
  {
    if j < |tfs| - 1 {
      RowCountsAt(stats, tissue, tfs[..|tfs| - 1], j);
    }
  }

  /** Column `j` of the matrix: the counts `per_tf` adds for TF `j` and
      tissue `i` are those of cell `i * |tfs| + j`. */
  lemma ColumnOfMatrix(stats: Stats, tissues: seq<string>, tfs: seq<string>, j: nat)
    requires j < |tfs|
    ensures forall i :: 0 <= i < |tissues| ==>
              i * |tfs| + j < |MatrixOf(stats, tissues, tfs)|
              && ColumnCounts(stats, tissues, tfs[j])[i] == CountsOf(MatrixOf(stats, tissues, tfs)[i * |tfs| + j])
  {
    forall i | 0 <= i < |tissues|
      ensures i * |tfs| + j < |MatrixOf(stats, tissues, tfs)|
              && ColumnCounts(stats, tissues, tfs[j])[i] == CountsOf(MatrixOf(stats, tissues, tfs)[i * |tfs| + j])
    {
      ColumnCellAt(stats, tissues, tfs, i, j);
    }
  }

  /** Each `per_tf` entry sums the column counts of its TF (see
      `ColumnOfMatrix`); its total is the sum of the three buckets and its
      score lies in [-1, 1]. */
  lemma PerTfSumsColumn(stats: Stats, tissues: seq<string>, tfs: seq<string>, j: nat)
    requires j < |tfs|
    ensures var s := SumCounts(ColumnCounts(stats, tissues, tfs[j]));
            var p := PerTf(stats, tissues, tfs)[j];
            p.tf == tfs[j] && p.plus == s.plus && p.minus == s.minus && p.unknown == s.unknown
            && p.total == p.plus + p.minus + p.unknown && -1.0 <= p.score <= 1.0
  {
    PerTfAt(stats, tissues, tfs, j);
  }

  /** Entry `i` of TF `j`'s column counts is the counts of cell `i * |tfs| + j`. */
  lemma ColumnCellAt(stats: Stats, tissues: seq<string>, tfs: seq<string>, i: nat, j: nat)
    requires i < |tissues| && j < |tfs|
    ensures i * |tfs| + j < |MatrixOf(stats, tissues, tfs)|
    ensures ColumnCounts(stats, tissues, tfs[j])[i] == CountsOf(MatrixOf(stats, tissues, tfs)[i * |tfs| + j])
  {
    MatrixAt(stats, tissues, tfs, i, j);
    ColumnCountsAt(stats, tissues, tfs[j], i);
    CellOfSpec(tissues[i], tfs[j], Lookup(stats, (tissues[i], tfs[j])));
  }

  /** Lines 77-82 as a loop appending one entry per tissue. */
  method BuildPerTissue(stats: Stats, tissues: seq<string>, tfs: seq<string>) returns (perTissue: seq<TissueSummary>)
    ensures perTissue == PerTissue(stats, tissues, tfs)
  {
    perTissue := [];
    for i := 0 to |tissues|
      invariant perTissue == PerTissue(stats, tissues[..i], tfs)
    {
      assert tissues[..i + 1][..i] == tissues[..i];
      perTissue := perTissue + [TissueSummaryOf(stats, tissues[i], tfs)];
    }
    assert tissues[..|tissues|] == tissues;
  }

  /** Lines 84-91 as a loop appending one entry per top TF. */
  method BuildPerTf(stats: Stats, tissues: seq<string>, tfs: seq<string>) returns (perTf: seq<TfSummary>)
    ensures perTf == PerTf(stats, tissues, tfs)
  {
    perTf := [];
    for j := 0 to |tfs|
      invariant perTf == PerTf(stats, tissues, tfs[..j])
    {
      assert tfs[..j + 1][..j] == tfs[..j];
      perTf := perTf + [TfSummaryOf(stats, tissues, tfs[j])];
    }
    assert tfs[..|tfs|] == tfs;
  }
}
