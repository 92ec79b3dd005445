/** The records shared by the preprocessor and the browser view: the signed
    counts kept per (tissue, TF) pair, the matrix cells and aggregate rows
    written to the summary document, and the document itself. */
module Records {
  import opened Seqs

  /** The strand sign of a TF token: a trailing `+`, a trailing `-`, or none (`'0'`). */
  datatype Sign = Plus | Minus | Unknown

  /** A (tissue, TF) pair, the key of the statistics dictionary. */
  type Key = (string, string)

  /** The counter dictionary `{'+', '-', '0', 'total'}` kept per key. */
  datatype Counts = Counts(plus: nat, minus: nat, unknown: nat, total: nat)

  /** The default entry: no evidence of any sign. */
  const Zero := Counts(0, 0, 0, 0)

  /** `total` is the sum of the three sign buckets. */
  predicate Balanced(c: Counts) {
    c.total == c.plus + c.minus + c.unknown
  }

  /** One occurrence of a token with sign `s`: its bucket and `total` go up by one. */
  function Bump(c: Counts, s: Sign): (r: Counts)
    ensures r.total == c.total + 1
    ensures Balanced(c) ==> Balanced(r)
    ensures (r.plus - c.plus) + (r.minus - c.minus) + (r.unknown - c.unknown) == 1
    ensures r.plus >= c.plus && r.minus >= c.minus && r.unknown >= c.unknown
  {
    match s
    case Plus => c.(plus := c.plus + 1, total := c.total + 1)
    case Minus => c.(minus := c.minus + 1, total := c.total + 1)
    case Unknown => c.(unknown := c.unknown + 1, total := c.total + 1)
  }

  /** The signed proportion `(plus - minus) / total`, or 0 when there is no evidence. */
  function Score(plus: nat, minus: nat, total: nat): (r: real)
    ensures total == 0 ==> r == 0.0
    ensures plus + minus <= total ==> -1.0 <= r <= 1.0
    ensures r > 0.0 <==> total > 0 && plus > minus
    ensures r < 0.0 <==> total > 0 && plus < minus
  {
    if total == 0 then 0.0
    else
      var d := (plus - minus) as real;
      var t := total as real;
      RatioSign(d, t);
      d / t
  }

  /** The ratio `d / t` for positive `t` has the sign of `d` and lies in
      [-1, 1] when `|d| <= t`. */
  lemma RatioSign(d: real, t: real)
    requires t > 0.0
    ensures d / t > 0.0 <==> d > 0.0
    ensures d / t < 0.0 <==> d < 0.0
    ensures -t <= d <= t ==> -1.0 <= d / t <= 1.0
  {
    var q := d / t;
    assert q * t == d;
    if q > 1.0 { assert q * t > 1.0 * t; }
    if q < -1.0 { assert q * t < -1.0 * t; }
    if q > 0.0 { assert q * t > 0.0; }
    if q < 0.0 { assert q * t < 0.0; }
    if q == 0.0 { assert q * t == 0.0; }
  }

  /** A cell of the tissue x TF matrix. */
  datatype Cell = Cell(tissue: string, tf: string, plus: nat, minus: nat, unknown: nat,
                       total: nat, score: real, imputed: bool)

  function KeyOf(c: Cell): Key { (c.tissue, c.tf) }

  /** The invariant every cell the preprocessor writes satisfies: the total is
      the sum of the buckets, the score is their signed proportion, and the
      cell is flagged imputed exactly when it holds no evidence. */
  predicate WellFormedCell(c: Cell) {
    && c.total == c.plus + c.minus + c.unknown
    && c.score == Score(c.plus, c.minus, c.total)
    && (c.imputed <==> c.total == 0)
  }

  /** Per-tissue sums over the top TFs. */
  datatype TissueSummary = TissueSummary(tissue: string, plus: nat, minus: nat, unknown: nat, total: nat)

  /** Per-TF sums over all tissues. */
  datatype TfSummary = TfSummary(tf: string, plus: nat, minus: nat, unknown: nat, total: nat, score: real)

  /** The summary document: tissues and top TFs in rank order, the matrix in
      tissue-major order, the aggregates and the largest cell total. The
      maximum is absent when the browser recomputes it over an empty matrix. */
  datatype Dataset = Dataset(tissues: seq<string>, tfs: seq<string>, matrix: seq<Cell>,
                             perTissue: seq<TissueSummary>, perTf: seq<TfSummary>,
                             maxTotal: Option<nat>)
}
