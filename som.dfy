/** The flattening of self-organising-map winners into cluster labels: the map
    is a 10 x 10 grid, and the winning cell (i, j) of a sample becomes the
    label i * 10 + j. */
module Som {

  const GridRows: nat := 10
  const GridCols: nat := 10

  /** The grid coordinates of a sample's best-matching unit (`som.winner(x)`). */
  datatype Winner = Winner(i: int, j: int)

  predicate OnGrid(w: Winner) {
    0 <= w.i < GridRows && 0 <= w.j < GridCols
  }

  /** `x[0] * 10 + x[1]`: the row-major position of the winning cell. */
  function Label(w: Winner): (r: int)
    requires OnGrid(w)
    ensures 0 <= r < GridRows * GridCols
    ensures r / GridCols == w.i && r % GridCols == w.j
  {
    w.i * 10 + w.j
  }

  /** The cell a label stands for. */
  function Cell(code: int): (w: Winner)
    requires 0 <= code < GridRows * GridCols
    ensures OnGrid(w)
  {
    Winner(code / GridCols, code % GridCols)
  }

  /** Labels and cells are inverse: no two cells share a label, and every label
      in range names exactly one cell. */
  lemma LabelCellInverse(w: Winner, code: int)
    requires OnGrid(w) && 0 <= code < GridRows * GridCols
    ensures Cell(Label(w)) == w
    ensures Label(Cell(code)) == code
  {
  }

  lemma LabelInjective(v: Winner, w: Winner)
    requires OnGrid(v) && OnGrid(w)
    ensures Label(v) == Label(w) <==> v == w
  {
    if Label(v) == Label(w) {
      assert v.i == Label(v) / GridCols == w.i;
      assert v.j == Label(v) % GridCols == w.j;
    }
  }

  /** `som_labels_1d`: one label per sample, in sample order. */
  function Labels(winners: seq<Winner>): (r: seq<int>)
    requires forall k | 0 <= k < |winners| :: OnGrid(winners[k])
    ensures |r| == |winners|
    ensures forall k | 0 <= k < |r| :: 0 <= r[k] < GridRows * GridCols
  {
    seq(|winners|, k requires 0 <= k < |winners| => Label(winners[k]))
  }

  /** Two samples get the same label exactly when they have the same winner. */
  lemma SameLabelIffSameWinner(winners: seq<Winner>, a: nat, b: nat)
    requires forall k | 0 <= k < |winners| :: OnGrid(winners[k])
    requires a < |winners| && b < |winners|
    ensures Labels(winners)[a] == Labels(winners)[b] <==> winners[a] == winners[b]
  {
    LabelInjective(winners[a], winners[b]);
  }
}
