/**
 * The graph generator of script.js (lines 64-85): from a raw 0/1 draw and a
 * matrix of integer weight draws it derives the undirected adjacency matrix,
 * the masked weights, the helper masks and the symmetric weight matrix.
 *
 * The random draws are floating point in the source; here they arrive already
 * rounded: `raw[i][j]` is `floor(rng.next() * factor)` and `w[i][j]` is
 * `ceil(rng.next() * 100)`.
 */
module GraphGen {
  import opened Matrices

  /** adjMatrix: the cell-wise maximum of `raw` and its transpose. */
  function Adjacency(raw: Matrix): (adj: Matrix)
    requires IsSquare(raw, |raw|)
    ensures IsSquare(adj, |raw|)
  {
    var n := |raw|;
    seq(n, i requires 0 <= i < n => seq(n, j requires 0 <= j < n => Max(raw[i][j], raw[j][i])))
  }

  /**
   * weightedMatrix: `ceil(val * 100 * adj[i][j])`, which for a 0/1 adjacency
   * is the rounded draw where there is an edge and 0 where there is none.
   */
  function Weighted(adj: Matrix, w: Matrix): (weighted: Matrix)
    requires IsSquare(adj, |adj|) && IsSquare(w, |adj|)
    ensures IsSquare(weighted, |adj|)
  {
    var n := |adj|;
    seq(n, i requires 0 <= i < n => seq(n, j requires 0 <= j < n => if adj[i][j] == 1 then w[i][j] else 0))
  }

  /** binMatrix: 1 where the masked weight is positive, else 0. */
  function Bin(weighted: Matrix): (bin: Matrix)
    ensures |bin| == |weighted|
    ensures forall i :: 0 <= i < |bin| ==> |bin[i]| == |weighted[i]|
  {
    seq(|weighted|, i requires 0 <= i < |weighted| =>
      seq(|weighted[i]|, j requires 0 <= j < |weighted[i]| => if weighted[i][j] > 0 then 1 else 0))
  }

  /** asymMatrix: 1 where `bin` differs from its transpose, else 0. */
  function Asym(bin: Matrix): (asym: Matrix)
    requires IsSquare(bin, |bin|)
    ensures IsSquare(asym, |bin|)
  {
    var n := |bin|;
    seq(n, i requires 0 <= i < n => seq(n, j requires 0 <= j < n => if bin[i][j] != bin[j][i] then 1 else 0))
  }

  /** upperTriMatrix: 1 strictly above the diagonal, else 0. */
  function UpperTri(n: nat): (upper: Matrix)
    ensures IsSquare(upper, n)
  {
    seq(n, i requires 0 <= i < n => seq(n, j requires 0 <= j < n => if i < j then 1 else 0))
  }

  /** The value the loop at lines 78-85 writes for the pair `i <= j`. */
  function Cell(bin: Matrix, asym: Matrix, upper: Matrix, weighted: Matrix, i: nat, j: nat): (r: int)
    requires IsSquare(bin, |bin|) && IsSquare(asym, |bin|) && IsSquare(upper, |bin|) && IsSquare(weighted, |bin|)
    requires i < |bin| && j < |bin|
    ensures weighted[i][j] == 0 ==> r == 0
    ensures 0 <= bin[i][j] <= 1 && 0 <= asym[i][j] <= 1 && 0 <= upper[i][j] <= 1 ==>
      r == 0 || r == weighted[i][j] || r == 2 * weighted[i][j]
  {
    (bin[i][j] + asym[i][j] * upper[i][j]) * weighted[i][j]
  }

  /**
   * The weight matrix once the loop at lines 78-85 has run: the cell computed
   * for the upper triangle (diagonal included), mirrored below the diagonal.
   */
  function WeightMatrix(bin: Matrix, asym: Matrix, upper: Matrix, weighted: Matrix): (weight: Matrix)
    requires IsSquare(bin, |bin|) && IsSquare(asym, |bin|) && IsSquare(upper, |bin|) && IsSquare(weighted, |bin|)
    ensures IsSquare(weight, |bin|)
  {
    var n := |bin|;
    seq(n, i requires 0 <= i < n => seq(n, j requires 0 <= j < n =>
      if i <= j then Cell(bin, asym, upper, weighted, i, j) else Cell(bin, asym, upper, weighted, j, i)))
  }

  /** All matrices the generator derives from the two draws. */
  datatype Derived = Derived(adj: Matrix, weighted: Matrix, bin: Matrix, asym: Matrix, upper: Matrix, weight: Matrix)

  function Derive(raw: Matrix, w: Matrix): (d: Derived)
    requires IsSquare(raw, |raw|) && IsSquare(w, |raw|)
    ensures IsSquare(d.adj, |raw|) && IsSquare(d.weighted, |raw|) && IsSquare(d.bin, |raw|)
    ensures IsSquare(d.asym, |raw|) && IsSquare(d.upper, |raw|) && IsSquare(d.weight, |raw|)
  {
    var adj := Adjacency(raw);
    var weighted := Weighted(adj, w);
    var bin := Bin(weighted);
    var asym := Asym(bin);
    var upper := UpperTri(|raw|);
    Derived(adj, weighted, bin, asym, upper, WeightMatrix(bin, asym, upper, weighted))
  }

  /**
   * Fills a freshly zeroed n-by-n matrix (line 76) with the nested loop of
   * lines 78-85: for each `i <= j` it writes the cell at `[i][j]` and copies
   * it to `[j][i]`.
   */
  method FillWeightMatrix(bin: Matrix, asym: Matrix, upper: Matrix, weighted: Matrix) returns (wm: array2<int>)
    requires IsSquare(bin, |bin|) && IsSquare(asym, |bin|) && IsSquare(upper, |bin|) && IsSquare(weighted, |bin|)
    ensures fresh(wm) && wm.Length0 == |bin| && wm.Length1 == |bin|
    ensures forall i, j :: 0 <= i < |bin| && 0 <= j < |bin| ==> wm[i, j] == WeightMatrix(bin, asym, upper, weighted)[i][j]
  {
    var n := |bin|;
    ghost var target := WeightMatrix(bin, asym, upper, weighted);
    wm := new int[n, n]((_, _) => 0);
    for i := 0 to n
      // rows above `i` and their mirrored columns hold their final value; the
      // rest is still zero, so no cell is written twice with different values
      invariant forall a, b :: 0 <= a < n && 0 <= b < n ==>
        wm[a, b] == if Min(a, b) < i then target[a][b] else 0
    {
      for j := 0 to n
        invariant forall a, b :: 0 <= a < n && 0 <= b < n ==>
          wm[a, b] == if Min(a, b) < i || (Min(a, b) == i && Max(a, b) < j) then target[a][b] else 0
      {
        if i <= j {
          wm[i, j] := (bin[i][j] + asym[i][j] * upper[i][j]) * weighted[i][j];
          wm[j, i] := wm[i, j];
        }
      }
    }
  }

  // ---------------------------------------------------------------------
  // Properties of the derived matrices

  /** Line 65: the adjacency is symmetric, dominates both draws, and is 0/1 when the draw is. */
  lemma AdjacencyProperties(raw: Matrix)
    requires IsSquare(raw, |raw|)
    ensures IsSymmetric(Adjacency(raw))
    ensures forall i, j :: 0 <= i < |raw| && 0 <= j < |raw| ==>
      Adjacency(raw)[i][j] >= raw[i][j] && Adjacency(raw)[i][j] >= raw[j][i] &&
      (Adjacency(raw)[i][j] == raw[i][j] || Adjacency(raw)[i][j] == raw[j][i])
    ensures IsBinary(raw) ==> IsBinary(Adjacency(raw))
    ensures IsBinary(raw) ==> forall i, j :: 0 <= i < |raw| && 0 <= j < |raw| ==>
      (Adjacency(raw)[i][j] == 1 <==> raw[i][j] == 1 || raw[j][i] == 1)
  {
  }

  /** Line 71: weights survive only on edges; no edge means weight 0. */
  lemma WeightedMasked(adj: Matrix, w: Matrix)
    requires IsSquare(adj, |adj|) && IsSquare(w, |adj|)
    ensures forall i, j :: 0 <= i < |adj| && 0 <= j < |adj| ==>
      (adj[i][j] != 1 ==> Weighted(adj, w)[i][j] == 0) &&
      (adj[i][j] == 1 ==> Weighted(adj, w)[i][j] == w[i][j]) &&
      (Weighted(adj, w)[i][j] != 0 ==> adj[i][j] == 1 && Weighted(adj, w)[i][j] == w[i][j])
    ensures IsNonNegative(w) ==> IsNonNegative(Weighted(adj, w))
  {
  }

  /** Lines 72-74: the three masks are 0/1 indicators. */
  lemma MaskProperties(weighted: Matrix)
    requires IsSquare(weighted, |weighted|)
    ensures IsSquare(Bin(weighted), |weighted|)
    ensures forall i, j :: 0 <= i < |weighted| && 0 <= j < |weighted| ==>
      (Bin(weighted)[i][j] == 1 <==> weighted[i][j] > 0) && (Bin(weighted)[i][j] == 0 <==> weighted[i][j] <= 0)
    ensures IsSymmetric(Asym(Bin(weighted)))
    ensures forall i :: 0 <= i < |weighted| ==> Asym(Bin(weighted))[i][i] == 0
    ensures forall i, j :: 0 <= i < |weighted| && 0 <= j < |weighted| ==>
      (Asym(Bin(weighted))[i][j] == 1 <==> (weighted[i][j] > 0) != (weighted[j][i] > 0))
    ensures IsBinary(Asym(Bin(weighted)))
    ensures forall i, j :: 0 <= i < |weighted| && 0 <= j < |weighted| ==>
      (UpperTri(|weighted|)[i][j] == 1 <==> i < j) && (UpperTri(|weighted|)[i][j] == 0 <==> j <= i)
  {
  }

  /** Lines 78-85: whatever the inputs, the mirrored fill is symmetric. */
  lemma WeightMatrixSymmetric(bin: Matrix, asym: Matrix, upper: Matrix, weighted: Matrix)
    requires IsSquare(bin, |bin|) && IsSquare(asym, |bin|) && IsSquare(upper, |bin|) && IsSquare(weighted, |bin|)
    ensures IsSymmetric(WeightMatrix(bin, asym, upper, weighted))
  {
  }

  /** One cell on or above the diagonal, and its mirror image. */
  lemma CellOnOrAbove(raw: Matrix, w: Matrix, i: nat, j: nat)
    requires IsSquare(raw, |raw|) && IsSquare(w, |raw|) && IsNonNegative(w)
    requires i <= j < |raw|
    ensures var d := Derive(raw, w);
      && d.weight[j][i] == d.weight[i][j]
      && (i == j ==> d.weight[i][j] == d.weighted[i][i])
      && (i < j ==> d.weight[i][j] == (if d.bin[i][j] != d.bin[j][i] then 2 else 1) * d.weighted[i][j])
      && d.weight[i][j] >= 0
      && (d.weight[i][j] != 0 <==> d.weighted[i][j] > 0)
      && (d.weight[i][j] > 0 ==> d.adj[i][j] == 1 && d.adj[j][i] == 1)
  {
  }

  /**
   * Lines 71-85 together: every final weight is non-negative, and a positive
   * weight lies on an edge of the adjacency matrix.
   */
  lemma WeightMatrixOnEdges(raw: Matrix, w: Matrix)
    requires IsSquare(raw, |raw|) && IsSquare(w, |raw|) && IsNonNegative(w)
    ensures var d := Derive(raw, w);
      forall i, j :: 0 <= i < |raw| && 0 <= j < |raw| ==>
        d.weight[i][j] >= 0 && d.weight[i][j] == d.weight[j][i] &&
        (d.weight[i][j] > 0 ==> d.adj[i][j] == 1) &&
        (d.weight[i][j] != 0 <==> d.weighted[Min(i, j)][Max(i, j)] > 0)
  {
    // one cell at a time keeps each proof obligation small
    forall i, j | 0 <= i < |raw| && 0 <= j < |raw| {
      CellAnywhere(raw, w, i, j);
    }
  }

  /** Any cell, from the facts about its upper-triangle twin. */
  lemma CellAnywhere(raw: Matrix, w: Matrix, i: nat, j: nat)
    requires IsSquare(raw, |raw|) && IsSquare(w, |raw|) && IsNonNegative(w)
    requires i < |raw| && j < |raw|
    ensures var d := Derive(raw, w);
      && d.weight[i][j] >= 0 && d.weight[i][j] == d.weight[j][i]
      && (d.weight[i][j] > 0 ==> d.adj[i][j] == 1)
      && (d.weight[i][j] != 0 <==> d.weighted[Min(i, j)][Max(i, j)] > 0)
  {
    if i <= j {
      CellOnOrAbove(raw, w, i, j);
    } else {
      CellOnOrAbove(raw, w, j, i);
    }
  }
}
