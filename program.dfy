/**
 * The start-up of script.js (lines 64-140) without the random source, the
 * layout and the drawing: derive the matrices from the two integer draws,
 * fill the weight matrix, build the node list from its rows and start the
 * traversal at the head's vertex.
 */
module Program {
  import opened Matrices
  import opened GraphGen
  import opened NodeLists
  import opened Traversal

  /** The rows of a filled weight matrix, one sequence per row. */
  function Rows(wm: array2<int>): (rows: seq<seq<int>>)
    reads wm
    ensures |rows| == wm.Length0
    ensures forall i, j :: 0 <= i < wm.Length0 && 0 <= j < wm.Length1 ==> |rows[i]| == wm.Length1 && rows[i][j] == wm[i, j]
  {
    seq(wm.Length0, i requires 0 <= i < wm.Length0 reads wm => seq(wm.Length1, j requires 0 <= j < wm.Length1 reads wm => wm[i, j]))
  }

  /**
   * `raw` holds the rounded adjacency draws and `w` the rounded weight draws,
   * both n-by-n; the source accesses `nodeList.head.value`, so n > 0.
   */
  method Setup(raw: Matrix, w: Matrix) returns (walk: Walk)
    requires IsSquare(raw, |raw|) && IsSquare(w, |raw|) && |raw| > 0
    ensures fresh(walk) && fresh(walk.list) && fresh(walk.list.Repr)
    ensures walk.Valid()
    ensures walk.list.Contents() == seq(|raw|, k requires 0 <= k < |raw| => (k, Derive(raw, w).weight[k]))
    ensures walk.visited == [0] && walk.edges == [] && walk.totalWeight == 0
  {
    var n := |raw|;
    var adj := Adjacency(raw);
    var weighted := Weighted(adj, w);
    var bin := Bin(weighted);
    var asym := Asym(bin);
    var upper := UpperTri(n);
    var wm := FillWeightMatrix(bin, asym, upper, weighted);
    var rows := Rows(wm);
    ghost var d := Derive(raw, w);
    assert rows == d.weight by {
      forall i | 0 <= i < n ensures rows[i] == d.weight[i] {
        assert |rows[i]| == n;
      }
    }
    var list := BuildNodeList(rows);
    assert list.Contents() == seq(n, k requires 0 <= k < n => (k, d.weight[k]));
    walk := new Walk(list);
  }
}
