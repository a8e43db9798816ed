/** Instance augmentation: a dummy job 0 with free transitions to and from every real job turns the
  * shortest Hamiltonian path over the real jobs into a tour problem over n + 1 jobs. */
module InstanceParser {
  import opened CostMatrix

  /** The raw instance: an n-by-n matrix of transition times, -1 marking a forbidden transition. */
  predicate RawSquare(raw: seq<seq<int>>)
  {
    forall i :: 0 <= i < |raw| ==> |raw[i]| == |raw|
  }

  /** Transition times are non-negative or the marker -1. */
  predicate RawEntriesOk(raw: seq<seq<int>>)
    requires RawSquare(raw)
  {
    forall i, j :: 0 <= i < |raw| && 0 <= j < |raw| ==> raw[i][j] >= -1
  }

  /** The integer stored at (i, j) of the augmented array before the marker is replaced. */
  function AugmentedInt(raw: seq<seq<int>>, i: nat, j: nat): int
    requires RawSquare(raw) && i <= |raw| && j <= |raw|
  {
    if i == 0 && j == 0 then -1 else if i == 0 || j == 0 then 0 else raw[i - 1][j - 1]
  }

  /** Replacing the marker -1 by the forbidden entry. */
  function ToCell(v: int): Cell
    requires v >= -1
  {
    if v == -1 then Forbidden else Cost(v)
  }

  /** The augmented matrix: (n + 1)-by-(n + 1), the dummy job may not follow itself, its other
    * transitions are free, the real jobs keep their times, and only the marker becomes forbidden. */
  function Augmented(raw: seq<seq<int>>): (a: Matrix)
    requires RawSquare(raw) && RawEntriesOk(raw)
    ensures Square(a) && |a| == |raw| + 1
    ensures a[0][0] == Forbidden
    ensures forall j :: 1 <= j <= |raw| ==> a[0][j] == Cost(0) && a[j][0] == Cost(0)
    ensures forall i, j :: 1 <= i <= |raw| && 1 <= j <= |raw| ==>
      a[i][j] == (if raw[i - 1][j - 1] == -1 then Forbidden else Cost(raw[i - 1][j - 1]))
    ensures forall i, j :: 0 <= i <= |raw| && 0 <= j <= |raw| ==>
      (a[i][j] == Forbidden <==> (i == 0 && j == 0) || (i > 0 && j > 0 && raw[i - 1][j - 1] == -1))
  {
    seq(|raw| + 1, i requires 0 <= i <= |raw| =>
      seq(|raw| + 1, j requires 0 <= j <= |raw| => ToCell(AugmentedInt(raw, i, j))))
  }

  /** The entries of a two-dimensional array, row by row. */
  function Contents(a: array2<Cell>): (m: Matrix)
    reads a
    ensures |m| == a.Length0 && forall i :: 0 <= i < a.Length0 ==> |m[i]| == a.Length1
  {
    seq(a.Length0, i requires 0 <= i < a.Length0 reads a =>
      seq(a.Length1, j requires 0 <= j < a.Length1 reads a => a[i, j]))
  }

  /** get_CGLSP_instance_cost_matrix, from the loaded raw matrix on: a zero array with -1 at (0, 0),
    * the raw matrix copied into rows and columns 1..n, then every -1 replaced by the marker. */
  method GetCglspInstanceCostMatrix(raw: seq<seq<int>>) returns (costMatrixAugmented: array2<Cell>)
    requires RawSquare(raw) && RawEntriesOk(raw)
    ensures fresh(costMatrixAugmented)
    ensures costMatrixAugmented.Length0 == costMatrixAugmented.Length1 == |raw| + 1
    ensures Contents(costMatrixAugmented) == Augmented(raw)
  {
    var n := |raw|;
    var ints := new int[n + 1, n + 1]((i, j) => 0);
    ints[0, 0] := -1;
    for i := 1 to n + 1
      invariant forall r, c :: 0 <= r <= n && 0 <= c <= n ==> ints[r, c] == if r < i then AugmentedInt(raw, r, c) else 0
    {
      for j := 1 to n + 1
        invariant forall r, c :: 0 <= r <= n && 0 <= c <= n ==>
          ints[r, c] == if r < i || (r == i && c < j) then AugmentedInt(raw, r, c) else 0
      {
        ints[i, j] := raw[i - 1][j - 1];
      }
    }
    costMatrixAugmented := new Cell[n + 1, n + 1];
    assert forall r, c :: 0 <= r <= n && 0 <= c <= n ==> ints[r, c] == AugmentedInt(raw, r, c);
    for i := 0 to n + 1
      invariant forall r, c :: 0 <= r <= n && 0 <= c <= n ==> ints[r, c] == AugmentedInt(raw, r, c)
      invariant forall r, c :: 0 <= r < i && 0 <= c <= n ==> costMatrixAugmented[r, c] == ToCell(AugmentedInt(raw, r, c))
    {
      for j := 0 to n + 1
        invariant forall r, c :: 0 <= r <= n && 0 <= c <= n ==> ints[r, c] == AugmentedInt(raw, r, c)
        invariant forall r, c :: 0 <= r <= n && 0 <= c <= n && (r < i || (r == i && c < j)) ==>
          costMatrixAugmented[r, c] == ToCell(AugmentedInt(raw, r, c))
      {
        costMatrixAugmented[i, j] := if ints[i, j] == -1 then Forbidden else Cost(ints[i, j]);
      }
    }
    ghost var a := Augmented(raw);
    assert forall i :: 0 <= i <= n ==> Contents(costMatrixAugmented)[i] == a[i];
  }
}
