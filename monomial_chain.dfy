/**
 * The V2 polynomial representation: `MonomialMatrixChain<NUM_INPUT, NUM_OUTPUT>`
 * and `ConstantChainHeader<NUM_INPUT, NUM_OUTPUT>`.
 *
 * A chain is a singly linked list of nodes; each node holds an
 * NUM_INPUT × NUM_OUTPUT bit matrix.  At input x a node's value starts from
 * all ones and is ANDed with row i for every input bit i that is clear, so
 * output bit j of a node is the product of the x_i over the i whose entry
 * (i, j) is clear.  The chain's value is the XOR of its nodes' values, and
 * a header adds a constant vector to that.
 *
 * The V2 `BitMatrix<R, C>` is a sequence of R rows of C bits here, and only
 * the operations the chain calls on it appear: `getRow` (indexing),
 * `splitV2`, `andEachRow` and comparison with the zero matrix.
 */
module MonomialChains {
  import opened GF2
  import opened Matrices

  /** Every node is an n × w matrix. */
  predicate NodesShape(ns: seq<Mat>, n: nat, w: nat)
  {
    forall k | 0 <= k < |ns| :: |ns[k]| == n && IsMatrix(ns[k], w)
  }

  /** Every bit of x is set. */
  predicate AllOnes(x: seq<bool>)
  {
    forall i | 0 <= i < |x| :: x[i]
  }

  /**
   * A node's value at x: all ones, ANDed with row i for every i with x[i]
   * clear, in row order.  Bit j is set iff every row i < |m| has x[i] or
   * entry (i, j) set.
   */
  function NodeValue(m: Mat, x: seq<bool>, w: nat): (r: seq<bool>)
    requires IsMatrix(m, w) && |m| <= |x|
    ensures |r| == w
    ensures forall j | 0 <= j < w :: r[j] == (forall i | 0 <= i < |m| :: x[i] || m[i][j])
  {
    if m == [] then Ones(w)
    else if x[|m| - 1] then NodeValue(m[..|m| - 1], x, w)
    else And(NodeValue(m[..|m| - 1], x, w), m[|m| - 1])
  }

  /** The chain's value at x: the XOR of its nodes' values. */
  function ChainValue(ns: seq<Mat>, x: seq<bool>, w: nat): (r: seq<bool>)
    requires NodesShape(ns, |x|, w)
    ensures |r| == w
  {
    if ns == [] then Zeros(w) else Xor(NodeValue(ns[0], x, w), ChainValue(ns[1..], x, w))
  }

  /** The value of a header: its constant XOR its chain's value. */
  function HeaderValue(c: seq<bool>, ns: seq<Mat>, x: seq<bool>): (r: seq<bool>)
    requires NodesShape(ns, |x|, |c|)
    ensures |r| == |c|
  {
    Xor(c, ChainValue(ns, x, |c|))
  }

  /** The value of a concatenation of chains is the XOR of their values. */
  lemma {:induction false} ChainValueAppend(a: seq<Mat>, b: seq<Mat>, x: seq<bool>, w: nat)
    requires NodesShape(a, |x|, w) && NodesShape(b, |x|, w)
    ensures NodesShape(a + b, |x|, w)
    ensures ChainValue(a + b, x, w) == Xor(ChainValue(a, x, w), ChainValue(b, x, w))
  {
    if a == [] {
      assert a + b == b;
      ZeroLaws(ChainValue(b, x, w));
    } else {
      assert (a + b)[1..] == a[1..] + b;
      ChainValueAppend(a[1..], b, x, w);
      XorAssociates(NodeValue(a[0], x, w), ChainValue(a[1..], x, w), ChainValue(b, x, w));
    }
  }

  /**
   * A zero node matrix is the product of all the inputs in every column: its
   * value is zero unless every input bit is set, and all ones then.
   */
  lemma ZeroNodeValue(n: nat, w: nat, x: seq<bool>)
    requires |x| == n
    ensures NodeValue(ZeroMat(n, w), x, w) == if AllOnes(x) then Ones(w) else Zeros(w)
  {
    var z := ZeroMat(n, w);
    if !AllOnes(x) {
      var i0 :| 0 <= i0 < n && !x[i0];
      assert forall j | 0 <= j < w :: !(x[i0] || z[i0][j]);
    }
  }

  // ---------------------------------------------------------------------
  // The V2 matrix operations the chain uses

  /** `splitV2(k)`: rows [k·R/2, (k+1)·R/2) of an R-row matrix. */
  function SplitV2(m: Mat, k: nat): (r: Mat)
    requires k < 2
    ensures |r| == |m| / 2
    ensures forall i | 0 <= i < |r| :: r[i] == m[k * (|m| / 2) + i]
  {
    m[k * (|m| / 2)..(k + 1) * (|m| / 2)]
  }

  /** `andEachRow(v)`: every row ANDed with v. */
  function AndEachRow(m: Mat, v: seq<bool>): (r: Mat)
    requires IsMatrix(m, |v|)
    ensures |r| == |m| && IsMatrix(r, |v|)
    ensures forall i, j | 0 <= i < |m| && 0 <= j < |v| :: r[i][j] == (m[i][j] && v[j])
  {
    seq(|m|, i requires 0 <= i < |m| => And(m[i], v))
  }

  /** Every row ORed with v. */
  function OrEachRow(m: Mat, v: seq<bool>): (r: Mat)
    requires IsMatrix(m, |v|)
    ensures |r| == |m| && IsMatrix(r, |v|)
    ensures forall i, j | 0 <= i < |m| && 0 <= j < |v| :: r[i][j] == (m[i][j] || v[j])
  {
    seq(|m|, i requires 0 <= i < |m| => Or(m[i], v))
  }

  /** The running product of `operator()` and `subMMC`: one pass over rows 0 … |x| − 1. */
  method NodeProduct(m: Mat, x: seq<bool>, w: nat) returns (r: seq<bool>)
    requires IsMatrix(m, w) && |x| <= |m|
    ensures r == NodeValue(m[..|x|], x, w)
  {
    r := Ones(w);
    var i := 0;
    while i < |x|
      invariant i <= |x| && r == NodeValue(m[..i], x, w)
    {
      assert m[..i + 1][..i] == m[..i];
      if !x[i] {
        r := And(r, m[i]);
      }
      i := i + 1;
    }
  }

  // ---------------------------------------------------------------------
  // deleteAllEmpty

  /**
   * The nodes `deleteAllEmpty` keeps: the head, and then the nodes up to
   * (not including) the first later node whose matrix is zero.
   */
  function CutAtZero(ns: seq<Mat>, n: nat, w: nat): (r: seq<Mat>)
    requires ns != []
    ensures 0 < |r| <= |ns| && r == ns[..|r|]
    ensures forall k | 1 <= k < |r| :: r[k] != ZeroMat(n, w)
    ensures |r| < |ns| ==> ns[|r|] == ZeroMat(n, w)
  {
    if |ns| == 1 then ns
    else if ns[1] == ZeroMat(n, w) then [ns[0]]
    else [ns[0]] + CutAtZero(ns[1..], n, w)
  }

  /** The nodes whose matrix is not zero, in order. */
  function NonZeroNodes(ns: seq<Mat>, n: nat, w: nat): (r: seq<Mat>)
    ensures |r| <= |ns|
    ensures forall k | 0 <= k < |r| :: r[k] != ZeroMat(n, w) && r[k] in ns
    ensures forall k | 0 <= k < |ns| :: ns[k] != ZeroMat(n, w) ==> ns[k] in r
  {
    if ns == [] then []
    else if ns[0] == ZeroMat(n, w) then NonZeroNodes(ns[1..], n, w)
    else [ns[0]] + NonZeroNodes(ns[1..], n, w)
  }

  lemma {:induction false} NonZeroNodesShape(ns: seq<Mat>, n: nat, w: nat)
    requires NodesShape(ns, n, w)
    ensures NodesShape(NonZeroNodes(ns, n, w), n, w)
  {
    if ns != [] {
      NonZeroNodesShape(ns[1..], n, w);
    }
  }

  /**
   * Dropping the zero nodes keeps the chain's value at every input with a
   * clear bit (at the all-ones input each zero node contributes all ones).
   */
  lemma {:induction false} NonZeroNodesValue(ns: seq<Mat>, x: seq<bool>, w: nat)
    requires NodesShape(ns, |x|, w) && !AllOnes(x)
    ensures NodesShape(NonZeroNodes(ns, |x|, w), |x|, w)
    ensures ChainValue(NonZeroNodes(ns, |x|, w), x, w) == ChainValue(ns, x, w)
  {
    NonZeroNodesShape(ns, |x|, w);
    if ns != [] {
      NonZeroNodesValue(ns[1..], x, w);
      var rest := ChainValue(ns[1..], x, w);
      if ns[0] == ZeroMat(|x|, w) {
        ZeroNodeValue(|x|, w, x);
        ZeroLaws(rest);
      } else {
        assert ([ns[0]] + NonZeroNodes(ns[1..], |x|, w))[1..] == NonZeroNodes(ns[1..], |x|, w);
      }
    }
  }

  /** A node holding the 1 × 1 matrix with entry b. */
  function Single(b: bool): (m: Mat)
    ensures |m| == 1 && IsMatrix(m, 1)
  {
    [[b]]
  }

  /**
   * `deleteAllEmpty` as written cuts away nonzero nodes behind a zero one:
   * on [1], [0], [1] (one input, one output) at the input 0, which has a
   * clear bit, the chain is worth 0 but what is kept, [1], is worth 1.
   */
  lemma CutAtZeroLosesNodes()
    ensures NodesShape([Single(true), Single(false), Single(true)], 1, 1)
    ensures CutAtZero([Single(true), Single(false), Single(true)], 1, 1) == [Single(true)]
    ensures !AllOnes([false])
    ensures ChainValue([Single(true), Single(false), Single(true)], [false], 1) == [false]
    ensures ChainValue([Single(true)], [false], 1) == [true]
  {
    var ns := [Single(true), Single(false), Single(true)];
    assert ZeroMat(1, 1)[0] == Zeros(1) == [false];
    assert ZeroMat(1, 1) == Single(false);
    assert ns[1..] == [Single(false), Single(true)];
    assert ns[1..][1..] == [Single(true)];
    assert [Single(true)][1..] == [];
    assert NodeValue(Single(true), [false], 1) == [true];
    assert NodeValue(Single(false), [false], 1) == [false];
  }

  // ---------------------------------------------------------------------
  // subMMC and partial evaluation

  /**
   * The node `subMMC` builds from a 2n-row node m and the first n input
   * bits x: the lower half of m with every row ANDed with the running
   * product of the upper half at x.
   */
  function SubNode(m: Mat, x: seq<bool>, w: nat): (r: Mat)
    requires |m| == 2 * |x| && IsMatrix(m, w)
    ensures |r| == |x| && IsMatrix(r, w)
  {
    AndEachRow(SplitV2(m, 1), NodeValue(m[..|x|], x, w))
  }

  function SubNodes(ns: seq<Mat>, x: seq<bool>, w: nat): (r: seq<Mat>)
    requires NodesShape(ns, 2 * |x|, w)
    ensures |r| == |ns| && NodesShape(r, |x|, w)
    ensures forall k | 0 <= k < |ns| :: r[k] == SubNode(ns[k], x, w)
  {
    seq(|ns|, k requires 0 <= k < |ns| => SubNode(ns[k], x, w))
  }

  /** The upper half's product at x, complemented: the columns the partial input kills. */
  function Killed(m: Mat, x: seq<bool>, w: nat): (r: seq<bool>)
    requires |m| == 2 * |x| && IsMatrix(m, w)
    ensures |r| == w
    ensures forall j | 0 <= j < w :: r[j] == !NodeValue(m[..|x|], x, w)[j]
  {
    Xor(Ones(w), NodeValue(m[..|x|], x, w))
  }

  /**
   * The corrected node: the lower half with every killed column filled with
   * ones, so that the column is the constant 1 and can be cancelled by the
   * header's constant.
   */
  function FixedSubNode(m: Mat, x: seq<bool>, w: nat): (r: Mat)
    requires |m| == 2 * |x| && IsMatrix(m, w)
    ensures |r| == |x| && IsMatrix(r, w)
  {
    OrEachRow(SplitV2(m, 1), Killed(m, x, w))
  }

  function FixedSubNodes(ns: seq<Mat>, x: seq<bool>, w: nat): (r: seq<Mat>)
    requires NodesShape(ns, 2 * |x|, w)
    ensures |r| == |ns| && NodesShape(r, |x|, w)
    ensures forall k | 0 <= k < |ns| :: r[k] == FixedSubNode(ns[k], x, w)
  {
    seq(|ns|, k requires 0 <= k < |ns| => FixedSubNode(ns[k], x, w))
  }

  /** The XOR of the killed columns of every node: what the constant must absorb. */
  function Toggle(ns: seq<Mat>, x: seq<bool>, w: nat): (r: seq<bool>)
    requires NodesShape(ns, 2 * |x|, w)
    ensures |r| == w
  {
    if ns == [] then Zeros(w) else Xor(Killed(ns[0], x, w), Toggle(ns[1..], x, w))
  }

  /** The node-by-node maps split off the first node. */
  lemma SubNodesCons(ns: seq<Mat>, x: seq<bool>, w: nat)
    requires NodesShape(ns, 2 * |x|, w) && ns != []
    ensures SubNodes(ns, x, w) == [SubNode(ns[0], x, w)] + SubNodes(ns[1..], x, w)
    ensures FixedSubNodes(ns, x, w) == [FixedSubNode(ns[0], x, w)] + FixedSubNodes(ns[1..], x, w)
  {
  }

  /** Bit j of a 2n-row node at x ‖ y: both halves' products. */
  lemma NodeValueSplit(m: Mat, x: seq<bool>, y: seq<bool>, w: nat, j: nat)
    requires |m| == 2 * |x| && |y| == |x| && IsMatrix(m, w) && j < w
    ensures NodeValue(m, x + y, w)[j] ==
      (NodeValue(m[..|x|], x, w)[j] && NodeValue(SplitV2(m, 1), y, w)[j])
  {
    var n := |x|;
    var u, l := m[..n], SplitV2(m, 1);
    assert NodeValue(m, x + y, w)[j] == forall i | 0 <= i < 2 * n :: (x + y)[i] || m[i][j];
    assert NodeValue(u, x, w)[j] == forall i | 0 <= i < n :: x[i] || u[i][j];
    assert NodeValue(l, y, w)[j] == forall i | 0 <= i < n :: y[i] || l[i][j];
    ColumnSplit(m, x, y, j);
  }

  /** The quantified form of NodeValueSplit, on one column. */
  lemma ColumnSplit(m: Mat, x: seq<bool>, y: seq<bool>, j: nat)
    requires |m| == 2 * |x| && |y| == |x| && forall i | 0 <= i < |m| :: j < |m[i]|
    ensures (forall i | 0 <= i < 2 * |x| :: (x + y)[i] || m[i][j]) ==
      ((forall i | 0 <= i < |x| :: x[i] || m[..|x|][i][j]) &&
       (forall i | 0 <= i < |x| :: y[i] || m[|x|..][i][j]))
  {
    var n := |x|;
    var xy, u, l := x + y, m[..n], m[n..];
    assert forall i | 0 <= i < n :: xy[i] == x[i] && u[i] == m[i];
    assert forall i | 0 <= i < n :: xy[n + i] == y[i] && l[i] == m[n + i];
    if !(forall i | 0 <= i < 2 * n :: xy[i] || m[i][j]) {
      var i0 :| 0 <= i0 < 2 * n && !(xy[i0] || m[i0][j]);
      if i0 >= n {
        assert !(y[i0 - n] || l[i0 - n][j]);
      }
    }
  }

  /** The as-written node at y with a clear bit is the original node at x ‖ y. */
  lemma SubNodeValue(m: Mat, x: seq<bool>, y: seq<bool>, w: nat)
    requires |m| == 2 * |x| && |y| == |x| && IsMatrix(m, w) && !AllOnes(y)
    ensures NodeValue(SubNode(m, x, w), y, w) == NodeValue(m, x + y, w)
  {
    var s := SubNode(m, x, w);
    var p := NodeValue(m[..|x|], x, w);
    var l := SplitV2(m, 1);
    var i0 :| 0 <= i0 < |y| && !y[i0];
    forall j | 0 <= j < w
      ensures NodeValue(s, y, w)[j] == NodeValue(m, x + y, w)[j]
    {
      NodeValueSplit(m, x, y, w, j);
      assert !(y[i0] || s[i0][j]) <== !p[j];
      assert forall i | 0 <= i < |y| :: (y[i] || s[i][j]) == (y[i] || (l[i][j] && p[j]));
    }
  }

  /** The corrected node XOR its killed columns is the original node at x ‖ y, for every y. */
  lemma FixedSubNodeValue(m: Mat, x: seq<bool>, y: seq<bool>, w: nat)
    requires |m| == 2 * |x| && |y| == |x| && IsMatrix(m, w)
    ensures Xor(NodeValue(FixedSubNode(m, x, w), y, w), Killed(m, x, w)) == NodeValue(m, x + y, w)
  {
    var s := FixedSubNode(m, x, w);
    var p := NodeValue(m[..|x|], x, w);
    var l := SplitV2(m, 1);
    forall j | 0 <= j < w
      ensures (NodeValue(s, y, w)[j] != !p[j]) == NodeValue(m, x + y, w)[j]
    {
      NodeValueSplit(m, x, y, w, j);
      assert forall i | 0 <= i < |y| :: (y[i] || s[i][j]) == (y[i] || l[i][j] || !p[j]);
    }
  }

  /**
   * `partialEval` as written: the chain of sub-nodes at y equals the
   * original chain at x ‖ y whenever y has a clear bit.
   */
  lemma {:induction false} SubNodesValue(ns: seq<Mat>, x: seq<bool>, y: seq<bool>, w: nat)
    requires NodesShape(ns, 2 * |x|, w) && |y| == |x| && !AllOnes(y)
    ensures ChainValue(SubNodes(ns, x, w), y, w) == ChainValue(ns, x + y, w)
  {
    if ns != [] {
      assert SubNodes(ns, x, w)[1..] == SubNodes(ns[1..], x, w);
      SubNodesValue(ns[1..], x, y, w);
      SubNodeValue(ns[0], x, y, w);
    }
  }

  /** The corrected chain at y, XOR the toggled constant, is the original chain at x ‖ y. */
  lemma {:induction false} FixedSubNodesValue(ns: seq<Mat>, x: seq<bool>, y: seq<bool>, w: nat)
    requires NodesShape(ns, 2 * |x|, w) && |y| == |x|
    ensures Xor(ChainValue(FixedSubNodes(ns, x, w), y, w), Toggle(ns, x, w)) == ChainValue(ns, x + y, w)
  {
    if ns == [] {
      ZeroLaws(Zeros(w));
    } else {
      var f := FixedSubNodes(ns, x, w);
      assert f[1..] == FixedSubNodes(ns[1..], x, w);
      FixedSubNodesValue(ns[1..], x, y, w);
      FixedSubNodeValue(ns[0], x, y, w);
      var a, b := NodeValue(f[0], y, w), ChainValue(f[1..], y, w);
      var c, d := Killed(ns[0], x, w), Toggle(ns[1..], x, w);
      assert Xor(Xor(a, b), Xor(c, d)) == Xor(Xor(a, c), Xor(b, d));
    }
  }

  /** A header whose constant absorbed the toggles takes the original header's value at x ‖ y. */
  lemma FixedPartialEvalValue(c: seq<bool>, ns: seq<Mat>, x: seq<bool>, y: seq<bool>)
    requires NodesShape(ns, 2 * |x|, |c|) && |y| == |x|
    ensures HeaderValue(Xor(c, Toggle(ns, x, |c|)), FixedSubNodes(ns, x, |c|), y) == HeaderValue(c, ns, x + y)
  {
    var w := |c|;
    FixedSubNodesValue(ns, x, y, w);
    var t, g := Toggle(ns, x, w), ChainValue(FixedSubNodes(ns, x, w), y, w);
    assert Xor(Xor(c, t), g) == Xor(c, Xor(g, t));
  }

  /** The as-written header at y with a clear bit takes the original header's value at x ‖ y. */
  lemma PartialEvalValue(c: seq<bool>, ns: seq<Mat>, x: seq<bool>, y: seq<bool>)
    requires NodesShape(ns, 2 * |x|, |c|) && |y| == |x| && !AllOnes(y)
    ensures HeaderValue(c, SubNodes(ns, x, |c|), y) == HeaderValue(c, ns, x + y)
  {
    SubNodesValue(ns, x, y, |c|);
  }

  /**
   * `partialEval` as written fails at the all-ones y: with one partial
   * input x = 0, the two-row node [0; 0] and a zero constant, f(x ‖ 1) is
   * 0 while the partial evaluation gives 1 at y = 1.
   */
  lemma PartialEvalCounterexample()
    ensures NodesShape([[[false], [false]]], 2, 1)
    ensures HeaderValue([false], [[[false], [false]]], [false] + [true]) == [false]
    ensures HeaderValue([false], SubNodes([[[false], [false]]], [false], 1), [true]) == [true]
  {
    var m: Mat := [[false], [false]];
    assert m[..1] == [[false]];
    assert NodeValue(m[..1], [false], 1) == [false];
    assert SplitV2(m, 1) == [[false]];
    assert And([false], [false]) == [false];
    assert AndEachRow([[false]], [false]) == [[false]];
    assert NodeValue([[false]], [true], 1) == [true];
    assert NodeValue(m, [false, true], 1) == [false];
    assert [false] + [true] == [false, true];
  }

  // ---------------------------------------------------------------------
  // The zero polynomial

  /** A w-column matrix of n rows of ones. */
  function OnesMat(n: nat, w: nat): (m: Mat)
    ensures |m| == n && IsMatrix(m, w)
    ensures forall i, j | 0 <= i < n && 0 <= j < w :: m[i][j]
  {
    seq(n, i => Ones(w))
  }

  /**
   * `zero()` as written (a zero constant and one zero node) is not the zero
   * polynomial: it is all ones at the all-ones input.
   */
  lemma ZeroHeaderValue(n: nat, w: nat, x: seq<bool>)
    requires |x| == n
    ensures HeaderValue(Zeros(w), [ZeroMat(n, w)], x) == if AllOnes(x) then Ones(w) else Zeros(w)
  {
    var z := ZeroMat(n, w);
    var v := NodeValue(z, x, w);
    ZeroNodeValue(n, w, x);
    assert [z][1..] == [];
    ZeroLaws(v);
    assert ChainValue([z], x, w) == v;
    ZeroLaws(v);
  }

  /** A node of ones is the constant 1; with constant all ones the header is zero everywhere. */
  lemma ZeroHeaderCorrectedValue(n: nat, w: nat, x: seq<bool>)
    requires |x| == n
    ensures HeaderValue(Ones(w), [OnesMat(n, w)], x) == Zeros(w)
  {
    var o := OnesMat(n, w);
    var v := NodeValue(o, x, w);
    assert v == Ones(w);
    assert [o][1..] == [];
    ZeroLaws(v);
    assert ChainValue([o], x, w) == v;
    XorSelf(v);
  }

  // ---------------------------------------------------------------------
  // The chain

  class MonomialMatrixChain {
    /** NUM_INPUT: the rows of every node, one per input bit. */
    const numInputs: nat
    /** NUM_OUTPUT: the columns of every node, one per output bit. */
    const numOutputs: nat
    var node: Mat
    var next: MonomialMatrixChain?
    /** The node matrices from this node to the end of the chain. */
    ghost var nodes: seq<Mat>
    ghost var footprint: set<object>

    ghost predicate Valid()
      reads this, footprint
      ensures Valid() ==> nodes != [] && nodes[0] == node && NodesShape(nodes, numInputs, numOutputs)
    {
      this in footprint && |node| == numInputs && IsMatrix(node, numOutputs) &&
      (next == null ==> nodes == [node]) &&
      (next != null ==>
        next in footprint && next.footprint <= footprint && this !in next.footprint &&
        next.numInputs == numInputs && next.numOutputs == numOutputs &&
        nodes == [node] + next.nodes && next.Valid())
    }

    /** `zero()`: a single node holding the zero matrix. */
    constructor Zero(numInputs: nat, numOutputs: nat)
      ensures Valid() && fresh(footprint) && footprint == {this}
      ensures this.numInputs == numInputs && this.numOutputs == numOutputs
      ensures next == null && nodes == [ZeroMat(numInputs, numOutputs)]
    {
      this.numInputs := numInputs;
      this.numOutputs := numOutputs;
      node := ZeroMat(numInputs, numOutputs);
      next := null;
      nodes := [ZeroMat(numInputs, numOutputs)];
      footprint := {this};
    }

    /** `operator()(input)`: this node's product, XOR the rest of the chain's value. */
    method Evaluate(input: seq<bool>) returns (result: seq<bool>)
      requires Valid() && |input| == numInputs
      decreases footprint
      ensures result == ChainValue(nodes, input, numOutputs)
    {
      result := NodeProduct(node, input, numOutputs);
      assert node[..numInputs] == node;
      if next != null {
        var rest := next.Evaluate(input);
        result := Xor(result, rest);
      } else {
        ZeroLaws(result);
      }
    }

    /** `SetMonomialMatrix(M)`: replaces this node's matrix only. */
    method SetMonomialMatrix(m: Mat)
      requires Valid() && |m| == numInputs && IsMatrix(m, numOutputs)
      modifies this
      ensures Valid() && node == m && next == old(next) && footprint == old(footprint)
      ensures nodes == [m] + old(nodes)[1..]
    {
      node := m;
      nodes := [m] + nodes[1..];
    }

    /** `SetNext(aNext)`: the chain continues with aNext, or ends here when it is null. */
    method SetNext(aNext: MonomialMatrixChain?)
      requires |node| == numInputs && IsMatrix(node, numOutputs)
      requires aNext != null ==>
        aNext.Valid() && this !in aNext.footprint && aNext.numInputs == numInputs && aNext.numOutputs == numOutputs
      modifies this
      ensures Valid() && node == old(node) && next == aNext
      ensures aNext == null ==> nodes == [node] && footprint == {this}
      ensures aNext != null ==> nodes == [node] + aNext.nodes && footprint == {this} + aNext.footprint
    {
      next := aNext;
      if aNext == null {
        nodes := [node];
        footprint := {this};
      } else {
        nodes := [node] + aNext.nodes;
        footprint := {this} + aNext.footprint;
      }
    }

    /** `SetNext(M)`: the chain continues with one new node holding M. */
    method SetNextMatrix(m: Mat)
      requires Valid() && |m| == numInputs && IsMatrix(m, numOutputs)
      modifies this
      ensures Valid() && node == old(node) && nodes == [node, m]
      ensures fresh(footprint - {this})
    {
      var n := new MonomialMatrixChain.Zero(numInputs, numOutputs);
      n.SetMonomialMatrix(m);
      n.SetNext(null);
      SetNext(n);
    }

    /** `getNextNode()`: the matrix of the second node. */
    function GetNextNode(): (m: Mat)
      requires Valid() && next != null
      reads this, footprint
      ensures m == nodes[1]
    {
      next.node
    }

    /** `append(M)`: a new node holding M at the end of the chain. */
    method Append(m: Mat)
      requires Valid() && |m| == numInputs && IsMatrix(m, numOutputs)
      modifies footprint
      decreases footprint
      ensures Valid() && nodes == old(nodes) + [m]
      ensures fresh(footprint - old(footprint))
    {
      if next == null {
        var newNode := new MonomialMatrixChain.Zero(numInputs, numOutputs);
        newNode.SetMonomialMatrix(m);
        newNode.SetNext(null);
        SetNext(newNode);
      } else {
        next.Append(m);
        nodes := [node] + next.nodes;
        footprint := footprint + next.footprint;
      }
    }

    /** `length()`: the number of nodes. */
    method Length() returns (res: nat)
      requires Valid()
      decreases footprint
      ensures res == |nodes|
    {
      res := 1;
      if next != null {
        var rest := next.Length();
        res := res + rest;
      }
    }

    /**
     * `deleteAllEmpty()` as written: the tail first, then the next node is
     * unlinked if its matrix is zero, and everything behind it goes with it.
     */
    method DeleteAllEmpty()
      requires Valid()
      modifies footprint
      decreases footprint
      ensures Valid() && node == old(node) && footprint <= old(footprint)
      ensures nodes == CutAtZero(old(nodes), numInputs, numOutputs)
    {
      if next != null {
        next.DeleteAllEmpty();
        if next.node == ZeroMat(numInputs, numOutputs) {
          SetNext(null);
        } else {
          nodes := [node] + next.nodes;
          footprint := {this} + next.footprint;
        }
      }
    }

    /** Every later node whose matrix is zero is unlinked; the others stay, in order. */
    method DeleteZeroNodes()
      requires Valid()
      modifies footprint
      decreases footprint
      ensures Valid() && node == old(node) && footprint <= old(footprint)
      ensures nodes == [node] + NonZeroNodes(old(nodes)[1..], numInputs, numOutputs)
    {
      if next != null {
        ghost var tail := next.nodes;
        assert old(nodes)[1..] == tail;
        next.DeleteZeroNodes();
        ghost var kept := NonZeroNodes(tail[1..], numInputs, numOutputs);
        if next.node == ZeroMat(numInputs, numOutputs) {
          assert NonZeroNodes(tail, numInputs, numOutputs) == kept;
          assert next.nodes[1..] == kept;
          assert next.next == null ==> kept == [];
          assert next.next != null ==> next.next.nodes == kept;
          SetNext(next.next);
        } else {
          assert NonZeroNodes(tail, numInputs, numOutputs) == [next.node] + kept;
          nodes := [node] + next.nodes;
          footprint := {this} + next.footprint;
        }
      }
    }

    /**
     * `subMMC(super, input)` as written: this node becomes super's lower
     * half with each row ANDed with the upper half's product at input, and
     * a new chain is built the same way from super's next node when there
     * is one; otherwise this chain's tail is left as it was.
     */
    method SubMMC(super: MonomialMatrixChain, input: seq<bool>)
      requires Valid() && super.Valid() && this !in super.footprint
      requires super.numInputs == 2 * numInputs && super.numOutputs == numOutputs && |input| == numInputs
      modifies this
      decreases super.footprint
      ensures Valid() && fresh(footprint - old(footprint))
      ensures super.next == null ==> nodes == SubNodes(super.nodes, input, numOutputs) + old(nodes)[1..]
      ensures super.next != null ==> nodes == SubNodes(super.nodes, input, numOutputs)
    {
      var partialResult := NodeProduct(super.node, input, numOutputs);
      node := AndEachRow(SplitV2(super.node, 1), partialResult);
      nodes := [node] + nodes[1..];
      SubNodesCons(super.nodes, input, numOutputs);
      if super.next != null {
        var theNext := new MonomialMatrixChain.Zero(numInputs, numOutputs);
        theNext.SubMMC(super.next, input);
        assert fresh(theNext.footprint);
        SetNext(theNext);
      }
    }

    /**
     * The corrected `subMMC`: killed columns are filled with ones instead of
     * zeros, the chain ends where super's does, and the returned vector is
     * the XOR of every node's killed columns, for the constant to absorb.
     */
    method SubMMCCorrected(super: MonomialMatrixChain, input: seq<bool>) returns (toggle: seq<bool>)
      requires Valid() && super.Valid() && this !in super.footprint
      requires super.numInputs == 2 * numInputs && super.numOutputs == numOutputs && |input| == numInputs
      modifies this
      decreases super.footprint
      ensures Valid() && fresh(footprint - old(footprint))
      ensures nodes == FixedSubNodes(super.nodes, input, numOutputs)
      ensures toggle == Toggle(super.nodes, input, numOutputs)
    {
      var partialResult := NodeProduct(super.node, input, numOutputs);
      var killed := Xor(Ones(numOutputs), partialResult);
      node := OrEachRow(SplitV2(super.node, 1), killed);
      SubNodesCons(super.nodes, input, numOutputs);
      assert Toggle(super.nodes, input, numOutputs) == Xor(killed, Toggle(super.nodes[1..], input, numOutputs));
      if super.next == null {
        SetNext(null);
        toggle := Xor(killed, Zeros(numOutputs));
      } else {
        var theNext := new MonomialMatrixChain.Zero(numInputs, numOutputs);
        var rest := theNext.SubMMCCorrected(super.next, input);
        assert fresh(theNext.footprint);
        SetNext(theNext);
        toggle := Xor(killed, rest);
      }
    }
  }

  // ---------------------------------------------------------------------
  // The header

  class ConstantChainHeader {
    const numInputs: nat
    const numOutputs: nat
    var constant: seq<bool>
    var mmc: MonomialMatrixChain

    ghost predicate Valid()
      reads this, mmc, mmc.footprint
    {
      |constant| == numOutputs && mmc.Valid() && this !in mmc.footprint &&
      mmc.numInputs == numInputs && mmc.numOutputs == numOutputs
    }

    /** `constructChain(constant, chain)`. */
    constructor ConstructChain(constant: seq<bool>, chain: MonomialMatrixChain)
      requires chain.Valid() && |constant| == chain.numOutputs
      ensures Valid() && this.constant == constant && mmc == chain
      ensures numInputs == chain.numInputs && numOutputs == chain.numOutputs
    {
      numInputs := chain.numInputs;
      numOutputs := chain.numOutputs;
      this.constant := constant;
      mmc := chain;
    }

    /** `zero()` as written: a zero constant and the zero chain. */
    constructor Zero(numInputs: nat, numOutputs: nat)
      ensures Valid() && this.numInputs == numInputs && this.numOutputs == numOutputs
      ensures constant == Zeros(numOutputs) && mmc.nodes == [ZeroMat(numInputs, numOutputs)]
      ensures fresh(mmc.footprint)
    {
      this.numInputs := numInputs;
      this.numOutputs := numOutputs;
      constant := Zeros(numOutputs);
      mmc := new MonomialMatrixChain.Zero(numInputs, numOutputs);
    }

    /** The corrected `zero()`: constant all ones and one node of ones, which cancel. */
    constructor ZeroCorrected(numInputs: nat, numOutputs: nat)
      ensures Valid() && this.numInputs == numInputs && this.numOutputs == numOutputs
      ensures constant == Ones(numOutputs) && mmc.nodes == [OnesMat(numInputs, numOutputs)]
      ensures fresh(mmc.footprint)
    {
      this.numInputs := numInputs;
      this.numOutputs := numOutputs;
      constant := Ones(numOutputs);
      var chain := new MonomialMatrixChain.Zero(numInputs, numOutputs);
      chain.SetMonomialMatrix(OnesMat(numInputs, numOutputs));
      mmc := chain;
    }

    /** `operator()(input)`: the constant XOR the chain's value. */
    method Evaluate(input: seq<bool>) returns (result: seq<bool>)
      requires Valid() && |input| == numInputs
      ensures result == HeaderValue(constant, mmc.nodes, input)
    {
      var value := mmc.Evaluate(input);
      result := Xor(constant, value);
    }

    /** `SetConstant(constant)`. */
    method SetConstant(c: seq<bool>)
      requires Valid() && |c| == numOutputs
      modifies this
      ensures Valid() && constant == c && mmc == old(mmc)
    {
      constant := c;
    }

    /** `SetMMC(mmc)`: the header holds the given chain. */
    method SetMMC(chain: MonomialMatrixChain)
      requires Valid() && chain.Valid() && this !in chain.footprint
      requires chain.numInputs == numInputs && chain.numOutputs == numOutputs
      modifies this
      ensures Valid() && mmc == chain && constant == old(constant)
    {
      mmc := chain;
    }

    /** `length()`: the number of nodes of the chain. */
    method Length() returns (res: nat)
      requires Valid()
      ensures res == |mmc.nodes|
    {
      res := mmc.Length();
    }

    /** `xorConstant(c)`: only the constant changes, by XOR with c. */
    method XorConstant(c: seq<bool>)
      requires Valid() && |c| == numOutputs
      modifies this
      ensures Valid() && constant == Xor(old(constant), c) && mmc == old(mmc)
    {
      SetConstant(Xor(constant, c));
    }

    /**
     * `partialEval(input)` as written: the same constant, and the chain
     * `subMMC` builds from this one.  The input is the first half of the
     * variables.
     */
    method PartialEval(input: seq<bool>) returns (result: ConstantChainHeader)
      requires Valid() && numInputs == 2 * |input|
      ensures fresh(result) && fresh(result.mmc.footprint) && result.Valid()
      ensures result.numInputs == |input| && result.numOutputs == numOutputs
      ensures result.constant == constant && result.mmc.nodes == SubNodes(mmc.nodes, input, numOutputs)
    {
      var submmc := new MonomialMatrixChain.Zero(|input|, numOutputs);
      submmc.SubMMC(mmc, input);
      result := new ConstantChainHeader.ConstructChain(constant, submmc);
    }

    /** The corrected partial evaluation: the corrected chain, and the constant XOR its toggles. */
    method PartialEvalCorrected(input: seq<bool>) returns (result: ConstantChainHeader)
      requires Valid() && numInputs == 2 * |input|
      ensures fresh(result) && fresh(result.mmc.footprint) && result.Valid()
      ensures result.numInputs == |input| && result.numOutputs == numOutputs
      ensures result.constant == Xor(constant, Toggle(mmc.nodes, input, numOutputs))
      ensures result.mmc.nodes == FixedSubNodes(mmc.nodes, input, numOutputs)
    {
      var submmc := new MonomialMatrixChain.Zero(|input|, numOutputs);
      var toggle := submmc.SubMMCCorrected(mmc, input);
      result := new ConstantChainHeader.ConstructChain(Xor(constant, toggle), submmc);
    }
  }

  /** What `xorConstant(c)` does to the value: it is XORed with c at every input. */
  lemma XorConstantValue(c0: seq<bool>, c: seq<bool>, ns: seq<Mat>, x: seq<bool>)
    requires |c| == |c0| && NodesShape(ns, |x|, |c0|)
    ensures HeaderValue(Xor(c0, c), ns, x) == Xor(HeaderValue(c0, ns, x), c)
  {
    var v := ChainValue(ns, x, |c0|);
    assert Xor(Xor(c0, c), v) == Xor(Xor(c0, v), c);
  }

  /** What `append(M)` does to the value: M's node value is XORed in. */
  lemma AppendValue(ns: seq<Mat>, m: Mat, x: seq<bool>, w: nat)
    requires NodesShape(ns, |x|, w) && |m| == |x| && IsMatrix(m, w)
    ensures NodesShape(ns + [m], |x|, w)
    ensures ChainValue(ns + [m], x, w) == Xor(ChainValue(ns, x, w), NodeValue(m, x, w))
  {
    ChainValueAppend(ns, [m], x, w);
    assert [m][1..] == [];
    ZeroLaws(NodeValue(m, x, w));
  }
}
