/**
 * `MultiQuadTupleChain<N, L>`: a list of quadratic tuples from 64·N bits
 * to 64·N bits, applied one after the other.  The list is a field that
 * `addFunctionTuple` extends in place; evaluation starts from the message
 * and feeds each result to the next tuple.
 */
module Chains {
  import opened GF2
  import opened MultiQuad

  /** f_{k−1}(… f_0(x)): the tuples of fs applied in order, the first one first. */
  function ChainEval(fs: seq<MultiQuadTuple>, n: nat, x: seq<bool>): (y: seq<bool>)
    requires forall k | 0 <= k < |fs| :: fs[k].Valid() && fs[k].numInputs == n == fs[k].numOutputs
    requires |x| == WordSize * n
    ensures |y| == WordSize * n
  {
    if fs == [] then x else Eval(fs[|fs| - 1], ChainEval(fs[..|fs| - 1], n, x))
  }

  /** Running fs and then gs is running fs + gs. */
  lemma {:induction false} ChainEvalAppend(fs: seq<MultiQuadTuple>, gs: seq<MultiQuadTuple>, n: nat, x: seq<bool>)
    requires forall k | 0 <= k < |fs| :: fs[k].Valid() && fs[k].numInputs == n == fs[k].numOutputs
    requires forall k | 0 <= k < |gs| :: gs[k].Valid() && gs[k].numInputs == n == gs[k].numOutputs
    requires |x| == WordSize * n
    ensures ChainEval(fs + gs, n, x) == ChainEval(gs, n, ChainEval(fs, n, x))
  {
    if gs == [] {
      assert fs + gs == fs;
    } else {
      var g := gs[..|gs| - 1];
      assert (fs + gs)[..|fs + gs| - 1] == fs + g;
      ChainEvalAppend(fs, g, n, x);
    }
  }

  /** The first tuple sees the message itself: the chain is the rest of the chain after f_0. */
  lemma ChainEvalFirst(fs: seq<MultiQuadTuple>, n: nat, x: seq<bool>)
    requires forall k | 0 <= k < |fs| :: fs[k].Valid() && fs[k].numInputs == n == fs[k].numOutputs
    requires |x| == WordSize * n && fs != []
    ensures ChainEval(fs, n, x) == ChainEval(fs[1..], n, Eval(fs[0], x))
  {
    assert [fs[0]] + fs[1..] == fs;
    assert [fs[0]][..0] == [];
    ChainEvalAppend([fs[0]], fs[1..], n, x);
  }

  class MultiQuadTupleChain {
    /** N: the tuples map 64·N bits to 64·N bits. */
    const n: nat
    /** L: the number of tuples evaluation applies. */
    const len: nat
    var tuples: seq<MultiQuadTuple>

    ghost predicate Valid()
      reads this
    {
      forall k | 0 <= k < |tuples| :: tuples[k].Valid() && tuples[k].numInputs == n == tuples[k].numOutputs
    }

    /** The default constructor: no tuples yet. */
    constructor (n: nat, len: nat)
      ensures Valid() && this.n == n && this.len == len && tuples == []
    {
      this.n := n;
      this.len := len;
      tuples := [];
    }

    /** `length()`: L, whatever has been added. */
    function Length(): nat
      reads this
    {
      len
    }

    /** `addFunctionTuple(f)`: `push_back`. */
    method AddFunctionTuple(f: MultiQuadTuple)
      requires Valid() && f.Valid() && f.numInputs == n == f.numOutputs
      modifies this
      ensures Valid() && tuples == old(tuples) + [f]
    {
      tuples := tuples + [f];
    }

    /** `get(index)`: the tuple added as the index-th. */
    function Get(index: nat): (f: MultiQuadTuple)
      requires Valid() && index < |tuples|
      reads this
      ensures f == tuples[index]
      ensures f.Valid() && f.numInputs == n == f.numOutputs
    {
      tuples[index]
    }

    /** `operator()(m)`: tuples 0 … L − 1 in turn, each on the previous result. */
    method Apply(m: seq<bool>) returns (result: seq<bool>)
      requires Valid() && len <= |tuples| && |m| == WordSize * n
      ensures result == ChainEval(tuples[..len], n, m)
    {
      result := m;
      var i := 0;
      while i < len
        invariant i <= len && result == ChainEval(tuples[..i], n, m)
      {
        assert tuples[..i + 1][..i] == tuples[..i];
        result := Evaluate(tuples[i], result);
        i := i + 1;
      }
    }
  }
}
