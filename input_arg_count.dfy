/** The grouping of a node's input definitions into the operator's argument
    slots: input_arg_count {4, 6} over 10 inputs gives the first argument the
    first 4 inputs and the second argument the other 6. */
module InputArgCounts {

  function Sum(counts: seq<int>): int {
    if counts == [] then 0 else counts[0] + Sum(counts[1..])
  }

  lemma {:induction false} SumAppend(counts: seq<int>, c: int)
    ensures Sum(counts + [c]) == Sum(counts) + c
  {
    if counts != [] {
      assert (counts + [c])[1..] == counts[1..] + [c];
      SumAppend(counts[1..], c);
    }
  }

  /** std::accumulate over the counts. */
  method Accumulate(counts: seq<int>) returns (total: int)
    ensures total == Sum(counts)
  {
    total := 0;
    var k := 0;
    while k < |counts|
      invariant 0 <= k <= |counts|
      invariant total == Sum(counts[..k])
    {
      assert counts[..k + 1] == counts[..k] + [counts[k]];
      SumAppend(counts[..k], counts[k]);
      total := total + counts[k];
      k := k + 1;
    }
    assert counts[..k] == counts;
  }

  /** The default grouping: one input per argument slot. */
  function Ones(n: nat): (r: seq<int>)
    ensures |r| == n && forall k :: 0 <= k < n ==> r[k] == 1
  {
    if n == 0 then [] else [1] + Ones(n - 1)
  }

  lemma {:induction false} OnesSum(n: nat)
    ensures Sum(Ones(n)) == n
  {
    if n > 0 {
      assert Ones(n)[1..] == Ones(n - 1);
      OnesSum(n - 1);
    }
  }

  predicate NonNegative(counts: seq<int>) {
    forall k :: 0 <= k < |counts| ==> counts[k] >= 0
  }

  /** The inputs of each argument slot, in order. */
  function Groups<T>(defs: seq<T>, counts: seq<int>): seq<seq<T>>
    requires NonNegative(counts) && Sum(counts) == |defs|
  {
    if counts == [] then []
    else
      SumNonNegative(counts[1..]);
      [defs[..counts[0]]] + Groups(defs[counts[0]..], counts[1..])
  }

  lemma {:induction false} SumNonNegative(counts: seq<int>)
    requires NonNegative(counts)
    ensures Sum(counts) >= 0
  {
    if counts != [] {
      SumNonNegative(counts[1..]);
    }
  }

  function Flatten<T>(groups: seq<seq<T>>): seq<T> {
    if groups == [] then [] else groups[0] + Flatten(groups[1..])
  }

  /** Non-negative counts that sum to the number of inputs partition them:
      one group per count, each as large as its count, and the groups laid
      end to end give back the inputs in order. */
  lemma {:induction false} GroupsPartition<T>(defs: seq<T>, counts: seq<int>)
    requires NonNegative(counts) && Sum(counts) == |defs|
    ensures |Groups(defs, counts)| == |counts|
    ensures forall k :: 0 <= k < |counts| ==> |Groups(defs, counts)[k]| == counts[k]
    ensures Flatten(Groups(defs, counts)) == defs
  {
    if counts != [] {
      SumNonNegative(counts[1..]);
      var rest := Groups(defs[counts[0]..], counts[1..]);
      GroupsPartition(defs[counts[0]..], counts[1..]);
      assert Groups(defs, counts) == [defs[..counts[0]]] + rest;
      assert Flatten(Groups(defs, counts)) == defs[..counts[0]] + Flatten(rest);
      assert defs[..counts[0]] + defs[counts[0]..] == defs;
    }
  }
}
