/** Facts about sequences without repeated elements. */
module Sequences {

  ghost predicate Distinct<T>(s: seq<T>) {
    forall i, j :: 0 <= i < j < |s| ==> s[i] != s[j]
  }

  ghost function Elements<T>(s: seq<T>): set<T> {
    set x | x in s
  }

  /** A repetition in a prefix is a repetition in the whole sequence. */
  lemma NotDistinctExtends<T>(s: seq<T>, t: seq<T>)
    requires s <= t && !Distinct(s)
    ensures !Distinct(t)
  {
    var i, j :| 0 <= i < j < |s| && s[i] == s[j];
    assert t[i] == s[i] && t[j] == s[j];
  }

  /** Appending a new element keeps a sequence free of repetitions. */
  lemma AppendFresh<T>(s: seq<T>, x: T)
    requires Distinct(s) && x !in s
    ensures Distinct(s + [x])
  {
    assert forall i :: 0 <= i < |s| ==> (s + [x])[i] == s[i];
  }

  /** A sequence without repetitions has as many elements as its set. */
  lemma {:induction false} DistinctCardinality<T>(s: seq<T>)
    requires Distinct(s)
    ensures |Elements(s)| == |s|
  {
    if s != [] {
      var init := s[..|s| - 1];
      var last := s[|s| - 1];
      assert Distinct(init);
      DistinctCardinality(init);
      assert Elements(s) == Elements(init) + {last} by {
        assert s == init + [last];
      }
      assert last !in Elements(init);
    }
  }

  /** Appending an element already present introduces a repetition. */
  lemma AppendRepeats<T>(s: seq<T>, x: T)
    requires x in s
    ensures !Distinct(s + [x])
  {
    var j :| 0 <= j < |s| && s[j] == x;
    assert (s + [x])[j] == (s + [x])[|s|];
  }
}
