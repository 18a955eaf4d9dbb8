/**
  Counting the elements of a sequence that satisfy a test, stated as the size of
  the set of positions that pass it. This is the reference against which the
  loop-shaped counting functions of the model are proved.
 */
module SeqCount {

  /** The positions of `s` whose element satisfies `p`. */
  ghost function Positions<T>(s: seq<T>, p: T -> bool): set<nat>
  {
    set i: nat | i < |s| && p(s[i])
  }

  /** Appending one element adds its position exactly when it passes the test. */
  lemma PositionsSnoc<T>(s: seq<T>, x: T, p: T -> bool)
    ensures |Positions(s + [x], p)| == |Positions(s, p)| + (if p(x) then 1 else 0)
  {
    var s' := s + [x];
    assert forall i: nat :: i < |s| ==> s'[i] == s[i];
    if p(x) {
      assert Positions(s', p) == Positions(s, p) + {|s|};
    } else {
      assert Positions(s', p) == Positions(s, p);
    }
  }
}
