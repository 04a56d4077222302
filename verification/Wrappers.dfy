/** What several modules share: optional values, and two facts about sequences. */
module Wrappers {

  datatype Option<T> = None | Some(value: T)

  predicate NoRepeats<T(==)>(s: seq<T>) {
    forall i, j :: 0 <= i < j < |s| ==> s[i] != s[j]
  }

  /** `w` stands in `s` at index `i`. */
  predicate At<T(==)>(s: seq<T>, i: nat, w: seq<T>) {
    i + |w| <= |s| && s[i..i + |w|] == w
  }

  lemma {:induction false} AtSplit<T>(s: seq<T>, i: nat, a: seq<T>, b: seq<T>)
    requires At(s, i, a + b)
    ensures At(s, i, a) && At(s, i + |a|, b)
  {
    var w := s[i..i + |a + b|];
    assert w[..|a|] == a && w[|a|..] == b;
    assert s[i..i + |a|] == w[..|a|] && s[i + |a|..i + |a| + |b|] == w[|a|..];
  }
}
