/** Facts about sequences shared by the planner and the scheduler. */
module Seqs {

  /** Every element of `s` occurs once. */
  ghost predicate Distinct<T>(s: seq<T>) {
    forall i, j | 0 <= i < j < |s| :: s[i] != s[j]
  }

  /** A sequence repeats nothing exactly when every element occurs at most once in its multiset. */
  lemma {:induction false} DistinctMultiset<T>(s: seq<T>)
    ensures Distinct(s) <==> forall t :: multiset(s)[t] <= 1
  {
    if s != [] {
      var rest := s[1..];
      DistinctMultiset(rest);
      assert s == [s[0]] + rest;
      assert forall j | 0 <= j < |rest| :: rest[j] == s[j + 1];
      if Distinct(s) {
        assert forall j | 0 <= j < |rest| :: rest[j] != s[0];
        assert Distinct(rest);
        forall t ensures multiset(s)[t] <= 1 {
          if t == s[0] {
            assert multiset(rest)[t] == 0;
          }
        }
      } else {
        var i, j :| 0 <= i < j < |s| && s[i] == s[j];
        if i == 0 {
          assert rest[j - 1] == s[0];
          assert s[0] in rest;
          assert multiset(s)[s[0]] > 1;
        } else {
          assert rest[i - 1] == rest[j - 1];
          assert !Distinct(rest);
          var t :| multiset(rest)[t] > 1;
          assert multiset(s)[t] > 1;
        }
      }
    }
  }
}
