/** `Series.unique()`: the distinct values of a column in order of first
    appearance. */
module Uniques {

  function Unique<T(==)>(s: seq<T>): (r: seq<T>)
    ensures forall i :: 0 <= i < |r| ==> r[i] in s
    ensures forall i :: 0 <= i < |s| ==> s[i] in r
    ensures forall i, j :: 0 <= i < j < |r| ==> r[i] != r[j]
  {
    if s == [] then []
    else
      var u := Unique(s[..|s| - 1]);
      assert s == s[..|s| - 1] + [s[|s| - 1]];
      if s[|s| - 1] in u then u else u + [s[|s| - 1]]
  }

  /** The values come out in the order they first appear: an earlier value
      of the result occurs in `s` before the later one first does. */
  lemma {:induction false} UniqueOrder<T>(s: seq<T>, i: nat, j: nat)
    requires i < j < |Unique(s)|
    ensures exists p :: 0 <= p < |s| && s[p] == Unique(s)[i]
                       && forall q :: 0 <= q <= p ==> s[q] != Unique(s)[j]
  {
    var n := |s|;
    var pre := s[..n - 1];
    var u := Unique(pre);
    var r := Unique(s);
    if j < |u| {
      assert r[i] == u[i] && r[j] == u[j];
      UniqueOrder(pre, i, j);
      var p :| 0 <= p < |pre| && pre[p] == u[i] && forall q :: 0 <= q <= p ==> pre[q] != u[j];
      assert s[p] == pre[p];
      forall q | 0 <= q <= p ensures s[q] != r[j] {
        assert s[q] == pre[q];
      }
    } else {
      assert r == u + [s[n - 1]] && r[j] == s[n - 1] && r[i] == u[i];
      assert u[i] in pre;
      var p :| 0 <= p < |pre| && pre[p] == u[i];
      assert s[p] == pre[p];
      forall q | 0 <= q <= p ensures s[q] != r[j] {
        assert s[q] == pre[q];
      }
    }
  }
}
