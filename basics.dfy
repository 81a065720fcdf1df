/** Small shared vocabulary: an Option type, uids, and sums and means of reals. */
module Basics {

  datatype Option<+T> = None | Some(value: T)

  /** A `_uid` stamp. The source writes it as the string "uid_" followed by a counter value;
      the model keeps the counter value. */
  type Uid = nat

  /** Left-to-right running sum, in the order a `forEach` accumulation adds the terms. */
  function Sum(s: seq<real>): real
  {
    if |s| == 0 then 0.0 else Sum(s[..|s| - 1]) + s[|s| - 1]
  }

  /** Unweighted arithmetic mean. */
  function Mean(s: seq<real>): real
    requires |s| > 0
  {
    Sum(s) / (|s| as real)
  }

  lemma {:induction false} SumAppend(s: seq<real>, x: real)
    ensures Sum(s + [x]) == Sum(s) + x
  {
    assert (s + [x])[..|s|] == s;
  }

  lemma {:induction false} SumAtMost(s: seq<real>, hi: real)
    requires forall i :: 0 <= i < |s| ==> s[i] <= hi
    ensures Sum(s) <= (|s| as real) * hi
  {
    if |s| > 0 {
      SumAtMost(s[..|s| - 1], hi);
    }
  }

  lemma {:induction false} SumAtLeast(s: seq<real>, lo: real)
    requires forall i :: 0 <= i < |s| ==> lo <= s[i]
    ensures (|s| as real) * lo <= Sum(s)
  {
    if |s| > 0 {
      SumAtLeast(s[..|s| - 1], lo);
    }
  }

  /** A sum of terms bounded by `hi` reaches `|s| * hi` exactly when every term equals `hi`. */
  lemma {:induction false} SumAtMaximum(s: seq<real>, hi: real)
    requires forall i :: 0 <= i < |s| ==> s[i] <= hi
    ensures Sum(s) >= (|s| as real) * hi <==> forall i :: 0 <= i < |s| ==> s[i] == hi
  {
    if |s| > 0 {
      var init := s[..|s| - 1];
      SumAtMaximum(init, hi);
      SumAtMost(init, hi);
      assert (|init| as real) * hi + hi == (|s| as real) * hi;
      if forall i :: 0 <= i < |s| ==> s[i] == hi {
        assert forall i :: 0 <= i < |init| ==> init[i] == hi;
      }
    }
  }

  /** The mean of terms in [lo, hi] lies in [lo, hi]. */
  lemma MeanBounds(s: seq<real>, lo: real, hi: real)
    requires |s| > 0
    requires forall i :: 0 <= i < |s| ==> lo <= s[i] <= hi
    ensures lo <= Mean(s) <= hi
  {
    SumAtMost(s, hi);
    SumAtLeast(s, lo);
    var n := |s| as real;
    assert Mean(s) * n == Sum(s);
  }

  /** The mean of terms at most `hi` reaches `hi` exactly when every term equals `hi`. */
  lemma MeanAtMaximum(s: seq<real>, hi: real)
    requires |s| > 0
    requires forall i :: 0 <= i < |s| ==> s[i] <= hi
    ensures Mean(s) >= hi <==> forall i :: 0 <= i < |s| ==> s[i] == hi
  {
    SumAtMaximum(s, hi);
    var n := |s| as real;
    assert Mean(s) * n == Sum(s);
  }
}
