/**
 Python's `<` on strings: lexicographic comparison character by character,
 a proper prefix coming first. It is a strict total order.
 */
module LexOrder {

  /** `u < v`: a proper prefix comes first, and no string comes before itself. */
  predicate Less(u: string, v: string): (r: bool)
    ensures r ==> u != v
    ensures |u| < |v| && u == v[..|u|] ==> r
    decreases |u|
  {
    if |v| == 0 then false
    else if |u| == 0 then true
    else if u[0] != v[0] then u[0] < v[0]
    else Less(u[1..], v[1..])
  }

  lemma {:induction false} Irreflexive(u: string)
    ensures !Less(u, u)
    decreases |u|
  {
    if |u| > 0 {
      Irreflexive(u[1..]);
    }
  }

  lemma {:induction false} Asymmetric(u: string, v: string)
    requires Less(u, v)
    ensures !Less(v, u)
    decreases |u|
  {
    if |u| > 0 && u[0] == v[0] {
      Asymmetric(u[1..], v[1..]);
    }
  }

  lemma {:induction false} Transitive(u: string, v: string, w: string)
    requires Less(u, v) && Less(v, w)
    ensures Less(u, w)
    decreases |u|
  {
    if |u| > 0 && u[0] == v[0] && v[0] == w[0] {
      Transitive(u[1..], v[1..], w[1..]);
    }
  }

  lemma {:induction false} Total(u: string, v: string)
    requires u != v
    ensures Less(u, v) || Less(v, u)
    decreases |u|
  {
    if |u| > 0 && |v| > 0 && u[0] == v[0] {
      assert u == [u[0]] + u[1..] && v == [v[0]] + v[1..];
      Total(u[1..], v[1..]);
    }
  }
}
