/**
  The filter the fetch handler applies to the response before storing it:
  every record whose lower-cased common name is "israel" is dropped, every
  other record is kept, in its original order.
 */
module Exclusion {
  import opened Countries

  /** `a` can be obtained from `b` by deleting elements, keeping order. */
  ghost predicate IsSubsequence<T>(a: seq<T>, b: seq<T>)
    decreases |b|
  {
    |a| == 0 ||
    (|b| > 0 &&
     ((a[0] == b[0] && IsSubsequence(a[1..], b[1..])) || IsSubsequence(a, b[1..])))
  }

  /** The records stored after a successful fetch of `xs`. */
  function Exclude(xs: seq<Country>): (r: seq<Country>)
    ensures |r| <= |xs|
    ensures forall c :: c in r ==> c in xs && !IsExcluded(c)
    ensures forall c :: c in xs && !IsExcluded(c) ==> c in r
  {
    if |xs| == 0 then []
    else if IsExcluded(xs[0]) then Exclude(xs[1..])
    else [xs[0]] + Exclude(xs[1..])
  }

  /** Filtering a concatenation filters each part. */
  lemma {:induction false} ExcludeAppend(a: seq<Country>, b: seq<Country>)
    ensures Exclude(a + b) == Exclude(a) + Exclude(b)
  {
    if |a| == 0 {
      assert a + b == b;
    } else {
      assert (a + b)[0] == a[0];
      assert (a + b)[1..] == a[1..] + b;
      ExcludeAppend(a[1..], b);
    }
  }

  /** The kept records appear in the input in the same relative order. */
  lemma {:induction false} ExcludeIsSubsequence(xs: seq<Country>)
    ensures IsSubsequence(Exclude(xs), xs)
  {
    if |xs| > 0 {
      ExcludeIsSubsequence(xs[1..]);
      var r := Exclude(xs);
      if !IsExcluded(xs[0]) {
        assert r[0] == xs[0] && r[1..] == Exclude(xs[1..]);
      }
    }
  }

  /** Every other record is kept as often as it occurs; excluded ones vanish. */
  lemma {:induction false} ExcludeCounts(xs: seq<Country>)
    ensures forall c :: !IsExcluded(c) ==> multiset(Exclude(xs))[c] == multiset(xs)[c]
    ensures forall c :: IsExcluded(c) ==> multiset(Exclude(xs))[c] == 0
  {
    if |xs| > 0 {
      ExcludeCounts(xs[1..]);
      assert xs == [xs[0]] + xs[1..];
      assert multiset(xs) == multiset([xs[0]]) + multiset(xs[1..]);
    }
  }

  /** The filter changes nothing exactly when nothing is excluded. */
  lemma {:induction false} ExcludeIsIdentityIff(xs: seq<Country>)
    ensures Exclude(xs) == xs <==> forall i :: 0 <= i < |xs| ==> !IsExcluded(xs[i])
  {
    if |xs| > 0 {
      ExcludeIsIdentityIff(xs[1..]);
      if IsExcluded(xs[0]) {
        assert |Exclude(xs)| < |xs|;
      } else {
        assert Exclude(xs) == [xs[0]] + Exclude(xs[1..]);
        if Exclude(xs) == xs {
          assert Exclude(xs[1..]) == xs[1..];
        }
        if forall i :: 0 <= i < |xs| ==> !IsExcluded(xs[i]) {
          assert forall i :: 0 <= i < |xs[1..]| ==> !IsExcluded(xs[1..][i]) by {
            forall i | 0 <= i < |xs[1..]| ensures !IsExcluded(xs[1..][i]) {
              assert xs[1..][i] == xs[i + 1];
            }
          }
        }
      }
    }
  }

  /** Filtering an already filtered list changes nothing. */
  lemma ExcludeIdempotent(xs: seq<Country>)
    ensures Exclude(Exclude(xs)) == Exclude(xs)
  {
  }

  /** The handler's `Array.prototype.filter` call, as the loop it performs. */
  method FilterResponse(xs: seq<Country>) returns (r: seq<Country>)
    ensures r == Exclude(xs)
  {
    r := [];
    var i := 0;
    while i < |xs|
      invariant 0 <= i <= |xs|
      invariant r == Exclude(xs[..i])
    {
      ExcludeAppend(xs[..i], [xs[i]]);
      assert xs[..i + 1] == xs[..i] + [xs[i]];
      if !IsExcluded(xs[i]) {
        r := r + [xs[i]];
      }
      i := i + 1;
    }
    assert xs[..i] == xs;
  }
}
