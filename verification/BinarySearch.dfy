/** ossl_bsearch: binary search with the options to take the first of several matches
    and to return a neighbour when there is none. */
module BinarySearch {
  import opened Options

  /** `cmp(x)` compares the key with element x; along the array it goes from positive
      over zero to negative. */
  ghost predicate SortedFor<T>(a: seq<T>, cmp: T -> int) {
    forall i, j :: 0 <= i < j < |a| ==> (cmp(a[i]) <= 0 ==> cmp(a[j]) <= 0) && (cmp(a[i]) < 0 ==> cmp(a[j]) < 0)
  }

  ghost predicate Found<T>(a: seq<T>, cmp: T -> int) {
    exists i :: 0 <= i < |a| && cmp(a[i]) == 0
  }

  /** Element `i` is next to the place where the key would have to be inserted. */
  ghost predicate NextToGap<T>(a: seq<T>, cmp: T -> int, i: nat)
    requires i < |a|
  {
    || (cmp(a[i]) < 0 && forall j :: 0 <= j < i ==> cmp(a[j]) > 0)
    || (cmp(a[i]) > 0 && forall j :: i < j < |a| ==> cmp(a[j]) < 0)
  }

  /** The sum of the two bounds is computed in a 32-bit int. */
  method Bsearch<T>(a: seq<T>, cmp: T -> int, valueOnNoMatch: bool, firstValueOnMatch: bool) returns (r: Option<nat>)
    requires SortedFor(a, cmp) && |a| <= 0x4000_0000
    ensures r.Some? ==> r.value < |a|
    ensures Found(a, cmp) <==> r.Some? && cmp(a[r.value]) == 0
    ensures Found(a, cmp) && firstValueOnMatch ==> forall j :: 0 <= j < r.value ==> cmp(a[j]) != 0
    ensures !Found(a, cmp) ==> (r.Some? <==> valueOnNoMatch && |a| > 0)
    ensures !Found(a, cmp) && r.Some? ==> NextToGap(a, cmp, r.value)
  {
    if |a| == 0 {
      return None;
    }
    var l, h, i, c := 0, |a|, 0, 0;
    while l < h
      invariant 0 <= l <= h <= |a| && 0 <= i < |a|
      invariant forall j :: 0 <= j < l ==> cmp(a[j]) > 0
      invariant forall j :: h <= j < |a| ==> cmp(a[j]) < 0
      invariant l == h ==> c != 0
      invariant c == 0 ==> l == 0 && h == |a|
      invariant c < 0 ==> i == h && cmp(a[i]) < 0
      invariant c > 0 ==> i == l - 1 && cmp(a[i]) > 0
      decreases h - l
    {
      i := (l + h) / 2;
      c := cmp(a[i]);
      if c < 0 {
        h := i;
      } else if c > 0 {
        l := i + 1;
      } else {
        break;
      }
    }
    if c != 0 {
      assert forall j :: 0 <= j < |a| ==> cmp(a[j]) != 0;
      return if valueOnNoMatch then Some(i) else None;
    }
    if firstValueOnMatch {
      while i > 0 && cmp(a[i - 1]) == 0
        invariant 0 <= i < |a| && cmp(a[i]) == 0
      {
        i := i - 1;
      }
      assert forall j :: 0 <= j < i ==> cmp(a[j]) > 0;
    }
    return Some(i);
  }
}
