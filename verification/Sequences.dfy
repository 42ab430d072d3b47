/** Facts about slices that the verifier wants to be reminded of. */
module Sequences {
  lemma SliceOfSlice<T>(s: seq<T>, o: nat, e: nat, i: nat, j: nat)
    requires o <= e <= |s| && i <= j <= e - o
    ensures s[o + i..o + j] == s[o..e][i..j]
  {
    var (a, b) := (s[o + i..o + j], s[o..e][i..j]);
    forall k | 0 <= k < j - i ensures a[k] == b[k] {
      assert s[o..e][i + k] == s[o + (i + k)];
    }
    assert a == b;
  }

  lemma Regroup<T>(a: seq<T>, b: seq<T>, c: seq<T>, d: seq<T>)
    ensures a + (b + c + d) == a + b + c + d
  {
  }

  lemma TailOfSlice<T>(s: seq<T>, o: nat, e: nat, i: nat)
    requires o + i <= e <= |s|
    ensures s[o..e][i..] == s[o + i..e]
  {
    SliceOfSlice(s, o, e, i, e - o);
  }

  lemma SameMiddle<T>(front: seq<T>, a: seq<T>, b: seq<T>, last: seq<T>)
    requires |a| == |b|
    ensures front + a + last == front + b + last <==> a == b
  {
    assert (front + a + last)[|front|..|front| + |a|] == a;
    assert (front + b + last)[|front|..|front| + |b|] == b;
  }
}
