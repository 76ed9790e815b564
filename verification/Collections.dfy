/** Facts about sequences and sets that several modules need. */
module Collections {
  lemma JoinAssoc<T>(a: seq<T>, b: seq<T>, c: seq<T>)
    ensures a + (b + c) == a + b + c
  {
  }

  /** Where a known stretch lies in s, a part of it is the same part of s. */
  lemma SliceOfSlice<T>(s: seq<T>, i: nat, x: seq<T>, a: nat, b: nat)
    requires i + |x| <= |s| && s[i..i + |x|] == x && a <= b <= |x|
    ensures s[i + a..i + b] == x[a..b]
  {
    forall k | 0 <= k < b - a
      ensures s[i + a..i + b][k] == x[a..b][k]
    {
      assert s[i..i + |x|][a + k] == s[i + a + k];
    }
  }

  lemma {:induction false} Fewer<T>(small: set<T>, large: set<T>)
    requires small <= large
    ensures |small| <= |large|
    decreases small
  {
    if small != {} {
      var x :| x in small;
      Fewer(small - {x}, large - {x});
    }
  }
}
