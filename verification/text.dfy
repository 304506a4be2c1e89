/** Substring search on Python strings. */
module Text {

  /** `t` occurs in `s` starting at index `i`. */
  predicate OccursAt(s: string, t: string, i: int)
  {
    0 <= i && i + |t| <= |s| && s[i..i + |t|] == t
  }

  /** Python's `s.find(t)`: the first index at which `t` occurs in `s`, or -1. */
  function Find(s: string, t: string): (r: int)
    ensures r == -1 || OccursAt(s, t, r)
    ensures r == -1 ==> forall i :: !OccursAt(s, t, i)
    ensures forall i :: 0 <= i < r ==> !OccursAt(s, t, i)
    decreases |s|
  {
    if |t| > |s| then -1
    else if s[..|t|] == t then 0
    else
      var k := Find(s[1..], t);
      ShiftOccurs(s, t);
      if k == -1 then -1 else k + 1
  }

  /** An occurrence past the first character is an occurrence in the tail. */
  lemma ShiftOccurs(s: string, t: string)
    requires s != []
    ensures forall i :: 1 <= i ==> (OccursAt(s, t, i) <==> OccursAt(s[1..], t, i - 1))
  {
    forall i | 1 <= i ensures OccursAt(s, t, i) <==> OccursAt(s[1..], t, i - 1) {
      if i + |t| <= |s| {
        SliceShift(s, i, |t|);
      }
    }
  }

  /** A slice starting past the first character is the same slice of the tail. */
  lemma SliceShift(s: string, i: int, n: int)
    requires 1 <= i && 0 <= n && i + n <= |s|
    ensures s[i..i + n] == s[1..][i - 1..i - 1 + n]
  {
    var a, b := s[i..i + n], s[1..][i - 1..i - 1 + n];
    assert |a| == |b| == n;
    forall k | 0 <= k < n ensures a[k] == b[k] {
      assert a[k] == s[i + k];
      assert b[k] == s[1..][i - 1 + k] == s[i + k];
    }
  }

  /** `s` contains `t` somewhere, the source's `s.find(t) != -1`. */
  predicate Contains(s: string, t: string)
  {
    Find(s, t) != -1
  }
}
