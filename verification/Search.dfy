/** Leftmost substring search, as `indexOf` of strings and of buffers performs it. */
module Search {

  /** `d` occurs in `s` at position `p`. */
  predicate OccursAt<T(==)>(s: seq<T>, d: seq<T>, p: nat) {
    p + |d| <= |s| && s[p..p + |d|] == d
  }

  predicate Contains<T(==)>(s: seq<T>, d: seq<T>) {
    IndexOf(s, d) >= 0
  }

  /** The leftmost position at which `d` occurs in `s`, or -1. */
  function IndexOf<T(==)>(s: seq<T>, d: seq<T>): (r: int)
    ensures -1 <= r
    ensures r >= 0 ==> OccursAt(s, d, r)
    ensures forall p: nat :: OccursAt(s, d, p) ==> 0 <= r <= p
  {
    IndexFrom(s, d, 0)
  }

  function IndexFrom<T(==)>(s: seq<T>, d: seq<T>, from: nat): (r: int)
    ensures r == -1 || (from <= r && OccursAt(s, d, r))
    ensures forall p: nat :: from <= p && OccursAt(s, d, p) ==> 0 <= r <= p
    decreases |s| - from
  {
    if |s| < from + |d| then -1
    else if OccursAt(s, d, from) then from
    else if from == |s| then -1
    else IndexFrom(s, d, from + 1)
  }

  /** An occurrence that lies wholly in a prefix is not moved by what follows the prefix. */
  lemma IndexOfPrefix<T>(s: seq<T>, x: seq<T>, d: seq<T>)
    requires IndexOf(s, d) >= 0
    ensures IndexOf(s + x, d) == IndexOf(s, d)
  {
    var p := IndexOf(s, d);
    assert OccursAt(s + x, d, p);
    var q := IndexOf(s + x, d);
    assert (s + x)[q..q + |d|] == s[q..q + |d|];
    assert OccursAt(s, d, q);
  }

  /** Elements that differ from the first element of `d` can be stepped over. */
  lemma IndexOfSkip<T>(x: seq<T>, s: seq<T>, d: seq<T>)
    requires d != [] && d[0] !in x
    ensures IndexOf(x + s, d) == if IndexOf(s, d) < 0 then -1 else |x| + IndexOf(s, d)
  {
    forall p: nat
      ensures OccursAt(x + s, d, p) <==> p >= |x| && OccursAt(s, d, p - |x|)
    {
      if p >= |x| {
        if p + |d| <= |x + s| {
          assert (x + s)[p..p + |d|] == s[p - |x|..p - |x| + |d|];
        }
      } else if p + |d| <= |x + s| {
        assert (x + s)[p..p + |d|][0] == x[p];
      }
    }
    assert forall p: nat :: OccursAt(s, d, p) ==> OccursAt(x + s, d, p + |x|);
  }

  /** `k` is the length of a border of `d`: a proper non-empty prefix that is also a suffix. */
  predicate IsBorder<T(==)>(d: seq<T>, k: nat) {
    0 < k < |d| && d[..k] == d[|d| - k..]
  }

  predicate Borderless<T(==)>(d: seq<T>) {
    forall k: nat | 0 < k < |d| :: !IsBorder(d, k)
  }

  /** If `d` has no border, a `d`-free message followed by `d` holds `d` only at its very end. */
  lemma BorderlessFirst<T>(m: seq<T>, d: seq<T>)
    requires d != [] && Borderless(d) && !Contains(m, d)
    ensures IndexOf(m + d, d) == |m|
  {
    assert OccursAt(m + d, d, |m|);
    var p := IndexOf(m + d, d);
    if p < |m| {
      EarlierOccurrence(m, d, p);
    }
  }

  /** An occurrence before the end lies in the message or overlaps the end in a border. */
  lemma EarlierOccurrence<T>(m: seq<T>, d: seq<T>, p: nat)
    requires p < |m| && OccursAt(m + d, d, p)
    ensures if p + |d| <= |m| then OccursAt(m, d, p) else IsBorder(d, p + |d| - |m|)
  {
    var s := m + d;
    if p + |d| <= |m| {
      assert s[p..p + |d|] == m[p..p + |d|];
    } else {
      var k := p + |d| - |m|;
      assert d[|d| - k..] == s[p..p + |d|][|d| - k..] == s[|m|..|m| + k] == d[..k];
    }
  }

  /** If `d` has a border of length `k`, the part of `d` before it is a message that `d` breaks. */
  lemma BorderBreaks<T>(d: seq<T>, k: nat)
    requires IsBorder(d, k)
    ensures var m := d[..|d| - k]; m != [] && !Contains(m, d) && IndexOf(m + d, d) == 0
  {
    var m := d[..|d| - k];
    var s := m + d;
    forall i | 0 <= i < |d|
      ensures s[i] == d[i]
    {
      if i >= |m| {
        assert s[i] == d[..k][i - |m|];
        assert d[i] == d[|d| - k..][i - |m|];
      }
    }
    assert s[0..|d|] == d;
    assert OccursAt(s, d, 0);
  }
}
