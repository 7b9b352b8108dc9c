/** Substring search on strings: where a pattern occurs, and the leftmost place it does. */
module Text {

  /** `p` occurs in `t` starting at position `i`. */
  predicate At(t: string, i: int, p: string) {
    0 <= i <= |t| - |p| && t[i..i + |p|] == p
  }

  /** The `in` operator on strings: `p` occurs somewhere in `t`. */
  predicate Occurs(p: string, t: string) {
    exists i | 0 <= i <= |t| :: At(t, i, p)
  }

  /** The leftmost occurrence of `p` at or after `i`, or -1. */
  function FindFrom(t: string, p: string, i: nat): (r: int)
    requires i <= |t|
    ensures r == -1 || (i <= r && At(t, r, p))
    ensures forall j | i <= j && (r == -1 || j < r) :: !At(t, j, p)
    decreases |t| - i
  {
    if At(t, i, p) then i
    else if i == |t| then -1
    else FindFrom(t, p, i + 1)
  }

  /** The leftmost occurrence of `p`, or -1 when there is none. */
  function Find(t: string, p: string): (r: int)
    ensures r == -1 <==> !Occurs(p, t)
    ensures r != -1 ==> At(t, r, p)
    ensures forall j | 0 <= j && (r == -1 || j < r) :: !At(t, j, p)
  {
    FindFrom(t, p, 0)
  }

  lemma AtIsPointwise(t: string, i: int, p: string)
    ensures At(t, i, p) <==> 0 <= i <= |t| - |p| && forall k | 0 <= k < |p| :: t[i + k] == p[k]
  {
    if 0 <= i <= |t| - |p| && forall k | 0 <= k < |p| :: t[i + k] == p[k] {
      assert t[i..i + |p|] == p;
    }
    if At(t, i, p) {
      forall k | 0 <= k < |p| ensures t[i + k] == p[k] {
        assert t[i..i + |p|][k] == p[k];
      }
    }
  }

  /** A pattern inside a slice is inside the whole. */
  lemma OccursInSlice(p: string, t: string, lo: nat, hi: nat)
    requires lo <= hi <= |t|
    requires Occurs(p, t[lo..hi])
    ensures Occurs(p, t)
  {
    var i :| 0 <= i <= hi - lo && At(t[lo..hi], i, p);
    AtIsPointwise(t[lo..hi], i, p);
    forall k | 0 <= k < |p| ensures t[lo + i + k] == p[k] {
      assert t[lo..hi][i + k] == p[k];
    }
    AtIsPointwise(t, lo + i, p);
    assert At(t, lo + i, p);
  }

  lemma OccursInPart(p: string, a: string, b: string, c: string)
    requires Occurs(p, b)
    ensures Occurs(p, a + b + c)
  {
    assert (a + b + c)[|a|..|a| + |b|] == b;
    OccursInSlice(p, a + b + c, |a|, |a| + |b|);
  }

  lemma OccursTransitive(p: string, q: string, t: string)
    requires Occurs(p, q) && Occurs(q, t)
    ensures Occurs(p, t)
  {
    var i :| 0 <= i <= |t| && At(t, i, q);
    OccursInSlice(p, t, i, i + |q|);
  }

  lemma OccursInItself(t: string)
    ensures Occurs(t, t)
  {
    assert At(t, 0, t);
  }

  lemma OccursNeedsRoom(p: string, t: string)
    requires Occurs(p, t)
    ensures |p| <= |t|
    ensures |p| == |t| ==> p == t
    ensures forall c | c in p :: c in t
  {
    var i :| 0 <= i <= |t| && At(t, i, p);
    if |p| == |t| { assert t[0..|t|] == t; }
    forall c | c in p ensures c in t {
      var k :| 0 <= k < |p| && p[k] == c;
      assert t[i..i + |p|][k] == t[i + k];
    }
  }
}
