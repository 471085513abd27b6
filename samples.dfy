/** Pure facts about the sample windows kept by both score managers: what a bounded FIFO
    retains, how many samples fall below a threshold, and the running maximum. */
module Samples {

  function Max(a: real, b: real): real
  {
    if a < b then b else a
  }

  /** The last `min(|h|, n)` elements of `h`: what an array that is pushed every element of `h`
      and shifted whenever it grows past `n` still holds. */
  function Retained<T>(h: seq<T>, n: nat): (r: seq<T>)
    ensures |r| == if |h| <= n then |h| else n
  {
    if |h| <= n then h else h[|h| - n..]
  }

  /** Pushing one element and then shifting once if the bound is exceeded keeps exactly the
      retained suffix of the longer history. */
  lemma RetainedPush<T>(h: seq<T>, n: nat, e: T)
    ensures |Retained(h, n)| < n ==> Retained(h + [e], n) == Retained(h, n) + [e]
    ensures |Retained(h, n)| == n ==> Retained(h + [e], n) == (Retained(h, n) + [e])[1..]
  {
    var w := Retained(h, n) + [e];
    var hh := h + [e];
    if |hh| <= n {
      assert Retained(h, n) == h;
    } else if |h| <= n {
      assert |h| == n && Retained(h, n) == h;
      assert w[1..] == hh[|hh| - n..];
    } else {
      assert w == hh[|hh| - n - 1..];
      assert w[1..] == hh[|hh| - n..];
    }
  }

  /** `s.filter(x => x < t).length`, counted from the back. */
  function BadCount(s: seq<real>, t: real): (n: nat)
    ensures n <= |s|
  {
    if s == [] then 0 else BadCount(s[..|s| - 1], t) + (if s[|s| - 1] < t then 1 else 0)
  }

  /** The positions of `s` holding a sample strictly below `t`: an independent reading of
      "bad samples". */
  ghost function BadIndices(s: seq<real>, t: real): set<nat>
  {
    set i: nat | i < |s| && s[i] < t
  }

  lemma {:induction false} BadCountIsCardinality(s: seq<real>, t: real)
    ensures BadCount(s, t) == |BadIndices(s, t)|
  {
    if s != [] {
      var p := s[..|s| - 1];
      BadCountIsCardinality(p, t);
      var last := |s| - 1;
      if s[last] < t {
        assert BadIndices(s, t) == BadIndices(p, t) + {last};
      } else {
        assert BadIndices(s, t) == BadIndices(p, t);
      }
    }
  }

  /** No bad sample at all exactly when the count is zero. */
  lemma {:induction false} BadCountZero(s: seq<real>, t: real)
    ensures BadCount(s, t) == 0 <==> forall i :: 0 <= i < |s| ==> s[i] >= t
  {
    if s != [] {
      var p := s[..|s| - 1];
      BadCountZero(p, t);
      assert forall i :: 0 <= i < |p| ==> p[i] == s[i];
    }
  }

  /** `filter(Boolean).length` over the multiple-face flags. */
  function TrueCount(f: seq<bool>): (n: nat)
    ensures n <= |f|
  {
    if f == [] then 0 else TrueCount(f[..|f| - 1]) + (if f[|f| - 1] then 1 else 0)
  }

  /** Every flag is set exactly when all of them are counted. */
  lemma {:induction false} TrueCountAll(f: seq<bool>)
    ensures TrueCount(f) == |f| <==> forall i :: 0 <= i < |f| ==> f[i]
  {
    if f != [] {
      var p := f[..|f| - 1];
      TrueCountAll(p);
      assert forall i :: 0 <= i < |p| ==> p[i] == f[i];
    }
  }

  /** The largest of 0 and every element of `h`: the value a running maximum that starts at 0
      holds after seeing `h`. */
  function MaxFrom0(h: seq<real>): (m: real)
    ensures m >= 0.0
  {
    if h == [] then 0.0 else Max(MaxFrom0(h[..|h| - 1]), h[|h| - 1])
  }

  /** It is an upper bound of every sample and is either 0 or one of them. */
  lemma {:induction false} MaxFrom0IsMaximum(h: seq<real>)
    ensures forall i :: 0 <= i < |h| ==> h[i] <= MaxFrom0(h)
    ensures MaxFrom0(h) == 0.0 || MaxFrom0(h) in h
  {
    if h != [] {
      var p := h[..|h| - 1];
      MaxFrom0IsMaximum(p);
      assert forall i :: 0 <= i < |p| ==> p[i] == h[i];
      assert MaxFrom0(p) in p ==> MaxFrom0(p) in h;
    }
  }

  /** The running maximum never decreases as samples arrive. */
  lemma MaxFrom0Grows(h: seq<real>, e: real)
    ensures MaxFrom0(h + [e]) == Max(MaxFrom0(h), e)
    ensures MaxFrom0(h) <= MaxFrom0(h + [e])
  {
    assert (h + [e])[..|h|] == h;
  }
}
