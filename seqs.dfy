/** `Array.prototype.filter` and the concatenation of a list of pages. */
module Seqs {

  /** `s.filter(p)`: the elements satisfying `p`, in their original order. */
  function Filter<T>(s: seq<T>, p: T -> bool): (r: seq<T>)
    ensures |r| <= |s|
    ensures forall i :: 0 <= i < |r| ==> p(r[i]) && r[i] in s
    ensures forall i :: 0 <= i < |s| && p(s[i]) ==> s[i] in r
  {
    if s == [] then [] else (if p(s[0]) then [s[0]] else []) + Filter(s[1..], p)
  }

  /** Filtering distributes over concatenation, so it never reorders what it keeps. */
  lemma {:induction false} FilterAppend<T>(s: seq<T>, t: seq<T>, p: T -> bool)
    ensures Filter(s + t, p) == Filter(s, p) + Filter(t, p)
  {
    if s == [] {
      assert s + t == t;
    } else {
      assert (s + t)[1..] == s[1..] + t;
      FilterAppend(s[1..], t, p);
    }
  }

  /** Two filters in a row keep what one filter with both conditions keeps. */
  lemma {:induction false} FilterFilter<T>(s: seq<T>, p: T -> bool, q: T -> bool, pq: T -> bool)
    requires forall x :: pq(x) == (p(x) && q(x))
    ensures Filter(Filter(s, p), q) == Filter(s, pq)
  {
    if s != [] {
      FilterFilter(s[1..], p, q, pq);
      var head := if p(s[0]) then [s[0]] else [];
      FilterAppend(head, Filter(s[1..], p), q);
      if p(s[0]) { assert head[1..] == []; }
    }
  }

  /** A filter that every element passes keeps everything. */
  lemma {:induction false} FilterAll<T>(s: seq<T>, p: T -> bool)
    requires forall i :: 0 <= i < |s| ==> p(s[i])
    ensures Filter(s, p) == s
  {
    if s != [] {
      FilterAll(s[1..], p);
    }
  }

  /** `r` sits in `s` at the increasing positions `idx`: `r` is a subsequence of `s`, in order. */
  ghost predicate PositionsOf<T>(idx: seq<nat>, s: seq<T>, r: seq<T>)
  {
    && |idx| == |r|
    && (forall i :: 0 <= i < |idx| ==> idx[i] < |s| && s[idx[i]] == r[i])
    && (forall i, j :: 0 <= i < j < |idx| ==> idx[i] < idx[j])
  }

  /** Putting `x` in front of `s` shifts the positions by one, and `x`, if kept, takes position 0. */
  lemma PositionsCons<T>(x: T, s: seq<T>, r: seq<T>, rest: seq<nat>, keep: bool) returns (idx: seq<nat>)
    requires PositionsOf(rest, s, r)
    ensures PositionsOf(idx, [x] + s, if keep then [x] + r else r)
  {
    var xs := [x] + s;
    var shifted := seq(|rest|, i requires 0 <= i < |rest| => rest[i] + 1);
    forall i | 0 <= i < |shifted| ensures shifted[i] < |xs| && xs[shifted[i]] == r[i] {
      assert xs[rest[i] + 1] == s[rest[i]];
    }
    if keep {
      idx := [0] + shifted;
      var kr := [x] + r;
      forall i | 0 <= i < |idx| ensures idx[i] < |xs| && xs[idx[i]] == kr[i] {
        if i > 0 { assert idx[i] == shifted[i - 1] && kr[i] == r[i - 1]; }
      }
      forall i, j | 0 <= i < j < |idx| ensures idx[i] < idx[j] {
        assert idx[j] == shifted[j - 1];
        if i > 0 { assert idx[i] == shifted[i - 1]; }
      }
    } else {
      idx := shifted;
    }
  }

  /** The filter keeps its elements in their original order. */
  lemma {:induction false} FilterPositions<T>(s: seq<T>, p: T -> bool) returns (idx: seq<nat>)
    ensures PositionsOf(idx, s, Filter(s, p))
  {
    if s == [] {
      idx := [];
    } else {
      var rest := FilterPositions(s[1..], p);
      idx := PositionsCons(s[0], s[1..], Filter(s[1..], p), rest, p(s[0]));
      assert [s[0]] + s[1..] == s;
      assert Filter(s, p) == if p(s[0]) then [s[0]] + Filter(s[1..], p) else Filter(s[1..], p);
    }
  }

  function Flatten<T>(ss: seq<seq<T>>): (r: seq<T>)
  {
    if ss == [] then [] else ss[0] + Flatten(ss[1..])
  }

  /** The concatenation of `[h] + rest` is `h` followed by the concatenation of `rest`. */
  lemma FlattenCons<T>(ss: seq<seq<T>>, h: seq<T>, rest: seq<seq<T>>)
    requires ss == [h] + rest
    ensures Flatten(ss) == h + Flatten(rest)
  {
    assert ss[0] == h && ss[1..] == rest;
  }

  /** A sequence made of `s[i..j]` followed by `s[j..]` is `s[i..]`. */
  lemma SliceJoin<T>(s: seq<T>, i: nat, j: nat, whole: seq<T>, tail: seq<T>)
    requires i <= j <= |s| && whole == s[i..j] + tail && tail == s[j..]
    ensures whole == s[i..]
  {
    assert s[i..] == s[i..j] + s[j..];
  }
}
