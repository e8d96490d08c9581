/** Puncturing drops the cells a rising list of indices names; unpuncturing puts an undecided
    soft bit back in each place (nopebts/CommonLibs/BitVector.cpp). */
module Punctures {
  import opened Collections

  const UNDECIDED: real := 0.5

  predicate Rising(p: seq<nat>, size: nat) {
    (forall i :: 0 <= i < |p| ==> p[i] < size) && forall i, j :: 0 <= i < j < |p| ==> p[i] < p[j]
  }

  /** The first i names are behind cell at, the others are not. */
  predicate Passed(p: seq<nat>, i: nat, at: nat) {
    && i <= |p|
    && (forall j :: 0 <= j < i ==> p[j] < at)
    && forall j :: i <= j < |p| ==> at <= p[j]
  }

  /** The cells of s from index from on that p does not name */
  function Kept<T>(s: seq<T>, from: nat, p: seq<nat>): seq<T>
    decreases |s| - from
  {
    if from >= |s| then []
    else if from in p then Kept(s, from + 1, p)
    else [s[from]] + Kept(s, from + 1, p)
  }

  /** The soft bits from index from up to index size: those that p names undecided, those of d in
      the others, while there are any */
  function Spread(d: seq<real>, from: nat, size: nat, p: seq<nat>): seq<real>
    decreases size - from
  {
    if from >= size then []
    else if from in p then [UNDECIDED] + Spread(d, from + 1, size, p)
    else if d == [] then []
    else [d[0]] + Spread(d[1..], from + 1, size, p)
  }

  lemma {:induction false} KeptRun(s: seq<bool>, from: nat, n: nat, p: seq<nat>)
    requires from + n <= |s| && forall k :: from <= k < from + n ==> k !in p
    ensures Kept(s, from, p) == s[from..from + n] + Kept(s, from + n, p)
    decreases n
  {
    if n > 0 {
      assert Kept(s, from, p) == [s[from]] + Kept(s, from + 1, p);
      hide Kept;
      KeptRun(s, from + 1, n - 1, p);
      var rest := Kept(s, from + n, p);
      Regroup([s[from]], s[from + 1..from + n], rest);
      assert s[from..from + n] == [s[from]] + s[from + 1..from + n];
    }
  }

  lemma KeptNamed(s: seq<bool>, i: nat, p: seq<nat>)
    requires i < |s| && i in p
    ensures Kept(s, i, p) == Kept(s, i + 1, p)
  {
  }

  lemma {:induction false} SpreadRun(d: seq<real>, from: nat, size: nat, n: nat, p: seq<nat>)
    requires from + n <= size && n <= |d| && forall k :: from <= k < from + n ==> k !in p
    ensures Spread(d, from, size, p) == d[..n] + Spread(d[n..], from + n, size, p)
    decreases n
  {
    if n == 0 {
      assert d[0..] == d;
    } else {
      SpreadRun(d[1..], from + 1, size, n - 1, p);
      var rest := Spread(d[n..], from + n, size, p);
      assert d[1..][n - 1..] == d[n..];
      assert Spread(d, from, size, p) == [d[0]] + (d[1..][..n - 1] + rest);
      hide Spread;
      Regroup([d[0]], d[1..][..n - 1], rest);
      assert d[..n] == [d[0]] + d[1..][..n - 1];
    }
  }

  /** The names still ahead fit into the cells still ahead. */
  lemma {:induction false} RoomAhead(p: seq<nat>, i: nat, size: nat)
    requires Rising(p, size) && i < |p|
    ensures p[i] + (|p| - i) <= size
    decreases |p| - i
  {
    if i + 1 < |p| {
      RoomAhead(p, i + 1, size);
    }
  }

  lemma NextName(p: seq<nat>, i: nat, at: nat, size: nat)
    requires Rising(p, size) && Passed(p, i, at)
    ensures i < |p| ==> p[i] + (|p| - i) <= size && Passed(p, i + 1, p[i] + 1) && p[i] in p
    ensures at <= size ==> (i == |p| ==> Passed(p, i, size)) && (at == size ==> i == |p|)
    ensures forall k :: at <= k < (if i < |p| then p[i] else size) ==> k !in p
  {
    if i < |p| {
      RoomAhead(p, i, size);
    }
  }

  /** n cells, one after the other */
  method CopyRun<T>(src: array<T>, srcp: nat, dst: array<T>, dstp: nat, n: nat) returns (end: nat)
    requires dst != src && srcp + n <= src.Length && dstp + n <= dst.Length
    modifies dst
    ensures end == dstp + n && dst[..end] == old(dst[..dstp]) + src[..][srcp..srcp + n]
  {
    for i := 0 to n
      invariant dst[..dstp + i] == old(dst[..dstp]) + src[srcp..srcp + i]
    {
      dst[dstp + i] := src[srcp + i];
    }
    end := dstp + n;
  }

  /** dst receives, in order, the cells that puncture does not name. */
  method CopyPunctured(src: array<bool>, dst: array<bool>, puncture: seq<nat>)
    requires src.Length - |puncture| == dst.Length && dst != src && Rising(puncture, src.Length)
    modifies dst
    ensures dst[..] == Kept(src[..], 0, puncture)
  {
    var srcp: nat, dstp: nat, pp: nat := 0, 0, 0;
    ghost var s := src[..];
    assert Passed(puncture, 0, 0) && Kept(s, |s|, puncture) == [];
    hide Kept, Rising, Passed;
    while srcp < src.Length
      invariant src[..] == s && srcp <= src.Length && Passed(puncture, pp, srcp)
      invariant dstp == srcp - pp && dstp <= dst.Length
      invariant dst[..dstp] + Kept(s, srcp, puncture) == Kept(s, 0, puncture)
      decreases src.Length - srcp
    {
      NextName(puncture, pp, srcp, |s|);
      ghost var before := dst[..dstp];
      ghost var from := srcp;
      if pp < |puncture| {
        var n := puncture[pp] - srcp;
        pp := pp + 1;
        KeptRun(s, from, n, puncture);
        KeptNamed(s, from + n, puncture);
        Regroup(before, s[from..from + n], Kept(s, from + n, puncture));
        dstp := CopyRun(src, srcp, dst, dstp, n);
        srcp := srcp + n;
        srcp := srcp + 1;
      } else {
        KeptRun(s, from, |s| - from, puncture);
        Regroup(before, s[from..|s|], Kept(s, |s|, puncture));
        dstp := CopyRun(src, srcp, dst, dstp, src.Length - srcp);
        srcp := src.Length;
      }
    }
    NextName(puncture, pp, srcp, |s|);
  }

  lemma SpreadNamed(s: seq<real>, i: nat, at: nat, size: nat, p: seq<nat>, n: nat)
    requires i + n <= |s| && at + n < size && at + n in p && forall k :: at <= k < at + n ==> k !in p
    ensures Spread(s[i..], at, size, p) == s[i..i + n] + [UNDECIDED] + Spread(s[i + n..], at + n + 1, size, p)
  {
    var d := s[i..];
    SpreadRun(d, at, size, n, p);
    assert d[n..] == s[i + n..] && d[..n] == s[i..i + n];
    var rest := Spread(s[i + n..], at + n + 1, size, p);
    assert Spread(d[n..], at + n, size, p) == [UNDECIDED] + rest;
    hide Spread;
    Regroup(s[i..i + n], [UNDECIDED], rest);
  }

  lemma SpreadStep(s: seq<real>, i: nat, at: nat, size: nat, p: seq<nat>, n: nat, before: seq<real>)
    requires i + n <= |s| && at + n < size && at + n in p && forall k :: at <= k < at + n ==> k !in p
    ensures before + Spread(s[i..], at, size, p) ==
      (before + (s[i..i + n] + [UNDECIDED])) + Spread(s[i + n..], at + n + 1, size, p)
  {
    hide Spread;
    SpreadNamed(s, i, at, size, p, n);
    Regroup(before, s[i..i + n] + [UNDECIDED], Spread(s[i + n..], at + n + 1, size, p));
  }

  lemma SpreadLast(s: seq<real>, i: nat, at: nat, size: nat, p: seq<nat>)
    requires i <= |s| && at + (|s| - i) == size && forall k :: at <= k < size ==> k !in p
    ensures Spread(s[i..], at, size, p) == s[i..|s|]
  {
    SpreadRun(s[i..], at, size, |s| - i, p);
  }

  /** dst receives the soft bits of src in order, with an undecided one at each name. */
  method CopyUnPunctured(src: array<real>, dst: array<real>, puncture: seq<nat>)
    requires src.Length + |puncture| == dst.Length && dst != src && Rising(puncture, dst.Length)
    modifies dst
    ensures dst[..] == Spread(src[..], 0, dst.Length, puncture)
  {
    var srcp: nat, dstp: nat, pp: nat := 0, 0, 0;
    ghost var s, size := src[..], dst.Length;
    assert s[0..] == s && Passed(puncture, 0, 0) && Spread([], size, size, puncture) == [];
    ghost var want := Spread(s, 0, size, puncture);
    hide Spread, Rising, Passed;
    while dstp < dst.Length
      invariant src[..] == s && dstp <= dst.Length && Passed(puncture, pp, dstp)
      invariant srcp == dstp - pp && srcp <= src.Length
      invariant dst[..dstp] + Spread(s[srcp..], dstp, size, puncture) == want
      decreases dst.Length - dstp
    {
      NextName(puncture, pp, dstp, size);
      ghost var before := dst[..dstp];
      if pp < |puncture| {
        var n := puncture[pp] - dstp;
        pp := pp + 1;
        SpreadStep(s, srcp, dstp, size, puncture, n, before);
        dstp := CopyThenUndecided(src, srcp, dst, dstp, n);
        srcp := srcp + n;
        assert dst[..dstp] + Spread(s[srcp..], dstp, size, puncture) == want;
      } else {
        SpreadLast(s, srcp, dstp, size, puncture);
        dstp := CopyRun(src, srcp, dst, dstp, src.Length - srcp);
        srcp := src.Length;
        assert s[srcp..] == [];
        assert dst[..dstp] + Spread(s[srcp..], dstp, size, puncture) == dst[..dstp] == want;
      }
    }
    NextName(puncture, pp, dstp, size);
    assert s[srcp..] == [];
  }

  method CopyThenUndecided(src: array<real>, srcp: nat, dst: array<real>, dstp: nat, n: nat) returns (end: nat)
    requires dst != src && srcp + n <= src.Length && dstp + n < dst.Length
    modifies dst
    ensures end == dstp + n + 1 && dst[..end] == old(dst[..dstp]) + (src[..][srcp..srcp + n] + [UNDECIDED])
  {
    end := CopyRun(src, srcp, dst, dstp, n);
    dst[end] := UNDECIDED;
    end := end + 1;
  }

  // ---------------------------------------------------------------- round trips

  /** A bit is the soft bit 0 or 1. */
  function Soft(b: bool): real {
    if b then 1.0 else 0.0
  }

  function SoftBits(bits: seq<bool>): (r: seq<real>)
    ensures |r| == |bits| && forall i :: 0 <= i < |bits| ==> r[i] == Soft(bits[i])
  {
    seq(|bits|, i requires 0 <= i < |bits| => Soft(bits[i]))
  }

  /** Unpuncturing what puncturing left restores every bit that was not named and is undecided at
      those that were. */
  lemma {:induction false} PunctureRoundTrip(bits: seq<bool>, from: nat, p: seq<nat>)
    requires from <= |bits|
    ensures var r := Spread(SoftBits(Kept(bits, from, p)), from, |bits|, p);
      && |r| == |bits| - from
      && forall k :: from <= k < |bits| ==> r[k - from] == if k in p then 0.5 else if bits[k] then 1.0 else 0.0
    decreases |bits| - from
  {
    if from < |bits| {
      PunctureRoundTrip(bits, from + 1, p);
      var kept, rest := Kept(bits, from, p), Kept(bits, from + 1, p);
      assert from !in p ==> SoftBits(kept)[1..] == SoftBits(rest);
    }
  }

  /** The cells from one index up to another that p does not name */
  function Unnamed(from: nat, size: nat, p: seq<nat>): nat
    decreases size - from
  {
    if from >= size then 0 else (if from in p then 0 else 1) + Unnamed(from + 1, size, p)
  }

  /** And puncturing what was unpunctured gives the soft bits back; prefix stands for the cells
      already dealt with. */
  lemma {:induction false} UnpunctureRoundTrip(d: seq<real>, prefix: seq<real>, size: nat, p: seq<nat>)
    requires |prefix| <= size && |d| == Unnamed(|prefix|, size, p)
    ensures Kept(prefix + Spread(d, |prefix|, size, p), |prefix|, p) == d
    decreases size - |prefix|
  {
    if |prefix| == size {
      assert d == [] && prefix + [] == prefix;
    } else {
      var from := |prefix|;
      var named := from in p;
      var cell := if named then UNDECIDED else d[0];
      var rest := if named then d else d[1..];
      var longer, tail := prefix + [cell], Spread(rest, from + 1, size, p);
      var all := longer + tail;
      assert Spread(d, from, size, p) == [cell] + tail;
      assert |longer| == from + 1 && all[from] == cell;
      assert Kept(all, from, p) == (if named then [] else [cell]) + Kept(all, from + 1, p);
      UnpunctureRoundTrip(rest, longer, size, p);
      hide Spread, Kept, Unnamed;
      Regroup(prefix, [cell], tail);
    }
  }

  /** The names not passed and the cells not named make up the cells ahead. */
  lemma {:induction false} UnnamedCount(p: seq<nat>, i: nat, from: nat, size: nat)
    requires Rising(p, size) && Passed(p, i, from) && from <= size
    ensures Unnamed(from, size, p) + (|p| - i) == size - from
    decreases size - from
  {
    if from < size {
      var named := i < |p| && p[i] == from;
      assert named <==> from in p;
      UnnamedCount(p, if named then i + 1 else i, from + 1, size);
    }
  }

  /** CopyUnPunctured fills its target, and taking the named cells out again gives its source. */
  lemma UnpunctureFits(d: seq<real>, p: seq<nat>, size: nat)
    requires |d| + |p| == size && Rising(p, size)
    ensures |Spread(d, 0, size, p)| == size && Kept(Spread(d, 0, size, p), 0, p) == d
    ensures forall k <- p :: k < size && Spread(d, 0, size, p)[k] == 0.5
  {
    UnnamedCount(p, 0, 0, size);
    UnpunctureRoundTrip(d, [], size, p);
    SpreadLength(d, 0, size, p);
    assert [] + Spread(d, 0, size, p) == Spread(d, 0, size, p);
  }

  lemma {:induction false} SpreadLength(d: seq<real>, from: nat, size: nat, p: seq<nat>)
    requires from <= size && |d| == Unnamed(from, size, p)
    ensures |Spread(d, from, size, p)| == size - from
    ensures forall k :: from <= k < size && k in p ==> Spread(d, from, size, p)[k - from] == 0.5
    decreases size - from
  {
    if from < size {
      SpreadLength(if from in p then d else d[1..], from + 1, size, p);
    }
  }

  lemma {:induction false} KeptLength(s: seq<bool>, from: nat, p: seq<nat>)
    requires from <= |s|
    ensures |Kept(s, from, p)| == Unnamed(from, |s|, p)
    decreases |s| - from
  {
    if from < |s| {
      KeptLength(s, from + 1, p);
    }
  }

  /** CopyPunctured fills its target, and CopyUnPunctured puts each bit back where it was. */
  lemma PunctureFits(bits: seq<bool>, p: seq<nat>)
    requires Rising(p, |bits|)
    ensures var kept := Kept(bits, 0, p);
      && |kept| == |bits| - |p|
      && Spread(SoftBits(kept), 0, |bits|, p) ==
         seq(|bits|, k requires 0 <= k < |bits| => if k in p then 0.5 else if bits[k] then 1.0 else 0.0)
  {
    UnnamedCount(p, 0, 0, |bits|);
    hide Kept, Spread, SoftBits;
    KeptLength(bits, 0, p);
    PunctureRoundTrip(bits, 0, p);
  }
}
