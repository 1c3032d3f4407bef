/**
 Prefix codes over bytes. The log's repair parser and the connection's unpacker both cut whole
 frames off the head of a buffer; this module states once what "the longest prefix made of whole
 frames" means and proves it of any such cutter.
 */
module Framing {
  import opened Bytes

  /** The size of the whole frame at the head of a buffer, 0 when there is none. */
  type Cutter = seq<byte> -> nat

  /** A cutter decides by the frame's own bytes: more or fewer bytes behind the frame change nothing. */
  ghost predicate PrefixCode(cut: Cutter) {
    && (forall b :: cut(b) <= |b|)
    && (forall b, c :: cut(b) > 0 ==> cut(b + c) == cut(b))
    && (forall b, n {:trigger cut(b[..n])} :: 0 < cut(b) <= n <= |b| ==> cut(b[..n]) == cut(b))
  }

  function Concat(parts: seq<seq<byte>>): seq<byte> {
    if parts == [] then [] else parts[0] + Concat(parts[1..])
  }

  ghost predicate AllFrames(cut: Cutter, frames: seq<seq<byte>>) {
    forall i :: 0 <= i < |frames| ==> 0 < |frames[i]| == cut(frames[i])
  }

  /** `b` is a sequence of whole frames. */
  ghost predicate Framed(cut: Cutter, b: seq<byte>) {
    exists frames: seq<seq<byte>> :: AllFrames(cut, frames) && Concat(frames) == b
  }

  /** The length that cutting frame after frame consumes. */
  ghost function WholeLen(cut: Cutter, b: seq<byte>): (n: nat)
    ensures n <= |b|
    decreases |b|
  {
    if 0 < cut(b) <= |b| then cut(b) + WholeLen(cut, b[cut(b)..]) else 0
  }

  lemma {:induction false} WholeLenOfFrames(cut: Cutter, frames: seq<seq<byte>>, tail: seq<byte>)
    requires PrefixCode(cut) && AllFrames(cut, frames)
    ensures WholeLen(cut, Concat(frames) + tail) == |Concat(frames)| + WholeLen(cut, tail)
  {
    if frames == [] {
      assert Concat(frames) + tail == tail;
    } else {
      var f, rest := frames[0], Concat(frames[1..]) + tail;
      assert Concat(frames) + tail == f + rest;
      assert cut(f + rest) == |f|;
      assert (f + rest)[|f|..] == rest;
      WholeLenOfFrames(cut, frames[1..], tail);
    }
  }

  /** Cutting consumes whole frames, and what is left does not start with one. */
  lemma {:induction false} WholePrefixIsFramed(cut: Cutter, b: seq<byte>) returns (frames: seq<seq<byte>>)
    requires PrefixCode(cut)
    ensures AllFrames(cut, frames) && Concat(frames) == b[..WholeLen(cut, b)]
    ensures Framed(cut, b[..WholeLen(cut, b)])
    ensures cut(b[WholeLen(cut, b)..]) == 0
    decreases |b|
  {
    var n, w := cut(b), WholeLen(cut, b);
    if n == 0 {
      frames := [];
      assert b[0..] == b;
    } else {
      var rest := WholePrefixIsFramed(cut, b[n..]);
      assert cut(b[..n]) == n;
      frames := [b[..n]] + rest;
      assert frames[1..] == rest;
      assert b[..w] == b[..n] + b[n..][..w - n];
      assert b[w..] == b[n..][w - n..];
    }
  }

  /** No longer prefix splits into whole frames. */
  lemma LongestFramedPrefix(cut: Cutter, b: seq<byte>, n: nat)
    requires PrefixCode(cut) && n <= |b| && Framed(cut, b[..n])
    ensures n <= WholeLen(cut, b)
  {
    var frames: seq<seq<byte>> :| AllFrames(cut, frames) && Concat(frames) == b[..n];
    assert b == b[..n] + b[n..];
    WholeLenOfFrames(cut, frames, b[n..]);
  }

  /** Bytes that arrive behind a consumed prefix extend it by what they complete. */
  lemma WholeLenExtends(cut: Cutter, b: seq<byte>, c: seq<byte>)
    requires PrefixCode(cut)
    ensures WholeLen(cut, b + c) == WholeLen(cut, b) + WholeLen(cut, b[WholeLen(cut, b)..] + c)
  {
    var w := WholeLen(cut, b);
    var frames := WholePrefixIsFramed(cut, b);
    WholeLenOfFrames(cut, frames, b[w..] + c);
    assert b + c == b[..w] + (b[w..] + c);
  }

  // ---------- the start of the last frame ----------

  /** Where cutting last looked: at the last frame of a framed buffer, else behind the whole frames. */
  ghost function LastStart(cut: Cutter, b: seq<byte>): nat
    decreases |b|
  {
    if 0 < cut(b) < |b| then cut(b) + LastStart(cut, b[cut(b)..]) else 0
  }

  lemma LastStartStep(cut: Cutter, f: seq<byte>, rest: seq<byte>)
    requires PrefixCode(cut) && 0 < |f| == cut(f)
    ensures LastStart(cut, f + rest) == if rest == [] then 0 else |f| + LastStart(cut, rest)
  {
    assert cut(f + rest) == |f|;
    assert (f + rest)[|f|..] == rest;
  }

  lemma {:induction false} LastStartOfFrames(cut: Cutter, frames: seq<seq<byte>>, tail: seq<byte>)
    requires PrefixCode(cut) && AllFrames(cut, frames) && tail != []
    ensures LastStart(cut, Concat(frames) + tail) == |Concat(frames)| + LastStart(cut, tail)
    decreases |frames|
  {
    if frames == [] {
      assert Concat(frames) + tail == tail;
    } else {
      var rest := Concat(frames[1..]) + tail;
      assert Concat(frames) + tail == frames[0] + rest;
      LastStartStep(cut, frames[0], rest);
      LastStartOfFrames(cut, frames[1..], tail);
    }
  }

  // ---------- the same, walking positions of one buffer ----------

  ghost function WholeFrom(cut: Cutter, b: seq<byte>, p: nat): nat
    requires p <= |b|
    decreases |b| - p
  {
    var n := cut(b[p..]);
    if 0 < n <= |b| - p then WholeFrom(cut, b, p + n) else p
  }

  ghost function LastFrom(cut: Cutter, b: seq<byte>, p: nat, last: nat): nat
    requires p <= |b|
    decreases |b| - p
  {
    var n := cut(b[p..]);
    if p == |b| then last else if 0 < n <= |b| - p then LastFrom(cut, b, p + n, p) else p
  }

  lemma {:induction false} WholeFromIs(cut: Cutter, b: seq<byte>, p: nat)
    requires p <= |b|
    ensures WholeFrom(cut, b, p) == p + WholeLen(cut, b[p..])
    decreases |b| - p
  {
    var n := cut(b[p..]);
    if 0 < n <= |b| - p {
      WholeFromIs(cut, b, p + n);
      assert b[p..][n..] == b[p + n..];
    }
  }

  lemma {:induction false} LastFromIs(cut: Cutter, b: seq<byte>, p: nat, last: nat)
    requires p <= |b|
    ensures LastFrom(cut, b, p, last) == if p == |b| then last else p + LastStart(cut, b[p..])
    decreases |b| - p
  {
    var n := cut(b[p..]);
    if 0 < n <= |b| - p {
      LastFromIs(cut, b, p + n, p);
      assert b[p..][n..] == b[p + n..];
    }
  }

  lemma WalkFromStart(cut: Cutter, b: seq<byte>)
    ensures WholeFrom(cut, b, 0) == WholeLen(cut, b) && LastFrom(cut, b, 0, 0) == LastStart(cut, b)
  {
    WholeFromIs(cut, b, 0);
    LastFromIs(cut, b, 0, 0);
    assert b[0..] == b;
  }

  /** Walking past whole frames does not change where the walk ends. */
  lemma {:induction false} WalkThrough(cut: Cutter, b: seq<byte>, p: nat, frames: seq<seq<byte>>, last: nat, other: nat)
    requires PrefixCode(cut) && AllFrames(cut, frames)
    requires p + |Concat(frames)| < |b| && b[p..p + |Concat(frames)|] == Concat(frames)
    ensures var q := p + |Concat(frames)|;
            LastFrom(cut, b, p, last) == LastFrom(cut, b, q, other) && WholeFrom(cut, b, p) == WholeFrom(cut, b, q)
    decreases |frames|
  {
    if frames != [] {
      var f, rest := frames[0], Concat(frames[1..]);
      SplitSlice(b, p, f, rest);
      assert cut(b[p..]) == |f| by {
        assert cut(f + b[p + |f|..]) == cut(f);
      }
      WalkThrough(cut, b, p + |f|, frames[1..], p, other);
    }
  }

  lemma SplitSlice(b: seq<byte>, p: nat, f: seq<byte>, rest: seq<byte>)
    requires p + |f| + |rest| <= |b| && b[p..p + |f| + |rest|] == f + rest
    ensures b[p..] == f + b[p + |f|..] && b[p + |f|..p + |f| + |rest|] == rest
  {
    assert b[p..p + |f|] == (f + rest)[..|f|] == f;
    assert b[p + |f|..p + |f| + |rest|] == (f + rest)[|f|..];
  }

  /** The walk ends its last round at the start of something that is no whole frame, or of the last one. */
  lemma {:induction false} LastFromIsFramed(cut: Cutter, b: seq<byte>, p: nat, last: nat)
    returns (frames: seq<seq<byte>>)
    requires PrefixCode(cut) && p < |b|
    ensures var s := LastFrom(cut, b, p, last);
            && p <= s < |b| && AllFrames(cut, frames) && Concat(frames) == b[p..s]
            && !(0 < cut(b[s..]) < |b| - s)
    decreases |b| - p
  {
    var n := cut(b[p..]);
    if 0 < n < |b| - p {
      var rest := LastFromIsFramed(cut, b, p + n, p);
      var s := LastFrom(cut, b, p, last);
      assert cut(b[p..][..n]) == n && b[p..][..n] == b[p..p + n];
      frames := [b[p..p + n]] + rest;
      assert frames[1..] == rest;
      assert b[p..s] == b[p..p + n] + b[p + n..s];
    } else {
      frames := [];
    }
  }

  /**
   The walk from `p` ends its last round at a whole frame exactly if that is the last one, with whole frames before it.
   */
  lemma WalkEndsAt(cut: Cutter, b: seq<byte>, p: nat, l: nat)
    requires PrefixCode(cut) && p < |b| && l < |b| && cut(b[l..]) > 0
    ensures LastFrom(cut, b, p, p) == l <==> cut(b[l..]) == |b| - l && p <= l && Framed(cut, b[p..l])
    ensures LastFrom(cut, b, p, p) == l ==> WholeFrom(cut, b, p) == |b|
  {
    if cut(b[l..]) == |b| - l && p <= l && Framed(cut, b[p..l]) {
      var frames: seq<seq<byte>> :| AllFrames(cut, frames) && Concat(frames) == b[p..l];
      WalkThrough(cut, b, p, frames, p, p);
    }
    if LastFrom(cut, b, p, p) == l {
      var frames := LastFromIsFramed(cut, b, p, p);
    }
  }
}
