/** What several modules share: options, bytes, sums, and positions on a ring. */
module Basics {

  datatype Option<+T> = None | Some(value: T)

  type Byte = b: nat | b < 256

  /** The low 16 bits of a number, the lower byte first. */
  function Le16(x: nat): (r: seq<Byte>)
    ensures |r| == 2
  {
    [x % 256, x / 256 % 256]
  }

  /** The number held by two bytes, the lower first. */
  function Join16(low: Byte, high: Byte): (w: nat)
    ensures w < 65536
  {
    var l: nat, h: nat := low, high;
    l + 256 * h
  }

  lemma Join16Parts(x: nat)
    requires x < 65536
    ensures Join16(Le16(x)[0], Le16(x)[1]) == x
  {
  }

  function Zeros(n: nat): (z: seq<Byte>)
    ensures |z| == n
  {
    seq(n, _ => 0)
  }

  function Sum(s: seq<nat>): nat {
    if s == [] then 0 else Sum(s[..|s| - 1]) + s[|s| - 1]
  }

  lemma SumAppend(s: seq<nat>, x: nat)
    ensures Sum(s + [x]) == Sum(s) + x
  {
    assert (s + [x])[..|s|] == s;
  }

  /** `bs` written over `m` from an offset on. */
  function Overwrite(m: seq<Byte>, offset: nat, bs: seq<Byte>): (r: seq<Byte>)
    requires offset + |bs| <= |m|
    ensures |r| == |m|
    ensures forall a :: 0 <= a < |m| ==> r[a] == if offset <= a < offset + |bs| then bs[a - offset] else m[a]
  {
    m[..offset] + bs + m[offset + |bs|..]
  }

  /** Copies bytes into a buffer. */
  method CopyInto(buffer: array<Byte>, offset: nat, bs: seq<Byte>)
    requires offset + |bs| <= buffer.Length
    modifies buffer
    ensures buffer[..] == Overwrite(old(buffer[..]), offset, bs)
  {
    for k := 0 to |bs|
      invariant buffer[..] == Overwrite(old(buffer[..]), offset, bs[..k])
    {
      buffer[offset + k] := bs[k];
    }
    assert bs[..|bs|] == bs;
  }

  /** Position `k` places behind `from` on a ring of `n` places. */
  function Around(from: nat, k: nat, n: nat): (r: nat)
    requires from < n && k <= n
    ensures r < n
  {
    if from + k < n then from + k else from + k - n
  }

  /** No number twice, all below `n`. */
  ghost predicate DistinctBelow(s: seq<nat>, n: nat) {
    && (forall i :: 0 <= i < |s| ==> s[i] < n)
    && (forall i, j :: 0 <= i < j < |s| ==> s[i] != s[j])
  }

  /** A pigeonhole: distinct numbers below `n` number at most `n`. */
  lemma {:induction false} Pigeonhole(s: seq<nat>, n: nat)
    requires DistinctBelow(s, n)
    ensures |s| <= n
    decreases n
  {
    if s != [] {
      assert s[0] < n;
      if n - 1 in s {
        var k :| 0 <= k < |s| && s[k] == n - 1;
        Pigeonhole(s[..k] + s[k + 1..], n - 1);
      } else {
        Pigeonhole(s, n - 1);
      }
    }
  }
}
