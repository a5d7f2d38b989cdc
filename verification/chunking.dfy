/**
 * The fixed-size chunking behind the AWS sample's streaming upload: a byte
 * sequence is cut into full parts of `part` bytes, in order, followed by a
 * remainder shorter than a part. Cutting and reassembling are inverse.
 */
module Chunking {
  import opened Common

  /** The full parts of `s`, in stream order. */
  function FullParts(s: seq<byte>, part: nat): (parts: seq<seq<byte>>)
    requires part > 0
    ensures forall k :: 0 <= k < |parts| ==> |parts[k]| == part
    decreases |s|
  {
    if |s| < part then [] else [s[..part]] + FullParts(s[part..], part)
  }

  /** The bytes of `s` left over after its full parts. */
  function Rest(s: seq<byte>, part: nat): (r: seq<byte>)
    requires part > 0
    ensures |r| < part
    decreases |s|
  {
    if |s| < part then s else Rest(s[part..], part)
  }

  /** The parts laid end to end. */
  function Concat(parts: seq<seq<byte>>): seq<byte>
    decreases |parts|
  {
    if |parts| == 0 then [] else parts[0] + Concat(parts[1..])
  }

  lemma {:induction false} ConcatAppend(a: seq<seq<byte>>, b: seq<seq<byte>>)
    ensures Concat(a + b) == Concat(a) + Concat(b)
    decreases |a|
  {
    if |a| > 0 {
      assert (a + b)[1..] == a[1..] + b;
      ConcatAppend(a[1..], b);
    } else {
      assert a + b == b;
    }
  }

  /** Reassembling the parts and the remainder gives back the input: no byte is lost or duplicated. */
  lemma {:induction false} ChunksReassemble(s: seq<byte>, part: nat)
    requires part > 0
    ensures Concat(FullParts(s, part)) + Rest(s, part) == s
    decreases |s|
  {
    if |s| >= part {
      ChunksReassemble(s[part..], part);
      assert FullParts(s, part)[1..] == FullParts(s[part..], part);
      assert s == s[..part] + s[part..];
    }
  }

  /** The input length is the number of full parts times the part size plus the remainder's length. */
  lemma {:induction false} ChunksCount(s: seq<byte>, part: nat)
    requires part > 0
    ensures |FullParts(s, part)| * part + |Rest(s, part)| == |s|
    decreases |s|
  {
    if |s| >= part {
      ChunksCount(s[part..], part);
      assert |FullParts(s, part)| == 1 + |FullParts(s[part..], part)|;
    }
  }

  /**
   * Cutting inverts reassembly: parts of exactly `part` bytes followed by a
   * shorter remainder are cut back into the same parts and remainder.
   */
  lemma {:induction false} ChunksUnique(parts: seq<seq<byte>>, r: seq<byte>, part: nat)
    requires part > 0 && |r| < part
    requires forall k :: 0 <= k < |parts| ==> |parts[k]| == part
    ensures FullParts(Concat(parts) + r, part) == parts
    ensures Rest(Concat(parts) + r, part) == r
    decreases |parts|
  {
    if |parts| > 0 {
      var s := Concat(parts) + r;
      assert s == parts[0] + (Concat(parts[1..]) + r);
      assert s[..part] == parts[0];
      assert s[part..] == Concat(parts[1..]) + r;
      ChunksUnique(parts[1..], r, part);
      assert parts == [parts[0]] + parts[1..];
    } else {
      assert Concat(parts) + r == r;
    }
  }

  /**
   * Reading one more byte either completes a part, which then holds the
   * previous remainder plus that byte, or extends the remainder.
   */
  lemma {:induction false} ChunksAppendByte(s: seq<byte>, b: byte, part: nat)
    requires part > 0
    ensures |Rest(s, part)| + 1 == part ==>
              FullParts(s + [b], part) == FullParts(s, part) + [Rest(s, part) + [b]]
              && Rest(s + [b], part) == []
    ensures |Rest(s, part)| + 1 < part ==>
              FullParts(s + [b], part) == FullParts(s, part)
              && Rest(s + [b], part) == Rest(s, part) + [b]
  {
    var parts := FullParts(s, part);
    var r := Rest(s, part);
    ChunksReassemble(s, part);
    assert s + [b] == Concat(parts) + (r + [b]);
    if |r| + 1 == part {
      ConcatAppend(parts, [r + [b]]);
      assert Concat([r + [b]]) == r + [b];
      assert s + [b] == Concat(parts + [r + [b]]) + [];
      ChunksUnique(parts + [r + [b]], [], part);
    } else {
      ChunksUnique(parts, r + [b], part);
    }
  }

  /** The full parts of a prefix are the first full parts of the whole input. */
  lemma {:induction false} ChunksOfPrefix(s: seq<byte>, n: nat, part: nat)
    requires part > 0 && n <= |s|
    ensures FullParts(s, part) == FullParts(s[..n], part) + FullParts(Rest(s[..n], part) + s[n..], part)
  {
    var p := s[..n];
    var tail := Rest(p, part) + s[n..];
    PrefixReassemble(s, n, part);
    AllFullSized(FullParts(p, part), FullParts(tail, part), part);
    ChunksUnique(FullParts(p, part) + FullParts(tail, part), Rest(tail, part), part);
  }

  lemma {:induction false} PrefixReassemble(s: seq<byte>, n: nat, part: nat)
    requires part > 0 && n <= |s|
    ensures Concat(FullParts(s[..n], part) + FullParts(Rest(s[..n], part) + s[n..], part))
            + Rest(Rest(s[..n], part) + s[n..], part) == s
  {
    var p := s[..n];
    var tail := Rest(p, part) + s[n..];
    ChunksReassemble(p, part);
    ChunksReassemble(tail, part);
    assert s == p + s[n..];
    JoinPieces(FullParts(p, part), FullParts(tail, part), Rest(p, part), s[n..], Rest(tail, part), p, s);
  }

  /** Reassembly of two runs of parts, each followed by its own leftover bytes. */
  lemma JoinPieces(parts: seq<seq<byte>>, more: seq<seq<byte>>, r1: seq<byte>, rest: seq<byte>,
                   r2: seq<byte>, p: seq<byte>, s: seq<byte>)
    requires Concat(parts) + r1 == p
    requires Concat(more) + r2 == r1 + rest
    requires s == p + rest
    ensures Concat(parts + more) + r2 == s
  {
    ConcatAppend(parts, more);
    assert Concat(parts + more) + r2 == Concat(parts) + (Concat(more) + r2);
  }

  lemma AllFullSized(a: seq<seq<byte>>, b: seq<seq<byte>>, part: nat)
    requires forall k :: 0 <= k < |a| ==> |a[k]| == part
    requires forall k :: 0 <= k < |b| ==> |b[k]| == part
    ensures forall k :: 0 <= k < |a + b| ==> |(a + b)[k]| == part
  {
  }

  /** An input of exactly `k` parts has `k` full parts and no remainder. */
  lemma {:induction false} ChunksOfMultiple(s: seq<byte>, k: nat, part: nat)
    requires part > 0 && |s| == k * part
    ensures |FullParts(s, part)| == k && Rest(s, part) == []
    decreases k
  {
    if k > 0 {
      assert |s[part..]| == (k - 1) * part;
      ChunksOfMultiple(s[part..], k - 1, part);
    }
  }
}
