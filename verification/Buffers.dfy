/** Byte buffers: what `Uint8Array.set` and a list of chunks stand for. */
module Buffers {
  import opened Words

  type Bytes = seq<U8>

  function Min(a: int, b: int): int { if a < b then a else b }

  function Zeros(n: nat): (z: Bytes)
    ensures |z| == n
  {
    seq(n, _ => 0)
  }

  predicate NoNul(b: Bytes) { forall i :: 0 <= i < |b| ==> b[i] != 0 }

  function Concat(chunks: seq<Bytes>): Bytes { if chunks == [] then [] else chunks[0] + Concat(chunks[1..]) }

  lemma {:induction false} ConcatSnoc(chunks: seq<Bytes>, c: Bytes)
    ensures Concat(chunks + [c]) == Concat(chunks) + c
    decreases |chunks|
  {
    if chunks == [] {
      assert chunks + [c] == [c] && [c][1..] == [];
    } else {
      assert (chunks + [c])[1..] == chunks[1..] + [c];
      ConcatSnoc(chunks[1..], c);
    }
  }

  /** `buf.set(s, off)`. */
  method CopyInto(buf: array<U8>, off: nat, s: Bytes)
    requires off + |s| <= buf.Length
    modifies buf
    ensures buf[..] == old(buf[..off]) + s + old(buf[off + |s|..])
  {
    forall i | 0 <= i < |s| { buf[off + i] := s[i]; }
  }

  /** One buffer that the chunks are copied into, one after another. */
  method Flatten(chunks: seq<Bytes>) returns (out: array<U8>)
    ensures fresh(out) && out[..] == Concat(chunks)
  {
    var total := 0;
    for i := 0 to |chunks|
      invariant total == |Concat(chunks[..i])|
    {
      assert chunks[..i + 1] == chunks[..i] + [chunks[i]];
      ConcatSnoc(chunks[..i], chunks[i]);
      total := total + |chunks[i]|;
    }
    assert chunks[..|chunks|] == chunks;
    out := new U8[total](_ => 0);
    var off := 0;
    for i := 0 to |chunks|
      invariant off == |Concat(chunks[..i])| <= total && out[..off] == Concat(chunks[..i])
    {
      assert chunks[..i + 1] == chunks[..i] + [chunks[i]];
      ConcatSnoc(chunks[..i], chunks[i]);
      ConcatPrefix(chunks, i + 1);
      CopyInto(out, off, chunks[i]);
      off := off + |chunks[i]|;
    }
  }

  lemma {:induction false} ConcatPrefix(chunks: seq<Bytes>, n: nat)
    requires n <= |chunks|
    ensures |Concat(chunks[..n])| <= |Concat(chunks)|
    decreases |chunks| - n
  {
    if n < |chunks| {
      assert chunks[..n + 1] == chunks[..n] + [chunks[n]];
      ConcatSnoc(chunks[..n], chunks[n]);
      ConcatPrefix(chunks, n + 1);
    } else {
      assert chunks[..n] == chunks;
    }
  }
}
