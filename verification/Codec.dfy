/** The DEFLATE coder behind every gzip stream, as a parameter.

  A `Coder` is any encoder/decoder pair. `Streaming` is what the rest of the
  model needs of it: a decoder reads a self-terminating bit stream from left to
  right, so more input never changes a verdict already reached. The stored-block
  coder of RFC 1951 section 3.2.4 is proved to be such a pair. */
module Codec {
  import opened Bytes

  /** What a raw inflate makes of the bytes it was given. */
  datatype Inflated =
    | Done(used: nat, out: bytes)   // the final block ended after `used` bytes
    | More(out: bytes)              // every byte was read, the stream is not over
    | Corrupt(out: bytes)           // not a deflate stream

  datatype Coder = Coder(
    inflate: bytes -> Inflated,
    deflate: bytes -> bytes,
    crc: bytes -> bytes)

  function Inflate(c: Coder, s: bytes): Inflated { c.inflate(s) }
  function Deflate(c: Coder, d: bytes): bytes { c.deflate(d) }
  function Crc(c: Coder, d: bytes): bytes { c.crc(d) }

  /** Once a decoder has reached a verdict on `s[..k]`, `s` gets the same one;
      while it has not, its output only grows. */
  ghost predicate Stable(c: Coder, s: bytes, k: nat)
    requires k <= |s|
  {
    if Inflate(c, s[..k]).More? then Inflate(c, s[..k]).out <= Inflate(c, s).out
    else Inflate(c, s) == Inflate(c, s[..k])
  }

  /** A stream that ends after `used` bytes ends there and no sooner. */
  ghost predicate EndsWithin(c: Coder, s: bytes)
  {
    Inflate(c, s).Done? ==> 0 < Inflate(c, s).used <= |s| && Inflate(c, s[..Inflate(c, s).used]) == Inflate(c, s)
  }

  ghost predicate EndsNoSooner(c: Coder, s: bytes, k: nat)
  {
    Inflate(c, s).Done? && k < Inflate(c, s).used <= |s| ==> Inflate(c, s[..k]).More?
  }

  ghost predicate RoundTrips(c: Coder, d: bytes)
  {
    Inflate(c, Deflate(c, d)) == Done(|Deflate(c, d)|, d) && |Crc(c, d)| == 4
  }

  ghost predicate Streaming(c: Coder)
  {
    && (forall s: bytes, k: nat | k <= |s| :: Stable(c, s, k))
    && (forall s: bytes :: EndsWithin(c, s))
    && (forall s: bytes, k: nat :: EndsNoSooner(c, s, k))
    && (forall d: bytes :: RoundTrips(c, d))
  }

  /** Bytes after the end of a stream are never looked at. */
  lemma InflateIgnoresTail(c: Coder, s: bytes, t: bytes)
    requires Streaming(c) && !Inflate(c, s).More?
    ensures Inflate(c, s + t) == Inflate(c, s)
  {
    assert (s + t)[..|s|] == s;
    assert Stable(c, s + t, |s|);
  }

  /** A stream that ends can be cut anywhere: before its end it is unfinished,
      from its end on it is the same stream. */
  lemma InflateCut(c: Coder, s: bytes, k: nat)
    requires Streaming(c) && Inflate(c, s).Done? && k <= |s|
    ensures 0 < Inflate(c, s).used <= |s|
    ensures if k < Inflate(c, s).used then Inflate(c, s[..k]).More? && Inflate(c, s[..k]).out <= Inflate(c, s).out
            else Inflate(c, s[..k]) == Inflate(c, s)
  {
    var u := Inflate(c, s).used;
    assert EndsWithin(c, s) && EndsNoSooner(c, s, k) && Stable(c, s, k);
    if u <= k {
      assert s[..k][..u] == s[..u];
      assert Stable(c, s[..k], u);
    }
  }
}
