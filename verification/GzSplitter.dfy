/** The per-member reader of `.warc.gz` files: a buffer refilled in chunks of
  whatever size the source delivers, compacted in place, cut into gzip members. */
module GzSplitter {
  import opened Bytes
  import opened Codec
  import opened Gzip
  import GzipGrammar
  import opened MemberWalk

  const REFILL := 65536

  /** A byte source that hands out its content in reads of unpredictable size. */
  class Source {
    const data: bytes
    var at: nat

    constructor (data: bytes)
      ensures this.data == data && at == 0
    {
      this.data := data;
      at := 0;
    }

    /** At most `max` bytes; none only at the end of the content (or when none were asked for). */
    method Read(max: nat) returns (chunk: bytes)
      requires at <= |data|
      modifies this
      ensures old(at) <= at <= |data| && chunk == data[old(at)..at] && |chunk| <= max
      ensures chunk == [] ==> max == 0 || at == |data|
    {
      var k: nat := 0;
      if max > 0 && at < |data| {
        k :| 0 < k <= max && k <= |data| - at;
      }
      chunk := data[at..at + k];
      at := at + k;
    }
  }

  datatype Status = Running | StreamEnd | Error

  /** A streaming inflater: each call consumes some of its input, possibly none
      while it is still draining output. */
  class Decompressor {
    const coder: Coder
    var fed: bytes
    var out: bytes
    var draining: nat

    ghost predicate Valid()
      reads this
    {
      Streaming(coder) && Inflate(coder, fed).More?
    }

    constructor (c: Coder)
      requires Streaming(c)
      ensures Valid() && coder == c && fed == []
    {
      coder := c;
      fed, out := [], [];
      draining := *;
      new;
      NothingFedIsUnfinished(c);
    }

    method DecompressVec(input: bytes) returns (status: Status, consumed: nat)
      requires Valid() && input != []
      modifies this
      ensures consumed <= |input| && fed == old(fed) + input[..consumed]
      ensures status == Running ==> Valid() && (consumed > 0 || draining < old(draining))
      ensures status == StreamEnd ==> Inflate(coder, fed) == Done(|fed|, out)
      ensures status == Error ==> Inflate(coder, fed).Corrupt?
    {
      var stall: bool := *;
      if draining > 0 && stall {
        draining := draining - 1;
        assert input[..0] == [];
        return Running, 0;
      }
      OneByteNeverOvershoots(coder, fed, input);
      var k: nat :| 0 < k <= |input| && NoOvershoot(coder, fed, input, k);
      assert NoOvershoot(coder, fed, input, k);
      consumed := k;
      fed := fed + input[..k];
      draining := *;
      match Inflate(coder, fed)
      case More(_) => status := Running;
      case Done(_, o) => status, out := StreamEnd, o;
      case Corrupt(_) => status := Error;
    }
  }

  /** Consuming `k` bytes of `input` does not run past the end of the stream. */
  predicate NoOvershoot(c: Coder, fed: bytes, input: bytes, k: nat)
    requires k <= |input|
  {
    Inflate(c, fed + input[..k]).Done? ==> Inflate(c, fed + input[..k]).used == |fed| + k
  }

  lemma NothingFedIsUnfinished(c: Coder)
    requires Streaming(c)
    ensures Inflate(c, []).More?
  {
    assert RoundTrips(c, []);
    var s := Deflate(c, []);
    InflateCut(c, s, 0);
    assert s[..0] == [];
  }

  lemma OneByteNeverOvershoots(c: Coder, fed: bytes, input: bytes)
    requires Streaming(c) && Inflate(c, fed).More? && input != []
    ensures NoOvershoot(c, fed, input, 1)
  {
    var s := fed + input[..1];
    if Inflate(c, s).Done? {
      InflateCut(c, s, |fed|);
      assert s[..|fed|] == fed;
    }
  }

  /** A stream that has ended after `k` bytes of `s` ends there in `s` too. */
  lemma VerdictOnPrefix(c: Coder, s: bytes, k: nat)
    requires Streaming(c) && k <= |s| && !Inflate(c, s[..k]).More?
    ensures Inflate(c, s) == Inflate(c, s[..k])
  {
    assert Stable(c, s, k);
  }

  /** Moving `n` bytes ahead in a buffer that mirrors data[lo..hi]. */
  lemma BufferAdvance(buf: bytes, start: nat, data: bytes, lo: nat, hi: nat, n: nat)
    requires start + n <= |buf| && lo <= hi <= |data| && buf[start..] == data[lo..hi]
    ensures buf[start..start + n] == data[lo..][..n]
    ensures buf[start + n..] == data[lo + n..hi]
    ensures data[lo..][n..] == data[lo + n..]
  {
    assert buf[start..start + n] == buf[start..][..n];
    assert buf[start + n..] == buf[start..][n..];
  }

  lemma FedSoFar(s: bytes, t: nat, input: bytes, k: nat)
    requires t + |input| <= |s| && k <= |input| && input == s[t..][..|input|]
    ensures s[..t] + input[..k] == s[..t + k] && s[t..][k..] == s[t + k..]
  {
  }

  lemma AllOrNothing(s: bytes, t: nat)
    requires t <= |s|
    ensures s[t..] == [] ==> s[..t] == s
    ensures t == 0 ==> s[t..] == s && s[..t] == []
  {
  }

  datatype Result<T> = Ok(value: T) | Err(error: Error)

  class GzSplitter {
    const coder: Coder
    const source: Source
    var buf: bytes
    var bufStart: nat
    var rawPos: nat

    /** The buffer holds exactly source[Pos()..rawPos]. */
    ghost predicate Valid()
      reads this, source
    {
      && Streaming(coder)
      && rawPos == source.at <= |source.data|
      && bufStart <= |buf| && |buf| - bufStart <= rawPos
      && buf[bufStart..] == source.data[rawPos - (|buf| - bufStart)..rawPos]
    }

    /** Everything not consumed yet, buffered or not. */
    ghost function Rest(): bytes
      requires Valid()
      reads this, source
    {
      source.data[Pos()..]
    }

    constructor (c: Coder, source: Source)
      requires Streaming(c) && source.at == 0
      ensures Valid() && Pos() == 0 && this.source == source && coder == c
    {
      coder := c;
      this.source := source;
      buf, bufStart, rawPos := [], 0, 0;
    }

    /** Bytes read from the source less the buffered remainder. */
    function Pos(): (p: nat)
      requires bufStart <= |buf| && |buf| - bufStart <= rawPos
      reads this
    {
      rawPos - (|buf| - bufStart)
    }

    function Available(): nat
      requires bufStart <= |buf|
      reads this
    {
      |buf| - bufStart
    }

    method Compact()
      requires Valid()
      modifies this
      ensures Valid() && unchanged(this`rawPos) && bufStart == 0 && buf == old(buf[bufStart..])
    {
      if bufStart > 0 {
        buf := buf[bufStart..];
        bufStart := 0;
      }
    }

    /** Refill the buffer with one read of the source. */
    method Refill(extra: nat) returns (k: nat)
      requires Valid() && extra > 0
      modifies this, source
      ensures Valid() && Pos() == old(Pos()) && Available() == old(Available()) + k
      ensures k == 0 ==> rawPos == |source.data|
      ensures rawPos == old(rawPos) + k
    {
      Compact();
      var chunk := source.Read(extra);
      buf := buf + chunk;
      rawPos := rawPos + |chunk|;
      k := |chunk|;
    }

    /** Buffer at least `n` bytes; false exactly when the source has fewer left. */
    method Ensure(n: nat) returns (ok: bool)
      requires Valid()
      modifies this, source
      ensures Valid() && Pos() == old(Pos())
      ensures ok <==> n <= |Rest()|
      ensures ok ==> n <= Available()
    {
      while Available() < n
        invariant Valid() && Pos() == old(Pos())
        decreases |source.data| - rawPos
      {
        var k := Refill(if n > REFILL then n else REFILL);
        if k == 0 { return false; }
      }
      return true;
    }

    /** Consume `n` buffered bytes, returning them. */
    method TakeVec(n: nat) returns (v: bytes)
      requires Valid() && n <= Available()
      modifies this
      ensures Valid() && Pos() == old(Pos()) + n && v == old(Rest())[..n] && Rest() == old(Rest())[n..]
    {
      BufferAdvance(buf, bufStart, source.data, Pos(), rawPos, n);
      v := buf[bufStart..bufStart + n];
      bufStart := bufStart + n;
    }

    /** Consume `n` buffered bytes. */
    method Skip(n: nat)
      requires Valid() && n <= Available()
      modifies this
      ensures Valid() && Pos() == old(Pos()) + n && Rest() == old(Rest())[n..]
    {
      BufferAdvance(buf, bufStart, source.data, Pos(), rawPos, n);
      bufStart := bufStart + n;
    }

    /** The byte at offset `k` of what is left, which must be buffered. */
    method Peek(k: nat) returns (b: byte)
      requires Valid() && k < Available()
      ensures k < |Rest()| && b == Rest()[k]
    {
      b := buf[bufStart + k];
      assert b == buf[bufStart..][k];
    }

    /** What is left is `s` from the index `end`, or a field was cut off by the end of the source. */
    ghost predicate Reached(s: bytes, end: Option<nat>, ok: bool, base: int)
      requires Valid()
      reads this, source
    {
      ok == end.Some? && (ok ==> end.value <= |s| && Rest() == s[end.value..] && Pos() == base + end.value)
    }

    /** FEXTRA, when present: a two-byte length and as many bytes. */
    method SkipExtra(present: bool, ghost s: bytes, ghost at: nat) returns (ok: bool)
      requires Valid() && at <= |s| && Rest() == s[at..]
      modifies this, source
      ensures Valid() && Reached(s, ExtraEnd(present, s, at), ok, old(Pos()) - at)
    {
      hide Streaming;
      if !present { return true; }
      ok := Ensure(2);
      if !ok { return; }
      var lo := Peek(0);
      var hi := Peek(1);
      Skip(2);
      ok := Ensure(Word(lo, hi));
      if ok { Skip(Word(lo, hi)); }
    }

    /** FNAME or FCOMMENT, when present: everything through the next NUL. */
    method SkipNulString(present: bool, ghost s: bytes, ghost at: nat) returns (ok: bool)
      requires Valid() && at <= |s| && Rest() == s[at..]
      modifies this, source
      ensures Valid() && Reached(s, NulStringEnd(present, s, Some(at)), ok, old(Pos()) - at)
    {
      if !present { return true; }
      ghost var i := at;
      while true
        invariant Valid() && at <= i <= |s| && Rest() == s[i..] && NulEnd(s, at) == NulEnd(s, i)
        invariant Pos() == old(Pos()) + i - at
        decreases |s| - i
      {
        ok := Ensure(1);
        if !ok { return; }
        var b := Peek(0);
        Skip(1);
        i := i + 1;
        if b == 0 { return; }
      }
    }

    /** FHCRC, when present. */
    method SkipHeaderCrc(present: bool, ghost s: bytes, ghost at: nat) returns (ok: bool)
      requires Valid() && at <= |s| && Rest() == s[at..]
      modifies this, source
      ensures Valid() && Reached(s, HeaderCrcEnd(present, s, Some(at)), ok, old(Pos()) - at)
    {
      if !present { return true; }
      ok := Ensure(2);
      if ok { Skip(2); }
    }

    /** The optional header fields, in the order of RFC 1952. */
    method SkipOptional(flg: byte, ghost s: bytes) returns (ok: bool)
      requires Valid() && |s| >= 10 && s[3] == flg && Rest() == s[10..]
      modifies this, source
      ensures Valid() && Reached(s, HeaderEnd(s), ok, old(Pos()) - 10)
    {
      hide Streaming, ExtraEnd, NulStringEnd, HeaderCrcEnd, FExtra, FName, FComment, FHcrc;
      ghost var e1 := ExtraEnd(FExtra(flg), s, 10);
      ghost var e2 := NulStringEnd(FName(flg), s, e1);
      ghost var e3 := NulStringEnd(FComment(flg), s, e2);
      ok := SkipExtra(FExtra(flg), s, 10);
      if !ok { return; }
      ok := SkipNulString(FName(flg), s, e1.value);
      if !ok { return; }
      ok := SkipNulString(FComment(flg), s, e2.value);
      if !ok { return; }
      ok := SkipHeaderCrc(FHcrc(flg), s, e3.value);
    }

    /** The ten fixed bytes and the optional fields. */
    method SkipHeader(ghost s: bytes) returns (bad: Option<Error>)
      requires Valid() && Rest() == s
      modifies this, source
      ensures Valid()
      ensures match ReadHeader(s)
        case Bad(e) => bad == Some(e)
        case Body(at) => bad == None && Rest() == s[at..] && Pos() == old(Pos()) + at
    {
      hide Streaming, HeaderEnd;
      var ok := Ensure(10);
      if !ok { return Some(UnexpectedEof); }
      var hdr := TakeVec(10);
      if hdr[0] != 0x1F || hdr[1] != 0x8B { return Some(BadMagic); }
      if hdr[2] != 8 { return Some(BadMethod); }
      ok := SkipOptional(hdr[3], s);
      bad := if ok then None else Some(UnexpectedEof);
    }

    /** What is buffered is the front of what is left. */
    lemma BufferedIsFront()
      requires Valid()
      ensures buf[bufStart..] == Rest()[..Available()] && Available() <= |Rest()|
      ensures Available() == 0 && rawPos == |source.data| ==> Rest() == []
    {
      hide Streaming;
    }

    /** Feed the decompressor once from the buffer. */
    method Feed(d: Decompressor, ghost s: bytes, ghost t: nat) returns (status: Status, consumed: nat)
      requires Valid() && d.Valid() && d.coder == coder && Available() > 0
      requires t <= |s| && d.fed == s[..t] && Rest() == s[t..]
      modifies this, d
      ensures Valid() && t + consumed <= |s| && Rest() == s[t + consumed..] && Pos() == old(Pos()) + consumed
      ensures status == Running ==>
        && d.Valid() && d.fed == s[..t + consumed]
        && (consumed > 0 || d.draining < old(d.draining))
      ensures status == StreamEnd ==> Inflate(coder, s) == Done(t + consumed, d.out)
      ensures status == Error ==> Inflate(coder, s).Corrupt?
    {
      hide Streaming, Inflate;
      BufferedIsFront();
      ghost var input := buf[bufStart..];
      status, consumed := d.DecompressVec(buf[bufStart..]);
      FedSoFar(s, t, input, consumed);
      Skip(consumed);
      if status != Running { VerdictOnPrefix(coder, s, t + consumed); }
    }

    /** Inflate from the buffer until the stream ends, refilling whenever it runs dry. */
    method InflateBody(ghost s: bytes) returns (r: Result<bytes>)
      requires Valid() && Rest() == s
      modifies this, source
      ensures Valid()
      ensures match Inflate(coder, s)
        case More(_) => r == Err(UnexpectedEof)
        case Corrupt(_) => r == Err(BadData)
        case Done(used, out) => used <= |s| && r == Ok(out) && Rest() == s[used..] && Pos() == old(Pos()) + used
    {
      hide Streaming, Inflate;
      var d := new Decompressor(coder);
      ghost var t: nat := 0;
      AllOrNothing(s, 0);
      while true
        invariant Valid() && d.Valid() && d.coder == coder && fresh(d)
        invariant t <= |s| && d.fed == s[..t] && Rest() == s[t..] && Pos() == old(Pos()) + t
        decreases |s| - t, d.draining
      {
        if Available() == 0 {
          var k := Refill(REFILL);
          BufferedIsFront();
          if k == 0 {
            AllOrNothing(s, t);
            return Err(UnexpectedEof);
          }
        }
        var status, consumed := Feed(d, s, t);
        t := t + consumed;
        if status != Running { return if status == StreamEnd then Ok(d.out) else Err(BadData); }
      }
    }

    lemma DropThrice(s: bytes, at: nat, used: nat)
      requires at + used + 8 <= |s|
      ensures s[at..][used..][8..] == s[at + used + 8..]
    {
    }

    /** The compressed data and the trailer, which is not looked at. */
    method TakeBody(ghost s: bytes, ghost at: nat) returns (r: Result<bytes>)
      requires Valid() && at <= |s| && Rest() == s[at..]
      modifies this, source
      ensures Valid()
      ensures match Inflate(coder, s[at..])
        case More(_) => r == Err(UnexpectedEof)
        case Corrupt(_) => r == Err(BadData)
        case Done(used, out) =>
          if |s| < at + used + 8 then r == Err(UnexpectedEof)
          else r == Ok(out) && Rest() == s[at + used + 8..] && Pos() == old(Pos()) + used + 8
    {
      hide Streaming, Inflate;
      r := InflateBody(s[at..]);
      if r.Err? { return; }
      var ok := Ensure(8);
      if !ok { return Err(UnexpectedEof); }
      DropThrice(s, at, Inflate(coder, s[at..]).used);
      Skip(8);
    }

    /** The next member with its compressed start, None at a clean end of file.

        Whatever the read sizes were, the answer is that of `ParseMember` on all
        the bytes not consumed yet, and exactly the member is consumed. */
    method NextMember() returns (r: Result<Option<Found>>)
      requires Valid()
      modifies this, source
      ensures Valid()
      ensures match ParseMember(coder, old(Rest()))
        case NoMember => r == Ok(None)
        case Failed(e) => r == Err(e)
        case Member(n, data) =>
          r == Ok(Some(Found(old(Pos()), data))) && Pos() == old(Pos()) + n && Rest() == old(Rest())[n..]
    {
      hide Streaming, ReadHeader, Inflate;
      ghost var s := Rest();
      var more := Ensure(1);
      if !more { return Ok(None); }
      var start := Pos();
      var bad := SkipHeader(s);
      if bad.Some? { return Err(bad.value); }
      ghost var at := ReadHeader(s).at;
      var body := TakeBody(s, at);
      if body.Err? { return Err(body.error); }
      return Ok(Some(Found(start, body.value)));
    }
  }

  // ── a whole file ──

  /** The indexer's walk over a `.warc.gz` object, up to the end or the first error. */
  method SplitAll(gz: GzSplitter) returns (r: Walked)
    requires gz.Valid()
    modifies gz, gz.source
    ensures r == Walk(Trusting(gz.coder), gz.source.data, old(gz.Pos()))
  {
    hide Continues, ParseMember, Walk, Streaming, Read, Trusting;
    ghost var p, file := Trusting(gz.coder), gz.source.data;
    ghost var whole := Walk(p, file, gz.Pos());
    var members: seq<Found> := [];
    WalkStarts(whole);
    while true
      invariant gz.Valid()
      invariant Continues(whole, members, Walk(p, file, gz.Pos()))
      decreases |file| - gz.Pos()
    {
      WalkStep(p, file, gz.Pos(), whole, members);
      TrustingReads(gz.coder, file[gz.Pos()..]);
      var next := gz.NextMember();
      if next.Err? { return Walked(members, Some(next.error)); }
      if next.value.None? { return Walked(members, None); }
      members := members + [next.value.value];
    }
  }

  lemma {:induction false} MembersHold(c: Coder, p: Reader, contents: seq<bytes>)
    requires Streaming(c) && (p == Trusting(c) || p == Checking(c))
    ensures forall k | 0 <= k < |contents| :: Holds(p, Members(c, contents)[k], contents[k])
  {
    hide Streaming, MemberOf, ParseMember, CheckedMember;
    if contents != [] {
      var m := MemberOf(c, contents[0]);
      forall rest: bytes ensures Read(p, m + rest) == Member(|m|, contents[0]) {
        GzipGrammar.EncodedMemberParses(c, contents[0], rest);
      }
      MembersHold(c, p, contents[1..]);
    }
  }

  /** Splitting inverts encoding: one member per content, in order, to the last
      byte, whether or not trailers are checked. */
  lemma SplitInvertsEncode(c: Coder, p: Reader, contents: seq<bytes>)
    requires Streaming(c) && (p == Trusting(c) || p == Checking(c))
    ensures Bounded(p)
    ensures var r := Walk(p, Flatten(Members(c, contents)), 0);
      r.stop == None && Contents(r.members) == contents
  {
    MembersHold(c, p, contents);
    var file := Flatten(Members(c, contents));
    assert file[0..] == file;
    WalkMembers(p, file, 0, Members(c, contents), contents);
  }
}
