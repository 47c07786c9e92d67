/** Walking a whole gzip file member by member, for any way of reading one member. */
module MemberWalk {
  import opened Bytes
  import opened Codec
  import opened Gzip

  /** Reads the member at the front of a byte string. */
  type Reader = bytes -> Parsed

  function Read(p: Reader, s: bytes): Parsed { p(s) }

  /** A member takes up at least one byte and no more than there are. */
  ghost predicate Bounded(p: Reader)
  {
    forall s: bytes :: Read(p, s).Member? ==> 0 < Read(p, s).size <= |s|
  }

  /** The reader that trusts trailers. */
  function Trusting(c: Coder): (p: Reader)
    ensures Bounded(p)
  {
    s => ParseMember(c, s)
  }

  /** The reader that checks trailers. */
  function Checking(c: Coder): (p: Reader)
    ensures Bounded(p)
  {
    s => CheckedMember(c, s)
  }

  lemma TrustingReads(c: Coder, s: bytes)
    ensures Read(Trusting(c), s) == ParseMember(c, s)
  {
  }

  /** A member: where it starts in the compressed file, what it decompresses to. */
  datatype Found = Found(start: nat, data: bytes)

  /** Every member, and what stopped the walk: None at the end of the file. */
  datatype Walked = Walked(members: seq<Found>, stop: Option<Error>)

  /** The members of `file` from offset `at` on. */
  function Walk(p: Reader, file: bytes, at: nat): (r: Walked)
    requires Bounded(p) && at <= |file|
    decreases |file| - at
  {
    match Read(p, file[at..])
    case NoMember => Walked([], None)
    case Failed(e) => Walked([], Some(e))
    case Member(n, data) =>
      var tail := Walk(p, file, at + n);
      Walked([Found(at, data)] + tail.members, tail.stop)
  }

  /** The reported starts tile the file: the first is where the walk began, each
      other one is the end of the member before it, and a stop without error is
      the end of the file. Reading again from any of them gives that very member. */
  lemma {:induction false} StartsTile(p: Reader, file: bytes, at: nat, k: nat)
    requires Bounded(p) && (forall s: bytes :: Read(p, s) == NoMember ==> s == [])
    requires at <= |file| && k < |Walk(p, file, at).members|
    ensures var r := Walk(p, file, at);
      var here := r.members[k].start;
      && r.members[0].start == at <= here <= |file|
      && Read(p, file[here..]).Member?
      && Read(p, file[here..]).data == r.members[k].data
      && var next := here + Read(p, file[here..]).size;
         (if k + 1 < |r.members| then r.members[k + 1].start == next else r.stop == None ==> next == |file|)
    decreases |file| - at
  {
    var next := at + Read(p, file[at..]).size;
    if |Walk(p, file, next).members| > 0 {
      StartsTile(p, file, next, if k > 0 then k - 1 else 0);
    }
  }

  /** A walk that has collected `members` and still has `tail` before it. */
  ghost predicate Continues(whole: Walked, members: seq<Found>, tail: Walked)
  {
    whole == Walked(members + tail.members, tail.stop)
  }

  lemma WalkStarts(whole: Walked)
    ensures Continues(whole, [], whole)
  {
  }

  lemma WalkStep(p: Reader, file: bytes, at: nat, whole: Walked, members: seq<Found>)
    requires Bounded(p) && at <= |file| && Continues(whole, members, Walk(p, file, at))
    ensures match Read(p, file[at..])
      case NoMember => whole == Walked(members, None)
      case Failed(e) => whole == Walked(members, Some(e))
      case Member(n, data) =>
        at + n <= |file| && Continues(whole, members + [Found(at, data)], Walk(p, file, at + n))
  {
    match Read(p, file[at..])
    case Member(n, data) =>
      var tail := Walk(p, file, at + n);
      assert members + ([Found(at, data)] + tail.members) == members + [Found(at, data)] + tail.members;
    case _ => assert members + [] == members;
  }

  /** The pieces of content a walk came across. */
  function Contents(members: seq<Found>): seq<bytes>
  {
    if members == [] then [] else [members[0].data] + Contents(members[1..])
  }

  lemma {:induction false} ContentsCount(members: seq<Found>)
    ensures |Contents(members)| == |members|
  {
    if members != [] { ContentsCount(members[1..]); }
  }

  lemma {:induction false} ContentsAt(members: seq<Found>, k: nat)
    requires k < |members|
    ensures |Contents(members)| == |members| && Contents(members)[k] == members[k].data
  {
    ContentsCount(members);
    if k > 0 { ContentsAt(members[1..], k - 1); }
  }

  // ── files an encoder wrote ──

  /** `m` is a gzip member holding `d`, whatever comes after it. */
  ghost predicate Holds(p: Reader, m: bytes, d: bytes)
  {
    forall rest: bytes :: Read(p, m + rest) == Member(|m|, d)
  }

  /** The members an encoder writes, one per piece of content. */
  function Members(c: Coder, contents: seq<bytes>): (ms: seq<bytes>)
    ensures |ms| == |contents|
  {
    if contents == [] then [] else [MemberOf(c, contents[0])] + Members(c, contents[1..])
  }

  lemma {:induction false} MembersSnoc(c: Coder, contents: seq<bytes>, d: bytes)
    ensures Members(c, contents + [d]) == Members(c, contents) + [MemberOf(c, d)]
  {
    if contents != [] {
      assert (contents + [d])[1..] == contents[1..] + [d];
      MembersSnoc(c, contents[1..], d);
    }
  }

  lemma WalkOneMore(p: Reader, file: bytes, at: nat, head: bytes, data: bytes, rest: bytes)
    requires Bounded(p) && at <= |file| && file[at..] == head + rest && Holds(p, head, data)
    ensures at + |head| <= |file| && file[at + |head|..] == rest
    ensures var tail := Walk(p, file, at + |head|);
      var r := Walk(p, file, at);
      r.stop == tail.stop && Contents(r.members) == [data] + Contents(tail.members)
  {
    hide ParseMember;
    assert file[at + |head|..] == file[at..][|head|..];
    assert Read(p, head + rest) == Member(|head|, data);
    var tail := Walk(p, file, at + |head|).members;
    assert ([Found(at, data)] + tail)[1..] == tail;
  }

  lemma {:induction false} WalkMembers(p: Reader, file: bytes, at: nat, members: seq<bytes>, contents: seq<bytes>)
    requires Bounded(p) && Read(p, []) == NoMember
    requires at <= |file| && file[at..] == Flatten(members)
    requires |members| == |contents| && forall k | 0 <= k < |members| :: Holds(p, members[k], contents[k])
    ensures Reads(Walk(p, file, at), contents)
    decreases |contents|
  {
    hide Bounded, Holds, Reads, Contents;
    if contents == [] {
      assert file[at..] == [];
      ReadsNothing(p, file, at);
    } else {
      var m, d := members[0], contents[0];
      WalkOneMore(p, file, at, m, d, Flatten(members[1..]));
      WalkMembers(p, file, at + |m|, members[1..], contents[1..]);
      ReadsOneMore(Walk(p, file, at), Walk(p, file, at + |m|), d, contents);
    }
  }

  /** The walk ended at the end of the file and came across exactly `contents`. */
  ghost predicate Reads(r: Walked, contents: seq<bytes>)
  {
    r.stop == None && Contents(r.members) == contents
  }

  lemma ReadsNothing(p: Reader, file: bytes, at: nat)
    requires Bounded(p) && Read(p, []) == NoMember && at <= |file| && file[at..] == []
    ensures Reads(Walk(p, file, at), [])
  {
  }

  lemma ReadsOneMore(r: Walked, tail: Walked, d: bytes, contents: seq<bytes>)
    requires contents != [] && contents[0] == d && Reads(tail, contents[1..])
    requires r.stop == tail.stop && Contents(r.members) == [d] + Contents(tail.members)
    ensures Reads(r, contents)
  {
  }
}
