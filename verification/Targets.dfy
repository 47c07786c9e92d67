/** Which objects a run of `tywb recompress` works on: those named by the caller, or
  those a scan of the bucket takes for one gzip member around a whole WARC. */
module Targets {
  import opened Bytes
  import opened Codec
  import opened Gzip

  const CLASSIFY_WINDOW := 0x10_0000
  const CLASSIFY_ATTEMPTS := 3

  /** What the leading bytes of an object say. */
  datatype Framing = PerRecord | WholeFile | NotGzip | Unknown

  /** Whether the first gzip member ends inside `data`; None for what is not gzip. */
  function FirstMemberEndsWithin(c: Coder, data: bytes): Option<bool>
  {
    if |data| < 2 || data[0] != 0x1F || data[1] != 0x8B then None
    else match CheckedMember(c, data)
      case Member(_, _) => Some(true)
      case Failed(UnexpectedEof) => Some(false)
      case _ => None
  }

  function Window(o: bytes): (w: bytes)
    ensures |w| == if |o| < CLASSIFY_WINDOW then |o| else CLASSIFY_WINDOW
  {
    if |o| < CLASSIFY_WINDOW then o[..|o|] else o[..CLASSIFY_WINDOW]
  }

  /** The verdict on an object, `fates` saying which of the reads go through. */
  function Classified(c: Coder, o: bytes, fates: seq<bool>): Framing
  {
    if exists i | 0 <= i < |fates| && i < CLASSIFY_ATTEMPTS :: fates[i] then
      match FirstMemberEndsWithin(c, Window(o))
      case Some(true) => PerRecord
      case Some(false) => WholeFile
      case None => NotGzip
    else Unknown
  }

  /** Read the window, three times at most, and judge. */
  method Classify(c: Coder, o: bytes, fates: seq<bool>) returns (r: Framing)
    requires |fates| >= CLASSIFY_ATTEMPTS
    ensures r == Classified(c, o, fates)
  {
    hide FirstMemberEndsWithin, Window;
    for attempt := 0 to CLASSIFY_ATTEMPTS
      invariant forall i | 0 <= i < attempt :: !fates[i]
    {
      if fates[attempt] {
        return match FirstMemberEndsWithin(c, Window(o))
          case Some(true) => PerRecord
          case Some(false) => WholeFile
          case None => NotGzip;
      }
    }
    return Unknown;
  }

  /** A scan works on what looks like one member, and on what it could not read. */
  predicate Targeted(f: Framing)
  {
    f.WholeFile? || f.Unknown?
  }

  /** An object that starts with a whole gzip member is left alone by a scan exactly when
      it can be read and that member is no longer than the window. */
  lemma ScanTakesExactly(c: Coder, o: bytes, fates: seq<bool>)
    requires Streaming(c) && CheckedMember(c, o).Member? && |fates| >= CLASSIFY_ATTEMPTS
    ensures Targeted(Classified(c, o, fates)) <==>
      CheckedMember(c, o).size > 0x10_0000 || (!fates[0] && !fates[1] && !fates[2])
  {
    hide Streaming, CheckedMember;
    MemberStart(c, o);
    var k := |Window(o)|;
    assert Window(o) == o[..k];
    CheckedNeedsExactlyItsBytes(c, o, k);
  }

  /** Some read goes through. */
  ghost predicate SomeRead(fates: seq<bool>)
  {
    exists i | 0 <= i < |fates| && i < CLASSIFY_ATTEMPTS :: fates[i]
  }

  /** What is cut off inside its first member is worked on, wherever the cut is behind the
      magic number. */
  lemma ScanTakesCut(c: Coder, s: bytes, k: nat, fates: seq<bool>)
    requires Streaming(c) && CheckedMember(c, s).Member? && 2 <= k < CheckedMember(c, s).size <= |s|
    ensures Classified(c, s[..k], fates) == if SomeRead(fates) then WholeFile else Unknown
    ensures Targeted(Classified(c, s[..k], fates))
  {
    hide Streaming, CheckedMember;
    MemberStart(c, s);
    var o := s[..k];
    var n := |Window(o)|;
    assert Window(o) == o[..n] == s[..n];
    CheckedNeedsExactlyItsBytes(c, s, n);
  }

  /** What does not start with the magic number of gzip is left alone when it can be read,
      and so is a member in the window whose header, data or trailer is damaged. */
  lemma ScanLeavesOther(c: Coder, o: bytes, fates: seq<bool>)
    requires || !([0x1F, 0x8B] <= o)
             || (CheckedMember(c, Window(o)).Failed? && CheckedMember(c, Window(o)).error != UnexpectedEof)
    ensures Classified(c, o, fates) == if SomeRead(fates) then NotGzip else Unknown
    ensures Targeted(Classified(c, o, fates)) <==> !SomeRead(fates)
  {
    hide CheckedMember;
    if |o| >= 2 && o[0] == 0x1F && o[1] == 0x8B { assert [0x1F, 0x8B] == o[..2]; }
  }

  lemma MemberStart(c: Coder, o: bytes)
    requires CheckedMember(c, o).Member?
    ensures 18 <= CheckedMember(c, o).size <= |o| && o[0] == 0x1F && o[1] == 0x8B
  {
    hide HeaderEnd;
  }
}
