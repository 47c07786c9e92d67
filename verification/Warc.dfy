/** The WARC record grammar the rewriter goes by (section 4 of WARC 1.1, ISO
  28500:2017): version line, header lines, blank line, block, two CRLFs. */
module Warc {
  import opened Bytes
  import opened Text

  const WARC_SLASH: bytes := [0x57, 0x41, 0x52, 0x43, 0x2F]
  const CONTENT_LENGTH: bytes := [99, 111, 110, 116, 101, 110, 116, 45, 108, 101, 110, 103, 116, 104]

  /** One LF, at the end. */
  predicate IsLine(l: bytes)
  {
    l != [] && IndexOf(l, LF) == |l| - 1
  }

  predicate IsBlank(l: bytes)
  {
    l == CRLF || l == [LF]
  }

  datatype Record = Record(version: bytes, headers: seq<bytes>, blank: bytes, block: bytes)

  function Head(r: Record): bytes
  {
    r.version + (Flatten(r.headers) + r.blank)
  }

  function Print(r: Record): bytes
  {
    Head(r) + (r.block + CRLFCRLF)
  }

  /** A printed record, part by part, with anything behind it. */
  lemma PrintParts(r: Record, t: bytes)
    ensures Print(r) + t == r.version + (Flatten(r.headers) + (r.blank + (r.block + (CRLFCRLF + t))))
    ensures |Print(r)| == |r.version| + |Flatten(r.headers)| + |r.blank| + |r.block| + 4
  {
  }

  /** The Content-Length in force after header line `l`, when `before` was so before it. */
  function LengthAfter(before: Option<nat>, l: bytes): Option<nat>
  {
    var colon := IndexOf(l, COLON);
    if colon < |l| && EqIgnoreCase(l[..colon], CONTENT_LENGTH) then ParseUnsigned(Trim(l[colon + 1..]), U64_MAX)
    else before
  }

  /** The last Content-Length line decides, even when it is the one that does not parse. */
  function DeclaredLength(headers: seq<bytes>): Option<nat>
  {
    if headers == [] then None
    else LengthAfter(DeclaredLength(headers[..|headers| - 1]), headers[|headers| - 1])
  }

  ghost predicate WellFormed(r: Record)
  {
    && IsLine(r.version) && WARC_SLASH <= r.version
    && (forall k | 0 <= k < |r.headers| :: IsLine(r.headers[k]) && !IsBlank(r.headers[k]))
    && IsBlank(r.blank)
    && DeclaredLength(r.headers) == Some(|r.block|)
  }

  /** Length of the stray separator at the front of `s`; 0 for none. */
  function Separator(s: bytes): (n: nat)
    ensures n <= |s|
  {
    if |s| >= 1 && s[0] == LF then 1 else if |s| >= 2 && s[0] == CR && s[1] == LF then 2 else 0
  }

  /** Nothing but stray separators. */
  predicate BlankLines(s: bytes)
  {
    s == [] || (Separator(s) > 0 && BlankLines(s[Separator(s)..]))
  }

  /** `s` without the stray separators at its front. */
  function SkipBlank(s: bytes): (t: bytes)
    ensures |t| <= |s| && Separator(t) == 0
  {
    if Separator(s) == 0 then s else SkipBlank(s[Separator(s)..])
  }

  lemma BlankInFront(b: bytes, s: bytes)
    requires IsBlank(b)
    ensures Separator(b + s) == |b| > 0 && (b + s)[|b|..] == s
  {
  }

  lemma {:induction false} BlanksAreBlankLines(lines: seq<bytes>)
    requires forall k | 0 <= k < |lines| :: IsBlank(lines[k])
    ensures BlankLines(Flatten(lines))
  {
    if lines != [] {
      BlanksAreBlankLines(lines[1..]);
      BlankInFront(lines[0], Flatten(lines[1..]));
    }
  }

  lemma {:induction false} BlankLinesAreBlanks(s: bytes) returns (lines: seq<bytes>)
    requires BlankLines(s)
    ensures s == Flatten(lines) && forall k | 0 <= k < |lines| :: IsBlank(lines[k])
    decreases |s|
  {
    if s == [] {
      lines := [];
    } else {
      var k := Separator(s);
      var more := BlankLinesAreBlanks(s[k..]);
      lines := [s[..k]] + more;
      assert s[..k] == if k == 1 then [LF] else CRLF;
      FlattenCons(s[..k], more);
    }
  }

  /** Lines of these two kinds and nothing else: LF and CRLF. */
  ghost predicate AllBlank(lines: seq<bytes>)
  {
    forall k | 0 <= k < |lines| :: lines[k] == CRLF || lines[k] == [LF]
  }

  /** Blank lines are line ends one after the other, and nothing else is. */
  lemma BlankLinesExactly(s: bytes)
    ensures BlankLines(s) <==> exists lines :: AllBlank(lines) && s == Flatten(lines)
  {
    if BlankLines(s) {
      var lines := BlankLinesAreBlanks(s);
      assert AllBlank(lines);
    }
    if lines :| AllBlank(lines) && s == Flatten(lines) { BlanksAreBlankLines(lines); }
  }

  lemma BlankOneMore(s: bytes, k: nat, n: nat)
    requires k == Separator(s) > 0 && k + n <= |s| && BlankLines(s[k..][..n])
    ensures BlankLines(s[..k + n]) && s[k + n..] == s[k..][n..]
  {
    assert s[..k + n][k..] == s[k..][..n];
    assert Separator(s[..k + n]) == k;
  }

  /** What `SkipBlank` drops is separators and nothing else. */
  lemma {:induction false} SkippedIsBlank(s: bytes)
    ensures var n := |s| - |SkipBlank(s)|;
      BlankLines(s[..n]) && s[n..] == SkipBlank(s)
    decreases |s|
  {
    var k := Separator(s);
    if k > 0 {
      SkippedIsBlank(s[k..]);
      BlankOneMore(s, k, |s[k..]| - |SkipBlank(s)|);
    }
  }

  /** Separators in front of something that is not one are skipped exactly. */
  lemma {:induction false} SkipBlankExactly(gap: bytes, s: bytes)
    requires BlankLines(gap) && Separator(s) == 0
    ensures SkipBlank(gap + s) == s
    decreases |gap|
  {
    if gap == [] {
      assert gap + s == s;
    } else {
      var k := Separator(gap);
      assert Separator(gap + s) == k;
      assert (gap + s)[k..] == gap[k..] + s;
      SkipBlankExactly(gap[k..], s);
    }
  }

  /** The first line of `s` when `s` goes on after it. */
  lemma FirstLine(l: bytes, t: bytes)
    requires IsLine(l)
    ensures IndexOf(l + t, LF) == |l| - 1
    ensures (l + t)[..|l|] == l && (l + t)[|l|..] == t
  {
    IndexOfFound(l, LF);
    IndexOfIs(l + t, LF, |l| - 1);
  }
}
