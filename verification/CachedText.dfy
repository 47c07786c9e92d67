/** The cached-text format of the OCR cache: one header line that binds the text
  to the digest of the document it came from, then the text. */
module CachedText {
  import opened Bytes

  const MAGIC := "tywb-text/2"
  const DIGEST_KEY := " source-digest="
  const TITLE_KEY := " title="

  // ── searching and splitting ──

  /** `p` stands in `s` at `i`. */
  predicate Occurs(s: string, p: string, i: nat)
  {
    i + |p| <= |s| && s[i..i + |p|] == p
  }

  /** Where `p` first occurs in `s`. */
  function Find(s: string, p: string): (r: Option<nat>)
    ensures r.Some? ==> Occurs(s, p, r.value) && forall j | 0 <= j < r.value :: !Occurs(s, p, j)
    ensures r.None? ==> forall j | 0 <= j :: !Occurs(s, p, j)
  {
    if |s| < |p| then None
    else if s[..|p|] == p then Some(0)
    else
      OccursInTail(s, p);
      match Find(s[1..], p) case None => None case Some(i) => Some(i + 1)
  }

  lemma SliceOfTail(s: string, j: nat, n: nat)
    requires 1 <= j && j + n <= |s|
    ensures s[j..j + n] == s[1..][j - 1..j - 1 + n]
  {
    var x, y := s[j..j + n], s[1..][j - 1..j - 1 + n];
    forall k | 0 <= k < n ensures x[k] == y[k] { assert x[k] == s[j + k] && s[1..][j - 1 + k] == s[j + k]; }
  }

  lemma OneFurther(s: string, p: string, j: nat)
    requires s != [] && 1 <= j
    ensures Occurs(s, p, j) <==> Occurs(s[1..], p, j - 1)
  {
    if j + |p| <= |s| { SliceOfTail(s, j, |p|); }
  }

  lemma OccursInTail(s: string, p: string)
    requires s != []
    ensures forall j | 1 <= j :: Occurs(s, p, j) <==> Occurs(s[1..], p, j - 1)
  {
    forall j | 1 <= j ensures Occurs(s, p, j) <==> Occurs(s[1..], p, j - 1) { OneFurther(s, p, j); }
  }

  /** The piece in front of the first `p`: `s.split(p).next()`. */
  function FirstPiece(s: string, p: string): string
  {
    match Find(s, p) case None => s case Some(i) => s[..i]
  }

  /** The piece between the first `p` and the one after it: `s.split(p).nth(1)`. */
  function SecondPiece(s: string, p: string): Option<string>
  {
    match Find(s, p) case None => None case Some(i) => Some(FirstPiece(s[i + |p|..], p))
  }

  // ── white space ──

  predicate White(c: char)
  {
    || '\U{9}' <= c <= '\U{d}' || c == ' ' || c == '\U{85}' || c == '\U{a0}' || c == '\U{1680}'
    || '\U{2000}' <= c <= '\U{200a}' || c == '\U{2028}' || c == '\U{2029}' || c == '\U{202f}'
    || c == '\U{205f}' || c == '\U{3000}'
  }

  function TrimStringStart(s: string): string
  {
    if s != [] && White(s[0]) then TrimStringStart(s[1..]) else s
  }

  function TrimStringEnd(s: string): string
  {
    if s != [] && White(s[|s| - 1]) then TrimStringEnd(s[..|s| - 1]) else s
  }

  /** White space off both ends, on characters; `Text.Trim` does the same on UTF-8 bytes. */
  function TrimString(s: string): string
  {
    TrimStringEnd(TrimStringStart(s))
  }

  /** Line breaks replaced by spaces. */
  function OneLine(s: string): (r: string)
    ensures |r| == |s| && forall i | 0 <= i < |s| :: r[i] == if s[i] == '\n' || s[i] == '\r' then ' ' else s[i]
  {
    seq(|s|, i requires 0 <= i < |s| => if s[i] == '\n' || s[i] == '\r' then ' ' else s[i])
  }

  // ── the format ──

  datatype Cached = Cached(title: string, text: string)

  function RenderCachedText(digest: string, title: string, text: string): string
  {
    MAGIC + DIGEST_KEY + digest + TITLE_KEY + OneLine(title) + "\n" + text
  }

  /** Read an entry back, if it belongs to exactly this digest. */
  function ParseCachedText(body: string, wantDigest: string): Option<Cached>
  {
    match Find(body, "\n")
    case None => None
    case Some(nl) =>
      var header, text := body[..nl], body[nl + 1..];
      if !(MAGIC <= header) then None else ParseHeader(header[|MAGIC|..], text, wantDigest)
  }

  function ParseHeader(header: string, text: string, wantDigest: string): Option<Cached>
  {
    match SecondPiece(header, DIGEST_KEY)
    case None => None
    case Some(fields) =>
      if FirstPiece(fields, TITLE_KEY) != wantDigest then None
      else match SecondPiece(header, TITLE_KEY)
        case None => Some(Cached("", text))
        case Some(t) => Some(Cached(TrimString(t), text))
  }

  // ── finding what was put there ──

  lemma FindIs(s: string, p: string, k: nat)
    requires Occurs(s, p, k) && forall j | 0 <= j < k :: !Occurs(s, p, j)
    ensures Find(s, p) == Some(k)
  {
  }

  lemma NotOccurs(s: string, p: string, j: nat, k: nat)
    requires k < |p| && (j + k < |s| ==> s[j + k] != p[k])
    ensures !Occurs(s, p, j)
  {
    if j + |p| <= |s| { assert s[j..j + |p|][k] == s[j + k]; }
  }

  /** A pattern that starts with a space cannot start inside a text without one. */
  lemma FindAfterSpaceless(a: string, p: string, t: string)
    requires ' ' !in a && p != [] && p[0] == ' '
    ensures Find(a + p + t, p) == Some(|a|)
  {
    var s := a + p + t;
    assert s[|a|..|a| + |p|] == p;
    forall j: nat | j < |a| ensures !Occurs(s, p, j) {
      assert s[j] == a[j];
      NotOccurs(s, p, j, 0);
    }
    FindIs(s, p, |a|);
  }

  /** The same behind a key that does not match either. */
  lemma FindTitleKey(digest: string, t: string)
    requires ' ' !in digest
    ensures Find(DIGEST_KEY + digest + TITLE_KEY + t, TITLE_KEY) == Some(|DIGEST_KEY + digest|)
  {
    var a := DIGEST_KEY + digest;
    var s := a + TITLE_KEY + t;
    assert s[|a|..|a| + |TITLE_KEY|] == TITLE_KEY;
    forall j: nat | j < |a| ensures !Occurs(s, TITLE_KEY, j) {
      assert s[j] == a[j];
      if j == 0 {
        assert s[1] == DIGEST_KEY[1] == 's';
        NotOccurs(s, TITLE_KEY, 0, 1);
      } else {
        SpacelessTail(digest, j);
        NotOccurs(s, TITLE_KEY, j, 0);
      }
    }
    FindIs(s, TITLE_KEY, |a|);
  }

  lemma SpacelessTail(digest: string, j: nat)
    requires ' ' !in digest && 0 < j < |DIGEST_KEY + digest|
    ensures (DIGEST_KEY + digest)[j] != ' '
  {
    if j >= |DIGEST_KEY| { assert (DIGEST_KEY + digest)[j] == digest[j - |DIGEST_KEY|]; }
  }

  lemma FindAtFront(p: string, t: string)
    ensures Find(p + t, p) == Some(0)
  {
    assert (p + t)[..|p|] == p;
  }

  /** Whatever stands in the title, the digest piece is the digest. */
  lemma DigestPiece(digest: string, t: string)
    requires ' ' !in digest
    ensures FirstPiece(FirstPiece(digest + TITLE_KEY + t, DIGEST_KEY), TITLE_KEY) == digest
  {
    var s := digest + TITLE_KEY + t;
    assert s[..|digest|] == digest;
    match Find(s, DIGEST_KEY)
    case None => FindAfterSpaceless(digest, TITLE_KEY, t);
    case Some(i) =>
      if i < |digest + TITLE_KEY| { NoDigestKeyBeforeTitle(digest, t, i); }
      var more := t[..i - |digest + TITLE_KEY|];
      assert s[..i] == digest + TITLE_KEY + more;
      FindAfterSpaceless(digest, TITLE_KEY, more);
      assert (digest + TITLE_KEY + more)[..|digest|] == digest;
  }

  lemma NoDigestKeyBeforeTitle(digest: string, t: string, i: nat)
    requires ' ' !in digest && i < |digest + TITLE_KEY|
    ensures !Occurs(digest + TITLE_KEY + t, DIGEST_KEY, i)
  {
    var s := digest + TITLE_KEY + t;
    if i < |digest| {
      assert s[i] == digest[i];
      NotOccurs(s, DIGEST_KEY, i, 0);
    } else if i == |digest| {
      assert s[i + 1] == TITLE_KEY[1] == 't';
      NotOccurs(s, DIGEST_KEY, i, 1);
    } else {
      assert s[i] == TITLE_KEY[i - |digest|] != ' ';
      NotOccurs(s, DIGEST_KEY, i, 0);
    }
  }

  // ── the round trip ──

  /** What is left of a title: line breaks to spaces, cut at the first inner
      ` title=`, white space trimmed off both ends. */
  function NormalTitle(title: string): string
  {
    TrimString(FirstPiece(OneLine(title), TITLE_KEY))
  }

  lemma HeaderParses(digest: string, t: string, text: string, want: string)
    requires ' ' !in digest
    ensures ParseHeader(DIGEST_KEY + digest + TITLE_KEY + t, text, want) ==
      if want == digest then Some(Cached(TrimString(FirstPiece(t, TITLE_KEY)), text)) else None
  {
    hide Find, FirstPiece, TrimString;
    var header := DIGEST_KEY + digest + TITLE_KEY + t;
    assert header == DIGEST_KEY + (digest + TITLE_KEY + t);
    FindAtFront(DIGEST_KEY, digest + TITLE_KEY + t);
    assert header[0 + |DIGEST_KEY|..] == digest + TITLE_KEY + t;
    DigestPiece(digest, t);
    FindTitleKey(digest, t);
    assert header[|DIGEST_KEY + digest| + |TITLE_KEY|..] == t;
  }

  lemma FindNewline(header: string, text: string)
    requires '\n' !in header
    ensures Find(header + "\n" + text, "\n") == Some(|header|)
  {
    var s := header + "\n" + text;
    assert s[|header|..|header| + 1] == "\n";
    forall j: nat | j < |header| ensures !Occurs(s, "\n", j) {
      assert s[j] == header[j];
      NotOccurs(s, "\n", j, 0);
    }
    FindIs(s, "\n", |header|);
  }

  /** What was rendered for a digest parses for that digest and for no other, to
      the same text and the title in normal form, even when the title itself
      contains a ` source-digest=`. */
  lemma ParseInvertsRender(digest: string, title: string, text: string, want: string)
    requires ' ' !in digest && '\n' !in digest
    ensures ParseCachedText(RenderCachedText(digest, title, text), want) ==
      if want == digest then Some(Cached(NormalTitle(title), text)) else None
  {
    hide Find, ParseHeader, TrimString, FirstPiece;
    var t := OneLine(title);
    var fields := DIGEST_KEY + digest + TITLE_KEY + t;
    var header := MAGIC + fields;
    var body := RenderCachedText(digest, title, text);
    assert body == header + "\n" + text;
    HeaderHasNoNewline(digest, t);
    FindNewline(header, text);
    assert body[..|header|] == header && body[|header| + 1..] == text;
    assert MAGIC <= header && header[|MAGIC|..] == fields;
    HeaderParses(digest, t, text, want);
  }

  lemma HeaderHasNoNewline(digest: string, t: string)
    requires '\n' !in digest && '\n' !in t
    ensures '\n' !in MAGIC + (DIGEST_KEY + digest + TITLE_KEY + t)
  {
  }

  /** A negative entry reads as one. */
  lemma NegativeEntry(digest: string)
    requires ' ' !in digest && '\n' !in digest
    ensures ParseCachedText(RenderCachedText(digest, "", ""), digest) == Some(Cached("", ""))
  {
    ParseInvertsRender(digest, "", "", digest);
  }

  // ── what else is accepted ──

  lemma FirstPieceIsPrefix(s: string, p: string)
    ensures FirstPiece(s, p) <= s
  {
  }

  lemma PrefixBehindKey(s: string, i: nat, key: string, want: string)
    requires Occurs(s, key, i) && want <= s[i + |key|..]
    ensures Occurs(s, key + want, i)
  {
    var t := s[i + |key|..];
    assert s[i..i + |key + want|] == s[i..i + |key|] + t[..|want|];
  }

  lemma HeaderNamesDigest(header: string, text: string, want: string)
    requires ParseHeader(header, text, want).Some?
    ensures ParseHeader(header, text, want).value.text == text
    ensures exists i: nat :: Occurs(header, DIGEST_KEY + want, i)
  {
    hide FirstPiece;
    var i := Find(header, DIGEST_KEY).value;
    var tail := header[i + |DIGEST_KEY|..];
    FirstPieceIsPrefix(tail, DIGEST_KEY);
    FirstPieceIsPrefix(FirstPiece(tail, DIGEST_KEY), TITLE_KEY);
    PrefixBehindKey(header, i, DIGEST_KEY, want);
  }

  /** Whatever the file holds, an entry is only read from one whose first line starts with
      the magic word and names exactly this digest, and its text is all that stands behind
      that line. */
  lemma AcceptedNamesDigest(body: string, want: string)
    requires ParseCachedText(body, want).Some?
    ensures exists header: string ::
      && '\n' !in header && body == MAGIC + header + "\n" + ParseCachedText(body, want).value.text
      && exists i: nat :: Occurs(header, DIGEST_KEY + want, i)
  {
    hide Find, ParseHeader;
    var nl := Find(body, "\n").value;
    var line, text := body[..nl], body[nl + 1..];
    var header := line[|MAGIC|..];
    HeaderNamesDigest(header, text, want);
    assert body[nl..nl + 1] == "\n" && line == MAGIC + header;
    assert body == line + "\n" + text;
    NoEarlierNewline(body, nl);
  }

  lemma NoEarlierNewline(body: string, nl: nat)
    requires nl <= |body| && forall j | 0 <= j < nl :: !Occurs(body, "\n", j)
    ensures '\n' !in body[..nl]
  {
    forall j | 0 <= j < nl ensures body[..nl][j] != '\n' {
      assert !Occurs(body, "\n", j) && body[j..j + 1] == [body[j]];
    }
  }

  /** A title is kept as it is when it is one line, does not hold the title key, and
      neither starts nor ends with white space. */
  lemma TitleIsKept(title: string)
    requires '\n' !in title && '\r' !in title && forall i: nat :: !Occurs(title, TITLE_KEY, i)
    requires title != "" ==> !White(title[0]) && !White(title[|title| - 1])
    ensures NormalTitle(title) == title
  {
    assert OneLine(title) == title;
    NothingToCut(title, TITLE_KEY);
    NothingToTrim(title);
  }

  /** Entries without a title are read as well. */
  lemma UntitledEntry(digest: string, text: string)
    requires ' ' !in digest && '\n' !in digest
    ensures ParseCachedText(MAGIC + DIGEST_KEY + digest + "\n" + text, digest) == Some(Cached("", text))
  {
    var header := DIGEST_KEY + digest;
    var line := MAGIC + header;
    hide Find, ParseHeader;
    assert MAGIC + DIGEST_KEY + digest + "\n" + text == line + "\n" + text;
    FindNewline(line, text);
    assert (line + "\n" + text)[..|line|] == line && (line + "\n" + text)[|line| + 1..] == text;
    assert MAGIC <= line && line[|MAGIC|..] == header;
    UntitledHeader(digest, text);
  }

  lemma UntitledHeader(digest: string, text: string)
    requires ' ' !in digest
    ensures ParseHeader(DIGEST_KEY + digest, text, digest) == Some(Cached("", text))
  {
    hide Find;
    var header := DIGEST_KEY + digest;
    FindAtFront(DIGEST_KEY, digest);
    assert header[0 + |DIGEST_KEY|..] == digest;
    NoKeyIn(digest, DIGEST_KEY);
    NoKeyIn(digest, TITLE_KEY);
    forall j: nat ensures !Occurs(header, TITLE_KEY, j) {
      if j == 0 {
        assert header[1] == 's';
        NotOccurs(header, TITLE_KEY, 0, 1);
      } else if j < |header| {
        SpacelessTail(digest, j);
        NotOccurs(header, TITLE_KEY, j, 0);
      }
    }
    NotFound(header, TITLE_KEY);
  }

  lemma NoKeyIn(digest: string, key: string)
    requires ' ' !in digest && key != "" && key[0] == ' '
    ensures Find(digest, key) == None
  {
    forall j: nat ensures !Occurs(digest, key, j) { if j < |digest| { NotOccurs(digest, key, j, 0); } }
    NotFound(digest, key);
  }

  lemma NotFound(s: string, p: string)
    requires forall j: nat :: !Occurs(s, p, j)
    ensures Find(s, p) == None
  {
  }

  // ── the normal form is one ──

  lemma {:induction false} TrimmedStartIsTail(s: string)
    ensures |TrimStringStart(s)| <= |s| && TrimStringStart(s) == s[|s| - |TrimStringStart(s)|..]
    ensures TrimStringStart(s) != [] ==> !White(TrimStringStart(s)[0])
  {
    if s != [] && White(s[0]) { TrimmedStartIsTail(s[1..]); }
  }

  lemma {:induction false} TrimmedEndIsHead(s: string)
    ensures |TrimStringEnd(s)| <= |s| && TrimStringEnd(s) == s[..|TrimStringEnd(s)|]
    ensures TrimStringEnd(s) != [] ==> !White(TrimStringEnd(s)[|TrimStringEnd(s)| - 1])
    decreases |s|
  {
    if s != [] && White(s[|s| - 1]) {
      TrimmedEndIsHead(s[..|s| - 1]);
      assert s[..|s| - 1][..|TrimStringEnd(s)|] == s[..|TrimStringEnd(s)|];
    }
  }

  /** What trimming leaves is a stretch of the text that starts and ends in black. */
  lemma TrimmedIsInside(s: string)
    ensures var t := TrimString(s);
      && (exists k: nat :: Occurs(s, t, k))
      && (t != [] ==> !White(t[0]) && !White(t[|t| - 1]))
  {
    var u := TrimStringStart(s);
    TrimmedStartIsTail(s);
    TrimmedEndIsHead(u);
    var k, n := |s| - |u|, |TrimStringEnd(u)|;
    assert u[..n] == s[k..k + n];
    assert Occurs(s, TrimString(s), k);
  }

  lemma OccursInside(s: string, u: string, k: nat, p: string, i: nat)
    requires Occurs(s, u, k) && Occurs(u, p, i)
    ensures Occurs(s, p, k + i)
  {
    assert u == s[k..k + |u|];
    forall j | 0 <= j < |p| ensures s[k + i + j] == p[j] {
      assert u[i..i + |p|][j] == u[i + j] == s[k + (i + j)];
    }
  }

  lemma FirstPieceHasNone(s: string, p: string)
    requires p != []
    ensures forall i: nat :: !Occurs(FirstPiece(s, p), p, i)
    ensures |FirstPiece(s, p)| <= |s| && FirstPiece(s, p) == s[..|FirstPiece(s, p)|]
  {
    var f := FirstPiece(s, p);
    forall i: nat ensures !Occurs(f, p, i) {
      if Occurs(f, p, i) { OccursInside(s, f, 0, p, i); }
    }
  }

  /** A stored title read back and stored again does not change any more. */
  lemma NormalTitleTwice(title: string)
    ensures NormalTitle(NormalTitle(title)) == NormalTitle(title)
  {
    hide Find, FirstPiece, TrimString;
    var t := OneLine(title);
    var f := FirstPiece(t, TITLE_KEY);
    var r := TrimString(f);
    FirstPieceHasNone(t, TITLE_KEY);
    TrimmedIsInside(f);
    var k: nat :| Occurs(f, r, k);
    NoBreaks(t, |f|, r, k);
    forall i: nat ensures !Occurs(r, TITLE_KEY, i) {
      if Occurs(r, TITLE_KEY, i) { OccursInside(f, r, k, TITLE_KEY, i); }
    }
    NothingToCut(r, TITLE_KEY);
    NothingToTrim(r);
  }

  lemma NoBreaks(t: string, n: nat, r: string, k: nat)
    requires n <= |t| && '\n' !in t && '\r' !in t && Occurs(t[..n], r, k)
    ensures OneLine(r) == r
  {
    forall i | 0 <= i < |r| ensures r[i] != '\n' && r[i] != '\r' {
      assert t[..n][k..k + |r|][i] == t[k + i];
    }
  }

  lemma NothingToCut(s: string, p: string)
    requires forall i: nat :: !Occurs(s, p, i)
    ensures FirstPiece(s, p) == s
  {
  }

  lemma NothingToTrim(s: string)
    requires s != [] ==> !White(s[0]) && !White(s[|s| - 1])
    ensures TrimString(s) == s
  {
  }
}
