/** The host of a URL, as the skip list finds it without parsing and as the SURT key
  has it, and exactly when the two ways of asking about a domain agree. */
module HostFilter {
  import opened Bytes
  import opened Text
  import opened SurtHost
  import opened CdxStore

  // ── the host in front of the first stop ──

  predicate Stop(b: byte)
  {
    b == 47 || b == 58 || b == 63 || b == 35
  }

  /** Length of the part in front of the first `/`, `:`, `?` or `#`. */
  function UpToStop(s: bytes): (n: nat)
    ensures n <= |s|
  {
    if s == [] || Stop(s[0]) then 0 else 1 + UpToStop(s[1..])
  }

  const SCHEME_END: bytes := [58, 47, 47]

  /** Where `://` first stands. */
  function FindScheme(url: bytes): (r: Option<nat>)
    ensures r.Some? ==> r.value + 3 <= |url|
  {
    if |url| < 3 then None
    else if url[..3] == SCHEME_END then Some(0)
    else match FindScheme(url[1..]) case None => None case Some(i) => Some(i + 1)
  }

  /** The host as the skip list sees it, without parsing the URL. */
  function FastHost(url: bytes): Option<bytes>
  {
    match FindScheme(url)
    case None => None
    case Some(i) => Some(Lower(url[i + 3..][..UpToStop(url[i + 3..])]))
  }

  /** The host of `url` is covered by this configured domain. */
  predicate ListedBy(url: bytes, domain: bytes)
  {
    FastHost(url).Some? && HostCovered(Lower(FastHost(url).value), Lower(Trim(domain)))
  }

  // ── URLs, taken apart ──

  /** What ordinary domain names consist of. */
  predicate NameChar(b: byte)
  {
    97 <= b <= 122 || Digit(b) || b == 45
  }

  predicate HostChar(b: byte)
  {
    NameChar(b) || b == UNDERSCORE
  }

  /** Labels over a-z, 0-9, the hyphen and the underscore. */
  ghost predicate HostLabels(ls: seq<bytes>)
  {
    ls != [] && forall i, j | 0 <= i < |ls| && 0 <= j < |ls[i]| :: HostChar(ls[i][j])
  }

  lemma HostLabelsAreLabels(ls: seq<bytes>)
    requires HostLabels(ls)
    ensures Labels(ls) && HostLabels(Reverse(ls))
  {
  }

  lemma {:induction false} JoinChars(ls: seq<bytes>, sep: byte)
    requires HostLabels(ls)
    ensures forall i | 0 <= i < |Join(ls, sep)| :: HostChar(Join(ls, sep)[i]) || Join(ls, sep)[i] == sep
    decreases |ls|
  {
    if |ls| > 1 { JoinChars(ls[1..], sep); }
  }

  const AT_SIGN: byte := 64

  /** A slash, question mark or number sign: what ends the authority of a URL. */
  predicate EndsAuthority(b: byte)
  {
    b == 47 || b == 63 || b == 35
  }

  /** No `@` in front of the first `/`, `?` or `#`. */
  predicate NoUserIn(s: bytes)
  {
    s == [] || EndsAuthority(s[0]) || (s[0] != AT_SIGN && NoUserIn(s[1..]))
  }

  /** A URL as text, in its parts: user information, if any, up to the last `@` of the
      authority, the host without the dots at its end, port and path as `tail`. With
      it the host labels and the remainder of its SURT key; that a URL parser gets
      these out of the text is an assumption. */
  datatype Url = Url(scheme: bytes, user: Option<bytes>, host: bytes, dots: nat, tail: bytes, labels: seq<bytes>,
    rest: bytes)

  /** The host in lower case. */
  function HostOf(u: Url): bytes
  {
    Join(u.labels, DOT)
  }

  ghost predicate UrlGood(u: Url)
  {
    && COLON !in u.scheme
    && (u.user.Some? ==> forall i | 0 <= i < |u.user.value| :: !EndsAuthority(u.user.value[i]))
    && HostLabels(u.labels) && Lower(u.host) == HostOf(u)
    && (u.dots > 0 ==> HostOf(u) != [] && HostOf(u)[|HostOf(u)| - 1] != DOT)
    && (u.tail != [] ==> Stop(u.tail[0])) && NoUserIn(u.tail)
  }

  function Dots(n: nat): bytes
  {
    seq(n, _ => DOT)
  }

  function UserText(u: Url): bytes
  {
    match u.user case None => [] case Some(x) => x + [AT_SIGN]
  }

  /** User information, host and dots. */
  function Front(u: Url): bytes
  {
    UserText(u) + (u.host + Dots(u.dots))
  }

  function UrlText(u: Url): bytes
  {
    u.scheme + SCHEME_END + (Front(u) + u.tail)
  }

  /** A configured domain as it is compared: in lower case, without white space around it. */
  function DomainOf(text: bytes): bytes
  {
    Lower(Trim(text))
  }

  /** A domain without percent and at sign; anything else may be in it. */
  predicate PlainDomain(text: bytes)
  {
    PERCENT !in DomainOf(text) && AT_SIGN !in DomainOf(text)
  }

  // ── what the fast path sees ──

  /** There is a colon in the user information: a password, say. */
  predicate ColonInUser(u: Url)
  {
    u.user.Some? && COLON in u.user.value
  }

  /** The part the fast path takes for the host. */
  function SeenHost(u: Url): bytes
  {
    Lower(if ColonInUser(u) then u.user.value[..IndexOf(u.user.value, COLON)] else Front(u))
  }

  lemma {:induction false} SchemeFound(scheme: bytes, t: bytes)
    requires COLON !in scheme
    ensures FindScheme(scheme + SCHEME_END + t) == Some(|scheme|)
    decreases |scheme|
  {
    var s := scheme + SCHEME_END + t;
    if scheme == [] {
      assert s[..3] == SCHEME_END;
    } else {
      assert s[1..] == scheme[1..] + SCHEME_END + t;
      assert s[..3][0] == s[0] == scheme[0] != COLON;
      SchemeFound(scheme[1..], t);
    }
  }

  lemma {:induction false} HostEnds(host: bytes, tail: bytes)
    requires (forall i | 0 <= i < |host| :: !Stop(host[i])) && (tail != [] ==> Stop(tail[0]))
    ensures UpToStop(host + tail) == |host|
    decreases |host|
  {
    if host == [] {
      assert host + tail == tail;
    } else {
      assert (host + tail)[1..] == host[1..] + tail;
      HostEnds(host[1..], tail);
    }
  }

  lemma NoStopInHost(host: bytes, labels: seq<bytes>)
    requires HostLabels(labels) && Lower(host) == Join(labels, DOT)
    ensures forall i | 0 <= i < |host| :: !Stop(host[i])
  {
    JoinChars(labels, DOT);
    forall i | 0 <= i < |host| ensures !Stop(host[i]) { assert Lower(host)[i] == LowerByte(host[i]); }
  }

  /** Nothing in front of the first stop is one. */
  lemma {:induction false} StopFound(s: bytes, n: nat)
    requires n <= |s| && (forall i | 0 <= i < n :: !Stop(s[i])) && (n < |s| ==> Stop(s[n]))
    ensures UpToStop(s) == n
    decreases n
  {
    if n > 0 { StopFound(s[1..], n - 1); }
  }

  lemma NoStopInFront(u: Url)
    requires UrlGood(u) && !ColonInUser(u)
    ensures forall i | 0 <= i < |Front(u)| :: !Stop(Front(u)[i])
  {
    hide Join, NoUserIn;
    NoStopInHost(u.host, u.labels);
    var user := UserText(u);
    forall i | 0 <= i < |user| ensures !Stop(user[i]) {
      if i < |user| - 1 { assert user[i] == u.user.value[i]; }
    }
  }

  /** The first stop of the text behind the scheme. */
  lemma SeenIsUpToStop(u: Url)
    requires UrlGood(u)
    ensures var s := Front(u) + u.tail;
      Lower(s[..UpToStop(s)]) == SeenHost(u)
  {
    hide Join, NoUserIn, UpToStop, Lower, HostLabels;
    var s := Front(u) + u.tail;
    if ColonInUser(u) {
      var user := u.user.value;
      var n := IndexOf(user, COLON);
      IndexOfFound(user, COLON);
      assert s == user + ([AT_SIGN] + (u.host + Dots(u.dots)) + u.tail);
      forall i | 0 <= i < n ensures !Stop(s[i]) { assert s[i] == user[i]; }
      StopFound(s, n);
      assert s[..n] == user[..n];
    } else {
      NoStopInFront(u);
      StopFound(s, |Front(u)|);
      assert s[..|Front(u)|] == Front(u);
    }
  }

  lemma FastHostIs(u: Url)
    requires UrlGood(u)
    ensures FastHost(UrlText(u)) == Some(SeenHost(u))
  {
    hide Join, FindScheme, UpToStop, NoUserIn, SeenHost, Front, HostLabels;
    SchemeFound(u.scheme, Front(u) + u.tail);
    SeenIsUpToStop(u);
    assert UrlText(u)[|u.scheme| + 3..] == Front(u) + u.tail;
  }

  /** Which URLs the filter refuses for a domain, by what the fast path sees. */
  lemma ListedIs(u: Url, text: bytes)
    requires UrlGood(u)
    ensures ListedBy(UrlText(u), text) <==> HostCovered(SeenHost(u), DomainOf(text))
  {
    hide Join, NoUserIn, UrlText, FastHost, HostCovered, Trim, Front, HostLabels;
    FastHostIs(u);
    LowerTwice(if ColonInUser(u) then u.user.value[..IndexOf(u.user.value, COLON)] else Front(u));
  }

  /** Without user information and dots at the end that is the host of the URL. */
  lemma FastHostIsHost(u: Url)
    requires UrlGood(u) && u.user == None && u.dots == 0
    ensures FastHost(UrlText(u)) == Some(HostOf(u))
  {
    hide Join, NoUserIn, UrlText, FastHost, HostLabels;
    FastHostIs(u);
    assert Front(u) == u.host;
  }

  // ── LIKE on SURT keys ──

  function KeyOf(u: Url): bytes
  {
    Surt(u.labels, u.rest)
  }

  /** The key of `u` matches the reversed domain and a separator, where an underscore
      in the domain stands for any character. */
  predicate Wild(u: Url, text: bytes)
  {
    WildPrefix(KeyOf(u), DomainToSurtHost(text) + [CLOSE]) || WildPrefix(KeyOf(u), DomainToSurtHost(text) + [COMMA])
  }

  lemma NoPercentInPattern(text: bytes)
    requires PERCENT !in DomainOf(text)
    ensures PERCENT !in DomainToSurtHost(text)
  {
    hide Trim, Lower, Join, Split;
    var d := Split(DomainOf(text), DOT);
    SplitHolds(DomainOf(text), DOT, PERCENT);
    ReverseWithout(d, PERCENT);
    JoinHolds(Reverse(d), COMMA, PERCENT);
  }

  /** What the purge deletes for a domain is what matches in this way. */
  lemma PurgedIsWild(u: Url, text: bytes)
    requires PlainDomain(text)
    ensures DomainRow(KeyOf(u), DomainToSurtHost(text)) <==> Wild(u, text)
  {
    hide Like, WildPrefix, DomainToSurtHost, KeyOf, Trim, Lower;
    var q := DomainToSurtHost(text);
    NoPercentInPattern(text);
    LikePrefix(KeyOf(u), q + [CLOSE]);
    LikePrefix(KeyOf(u), q + [COMMA]);
  }

  lemma PrefixIsWild(s: bytes, p: bytes)
    requires StartsWith(s, p)
    ensures WildPrefix(s, p)
  {
  }

  /** A domain that covers the host matches its key. */
  lemma CoveredIsWild(u: Url, text: bytes)
    requires UrlGood(u) && HostCovered(HostOf(u), DomainOf(text))
    ensures Wild(u, text)
  {
    hide Join, HostCovered, StartsWith, WildPrefix, DomainToSurtHost, Trim, Lower, HostLabels, NoUserIn, Split,
      EndsWith, Covers;
    var d := Split(DomainOf(text), DOT);
    DomainPrefix(text);
    HostLabelsAreLabels(u.labels);
    DotInFront(HostOf(u), DomainOf(text));
    SuffixOfLabels(u.labels, d);
    CoveringAreLabels(d, u.labels);
    HostSuffixIsSurtPrefix(u.labels, d, u.rest);
    if StartsWith(KeyOf(u), DomainToSurtHost(text) + [CLOSE]) {
      PrefixIsWild(KeyOf(u), DomainToSurtHost(text) + [CLOSE]);
    } else {
      PrefixIsWild(KeyOf(u), DomainToSurtHost(text) + [COMMA]);
    }
  }

  lemma CoveringAreLabels(d: seq<bytes>, ls: seq<bytes>)
    requires Labels(ls) && Covers(d, ls) && d != []
    ensures Labels(d)
  {
    forall i | 0 <= i < |d| ensures DOT !in d[i] && COMMA !in d[i] && CLOSE !in d[i] {
      assert d[i] == ls[|ls| - |d| + i];
    }
  }

  /** The key matches, but the domain does not cover the host. */
  predicate Stray(u: Url, text: bytes)
  {
    Wild(u, text) && !HostCovered(HostOf(u), DomainOf(text))
  }

  /** The rows the purge deletes for a domain: those whose host it covers, and strays. */
  lemma PurgedIs(u: Url, text: bytes)
    requires UrlGood(u) && PlainDomain(text)
    ensures DomainRow(KeyOf(u), DomainToSurtHost(text)) <==> HostCovered(HostOf(u), DomainOf(text)) || Stray(u, text)
  {
    hide Join, HostCovered, DomainRow, Wild, DomainToSurtHost, Trim, Lower, HostLabels, NoUserIn, KeyOf;
    PurgedIsWild(u, text);
    if HostCovered(HostOf(u), DomainOf(text)) { CoveredIsWild(u, text); }
  }

  // ── strays ──

  /** A domain of letters, digits, hyphens and dots. */
  predicate OrdinaryDomain(text: bytes)
  {
    forall i | 0 <= i < |DomainOf(text)| :: NameChar(DomainOf(text)[i]) || DomainOf(text)[i] == DOT
  }

  /** In the front part of a SURT key there is no case to ignore. */
  lemma WildIsPrefix(h: bytes, rest: bytes, q: bytes, sep: byte)
    requires Separator(sep)
    requires forall i | 0 <= i < |h| :: HostChar(h[i]) || h[i] == COMMA
    requires forall i | 0 <= i < |q| :: NameChar(q[i]) || q[i] == COMMA
    ensures WildPrefix(h + [CLOSE] + rest, q + [sep]) ==> StartsWith(h + [CLOSE] + rest, q + [sep])
  {
    var s, p := h + [CLOSE] + rest, q + [sep];
    if WildPrefix(s, p) {
      assert |h| < |p| ==> s[|h|] == CLOSE;
      assert |q| <= |h|;
      forall i | 0 <= i < |p| ensures s[i] == p[i] {
        assert s[i] == if i < |h| then h[i] else CLOSE;
        assert p[i] == if i < |q| then q[i] else sep;
      }
      assert s[..|p|] == p;
    }
  }

  lemma {:induction false} OrdinaryPieces(s: bytes)
    requires forall i | 0 <= i < |s| :: NameChar(s[i]) || s[i] == DOT
    ensures forall k, i | 0 <= k < |Split(s, DOT)| && 0 <= i < |Split(s, DOT)[k]| :: NameChar(Split(s, DOT)[k][i])
    decreases |s|
  {
    hide NameChar;
    var n := IndexOf(s, DOT);
    FirstIsWithout(s, DOT);
    if n < |s| { OrdinaryPieces(s[n + 1..]); }
  }

  lemma {:induction false} JoinNameChars(ls: seq<bytes>)
    requires forall k, i | 0 <= k < |ls| && 0 <= i < |ls[k]| :: NameChar(ls[k][i])
    ensures forall i | 0 <= i < |Join(ls, COMMA)| :: NameChar(Join(ls, COMMA)[i]) || Join(ls, COMMA)[i] == COMMA
    decreases |ls|
  {
    hide NameChar;
    if |ls| > 1 { JoinNameChars(ls[1..]); }
  }

  /** An ordinary domain has none. */
  lemma OrdinaryHasNoStrays(u: Url, text: bytes)
    requires UrlGood(u) && OrdinaryDomain(text)
    ensures !Stray(u, text)
  {
    hide Join, HostCovered, StartsWith, WildPrefix, DomainToSurtHost, Trim, Lower, NoUserIn, Split, NameChar, HostChar;
    var d := Split(DomainOf(text), DOT);
    var h, q := Join(Reverse(u.labels), COMMA), Join(Reverse(d), COMMA);
    DomainPrefix(text);
    OrdinaryPieces(DomainOf(text));
    JoinNameChars(Reverse(d));
    HostLabelsAreLabels(u.labels);
    JoinChars(Reverse(u.labels), COMMA);
    WildIsPrefix(h, u.rest, q, CLOSE);
    WildIsPrefix(h, u.rest, q, COMMA);
    OrdinaryAreLabels(d);
    HostSuffixIsSurtPrefix(u.labels, d, u.rest);
  }

  lemma OrdinaryAreLabels(d: seq<bytes>)
    requires d != [] && forall k, i | 0 <= k < |d| && 0 <= i < |d[k]| :: NameChar(d[k][i])
    ensures Labels(d)
  {
  }

  /** But of a domain with an underscore, `x_y`, every capture of host `y.x` is one. */
  lemma UnderscoreStrays(u: Url, text: bytes, x: bytes, y: bytes)
    requires UrlGood(u) && u.labels == [y, x] && DomainOf(text) == x + [UNDERSCORE] + y
    ensures PlainDomain(text) && Stray(u, text)
  {
    hide Trim, Lower, NoUserIn, IndexOf, Split;
    var d := x + [UNDERSCORE] + y;
    assert HostLabels([y, x]) && forall i | 0 <= i < |x| :: HostChar([y, x][1][i]);
    assert forall i | 0 <= i < |y| :: HostChar([y, x][0][i]);
    forall i | 0 <= i < |d| ensures HostChar(d[i]) {
      if i < |x| { assert d[i] == x[i]; } else if i > |x| { assert d[i] == y[i - |x| - 1]; }
    }
    NoDotInside(d);
    OneLabelKey(d);
    TwoLabelKey(u, x, y);
    UnderscoreMatches(x, y, u.rest);
    NotCovered(x, y);
    assert DomainToSurtHost(text) == d;
  }

  lemma NoDotInside(d: bytes)
    requires forall i | 0 <= i < |d| :: HostChar(d[i])
    ensures DOT !in d && PERCENT !in d && AT_SIGN !in d && Split(d, DOT) == [d]
  {
    NoSep(d, DOT);
  }

  lemma OneLabelKey(d: bytes)
    ensures Join(Reverse([d]), COMMA) == d
  {
  }

  lemma TwoLabelKey(u: Url, x: bytes, y: bytes)
    requires u.labels == [y, x]
    ensures KeyOf(u) == x + [COMMA] + y + [CLOSE] + u.rest && HostOf(u) == y + [DOT] + x
  {
    assert Reverse([y, x]) == [x, y];
    JoinTwo(x, y, COMMA);
    JoinTwo(y, x, DOT);
  }

  lemma JoinTwo(a: bytes, b: bytes, sep: byte)
    ensures Join([a, b], sep) == a + [sep] + b
  {
    assert [a, b][1..] == [b];
    assert Join([b], sep) == b;
  }

  lemma UnderscoreMatches(x: bytes, y: bytes, rest: bytes)
    ensures WildPrefix(x + [COMMA] + y + [CLOSE] + rest, x + [UNDERSCORE] + y + [CLOSE])
  {
    var s, p := x + [COMMA] + y + [CLOSE] + rest, x + [UNDERSCORE] + y + [CLOSE];
    forall i | 0 <= i < |p| ensures p[i] == UNDERSCORE || s[i] == p[i] {
      if i < |x| { assert p[i] == x[i] == s[i]; }
      else if |x| < i < |x| + 1 + |y| { assert p[i] == y[i - |x| - 1] == s[i]; }
    }
  }

  lemma NotCovered(x: bytes, y: bytes)
    requires DOT !in x + [UNDERSCORE] + y
    ensures !HostCovered(y + [DOT] + x, x + [UNDERSCORE] + y)
  {
    var h := y + [DOT] + x;
    assert h[|y|] == DOT && DOT in h;
  }

  // ── when filter and purge agree ──

  /** Without user information and dots at the end, and for an ordinary domain, the rows
      the purge deletes are exactly those whose URL the filter refuses for it. */
  lemma PurgeMatchesFilter(u: Url, text: bytes)
    requires UrlGood(u) && u.user == None && u.dots == 0 && OrdinaryDomain(text)
    ensures DomainRow(KeyOf(u), DomainToSurtHost(text)) <==> ListedBy(UrlText(u), text)
  {
    hide Join, HostCovered, DomainRow, ListedBy, UrlText, KeyOf, DomainToSurtHost, Trim, Lower, HostLabels, NoUserIn,
      FastHost, Stray;
    OrdinaryIsPlain(text);
    FastHostIsHost(u);
    FastHostIs(u);
    ListedIs(u, text);
    PurgedIs(u, text);
    OrdinaryHasNoStrays(u, text);
  }

  lemma OrdinaryIsPlain(text: bytes)
    requires OrdinaryDomain(text)
    ensures PlainDomain(text)
  {
    hide Trim, Lower;
  }

  lemma EndBehind(s: bytes, p: bytes, k: nat)
    requires EndsWith(s, p) && AT_SIGN !in p && k < |s| && s[k] == AT_SIGN
    ensures k < |s| - |p|
  {
    assert forall i | 0 <= i < |p| :: s[|s| - |p| + i] == p[i];
  }

  /** A name without `@` covers what stands behind an `@` only as a name above it. */
  lemma CoveredBehindAt(a: bytes, h: bytes, d: bytes)
    requires AT_SIGN !in d
    ensures HostCovered(a + [AT_SIGN] + h, d) <==> EndsWith(h, [DOT] + d)
  {
    var s, p := a + [AT_SIGN] + h, [DOT] + d;
    assert s[|a|] == AT_SIGN;
    if EndsWith(s, p) {
      EndBehind(s, p, |a|);
      assert h[|h| - |p|..] == s[|s| - |p|..];
    }
    if EndsWith(h, p) { assert s[|s| - |p|..] == h[|h| - |p|..]; }
  }

  lemma LowerJoins(a: bytes, b: bytes)
    ensures Lower(a + b) == Lower(a) + Lower(b)
  {
  }

  lemma LowerSigns(n: nat)
    ensures Lower([AT_SIGN]) == [AT_SIGN] && Lower(Dots(n)) == Dots(n)
  {
  }

  /** What the fast path sees when no colon is in its way. */
  lemma SeenParts(u: Url)
    requires UrlGood(u) && !ColonInUser(u)
    ensures var h := HostOf(u) + Dots(u.dots);
      SeenHost(u) == if u.user.None? then h else Lower(u.user.value) + [AT_SIGN] + h
  {
    hide Join, NoUserIn, Lower, HostLabels;
    LowerJoins(UserText(u), u.host + Dots(u.dots));
    LowerJoins(u.host, Dots(u.dots));
    LowerSigns(u.dots);
    if u.user.Some? {
      LowerJoins(u.user.value, [AT_SIGN]);
    } else {
      assert Front(u) == u.host + Dots(u.dots);
    }
  }

  /** With a colon in the user information the filter asks about what stands in front
      of it, whatever the host is. */
  lemma UserPartDecides(u: Url, text: bytes)
    requires UrlGood(u) && ColonInUser(u)
    ensures var user := u.user.value;
      ListedBy(UrlText(u), text) <==> HostCovered(Lower(user[..IndexOf(user, COLON)]), DomainOf(text))
  {
    hide Join, NoUserIn, UrlText, ListedBy, HostCovered, Trim, Lower, HostLabels, EndsWith;
    ListedIs(u, text);
  }

  /** With user information without a colon the filter refuses names below a listed
      domain, but lets the domain itself through. */
  lemma UserNameHidesApex(u: Url, text: bytes)
    requires UrlGood(u) && PlainDomain(text) && u.user.Some? && COLON !in u.user.value && u.dots == 0
    ensures ListedBy(UrlText(u), text) <==> EndsWith(HostOf(u), [DOT] + DomainOf(text))
    ensures DomainRow(KeyOf(u), DomainToSurtHost(text)) <==>
      HostOf(u) == DomainOf(text) || EndsWith(HostOf(u), [DOT] + DomainOf(text)) || Stray(u, text)
  {
    hide Join, DomainRow, ListedBy, UrlText, KeyOf, DomainToSurtHost, Trim, Lower, HostLabels, NoUserIn, FastHost,
      EndsWith, SeenHost, Stray;
    ListedIs(u, text);
    PurgedIs(u, text);
    SeenParts(u);
    assert HostOf(u) + Dots(0) == HostOf(u);
    CoveredBehindAt(Lower(u.user.value), HostOf(u), DomainOf(text));
  }

  /** A name covers one with dots at the end only when it is empty or ends in a dot. */
  lemma CoveredWithDots(h: bytes, n: nat, d: bytes)
    requires n > 0 && (HostCovered(h + Dots(n), d) || EndsWith(h + Dots(n), [DOT] + d))
    ensures d == [] || d[|d| - 1] == DOT
  {
    var s := h + Dots(n);
    assert s[|s| - 1] == DOT;
    var p := [DOT] + d;
    if EndsWith(s, p) { assert s[|s| - |p|..][|p| - 1] == p[|p| - 1]; }
  }

  /** The key of a host with text in its last label starts with that text. */
  lemma KeyStartsInHost(u: Url)
    requires UrlGood(u) && u.dots > 0
    ensures KeyOf(u) != [] && HostChar(KeyOf(u)[0])
  {
    hide NoUserIn, Lower;
    var n := |u.labels| - 1;
    if u.labels[n] == [] { LastLabelEmpty(u.labels); }
    var r := Reverse(u.labels);
    assert r[0] == u.labels[n] && HostChar(u.labels[n][0]);
    assert Join(r, COMMA)[0] == r[0][0];
  }

  lemma LastLabelEmpty(ls: seq<bytes>)
    requires ls != [] && ls[|ls| - 1] == []
    ensures Join(ls, DOT) == [] || Join(ls, DOT)[|Join(ls, DOT)| - 1] == DOT
  {
    var n := |ls| - 1;
    if n > 0 {
      JoinSnoc(ls[..n], ls[n], DOT);
      assert ls[..n] + [ls[n]] == ls;
    }
  }

  /** A domain that is empty or ends in a dot has a pattern that starts with a separator. */
  lemma PatternStartsEmpty(text: bytes, sep: byte)
    requires Separator(sep) && (DomainOf(text) == [] || DomainOf(text)[|DomainOf(text)| - 1] == DOT)
    ensures (DomainToSurtHost(text) + [sep])[0] == COMMA || (DomainToSurtHost(text) + [sep])[0] == CLOSE
  {
    hide Trim, Lower, Split;
    var d := Split(DomainOf(text), DOT);
    DomainPrefix(text);
    LastOfDotted(d);
    var r := Reverse(d);
    assert r[0] == [];
    if |r| > 1 { assert Join(r, COMMA)[0] == COMMA; }
  }

  lemma LastOfDotted(d: seq<bytes>)
    requires d != [] && Without(d, DOT) && (Join(d, DOT) == [] || Join(d, DOT)[|Join(d, DOT)| - 1] == DOT)
    ensures d[|d| - 1] == []
  {
    hide Join;
    EndsInLastLabel(d);
  }

  lemma EndsInLastLabel(d: seq<bytes>)
    requires d != []
    ensures d[|d| - 1] != [] ==> Join(d, DOT) != [] && Join(d, DOT)[|Join(d, DOT)| - 1] in d[|d| - 1]
  {
    var n := |d| - 1;
    if n > 0 {
      JoinSnoc(d[..n], d[n], DOT);
      assert d[..n] + [d[n]] == d;
    }
    if d[n] != [] { assert Join(d, DOT)[|Join(d, DOT)| - 1] == d[n][|d[n]| - 1]; }
  }

  lemma StartsElsewhere(s: bytes, p: bytes)
    requires s != [] && p != [] && HostChar(s[0]) && (p[0] == COMMA || p[0] == CLOSE)
    ensures !WildPrefix(s, p)
  {
  }

  /** With dots at the end of the host filter and purge never both go by it. */
  lemma DotsMislead(u: Url, text: bytes)
    requires UrlGood(u) && u.dots > 0 && !ColonInUser(u) && PlainDomain(text)
    ensures !(HostCovered(SeenHost(u), DomainOf(text)) && Wild(u, text))
  {
    hide Join, NoUserIn, Lower, Trim, HostLabels, EndsWith, HostCovered, SeenHost, Dots, KeyOf, WildPrefix,
      DomainToSurtHost, HostChar;
    SeenParts(u);
    var h, d := HostOf(u) + Dots(u.dots), DomainOf(text);
    if HostCovered(SeenHost(u), d) {
      if u.user.Some? { CoveredBehindAt(Lower(u.user.value), h, d); }
      CoveredWithDots(HostOf(u), u.dots, d);
      KeyStartsInHost(u);
      PatternStartsEmpty(text, CLOSE);
      PatternStartsEmpty(text, COMMA);
      StartsElsewhere(KeyOf(u), DomainToSurtHost(text) + [CLOSE]);
      StartsElsewhere(KeyOf(u), DomainToSurtHost(text) + [COMMA]);
    }
  }

  /** When the two agree on a URL and a domain: with a colon in the user information,
      when what stands in front of the colon is covered just as the host is or its key
      matched; with dots at the end, when neither of them goes by the domain; and else
      when the row is no stray and, with user information, the host is not the domain
      itself. */
  predicate Agree(u: Url, text: bytes)
  {
    var domain := DomainOf(text);
    if ColonInUser(u) then HostCovered(Lower(u.user.value[..IndexOf(u.user.value, COLON)]), domain) <==> Wild(u, text)
    else if u.dots > 0 then !Wild(u, text) && !HostCovered(SeenHost(u), domain)
    else !Stray(u, text) && (u.user.Some? ==> HostOf(u) != domain)
  }

  lemma AgreeExactly(u: Url, text: bytes)
    requires UrlGood(u) && PlainDomain(text)
    ensures (DomainRow(KeyOf(u), DomainToSurtHost(text)) <==> ListedBy(UrlText(u), text)) <==> Agree(u, text)
  {
    hide Join, DomainRow, ListedBy, UrlText, KeyOf, DomainToSurtHost, Trim, Lower, HostLabels, NoUserIn, FastHost,
      EndsWith, HostCovered, WildPrefix;
    ListedIs(u, text);
    PurgedIs(u, text);
    PurgedIsWild(u, text);
    if ColonInUser(u) {
    } else if u.dots > 0 {
      DotsMislead(u, text);
    } else if u.user.Some? {
      UserNameHidesApex(u, text);
      NotBelowItself(HostOf(u), DomainOf(text));
    } else {
      FastHostIsHost(u);
      FastHostIs(u);
    }
  }

  lemma NotBelowItself(h: bytes, d: bytes)
    ensures HostCovered(h, d) <==> h == d || EndsWith(h, [DOT] + d)
    ensures h == d ==> !EndsWith(h, [DOT] + d)
  {
  }
}
