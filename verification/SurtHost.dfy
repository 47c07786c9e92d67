/** Host names, domain suffixes and SURT keys: a skip-listed domain covers a host
  exactly when the host's SURT key starts with the reversed domain. */
module SurtHost {
  import opened Bytes
  import opened Text

  const COMMA: byte := 44
  const CLOSE: byte := 41

  // ── splitting and joining ──

  function Split(s: bytes, sep: byte): (ls: seq<bytes>)
    ensures ls != []
  {
    var i := IndexOf(s, sep);
    if i == |s| then [s] else [s[..i]] + Split(s[i + 1..], sep)
  }

  function Join(ls: seq<bytes>, sep: byte): bytes
  {
    if ls == [] then [] else if |ls| == 1 then ls[0] else ls[0] + [sep] + Join(ls[1..], sep)
  }

  function Reverse(ls: seq<bytes>): (r: seq<bytes>)
    ensures |r| == |ls| && forall i | 0 <= i < |ls| :: r[i] == ls[|ls| - 1 - i]
  {
    seq(|ls|, i requires 0 <= i < |ls| => ls[|ls| - 1 - i])
  }

  ghost predicate Without(ls: seq<bytes>, sep: byte)
  {
    forall i | 0 <= i < |ls| :: sep !in ls[i]
  }

  lemma FirstSep(l: bytes, sep: byte, t: bytes)
    requires sep !in l
    ensures var s := l + [sep] + t;
      IndexOf(s, sep) == |l| < |s| && s[..|l|] == l && s[|l| + 1..] == t
  {
    var s := l + [sep] + t;
    IndexOfIs(s, sep, |l|);
  }

  lemma NoSep(l: bytes, sep: byte)
    requires sep !in l
    ensures IndexOf(l, sep) == |l|
  {
    IndexOfFound(l, sep);
  }

  /** Splitting undoes joining. */
  lemma {:induction false} SplitInvertsJoin(ls: seq<bytes>, sep: byte)
    requires ls != [] && Without(ls, sep)
    ensures Split(Join(ls, sep), sep) == ls
    decreases |ls|
  {
    hide IndexOf;
    if |ls| == 1 {
      NoSep(ls[0], sep);
    } else {
      FirstSep(ls[0], sep, Join(ls[1..], sep));
      SplitInvertsJoin(ls[1..], sep);
    }
  }

  lemma FirstIsWithout(s: bytes, sep: byte)
    ensures var i := IndexOf(s, sep);
      sep !in s[..i] && (i < |s| ==> s == s[..i] + [sep] + s[i + 1..]) && (i == |s| ==> s[..i] == s)
  {
    IndexOfFound(s, sep);
  }

  /** Joining undoes splitting, and the pieces hold nothing that was not there. */
  lemma {:induction false} JoinInvertsSplit(s: bytes, sep: byte)
    ensures Join(Split(s, sep), sep) == s && Without(Split(s, sep), sep)
    decreases |s|
  {
    hide IndexOf;
    var i := IndexOf(s, sep);
    FirstIsWithout(s, sep);
    if i < |s| { JoinInvertsSplit(s[i + 1..], sep); }
  }

  lemma {:induction false} SplitHolds(s: bytes, sep: byte, b: byte)
    requires b !in s
    ensures Without(Split(s, sep), b)
    decreases |s|
  {
    var i := IndexOf(s, sep);
    if i < |s| { SplitHolds(s[i + 1..], sep, b); }
  }

  lemma {:induction false} JoinHolds(ls: seq<bytes>, sep: byte, b: byte)
    requires Without(ls, b) && b != sep
    ensures b !in Join(ls, sep)
    decreases |ls|
  {
    if |ls| > 1 { JoinHolds(ls[1..], sep, b); }
  }

  // ── SURT ──

  /** A domain name as the front of a SURT key: labels reversed, joined by commas. */
  function DomainToSurtHost(domain: bytes): bytes
  {
    Join(Reverse(Split(Lower(Trim(domain)), DOT)), COMMA)
  }

  /** The SURT key of a URL with these host labels; `rest` is port, path and query. */
  function Surt(labels: seq<bytes>, rest: bytes): bytes
  {
    Join(Reverse(labels), COMMA) + [CLOSE] + rest
  }

  /** Labels that cannot be confused with what separates them. */
  ghost predicate Labels(ls: seq<bytes>)
  {
    ls != [] && Without(ls, DOT) && Without(ls, COMMA) && Without(ls, CLOSE)
  }

  /** `d` is the last labels of `ls`. */
  ghost predicate Covers(d: seq<bytes>, ls: seq<bytes>)
  {
    |d| <= |ls| && ls[|ls| - |d|..] == d
  }

  ghost predicate StartsWith(s: bytes, p: bytes)
  {
    p <= s
  }

  predicate Separator(b: byte)
  {
    b == COMMA || b == CLOSE
  }

  lemma NoSeparatorInside(a: bytes, x: byte, t: bytes)
    requires COMMA !in a && CLOSE !in a
    ensures forall j | 0 <= j < |a| :: !Separator((a + [x] + t)[j])
  {
    forall j | 0 <= j < |a| ensures !Separator((a + [x] + t)[j]) { assert (a + [x] + t)[j] == a[j]; }
  }

  /** Two texts that agree up to a separator agree in the label in front of it. */
  lemma SameFirst(a: bytes, x: byte, t: bytes, b: bytes, y: byte, u: bytes)
    requires Separator(x) && Separator(y)
    requires COMMA !in a && CLOSE !in a && COMMA !in b && CLOSE !in b
    requires b + [y] + u <= a + [x] + t
    ensures a == b && x == y && u <= t
  {
    var s, p := a + [x] + t, b + [y] + u;
    NoSeparatorInside(a, x, t);
    NoSeparatorInside(b, y, u);
    assert s[|b|] == p[|b|] == y && s[|a|] == x;
    assert |a| < |p| ==> p[|a|] == s[|a|];
    assert |a| == |b|;
    assert a == s[..|a|] == p[..|b|] == b;
    assert u == p[|b| + 1..] && t == s[|a| + 1..];
  }

  /** The reversed labels of `b`, closed by either separator, start those of `a`
      exactly when they are its first labels. */
  lemma {:induction false} PrefixOfLabels(a: seq<bytes>, b: seq<bytes>, rest: bytes)
    requires a != [] && b != [] && Without(a, COMMA) && Without(a, CLOSE) && Without(b, COMMA) && Without(b, CLOSE)
    ensures var s := Join(a, COMMA) + [CLOSE] + rest;
      (StartsWith(s, Join(b, COMMA) + [CLOSE]) || StartsWith(s, Join(b, COMMA) + [COMMA])) <==> b <= a
    decreases |b|
  {
    hide StartsWith;
    var s := Join(a, COMMA) + [CLOSE] + rest;
    var x, t := if |a| == 1 then CLOSE else COMMA, if |a| == 1 then rest else Join(a[1..], COMMA) + [CLOSE] + rest;
    assert s == a[0] + [x] + t;
    if |b| == 1 {
      OneLabel(a, b[0], x, t, s);
    } else {
      var p := Join(b[1..], COMMA);
      assert Join(b, COMMA) + [CLOSE] == b[0] + [COMMA] + (p + [CLOSE]);
      assert Join(b, COMMA) + [COMMA] == b[0] + [COMMA] + (p + [COMMA]);
      FirstLabel(a[0], x, t, b[0], p + [CLOSE]);
      FirstLabel(a[0], x, t, b[0], p + [COMMA]);
      if |a| > 1 {
        PrefixOfLabels(a[1..], b[1..], rest);
        PrefixCons(b, a);
      }
    }
  }

  lemma PrefixCons(b: seq<bytes>, a: seq<bytes>)
    requires a != [] && b != []
    ensures b <= a <==> b[0] == a[0] && b[1..] <= a[1..]
  {
    if b[0] == a[0] && b[1..] <= a[1..] {
      assert b == [b[0]] + b[1..] && a == [a[0]] + a[1..];
    }
    if b <= a { assert a[..|b|][1..] == a[1..][..|b| - 1]; }
  }

  /** One label and a comma in front: the labels must be the same, and then the rest decides. */
  lemma FirstLabel(a: bytes, x: byte, t: bytes, b: bytes, u: bytes)
    requires Separator(x) && COMMA !in a && CLOSE !in a && COMMA !in b && CLOSE !in b
    ensures StartsWith(a + [x] + t, b + [COMMA] + u) <==> a == b && x == COMMA && StartsWith(t, u)
  {
    if StartsWith(a + [x] + t, b + [COMMA] + u) { SameFirst(a, x, t, b, COMMA, u); }
    assert |u| <= |t| ==> (a + [x] + t)[..|a| + 1 + |u|] == a + [x] + t[..|u|];
  }

  lemma OneLabel(a: seq<bytes>, b: bytes, x: byte, t: bytes, s: bytes)
    requires a != [] && Without(a, COMMA) && Without(a, CLOSE) && COMMA !in b && CLOSE !in b
    requires s == a[0] + [x] + t && Separator(x)
    ensures (StartsWith(s, b + [CLOSE]) || StartsWith(s, b + [COMMA])) <==> [b] <= a
  {
    assert b + [CLOSE] == b + [CLOSE] + [] && b + [COMMA] == b + [COMMA] + [];
    if StartsWith(s, b + [CLOSE]) { SameFirst(a[0], x, t, b, CLOSE, []); }
    if StartsWith(s, b + [COMMA]) { SameFirst(a[0], x, t, b, COMMA, []); }
    if [b] <= a { assert s[..|b| + 1] == b + [x]; }
  }

  lemma ReversedPrefix(d: seq<bytes>, ls: seq<bytes>)
    ensures Reverse(d) <= Reverse(ls) <==> Covers(d, ls)
  {
    var r, q := Reverse(d), Reverse(ls);
    if r <= q {
      forall i | 0 <= i < |d| ensures ls[|ls| - |d| + i] == d[i] {
        assert r[|d| - 1 - i] == q[|d| - 1 - i];
      }
      assert ls[|ls| - |d|..] == d;
    }
    if Covers(d, ls) {
      forall i | 0 <= i < |d| ensures r[i] == q[i] { assert ls[|ls| - |d|..][|d| - 1 - i] == d[|d| - 1 - i]; }
    }
  }

  lemma ReverseWithout(ls: seq<bytes>, sep: byte)
    ensures Without(Reverse(ls), sep) <==> Without(ls, sep)
  {
    if Without(Reverse(ls), sep) {
      forall i | 0 <= i < |ls| ensures sep !in ls[i] { assert Reverse(ls)[|ls| - 1 - i] == ls[i]; }
    }
  }

  // ── hosts ──

  predicate EndsWith(s: bytes, p: bytes)
  {
    |p| <= |s| && s[|s| - |p|..] == p
  }

  /** A host is covered by a domain: the domain itself, or a name below it. */
  predicate HostCovered(host: bytes, domain: bytes)
  {
    host == domain || EndsWith(host, [DOT] + domain)
  }

  lemma NoSepAfter(t: bytes, sep: byte, l: bytes)
    requires sep !in l
    ensures forall j | |t| < j < |t + [sep] + l| :: (t + [sep] + l)[j] != sep
  {
    var s := t + [sep] + l;
    forall j | |t| < j < |s| ensures s[j] != sep { assert s[j] == l[j - |t| - 1]; }
  }

  lemma LastSep(l: bytes, sep: byte, t: bytes, x: bytes, y: bytes)
    requires sep !in l && sep !in y
    requires t + [sep] + l == x + [sep] + y
    ensures l == y && t == x
  {
    var s := t + [sep] + l;
    NoSepAfter(t, sep, l);
    NoSepAfter(x, sep, y);
    assert s[|t|] == sep && s[|x|] == sep;
    assert |t| == |x|;
    assert t == s[..|t|] && x == s[..|x|] && l == s[|t| + 1..] && y == s[|x| + 1..];
  }

  lemma {:induction false} JoinSnoc(ls: seq<bytes>, l: bytes, sep: byte)
    requires ls != []
    ensures Join(ls + [l], sep) == Join(ls, sep) + [sep] + l
    decreases |ls|
  {
    assert (ls + [l])[1..] == ls[1..] + [l];
    if |ls| > 1 { JoinSnoc(ls[1..], l, sep); }
  }

  /** With a dot in front, a host ends in a domain exactly when it is covered by it. */
  lemma DotInFront(host: bytes, domain: bytes)
    ensures HostCovered(host, domain) <==> EndsWith([DOT] + host, [DOT] + domain)
  {
    var h, d := [DOT] + host, [DOT] + domain;
    if EndsWith(h, d) {
      if |h| == |d| {
        assert h == d && host == h[1..] && domain == d[1..];
      } else {
        assert host[|host| - |d|..] == h[|h| - |d|..];
      }
    }
    if EndsWith(host, d) { assert h[|h| - |d|..] == host[|host| - |d|..]; }
  }

  lemma EndsWithSplit(s: bytes, t: bytes, l: bytes, u: bytes, y: bytes)
    requires s == t + [DOT] + l && DOT !in l && DOT !in y
    ensures EndsWith(s, u + [DOT] + y) <==> l == y && EndsWith(t, u)
  {
    var p := u + [DOT] + y;
    if EndsWith(s, p) {
      var x := s[..|s| - |p|] + u;
      assert s == s[..|s| - |p|] + p;
      assert s == x + [DOT] + y;
      LastSep(l, DOT, t, x, y);
      assert t[|t| - |u|..] == u;
    }
    if l == y && EndsWith(t, u) {
      assert s[|s| - |p|..] == t[|t| - |u|..] + [DOT] + l;
    }
  }

  /** A host ends in a domain, label by label, exactly when its last labels are those
      of the domain. */
  lemma {:induction false} SuffixOfLabels(ls: seq<bytes>, d: seq<bytes>)
    requires ls != [] && d != [] && Without(ls, DOT) && Without(d, DOT)
    ensures EndsWith([DOT] + Join(ls, DOT), [DOT] + Join(d, DOT)) <==> Covers(d, ls)
    decreases |d|
  {
    hide EndsWith, Covers, Join;
    var n, k := |ls| - 1, |d| - 1;
    var host, t := DotJoin(ls);
    var domain, u := DotJoin(d);
    EndsWithSplit(host, t, ls[n], u, d[k]);
    if k == 0 {
      EndsInNothing(t);
      CoversOne(d, ls);
    } else if n == 0 {
      TooShort(t, u);
      CoversTooFew(d, ls);
    } else {
      SuffixOfLabels(ls[..n], d[..k]);
      CoversSnoc(d, ls);
    }
  }

  /** A dotted name with a dot in front, and what stands before its last dot. */
  lemma DotJoin(ls: seq<bytes>) returns (s: bytes, t: bytes)
    requires ls != []
    ensures s == [DOT] + Join(ls, DOT) && t == if |ls| == 1 then [] else [DOT] + Join(ls[..|ls| - 1], DOT)
    ensures s == t + [DOT] + ls[|ls| - 1]
    ensures |ls| > 1 ==> t != []
  {
    s, t := [DOT] + Join(ls, DOT), if |ls| == 1 then [] else [DOT] + Join(ls[..|ls| - 1], DOT);
    if |ls| > 1 {
      var n := |ls| - 1;
      JoinSnoc(ls[..n], ls[n], DOT);
      assert ls[..n] + [ls[n]] == ls;
    }
  }

  lemma EndsInNothing(t: bytes)
    ensures EndsWith(t, [])
  {
  }

  lemma TooShort(t: bytes, u: bytes)
    requires t == [] && u != []
    ensures !EndsWith(t, u)
  {
  }

  lemma CoversOne(d: seq<bytes>, ls: seq<bytes>)
    requires |d| == 1 && ls != []
    ensures Covers(d, ls) <==> ls[|ls| - 1] == d[0]
  {
  }

  lemma CoversTooFew(d: seq<bytes>, ls: seq<bytes>)
    requires |d| > |ls|
    ensures !Covers(d, ls)
  {
  }

  lemma CoversSnoc(d: seq<bytes>, ls: seq<bytes>)
    requires |d| > 1 && |ls| > 1
    ensures Covers(d, ls) <==> ls[|ls| - 1] == d[|d| - 1] && Covers(d[..|d| - 1], ls[..|ls| - 1])
  {
    var n, k := |ls| - 1, |d| - 1;
    if |d| <= |ls| {
      assert ls[..n][n - k..] == ls[|ls| - |d|..][..k];
      if ls[n] == d[k] && ls[..n][n - k..] == d[..k] {
        assert ls[|ls| - |d|..] == d[..k] + [d[k]];
        assert d[..k] + [d[k]] == d;
      }
      if ls[|ls| - |d|..] == d { assert ls[n] == d[k]; }
    }
  }

  // ── the two views of "below this domain" ──

  /** A SURT key lies in the range the purge deletes for a domain. */
  ghost predicate InDomain(surt: bytes, surtHost: bytes)
  {
    StartsWith(surt, surtHost + [CLOSE]) || StartsWith(surt, surtHost + [COMMA])
  }

  /** A host is covered by a domain exactly when its SURT key starts with the
      reversed domain and `)` or `,`. */
  lemma HostSuffixIsSurtPrefix(labels: seq<bytes>, domain: seq<bytes>, rest: bytes)
    requires Labels(labels) && Labels(domain)
    ensures HostCovered(Join(labels, DOT), Join(domain, DOT)) <==>
            InDomain(Surt(labels, rest), Join(Reverse(domain), COMMA))
  {
    hide StartsWith, Join, HostCovered, EndsWith, Covers;
    DotInFront(Join(labels, DOT), Join(domain, DOT));
    SuffixOfLabels(labels, domain);
    ReverseWithout(labels, COMMA);
    ReverseWithout(labels, CLOSE);
    ReverseWithout(domain, COMMA);
    ReverseWithout(domain, CLOSE);
    PrefixOfLabels(Reverse(labels), Reverse(domain), rest);
    ReversedPrefix(domain, labels);
  }

  /** What the purge computes from a configured domain is its reversed labels, and the
      domain is those labels joined again. */
  lemma DomainPrefix(text: bytes)
    ensures var domain := Split(Lower(Trim(text)), DOT);
      && DomainToSurtHost(text) == Join(Reverse(domain), COMMA)
      && Join(domain, DOT) == Lower(Trim(text)) && Without(domain, DOT)
  {
    hide Trim, Lower, Join, Split;
    JoinInvertsSplit(Lower(Trim(text)), DOT);
  }
}
