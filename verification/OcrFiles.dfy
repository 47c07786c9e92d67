/** The OCR cache on disk: which file a digest names, and what the files say. */
module OcrFiles {
  import opened Bytes
  import opened CachedText

  // ── file names ──

  predicate Alnum(c: char) { 'a' <= c <= 'z' || 'A' <= c <= 'Z' || '0' <= c <= '9' }

  predicate SlugChar(c: char) { Alnum(c) || c == ':' || c == '-' || c == '+' || c == '_' || c == '.' }

  function Underscored(s: string): (r: string)
    ensures |r| == |s| && forall i | 0 <= i < |s| :: r[i] == if s[i] == ':' then '_' else s[i]
  {
    seq(|s|, i requires 0 <= i < |s| => if s[i] == ':' then '_' else s[i])
  }

  /** A digest made safe for a file name; None when it could escape the directory. */
  function FileSlug(digest: string): Option<string>
  {
    if digest == "" || Find(digest, "..").Some? then None
    else if exists i | 0 <= i < |digest| :: !SlugChar(digest[i]) then None
    else Some(Underscored(digest))
  }

  function AfterLastColon(s: string): string
  {
    if s == "" || s[|s| - 1] == ':' then ""
    else if ':' !in s then s
    else AfterLastColon(s[..|s| - 1]) + [s[|s| - 1]]
  }

  function LowerChar(c: char): char
  {
    if 'A' <= c <= 'Z' then c - 'A' + 'a' else c
  }

  /** The first two characters of the value part, in lower case. */
  function ShardDir(digest: string): string
  {
    var v := AfterLastColon(digest);
    if v == "" then "0" else if |v| == 1 then [LowerChar(v[0])] else [LowerChar(v[0]), LowerChar(v[1])]
  }

  /** Two digests share a file name exactly when they differ only in `:` against `_`;
      digests without an underscore never do. */
  lemma SlugsCollide(d: string, e: string)
    requires FileSlug(d).Some? && FileSlug(e).Some?
    ensures FileSlug(d) == FileSlug(e) <==>
      |d| == |e| && forall i | 0 <= i < |d| :: d[i] == e[i] || {d[i], e[i]} == {':', '_'}
    ensures FileSlug(d) == FileSlug(e) && '_' !in d && '_' !in e ==> d == e
  {
    hide FileSlug, Find;
    SlugIs(d);
    SlugIs(e);
    if FileSlug(d) == FileSlug(e) {
      forall i | 0 <= i < |d| ensures d[i] == e[i] || {d[i], e[i]} == {':', '_'} {
        assert Underscored(d)[i] == Underscored(e)[i];
      }
    }
    if |d| == |e| && forall i | 0 <= i < |d| :: d[i] == e[i] || {d[i], e[i]} == {':', '_'} {
      forall i | 0 <= i < |d| ensures Underscored(d)[i] == Underscored(e)[i] {
        if d[i] != e[i] { assert d[i] in {':', '_'} && e[i] in {':', '_'}; }
      }
      assert Underscored(d) == Underscored(e);
    }
  }

  lemma SlugIs(d: string)
    requires FileSlug(d).Some?
    ensures FileSlug(d) == Some(Underscored(d))
  {
  }

  /** A digest that names a file has no space and no line break. */
  lemma SlugIsPlain(d: string)
    requires FileSlug(d).Some?
    ensures ' ' !in d && '\n' !in d
  {
  }

  /** Letters, digits, and the five marks a digest may have. */
  ghost predicate DigestText(d: string)
  {
    forall i | 0 <= i < |d| ::
      || 'a' <= d[i] <= 'z' || 'A' <= d[i] <= 'Z' || '0' <= d[i] <= '9'
      || d[i] == ':' || d[i] == '-' || d[i] == '+' || d[i] == '_' || d[i] == '.'
  }

  ghost predicate DoubleDot(s: string)
  {
    exists i :: 0 < i < |s| && s[i - 1] == '.' && s[i] == '.'
  }

  lemma DotsFound(s: string)
    ensures Find(s, "..").Some? <==> DoubleDot(s)
  {
    if Find(s, "..").Some? {
      var k := Find(s, "..").value;
      assert s[k..k + 2][1] == s[k + 1] && s[k..k + 2][0] == s[k];
      assert s[k + 1 - 1] == '.';
    }
    if DoubleDot(s) {
      var i :| 0 < i < |s| && s[i - 1] == '.' && s[i] == '.';
      assert s[i - 1..i + 1] == "..";
      assert Occurs(s, "..", i - 1);
    }
  }

  /** Which digests name a file: those over these characters that are not empty and hold
      no two dots in a row. */
  lemma SlugExactly(d: string)
    ensures FileSlug(d).Some? <==> d != "" && DigestText(d) && !DoubleDot(d)
  {
    hide Find;
    DotsFound(d);
  }

  /** The name stays inside the directory: no slash, no two dots in a row. */
  lemma SlugIsSafe(d: string)
    requires FileSlug(d).Some?
    ensures var s := FileSlug(d).value;
      |s| == |d| && '/' !in s && '\\' !in s && ':' !in s && !DoubleDot(s)
  {
    hide Find;
    DotsFound(d);
    SlugIs(d);
  }

  /** The shard of a digest: the first two characters behind the last colon. */
  lemma ShardIs(algorithm: string, value: string)
    requires ':' !in value
    ensures var v := AfterLastColon(algorithm + ":" + value);
      v == value && ShardDir(algorithm + ":" + value) ==
        if value == "" then "0" else Lowered(if |value| < 2 then value else value[..2])
    ensures ':' !in algorithm ==> AfterLastColon(algorithm) == algorithm
  {
    BehindColon(algorithm, value);
  }

  function Lowered(s: string): (r: string)
    ensures |r| == |s| && forall i | 0 <= i < |s| :: r[i] == if 'A' <= s[i] <= 'Z' then s[i] - 'A' + 'a' else s[i]
  {
    seq(|s|, i requires 0 <= i < |s| => LowerChar(s[i]))
  }

  lemma {:induction false} BehindColon(algorithm: string, value: string)
    requires ':' !in value
    ensures AfterLastColon(algorithm + ":" + value) == value
    decreases |value|
  {
    var s := algorithm + ":" + value;
    if value != "" {
      var n := |value| - 1;
      assert s[..|s| - 1] == algorithm + ":" + value[..n];
      BehindColon(algorithm, value[..n]);
      assert s[|algorithm|] == ':';
      assert value == value[..n] + [value[n]];
    }
  }

  // ── files ──

  /** Where a record can be fetched from. */
  datatype Place = Place(bucket: string, s3Key: string, offset: nat, cOffset: Option<nat>, length: nat, url: string)

  datatype Job = Job(digest: string, place: Place, attempts: nat)

  datatype Path =
    | TextFile(shard: string, slug: string)
    | QueueFile(slug: string)
    | FailedFile(slug: string)
    | TempFile(id: nat)

  /** A job file holds one job or something unreadable; a text file holds a text. */
  datatype Content = JobFile(job: Job) | TextBody(body: string) | Junk

  type Files = map<Path, Content>

  function TextPath(digest: string): Path
    requires FileSlug(digest).Some?
  {
    TextFile(ShardDir(digest), FileSlug(digest).value)
  }

  function QueuePath(digest: string): Path
    requires FileSlug(digest).Some?
  {
    QueueFile(FileSlug(digest).value)
  }

  /** Everything but half-written temporary files, which no reader looks at. */
  function Visible(m: Files): Files
  {
    map p | p in m && !p.TempFile? :: m[p]
  }

  /** The text or negative entry that `files` hold for `digest`. */
  function Lookup(files: Files, digest: string): Option<Cached>
  {
    if FileSlug(digest).None? then None
    else
      var p := TextPath(digest);
      if p in files && files[p].TextBody? then ParseCachedText(files[p].body, digest) else None
  }

  /** The attempt counter after one more failure, a saturating 32-bit number. */
  function AttemptsAfter(job: Job): (n: nat)
    ensures job.attempts <= 0xFFFF_FFFF ==> n <= 0xFFFF_FFFF
  {
    if job.attempts < 0xFFFF_FFFF then job.attempts + 1 else job.attempts
  }
}
