/** Byte strings, and the few sequence facts the rest of the model leans on. */
module Bytes {
  type byte = x: int | 0 <= x < 256
  type bytes = seq<byte>

  const CR: byte := 13
  const LF: byte := 10
  const CRLF: bytes := [13, 10]
  const CRLFCRLF: bytes := [13, 10, 13, 10]

  datatype Option<+T> = None | Some(value: T)

  /** Two bytes, least significant first. */
  function Word(lo: byte, hi: byte): nat
  {
    lo as int + 256 * (hi as int)
  }

  /** Index of the first occurrence of `b`, or `|s|` when there is none. */
  function IndexOf(s: bytes, b: byte): (i: nat)
    ensures i <= |s|
  {
    if s == [] || s[0] == b then 0 else 1 + IndexOf(s[1..], b)
  }

  lemma {:induction false} IndexOfFound(s: bytes, b: byte)
    ensures var i := IndexOf(s, b);
      && (i < |s| ==> s[i] == b)
      && forall j | 0 <= j < i :: s[j] != b
  {
    if s != [] && s[0] != b { IndexOfFound(s[1..], b); }
  }

  lemma {:induction false} IndexOfIs(s: bytes, b: byte, k: nat)
    requires k < |s| && s[k] == b && forall j :: 0 <= j < k ==> s[j] != b
    ensures IndexOf(s, b) == k
  {
    if k > 0 { IndexOfIs(s[1..], b, k - 1); }
  }

  /** `x` stands in `s` at index `at`. */
  ghost predicate At(s: bytes, at: nat, x: bytes)
  {
    at + |x| <= |s| && s[at..at + |x|] == x
  }

  lemma AtConcat(s: bytes, at: nat, x: bytes, y: bytes)
    ensures At(s, at, x + y) <==> At(s, at, x) && At(s, at + |x|, y)
  {
    if at + |x| + |y| <= |s| {
      assert s[at..at + |x| + |y|] == s[at..at + |x|] + s[at + |x|..at + |x| + |y|];
      if At(s, at, x + y) {
        assert s[at..at + |x|] == (x + y)[..|x|] && s[at + |x|..at + |x| + |y|] == (x + y)[|x|..];
      }
    }
  }

  lemma AtConcat4(s: bytes, at: nat, a: bytes, b: bytes, c: bytes, d: bytes)
    ensures At(s, at, a + (b + (c + d))) <==>
            At(s, at, a) && At(s, at + |a|, b) && At(s, at + |a| + |b|, c) && At(s, at + |a| + |b| + |c|, d)
  {
    AtConcat(s, at, a, b + (c + d));
    AtConcat(s, at + |a|, b, c + d);
    AtConcat(s, at + |a| + |b|, c, d);
  }

  function Flatten(ss: seq<bytes>): bytes
  {
    if ss == [] then [] else ss[0] + Flatten(ss[1..])
  }

  lemma FlattenCons(x: bytes, ss: seq<bytes>)
    ensures Flatten([x] + ss) == x + Flatten(ss)
  {
    assert ([x] + ss)[1..] == ss;
  }

  lemma SplitAt(s: bytes, n: nat)
    requires n <= |s|
    ensures s == s[..n] + s[n..]
  {
  }

  lemma Assoc(a: bytes, b: bytes, c: bytes)
    ensures (a + b) + c == a + (b + c)
  {
  }

  lemma {:induction false} FlattenConcat(a: seq<bytes>, b: seq<bytes>)
    ensures Flatten(a + b) == Flatten(a) + Flatten(b)
  {
    if a == [] {
      assert a + b == b;
    } else {
      assert (a + b)[1..] == a[1..] + b;
      FlattenConcat(a[1..], b);
    }
  }

  lemma FlattenOne(a: bytes)
    ensures Flatten([a]) == a
  {
    assert Flatten([a]) == a + Flatten([]);
  }

  lemma FlattenSnoc(a: seq<bytes>, x: bytes)
    ensures Flatten(a + [x]) == Flatten(a) + x
  {
    FlattenConcat(a, [x]);
    FlattenOne(x);
  }
}
