/** String helpers shared by the rest of the model: Go's strings.HasPrefix and
    strings.HasSuffix, and an Option type for lookups that may find nothing.
    Strings are `seq<char>`; each char stands for one byte of a Go string. */
module Text {

  datatype Option<T> = None | Some(value: T)

  /** strings.HasPrefix(s, p) */
  predicate StartsWith(s: string, p: string) {
    |p| <= |s| && s[..|p|] == p
  }

  /** strings.HasSuffix(s, p) */
  predicate EndsWith(s: string, p: string) {
    |p| <= |s| && s[|s| - |p|..] == p
  }

  /** A prefix of a string is a prefix of every extension of it. */
  lemma StartsWithExtended(p: string, a: string, b: string)
    requires StartsWith(a, p)
    ensures StartsWith(a + b, p)
  {
    assert (a + b)[..|p|] == a[..|p|];
  }

  /** Whatever is appended last is a suffix of the whole. */
  lemma EndsWithAppended(a: string, b: string)
    ensures EndsWith(a + b, b)
  {
    assert (a + b)[|a + b| - |b|..] == b;
  }

  /** Two suffixes of the same string agree on their i-th character from
      the end, so suffixes that differ there cannot both end it. */
  lemma SuffixesAgree(s: string, p: string, q: string, i: nat)
    requires i < |p| && i < |q|
    ensures EndsWith(s, p) && EndsWith(s, q) ==> p[|p| - 1 - i] == q[|q| - 1 - i]
  {
    if EndsWith(s, p) && EndsWith(s, q) {
      assert p[|p| - 1 - i] == s[|s| - 1 - i];
      assert q[|q| - 1 - i] == s[|s| - 1 - i];
    }
  }

  /** x stands in out at offset o. */
  predicate Placed(out: string, o: int, x: string) {
    0 <= o && o + |x| <= |out| && out[o..o + |x|] == x
  }

  /** out is p, then x, then q: the shape of a Sprintf format with one verb. */
  predicate Framed(out: string, p: string, x: string, q: string) {
    |out| == |p| + |x| + |q| && StartsWith(out, p) && Placed(out, |p|, x) && EndsWith(out, q)
  }

  lemma FramedConcat(p: string, x: string, q: string)
    ensures Framed(p + x + q, p, x, q)
  {
    var out := p + x + q;
    assert out[..|p|] == p;
    assert out[|p|..|p| + |x|] == x;
    assert out[|out| - |q|..] == q;
  }

  /** A frame determines its contents: the only string that is p, then x,
      then q is their concatenation. */
  lemma FramedIsConcat(out: string, p: string, x: string, q: string)
    requires Framed(out, p, x, q)
    ensures out == p + x + q
  {
    assert out == out[..|p|] + out[|p|..|p| + |x|] + out[|p| + |x|..];
  }
}
