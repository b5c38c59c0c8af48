/** The splice engine of sfd.go (ReplaceAllStringSubmatchFunc): given a
    subject string and the matches a regular expression found in it, rebuild
    the string with every matched span replaced by what a callback makes of
    that match's capture groups, and every byte outside the spans kept.

    The regular expression itself is not modelled: the matches are an input,
    in the shape Go's FindAllSubmatchIndex reports them, and `Tiles` states
    what that function guarantees about them. */
module Splice {
  import opened Text

  /** A half-open range [lo, hi) of byte offsets into the subject. */
  datatype Span = Span(lo: int, hi: int)

  /** The (-1, -1) pair Go reports for a capture group that did not take part
      in the match. */
  const Absent := Span(-1, -1)

  /** One match: the span of the whole match, then the spans of capture
      groups 1, 2, ... */
  datatype Match = Match(whole: Span, groups: seq<Span>)

  /** The index list FindAllSubmatchIndex reports for a match, as pairs:
      entry 0 is the whole match, entry k capture group k. */
  function Spans(m: Match): seq<Span> {
    [m.whole] + m.groups
  }

  /** The test the group loop makes before it takes a group: its end offset
      is not -1. */
  predicate Participates(sp: Span) {
    sp.hi > -1
  }

  /** Entry k of an index list exists and took part. */
  predicate ParticipatesAt(sps: seq<Span>, k: int) {
    0 <= k < |sps| && Participates(sps[k])
  }

  predicate SpanWithin(sp: Span, n: int) {
    sp == Absent || 0 <= sp.lo <= sp.hi <= n
  }

  predicate SpansWithin(sps: seq<Span>, n: int) {
    forall k :: 0 <= k < |sps| ==> SpanWithin(sps[k], n)
  }

  /** A match in a subject of length n: the whole match is in bounds and
      every group span is either absent or in bounds. */
  predicate MatchWithin(m: Match, n: int) {
    0 <= m.whole.lo <= m.whole.hi <= n && SpansWithin(m.groups, n)
  }

  lemma SpansOfMatchWithin(m: Match, n: int)
    requires MatchWithin(m, n)
    ensures SpansWithin(Spans(m), n) && Participates(Spans(m)[0])
  {
    assert forall k :: 0 < k < |Spans(m)| ==> Spans(m)[k] == m.groups[k - 1];
  }

  function Start(m: Match): int {
    m.whole.lo
  }

  function End(m: Match): int {
    m.whole.hi
  }

  /** The matches lie in a subject of length n, in left-to-right order and
      without overlap. */
  predicate Tiles(ms: seq<Match>, n: int) {
    && (forall k :: 0 <= k < |ms| ==> MatchWithin(ms[k], n))
    && (forall i, j :: 0 <= i < j < |ms| ==> End(ms[i]) <= Start(ms[j]))
  }

  /** The group list the loop at the heart of the engine builds from entry i
      of a match's index list on: the text of entry i, i + 1, ... in order,
      stopping at the first group that did not participate. */
  function GroupsFrom(s: string, sps: seq<Span>, i: nat): (g: seq<string>)
    requires SpansWithin(sps, |s|) && i <= |sps|
    ensures i + |g| <= |sps|
    ensures forall k :: i <= k < i + |g| ==> Participates(sps[k]) && g[k - i] == s[sps[k].lo..sps[k].hi]
    ensures i + |g| < |sps| ==> !Participates(sps[i + |g|])
    decreases |sps| - i
  {
    if i == |sps| || !Participates(sps[i]) then []
    else [s[sps[i].lo..sps[i].hi]] + GroupsFrom(s, sps, i + 1)
  }

  /** The group list the engine passes to the callback: the text of group 0
      (the whole match), 1, 2, ... in order, stopping at the first group that
      did not participate. Groups after that one are never reported, even
      when they did participate. */
  function Groups(s: string, sps: seq<Span>): (g: seq<string>)
    requires SpansWithin(sps, |s|)
    ensures |g| <= |sps|
    ensures forall k :: 0 <= k < |g| ==> Participates(sps[k]) && g[k] == s[sps[k].lo..sps[k].hi]
    ensures |g| < |sps| ==> !Participates(sps[|g|])
  {
    GroupsFrom(s, sps, 0)
  }

  /** The group list Go's own FindStringSubmatch would report: one entry per
      group, the empty string for a group that did not participate. */
  function BlankGroups(s: string, sps: seq<Span>): (g: seq<string>)
    requires SpansWithin(sps, |s|)
    ensures |g| == |sps|
    ensures forall k :: 0 <= k < |g| && Participates(sps[k]) ==> g[k] == s[sps[k].lo..sps[k].hi]
    ensures forall k :: 0 <= k < |g| && !Participates(sps[k]) ==> g[k] == ""
  {
    seq(|sps|, k requires 0 <= k < |sps| =>
      if Participates(sps[k]) then s[sps[k].lo..sps[k].hi] else "")
  }

  /** How a group list reports groups that did not participate: the way
      sfd.go's loop does, or padded with empty strings. */
  datatype Report = StopAtAbsent | BlankAbsent

  function GroupsBy(report: Report, s: string, sps: seq<Span>): (g: seq<string>)
    requires SpansWithin(sps, |s|)
    ensures |sps| > 0 && Participates(sps[0]) ==> |g| > 0 && g[0] == s[sps[0].lo..sps[0].hi]
  {
    match report
    case StopAtAbsent => Groups(s, sps)
    case BlankAbsent => BlankGroups(s, sps)
  }

  /** The group list the callback receives for match m. */
  function MatchGroups(report: Report, s: string, m: Match): (g: seq<string>)
    requires MatchWithin(m, |s|)
    ensures |g| > 0 && g[0] == s[Start(m)..End(m)]
  {
    SpansOfMatchWithin(m, |s|);
    GroupsBy(report, s, Spans(m))
  }

  /** The loop's list is always a prefix of the padded one, and the two agree
      whenever every group participated. */
  lemma GroupsPrefixOfBlank(s: string, sps: seq<Span>)
    requires SpansWithin(sps, |s|)
    ensures Groups(s, sps) == BlankGroups(s, sps)[..|Groups(s, sps)|]
    ensures (forall k :: 0 <= k < |sps| ==> Participates(sps[k])) ==> Groups(s, sps) == BlankGroups(s, sps)
  {
  }

  /** The callback accepts the group list of every match. */
  ghost predicate Accepts(repl: seq<string> --> string, report: Report, s: string, ms: seq<Match>)
    requires forall k :: 0 <= k < |ms| ==> MatchWithin(ms[k], |s|)
  {
    forall k :: 0 <= k < |ms| ==> repl.requires(MatchGroups(report, s, ms[k]))
  }

  /** The callback's output for each match, in match order. */
  function Replacements(s: string, ms: seq<Match>, report: Report, repl: seq<string> --> string): (rs: seq<string>)
    requires forall k :: 0 <= k < |ms| ==> MatchWithin(ms[k], |s|)
    requires Accepts(repl, report, s, ms)
    ensures |rs| == |ms|
    ensures forall k :: 0 <= k < |ms| ==> rs[k] == repl(MatchGroups(report, s, ms[k]))
  {
    seq(|ms|, k requires 0 <= k < |ms| => repl(MatchGroups(report, s, ms[k])))
  }

  /** Where the text copied before match k begins: the end of match k - 1,
      or the start of the subject (the `lastIndex` of the engine's loop). */
  function Last(ms: seq<Match>, k: nat): int
    requires k <= |ms|
  {
    if k == 0 then 0 else End(ms[k - 1])
  }

  /** Where the k-th stretch of unmatched text ends in the subject: at the
      start of match k, or at the end of the subject for the stretch after
      the last match. Stretch k begins at Last(ms, k). */
  function GapEnd(ms: seq<Match>, k: nat, n: int): int
    requires k <= |ms|
  {
    if k == |ms| then n else Start(ms[k])
  }

  /** How far the output has moved against the subject once the first k
      matches are replaced: the sum of their replacement lengths minus the
      sum of their span lengths. */
  function Drift(ms: seq<Match>, rs: seq<string>, k: nat): int
    requires |rs| == |ms| && k <= |ms|
  {
    if k == 0 then 0
    else Drift(ms, rs, k - 1) + |rs[k - 1]| - (End(ms[k - 1]) - Start(ms[k - 1]))
  }

  /** What the engine has emitted after its first k matches: for each of
      them, the text since the previous match followed by its replacement. */
  function Emitted(s: string, ms: seq<Match>, rs: seq<string>, k: nat): (r: string)
    requires Tiles(ms, |s|) && |rs| == |ms| && k <= |ms|
    ensures |r| == Last(ms, k) + Drift(ms, rs, k)
  {
    if k == 0 then ""
    else Emitted(s, ms, rs, k - 1) + s[Last(ms, k - 1)..Start(ms[k - 1])] + rs[k - 1]
  }

  /** The splice of subject s given the replacement of each match: what was
      emitted for all matches, then the text after the last one. */
  function Weave(s: string, ms: seq<Match>, rs: seq<string>): string
    requires Tiles(ms, |s|) && |rs| == |ms|
  {
    Emitted(s, ms, rs, |ms|) + s[Last(ms, |ms|)..]
  }

  /** What ReplaceAllStringSubmatchFunc returns, with the group list built
      as `report` says. */
  function ReplaceAll(s: string, ms: seq<Match>, report: Report, repl: seq<string> --> string): string
    requires Tiles(ms, |s|)
    requires Accepts(repl, report, s, ms)
  {
    Weave(s, ms, Replacements(s, ms, report, repl))
  }

  /** The group list is the only list of the texts of entries 0, 1, ... of
      an index list that stops exactly at the first absent group. */
  lemma GroupsUnique(s: string, v: seq<Span>, g: seq<string>)
    requires SpansWithin(v, |s|) && |g| <= |v|
    requires forall k :: 0 <= k < |g| ==> Participates(v[k]) && g[k] == s[v[k].lo..v[k].hi]
    requires |g| < |v| ==> !Participates(v[|g|])
    ensures g == Groups(s, v)
  {
    var h := Groups(s, v);
    assert |h| < |g| ==> ParticipatesAt(v, |h|);
    assert |g| < |h| ==> ParticipatesAt(v, |g|);
  }

  /** The inner loop of the engine: collect the text of group 0, 1, 2, ...
      while the group's end offset is not -1. */
  method CollectGroups(s: string, v: seq<Span>) returns (groups: seq<string>)
    requires SpansWithin(v, |s|)
    ensures groups == Groups(s, v)
  {
    groups := [];
    var i := 0;
    while i < |v| && v[i].hi > -1
      invariant 0 <= i <= |v| && |groups| == i
      invariant forall k :: 0 <= k < i ==> Participates(v[k]) && groups[k] == s[v[k].lo..v[k].hi]
    {
      groups := groups + [s[v[i].lo..v[i].hi]];
      i := i + 1;
    }
    GroupsUnique(s, v, groups);
  }

  /** One iteration's call of the callback: collect the match's groups, as
      the inner loop does, and hand them to the callback. */
  method CallBack(s: string, m: Match, repl: seq<string> --> string) returns (r: string)
    requires MatchWithin(m, |s|)
    requires repl.requires(MatchGroups(StopAtAbsent, s, m))
    ensures r == repl(MatchGroups(StopAtAbsent, s, m))
  {
    SpansOfMatchWithin(m, |s|);
    var groups := CollectGroups(s, Spans(m));
    r := repl(groups);
  }

  /** One pass of the engine's loop, for match n: append the text since the
      previous match and the callback's replacement, and move past the
      match. */
  method Step(s: string, ms: seq<Match>, repl: seq<string> --> string, n: nat, result: string, lastIndex: int)
    returns (result': string, lastIndex': int)
    requires Tiles(ms, |s|) && Accepts(repl, StopAtAbsent, s, ms) && n < |ms|
    requires lastIndex == Last(ms, n)
    requires result == Emitted(s, ms, Replacements(s, ms, StopAtAbsent, repl), n)
    ensures lastIndex' == Last(ms, n + 1)
    ensures result' == Emitted(s, ms, Replacements(s, ms, StopAtAbsent, repl), n + 1)
  {
    var replaced := CallBack(s, ms[n], repl);
    result' := result + s[lastIndex..ms[n].whole.lo] + replaced;
    lastIndex' := ms[n].whole.hi;
  }

  /** The engine as sfd.go writes it: a loop over the matches that appends
      the text since the previous match and the callback's replacement for
      the match's groups, then the text after the last match. */
  method ReplaceAllStringSubmatchFunc(s: string, ms: seq<Match>, repl: seq<string> --> string)
    returns (result: string)
    requires Tiles(ms, |s|)
    requires Accepts(repl, StopAtAbsent, s, ms)
    ensures result == ReplaceAll(s, ms, StopAtAbsent, repl)
  {
    result := "";
    var lastIndex := 0;
    for n := 0 to |ms|
      invariant lastIndex == Last(ms, n)
      invariant result == Emitted(s, ms, Replacements(s, ms, StopAtAbsent, repl), n)
    {
      result, lastIndex := Step(s, ms, repl, n, result, lastIndex);
    }
    result := result + s[lastIndex..];
  }

  /** What the engine has emitted never changes once written. */
  lemma {:induction false} EmittedGrows(s: string, ms: seq<Match>, rs: seq<string>, k: nat, j: nat)
    requires Tiles(ms, |s|) && |rs| == |ms| && k <= j <= |ms|
    ensures Emitted(s, ms, rs, k) <= Emitted(s, ms, rs, j)
    decreases j
  {
    if k < j {
      EmittedGrows(s, ms, rs, k, j - 1);
      var e := Emitted(s, ms, rs, j - 1);
      assert Emitted(s, ms, rs, j) == e + (s[Last(ms, j - 1)..Start(ms[j - 1])] + rs[j - 1]);
    }
  }

  /** Stretch k of unmatched text and the replacement of match k stand, in
      this order, right after what was emitted for the matches before k. */
  lemma EmittedThenGapThenReplacement(s: string, ms: seq<Match>, rs: seq<string>, k: nat)
    requires Tiles(ms, |s|) && |rs| == |ms| && k < |ms|
    ensures Emitted(s, ms, rs, k) + s[Last(ms, k)..Start(ms[k])] + rs[k] <= Weave(s, ms, rs)
  {
    EmittedGrows(s, ms, rs, k + 1, |ms|);
  }

  /** Whatever follows a prefix of the output stands right after it. */
  lemma WindowAfterPrefix(p: string, x: string, out: string)
    requires p + x <= out
    ensures |p| + |x| <= |out| && out[|p|..|p| + |x|] == x
  {
    assert out[|p|..|p| + |x|] == (p + x)[|p|..];
  }

  /** Everything outside the matched spans is copied verbatim and in order:
      stretch k of unmatched text (before the first match, between matches
      k - 1 and k, or after the last match) stands in the output at its
      offset in the subject shifted by the drift of the matches before it. */
  lemma WeaveKeepsGap(s: string, ms: seq<Match>, rs: seq<string>, k: nat)
    requires Tiles(ms, |s|) && |rs| == |ms| && k <= |ms|
    ensures Last(ms, k) <= GapEnd(ms, k, |s|)
    ensures Placed(Weave(s, ms, rs), Last(ms, k) + Drift(ms, rs, k), s[Last(ms, k)..GapEnd(ms, k, |s|)])
  {
    var out := Weave(s, ms, rs);
    var pre := Emitted(s, ms, rs, k);
    var a, b := Last(ms, k), GapEnd(ms, k, |s|);
    if k < |ms| {
      EmittedThenGapThenReplacement(s, ms, rs, k);
      assert pre + s[a..b] <= out;
      WindowAfterPrefix(pre, s[a..b], out);
    } else {
      assert out == pre + s[a..b];
    }
  }

  /** The output is as long as the subject minus the matched spans plus the
      replacements. */
  lemma WeaveLength(s: string, ms: seq<Match>, rs: seq<string>)
    requires Tiles(ms, |s|) && |rs| == |ms|
    ensures |Weave(s, ms, rs)| == |s| + Drift(ms, rs, |ms|)
  {
  }

  /** The replacements stand in the output once each and in match order:
      replacement k where match k began, shifted by the drift of the matches
      before it. */
  lemma WeavePlacesReplacement(s: string, ms: seq<Match>, rs: seq<string>, k: nat)
    requires Tiles(ms, |s|) && |rs| == |ms| && k < |ms|
    ensures Placed(Weave(s, ms, rs), Start(ms[k]) + Drift(ms, rs, k), rs[k])
  {
    var out := Weave(s, ms, rs);
    var pre := Emitted(s, ms, rs, k) + s[Last(ms, k)..Start(ms[k])];
    EmittedThenGapThenReplacement(s, ms, rs, k);
    WindowAfterPrefix(pre, rs[k], out);
  }

  /** What was emitted for the first k matches is the subject up to the end
      of match k - 1 when each replacement is the very text of its span. */
  lemma {:induction false} EmittedUnchanged(s: string, ms: seq<Match>, rs: seq<string>, k: nat)
    requires Tiles(ms, |s|) && |rs| == |ms| && k <= |ms|
    requires forall j :: 0 <= j < |ms| ==> rs[j] == s[Start(ms[j])..End(ms[j])]
    ensures Emitted(s, ms, rs, k) == s[..Last(ms, k)]
  {
    if k > 0 {
      EmittedUnchanged(s, ms, rs, k - 1);
      assert s[..Last(ms, k - 1)] + s[Last(ms, k - 1)..Start(ms[k - 1])] + s[Start(ms[k - 1])..End(ms[k - 1])]
          == s[..End(ms[k - 1])];
    }
  }

  /** If there are no matches, or every callback returns its groups[0] (the
      matched span itself), the engine returns its input unchanged. */
  lemma ReplaceAllUnchanged(s: string, ms: seq<Match>, report: Report, repl: seq<string> --> string)
    requires Tiles(ms, |s|)
    requires Accepts(repl, report, s, ms)
    requires forall k :: 0 <= k < |ms| ==>
               repl(MatchGroups(report, s, ms[k])) == MatchGroups(report, s, ms[k])[0]
    ensures ReplaceAll(s, ms, report, repl) == s
  {
    var rs := Replacements(s, ms, report, repl);
    EmittedUnchanged(s, ms, rs, |ms|);
    assert s[..Last(ms, |ms|)] + s[Last(ms, |ms|)..] == s;
  }

  /** The callback's output for match k stands in the engine's result where
      match k began, shifted by the drift of the matches before it. */
  lemma ReplaceAllPlacesReplacement(s: string, ms: seq<Match>, report: Report, repl: seq<string> --> string, k: nat)
    requires Tiles(ms, |s|) && Accepts(repl, report, s, ms) && k < |ms|
    ensures var rs := Replacements(s, ms, report, repl);
            Placed(ReplaceAll(s, ms, report, repl), Start(ms[k]) + Drift(ms, rs, k), rs[k])
  {
    WeavePlacesReplacement(s, ms, Replacements(s, ms, report, repl), k);
  }

  /** Stretch k of unmatched text stands in out at its offset in s shifted
      by the drift of the matches before it. */
  predicate GapPlaced(out: string, s: string, ms: seq<Match>, rs: seq<string>, k: nat)
    requires |rs| == |ms| && k <= |ms|
  {
    && 0 <= Last(ms, k) <= GapEnd(ms, k, |s|) <= |s|
    && Placed(out, Last(ms, k) + Drift(ms, rs, k), s[Last(ms, k)..GapEnd(ms, k, |s|)])
  }

  /** Replacement k stands in out where match k began, shifted by the drift
      of the matches before it. */
  predicate ReplacementPlaced(out: string, ms: seq<Match>, rs: seq<string>, k: nat)
    requires |rs| == |ms| && k < |ms|
  {
    Placed(out, Start(ms[k]) + Drift(ms, rs, k), rs[k])
  }

  /** out is the splice of s with replacements rs: every stretch of
      unmatched text and every replacement stands in out at its offset in s
      shifted by the drift of the matches before it, and out is no longer
      than these pieces together. */
  predicate Spliced(out: string, s: string, ms: seq<Match>, rs: seq<string>)
    requires Tiles(ms, |s|) && |rs| == |ms|
  {
    && |out| == |s| + Drift(ms, rs, |ms|)
    && (forall k: nat :: k <= |ms| ==> GapPlaced(out, s, ms, rs, k))
    && (forall k: nat :: k < |ms| ==> ReplacementPlaced(out, ms, rs, k))
  }

  /** The engine's output is a splice. */
  lemma WeaveSpliced(s: string, ms: seq<Match>, rs: seq<string>)
    requires Tiles(ms, |s|) && |rs| == |ms|
    ensures Spliced(Weave(s, ms, rs), s, ms, rs)
  {
    WeaveLength(s, ms, rs);
    forall k: nat | k <= |ms|
      ensures GapPlaced(Weave(s, ms, rs), s, ms, rs, k)
    {
      WeaveKeepsGap(s, ms, rs, k);
    }
    forall k: nat | k < |ms|
      ensures ReplacementPlaced(Weave(s, ms, rs), ms, rs, k)
    {
      WeavePlacesReplacement(s, ms, rs, k);
    }
  }

  /** Stretch j of unmatched text and replacement j stand side by side in a
      splice, right after what the matches before j put there. */
  lemma SplicedStep(out: string, s: string, ms: seq<Match>, rs: seq<string>, j: nat)
    requires Tiles(ms, |s|) && |rs| == |ms| && j < |ms|
    requires Spliced(out, s, ms, rs)
    ensures var a, b, c := Last(ms, j) + Drift(ms, rs, j), Start(ms[j]) + Drift(ms, rs, j),
                           Last(ms, j + 1) + Drift(ms, rs, j + 1);
            && 0 <= Last(ms, j) <= Start(ms[j])
            && 0 <= a <= b <= c <= |out|
            && out[a..b] == s[Last(ms, j)..Start(ms[j])]
            && out[b..c] == rs[j]
  {
    assert GapPlaced(out, s, ms, rs, j);
    assert ReplacementPlaced(out, ms, rs, j);
  }

  lemma SlicesJoin(out: string, a: int, b: int, c: int)
    requires 0 <= a <= b <= c <= |out|
    ensures out[..c] == out[..a] + out[a..b] + out[b..c]
  {
  }

  /** A splice begins with what the engine emits for the first k matches. */
  lemma {:induction false} SplicedPrefix(out: string, s: string, ms: seq<Match>, rs: seq<string>, k: nat)
    requires Tiles(ms, |s|) && |rs| == |ms| && k <= |ms|
    requires Spliced(out, s, ms, rs)
    ensures 0 <= Last(ms, k) + Drift(ms, rs, k) <= |out|
    ensures out[..Last(ms, k) + Drift(ms, rs, k)] == Emitted(s, ms, rs, k)
  {
    if k > 0 {
      var j := k - 1;
      SplicedPrefix(out, s, ms, rs, j);
      SplicedStep(out, s, ms, rs, j);
      var a, b, c := Last(ms, j) + Drift(ms, rs, j), Start(ms[j]) + Drift(ms, rs, j), Last(ms, k) + Drift(ms, rs, k);
      SlicesJoin(out, a, b, c);
      var e := Emitted(s, ms, rs, j);
      assert Emitted(s, ms, rs, k) == e + s[Last(ms, j)..Start(ms[j])] + rs[j];
    }
  }

  /** Only the engine's output is a splice: together with WeaveSpliced,
      Spliced characterises the engine's result exactly. */
  lemma SplicedIsWeave(out: string, s: string, ms: seq<Match>, rs: seq<string>)
    requires Tiles(ms, |s|) && |rs| == |ms|
    requires Spliced(out, s, ms, rs)
    ensures out == Weave(s, ms, rs)
  {
    var n := |ms|;
    SplicedPrefix(out, s, ms, rs, n);
    var a := Last(ms, n) + Drift(ms, rs, n);
    assert GapPlaced(out, s, ms, rs, n);
    SlicesJoin(out, 0, a, |out|);
  }
}
