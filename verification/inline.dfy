/** The three passes of sfd.go's main function that turn a downloaded page
    into a single file: images become data URLs, stylesheets become <style>
    elements and external scripts become <script> elements. Each pass is the
    splice engine with one callback.

    Downloading is a parameter `fetch` (a request either fails or yields the
    body it read) and base64 encoding a parameter `encode`; neither is
    modelled. Every callback and pass takes a `Resolution`: AsWritten
    resolves references as sfd.go does (MakeAbsolutePath), Corrected as
    ResolveReference does. The matches of each pattern are inputs; the
    predicates ImageMatch, RelFirst, HrefFirst and ScriptMatch state what
    the patterns guarantee about the capture groups they report. */
module Inline {
  import opened Text
  import opened Paths
  import opened Slices
  import opened Splice

  /** The outcome of http.Get followed by reading the body: an error from the
      request, or the bytes read (a server's error page counts as a body). */
  datatype Fetched = Ok(body: string) | Failed

  /** The text of a span that took part in the match. */
  function Captured(s: string, sp: Span): string
    requires 0 <= sp.lo <= sp.hi <= |s|
  {
    s[sp.lo..sp.hi]
  }

  // ---------------------------------------------------------------- images

  /** The image file suffixes sfd.go recognises, with their MIME types. */
  const ImageTypes: seq<(string, string)> := [
    (".png", "image/png"),
    (".jpg", "image/jpeg"),
    (".jpeg", "image/jpeg"),
    (".gif", "image/gif"),
    (".webp", "image/webp")
  ]

  /** No reference ends with two of the recognised suffixes, so the order in
      which the callback tries them does not matter. */
  lemma ImageSuffixesExclusive(ref: string)
    ensures forall i, j :: 0 <= i < j < |ImageTypes| ==>
              !(EndsWith(ref, ImageTypes[i].0) && EndsWith(ref, ImageTypes[j].0))
  {
    SuffixesAgree(ref, ".png", ".jpg", 1);
    SuffixesAgree(ref, ".png", ".jpeg", 1);
    SuffixesAgree(ref, ".png", ".gif", 0);
    SuffixesAgree(ref, ".png", ".webp", 0);
    SuffixesAgree(ref, ".jpg", ".jpeg", 1);
    SuffixesAgree(ref, ".jpg", ".gif", 0);
    SuffixesAgree(ref, ".jpg", ".webp", 0);
    SuffixesAgree(ref, ".jpeg", ".gif", 0);
    SuffixesAgree(ref, ".jpeg", ".webp", 0);
    SuffixesAgree(ref, ".gif", ".webp", 0);
  }

  /** The reference lookup: the type of the first entry of the table, from
      entry i on, whose suffix ends the reference. */
  function LookupFrom(table: seq<(string, string)>, ref: string, i: nat): Option<string>
    requires i <= |table|
    decreases |table| - i
  {
    if i == |table| then None
    else if EndsWith(ref, table[i].0) then Some(table[i].1)
    else LookupFrom(table, ref, i + 1)
  }

  /** The MIME type the image callback picks from the suffix of the src
      path, or None for a suffix it does not know: the table lookup. */
  function ImageType(ref: string): (t: Option<string>)
    ensures t == LookupFrom(ImageTypes, ref, 0)
  {
    assert LookupFrom(ImageTypes, ref, 5) == None;
    assert LookupFrom(ImageTypes, ref, 4) == if EndsWith(ref, ".webp") then Some("image/webp") else None;
    assert LookupFrom(ImageTypes, ref, 3) == if EndsWith(ref, ".gif") then Some("image/gif") else LookupFrom(ImageTypes, ref, 4);
    assert LookupFrom(ImageTypes, ref, 2) == if EndsWith(ref, ".jpeg") then Some("image/jpeg") else LookupFrom(ImageTypes, ref, 3);
    assert LookupFrom(ImageTypes, ref, 1) == if EndsWith(ref, ".jpg") then Some("image/jpeg") else LookupFrom(ImageTypes, ref, 2);
    if EndsWith(ref, ".png") then Some("image/png")
    else if EndsWith(ref, ".jpg") || EndsWith(ref, ".jpeg") then Some("image/jpeg")
    else if EndsWith(ref, ".gif") then Some("image/gif")
    else if EndsWith(ref, ".webp") then Some("image/webp")
    else None
  }

  /** Since the suffixes exclude each other, any entry whose suffix ends the
      reference gives its type, wherever it stands in the table. */
  lemma ImageTypeOfEntry(ref: string, i: nat)
    requires i < |ImageTypes| && EndsWith(ref, ImageTypes[i].0)
    ensures ImageType(ref) == Some(ImageTypes[i].1)
  {
    ImageSuffixesExclusive(ref);
    var j := 0;
    while j < i
      invariant j <= i
      invariant LookupFrom(ImageTypes, ref, j) == LookupFrom(ImageTypes, ref, 0)
    {
      assert !EndsWith(ref, ImageTypes[j].0);
      j := j + 1;
    }
  }

  /** A reference is of unknown type exactly when none of the suffixes ends
      it. */
  lemma {:induction false} LookupFromNone(table: seq<(string, string)>, ref: string, i: nat)
    requires i <= |table|
    ensures LookupFrom(table, ref, i) == None <==> forall k :: i <= k < |table| ==> !EndsWith(ref, table[k].0)
    decreases |table| - i
  {
    if i < |table| {
      LookupFromNone(table, ref, i + 1);
    }
  }

  /** The types in the table are bare ones, with no ';' parameters. */
  lemma ImageTypeBare(ref: string)
    ensures ImageType(ref).Some? ==> ';' !in ImageType(ref).value
  {
    var t := ImageType(ref);
    assert t == None || t == Some("image/png") || t == Some("image/jpeg") || t == Some("image/gif") || t == Some("image/webp");
  }

  const MissingOpen := "<em>[MISSING: "
  const MissingClose := "]</em>"

  /** The placeholder an image that cannot be inlined is replaced by: the
      URL it would have been downloaded from, framed by an <em> element. */
  function Missing(url: string): (r: string)
    ensures Framed(r, MissingOpen, url, MissingClose)
  {
    FramedConcat(MissingOpen, url, MissingClose);
    MissingOpen + url + MissingClose
  }

  /** Two placeholders are equal exactly when they name the same URL. */
  lemma MissingNamesUrl(a: string, b: string)
    ensures Missing(a) == Missing(b) <==> a == b
  {
    if Missing(a) == Missing(b) {
      assert a == Missing(a)[|MissingOpen|..|MissingOpen| + |a|];
    }
  }

  const DataOpen := "data:"
  const Base64Mark := ";base64,"

  /** A base64 data URL: the MIME type after "data:", then ";base64," and
      the payload. */
  function DataUrl(mime: string, payload: string): (r: string)
    ensures Framed(r, DataOpen, mime, Base64Mark + payload)
  {
    FramedConcat(DataOpen, mime, Base64Mark + payload);
    DataOpen + mime + (Base64Mark + payload)
  }

  /** The first index at or after i where c occurs in s, or -1. */
  function IndexOf(s: string, c: char, i: nat): (j: int)
    requires i <= |s|
    ensures j == -1 || (i <= j < |s| && s[j] == c)
    ensures forall k :: i <= k < |s| && (j == -1 || k < j) ==> s[k] != c
    decreases |s| - i
  {
    if i == |s| then -1
    else if s[i] == c then i
    else IndexOf(s, c, i + 1)
  }

  /** Reads a base64 data URL back into its MIME type and payload. */
  function ParseDataUrl(s: string): Option<(string, string)> {
    if !StartsWith(s, "data:") then None
    else
      var j := IndexOf(s, ';', 5);
      if j == -1 || !StartsWith(s[j..], ";base64,") then None
      else Some((s[5..j], s[j + 8..]))
  }

  /** A data URL gives back the MIME type and payload it was built from,
      provided the type has no ';' in it. */
  lemma DataUrlRoundTrip(mime: string, payload: string)
    requires ';' !in mime
    ensures ParseDataUrl(DataUrl(mime, payload)) == Some((mime, payload))
  {
    var s := DataUrl(mime, payload);
    assert s == "data:" + mime + ";base64," + payload;
    var n := 5 + |mime|;
    assert s[..5] == "data:";
    assert s[n] == ';';
    forall k | 5 <= k < n
      ensures s[k] != ';'
    {
      assert s[k] == mime[k - 5];
    }
    var j := IndexOf(s, ';', 5);
    assert j == n;
    assert s[j..][..8] == ";base64,";
    assert s[5..j] == mime;
    assert s[j + 8..] == payload;
  }

  /** Every string the parser accepts is the data URL of what it returns. */
  lemma ParsedDataUrl(s: string, mime: string, payload: string)
    requires ParseDataUrl(s) == Some((mime, payload))
    ensures ';' !in mime && s == DataUrl(mime, payload)
  {
    var j := IndexOf(s, ';', 5);
    assert s == s[..5] + s[5..j] + (s[j..][..8] + s[j + 8..]);
  }

  const ImgOpen := "<img "
  const SrcOpen := " src=\""
  const SrcClose := "\" "
  const ImgClose := " />"

  /** The element an image becomes: the attributes before its src, the new
      src value, and the attributes after it. */
  function ImageTag(before: string, src: string, after: string): (r: string)
    ensures Framed(r, ImgOpen + before + SrcOpen, src, SrcClose + after + ImgClose)
  {
    FramedConcat(ImgOpen + before + SrcOpen, src, SrcClose + after + ImgClose);
    ImgOpen + before + SrcOpen + src + (SrcClose + after + ImgClose)
  }

  /** What the image callback indexes: the src path (groups[4]) always, the
      attributes around it (groups[2] and groups[5]) only when the image is
      inlined. */
  predicate ImageArgs(res: Resolution, u: Location, fetch: string -> Fetched, groups: seq<string>) {
    && |groups| > 4
    && (ImageType(groups[4]).Some? && fetch(ResolveBy(res, u, groups[4])).Ok? ==> |groups| > 5)
  }

  /** The image callback. The src path is resolved against the page; an
      unknown suffix or a failed download leaves a placeholder naming the
      resolved URL, and otherwise the whole tag becomes an <img> whose src
      is the data URL of the downloaded bytes. */
  function ImageRepl(res: Resolution, u: Location, fetch: string -> Fetched, encode: string -> string,
                     groups: seq<string>): (r: string)
    requires ImageArgs(res, u, fetch, groups)
    ensures var url := ResolveBy(res, u, groups[4]);
            r == Missing(url) <==> ImageType(groups[4]) == None || fetch(url) == Failed
    ensures var url := ResolveBy(res, u, groups[4]);
            ImageType(groups[4]).Some? && fetch(url).Ok? ==>
              r == ImageTag(groups[2], DataUrl(ImageType(groups[4]).value, encode(fetch(url).body)), groups[5])
  {
    var url := ResolveBy(res, u, groups[4]);
    match ImageType(groups[4])
    case None => Missing(url)
    case Some(t) =>
      match fetch(url)
      case Failed => Missing(url)
      case Ok(body) =>
        var r := ImageTag(groups[2], DataUrl(t, encode(body)), groups[5]);
        assert r[1] == ImgOpen[1] != MissingOpen[1] == Missing(url)[1];
        r
  }

  /** An inlined image carries the downloaded bytes, encoded, under the MIME
      type its suffix names: the src attribute of the new tag reads back as
      exactly that. */
  lemma ImageReplEmbedsImage(res: Resolution, u: Location, fetch: string -> Fetched, encode: string -> string,
                              groups: seq<string>)
    requires ImageArgs(res, u, fetch, groups)
    requires ImageType(groups[4]).Some? && fetch(ResolveBy(res, u, groups[4])).Ok?
    ensures var src := DataUrl(ImageType(groups[4]).value, encode(fetch(ResolveBy(res, u, groups[4])).body));
            && Placed(ImageRepl(res, u, fetch, encode, groups), |ImgOpen| + |groups[2]| + |SrcOpen|, src)
            && ParseDataUrl(src) == Some((ImageType(groups[4]).value, encode(fetch(ResolveBy(res, u, groups[4])).body)))
  {
    var t := ImageType(groups[4]).value;
    var e := encode(fetch(ResolveBy(res, u, groups[4])).body);
    ImageTypeBare(groups[4]);
    DataUrlRoundTrip(t, e);
  }

  /** An image whose suffix is not recognised is never downloaded: the
      placeholder does not depend on what fetching or encoding would do. */
  lemma ImageUnknownIgnoresFetch(res: Resolution, u: Location, fetch1: string -> Fetched, fetch2: string -> Fetched,
                                 encode1: string -> string, encode2: string -> string, groups: seq<string>)
    requires |groups| > 4 && ImageType(groups[4]) == None
    ensures ImageArgs(res, u, fetch1, groups) && ImageArgs(res, u, fetch2, groups)
    ensures ImageRepl(res, u, fetch1, encode1, groups) == ImageRepl(res, u, fetch2, encode2, groups)
            == Missing(ResolveBy(res, u, groups[4]))
  {
  }

  /** The placeholder for a document-relative src of unknown type: as
      written it names the page path with the src glued on, corrected it
      names the src beside the page. */
  lemma ImageUnknownPlaceholder(u: Location, fetch: string -> Fetched, encode: string -> string,
                                groups: seq<string>)
    requires |groups| > 4 && ImageType(groups[4]) == None
    requires !IsAbsolute(groups[4]) && IsRelative(groups[4])
    ensures ImageArgs(AsWritten, u, fetch, groups) && ImageArgs(Corrected, u, fetch, groups)
    ensures ImageRepl(AsWritten, u, fetch, encode, groups) == Missing(Origin(u) + u.path + groups[4])
    ensures ImageRepl(Corrected, u, fetch, encode, groups) == Missing(Origin(u) + Directory(u.path) + groups[4])
  {
  }

  /** What the image pattern guarantees of each of its matches: five capture
      groups (the tag, the attributes before src, the src attribute, its
      path, the attributes after it), every one of which takes part. */
  predicate ImageMatch(m: Match) {
    |m.groups| == 5 && forall k :: 0 <= k < 5 ==> Participates(m.groups[k])
  }

  /** When every capture group took part, the engine's group list is the
      padded one, whichever way absent groups are reported, and has one
      entry per group plus the whole match. */
  lemma AllParticipateGroups(report: Report, s: string, m: Match)
    requires MatchWithin(m, |s|)
    requires forall k :: 0 <= k < |m.groups| ==> Participates(m.groups[k])
    ensures MatchGroups(report, s, m) == BlankGroups(s, Spans(m))
    ensures |MatchGroups(report, s, m)| == |m.groups| + 1
    ensures forall k :: 0 <= k < |m.groups| ==>
              0 <= m.groups[k].lo <= m.groups[k].hi <= |s| &&
              MatchGroups(report, s, m)[k + 1] == Captured(s, m.groups[k])
  {
    SpansOfMatchWithin(m, |s|);
    assert forall k :: 0 < k < |Spans(m)| ==> Spans(m)[k] == m.groups[k - 1];
    GroupsPrefixOfBlank(s, Spans(m));
  }

  /** The image callback as the engine receives it. */
  function ImageCallback(res: Resolution, u: Location, fetch: string -> Fetched, encode: string -> string)
    : seq<string> --> string
  {
    groups requires ImageArgs(res, u, fetch, groups) => ImageRepl(res, u, fetch, encode, groups)
  }

  /** The image callback gets its groups[4] as the src path of the tag. */
  lemma ImageSrcGroup(report: Report, s: string, m: Match)
    requires MatchWithin(m, |s|) && ImageMatch(m)
    ensures |MatchGroups(report, s, m)| == 6
    ensures MatchGroups(report, s, m)[4] == Captured(s, m.groups[3])
  {
    AllParticipateGroups(report, s, m);
  }

  lemma ImageAccepts(res: Resolution, u: Location, fetch: string -> Fetched, encode: string -> string,
                     report: Report, s: string, ms: seq<Match>)
    requires forall k :: 0 <= k < |ms| ==> MatchWithin(ms[k], |s|) && ImageMatch(ms[k])
    ensures Accepts(ImageCallback(res, u, fetch, encode), report, s, ms)
  {
    forall k | 0 <= k < |ms|
      ensures ImageArgs(res, u, fetch, MatchGroups(report, s, ms[k]))
    {
      ImageSrcGroup(report, s, ms[k]);
    }
  }

  /** Pass 1: the page spliced with the image callback's answer for every
      image tag the pattern finds. */
  function ImagePass(res: Resolution, u: Location, fetch: string -> Fetched, encode: string -> string,
                     page: string, ms: seq<Match>): (r: string)
    requires Tiles(ms, |page|)
    requires forall k :: 0 <= k < |ms| ==> ImageMatch(ms[k])
    ensures (ImageAccepts(res, u, fetch, encode, StopAtAbsent, page, ms);
             Spliced(r, page, ms, Replacements(page, ms, StopAtAbsent, ImageCallback(res, u, fetch, encode))))
  {
    ImageAccepts(res, u, fetch, encode, StopAtAbsent, page, ms);
    WeaveSpliced(page, ms, Replacements(page, ms, StopAtAbsent, ImageCallback(res, u, fetch, encode)));
    ReplaceAll(page, ms, StopAtAbsent, ImageCallback(res, u, fetch, encode))
  }

  /** With every group taking part, the image pass comes out the same
      whether absent groups would stop the group list or be padded. */
  lemma ImagePassReportIndependent(res: Resolution, u: Location, fetch: string -> Fetched, encode: string -> string,
                                   page: string, ms: seq<Match>)
    requires Tiles(ms, |page|)
    requires forall k :: 0 <= k < |ms| ==> ImageMatch(ms[k])
    ensures Accepts(ImageCallback(res, u, fetch, encode), BlankAbsent, page, ms)
    ensures ImagePass(res, u, fetch, encode, page, ms)
            == ReplaceAll(page, ms, BlankAbsent, ImageCallback(res, u, fetch, encode))
  {
    var cb := ImageCallback(res, u, fetch, encode);
    ImageAccepts(res, u, fetch, encode, StopAtAbsent, page, ms);
    ImageAccepts(res, u, fetch, encode, BlankAbsent, page, ms);
    forall k | 0 <= k < |ms|
      ensures MatchGroups(StopAtAbsent, page, ms[k]) == MatchGroups(BlankAbsent, page, ms[k])
    {
      AllParticipateGroups(StopAtAbsent, page, ms[k]);
      AllParticipateGroups(BlankAbsent, page, ms[k]);
    }
    assert Replacements(page, ms, StopAtAbsent, cb) == Replacements(page, ms, BlankAbsent, cb);
  }

  /** An image that cannot be inlined (unknown suffix or failed download)
      is replaced by the placeholder naming its resolved src path: that is
      the image pass's replacement for it, which ReplaceAllPlacesReplacement
      puts where the tag stood. */
  lemma ImagePlaceholderReplacement(res: Resolution, u: Location, fetch: string -> Fetched, encode: string -> string,
                                    page: string, ms: seq<Match>, k: nat)
    requires Tiles(ms, |page|)
    requires forall j :: 0 <= j < |ms| ==> ImageMatch(ms[j])
    requires k < |ms| && ImageMatch(ms[k]) && MatchWithin(ms[k], |page|)
    requires var ref := Captured(page, ms[k].groups[3]);
             ImageType(ref) == None || fetch(ResolveBy(res, u, ref)) == Failed
    ensures Accepts(ImageCallback(res, u, fetch, encode), StopAtAbsent, page, ms)
    ensures Replacements(page, ms, StopAtAbsent, ImageCallback(res, u, fetch, encode))[k]
            == Missing(ResolveBy(res, u, Captured(page, ms[k].groups[3])))
  {
    ImageAccepts(res, u, fetch, encode, StopAtAbsent, page, ms);
    ImageSrcGroup(StopAtAbsent, page, ms[k]);
  }

  // ----------------------------------------------------------- stylesheets

  /** The index of the last non-empty string in gs, or -1 if there is none. */
  function LastNonEmpty(gs: seq<string>): (j: int)
    ensures -1 <= j < |gs|
    ensures j >= 0 ==> gs[j] != ""
    ensures forall i :: j < i < |gs| ==> gs[i] == ""
  {
    if |gs| == 0 then -1
    else if gs[|gs| - 1] != "" then |gs| - 1
    else LastNonEmpty(gs[..|gs| - 1])
  }

  /** The reference the stylesheet callback resolves: the last element of
      its group list once the empty strings are deleted, which is the last
      non-empty group. The callback indexes that list, so it needs one
      non-empty group. */
  function StylesheetRef(groups: seq<string>): (ref: string)
    requires |DeleteEmptySlices(groups)| > 0
    ensures 0 <= LastNonEmpty(groups) && ref == groups[LastNonEmpty(groups)]
  {
    var kept := DeleteEmptySlices(groups);
    assert kept[0] in kept;
    var j := LastNonEmpty(groups);
    DeleteEmptySlicesLast(groups, j);
    kept[|kept| - 1]
  }

  const StyleOpen := "\n<style type='text/css'>"
  const StyleClose := "</style>\n"

  /** The element a stylesheet becomes: its text inside a <style> element. */
  function StyleElement(body: string): (r: string)
    ensures Framed(r, StyleOpen, body, StyleClose)
  {
    FramedConcat(StyleOpen, body, StyleClose);
    StyleOpen + body + StyleClose
  }

  /** The stylesheet callback. The reference is resolved against the page;
      a failed download keeps the first non-empty group, which is the
      matched tag itself, and a successful one replaces the tag by a <style>
      element holding the downloaded text. */
  function CssRepl(res: Resolution, u: Location, fetch: string -> Fetched, groups: seq<string>): (r: string)
    requires |DeleteEmptySlices(groups)| > 0
    ensures fetch(ResolveBy(res, u, StylesheetRef(groups))) == Failed ==>
              && r == DeleteEmptySlices(groups)[0]
              && r != "" && r in groups && (groups[0] != "" ==> r == groups[0])
    ensures fetch(ResolveBy(res, u, StylesheetRef(groups))).Ok? ==>
              r == StyleElement(fetch(ResolveBy(res, u, StylesheetRef(groups))).body)
  {
    var kept := DeleteEmptySlices(groups);
    match fetch(ResolveBy(res, u, StylesheetRef(groups)))
    case Failed =>
      assert kept[0] in kept;
      if groups[0] != "" then (DeleteEmptySlicesKeepsHead(groups); kept[0]) else kept[0]
    case Ok(body) => StyleElement(body)
  }

  function CssCallback(res: Resolution, u: Location, fetch: string -> Fetched): seq<string> --> string {
    groups requires |DeleteEmptySlices(groups)| > 0 => CssRepl(res, u, fetch, groups)
  }

  /** Every match of the stylesheet pattern is non-empty, so the callback
      always has a non-empty group to work with. */
  lemma CssAccepts(res: Resolution, u: Location, fetch: string -> Fetched, report: Report, s: string, ms: seq<Match>)
    requires forall k :: 0 <= k < |ms| ==> MatchWithin(ms[k], |s|) && Start(ms[k]) < End(ms[k])
    ensures Accepts(CssCallback(res, u, fetch), report, s, ms)
  {
    forall k | 0 <= k < |ms|
      ensures |DeleteEmptySlices(MatchGroups(report, s, ms[k]))| > 0
    {
      DeleteEmptySlicesKeepsHead(MatchGroups(report, s, ms[k]));
    }
  }

  /** Pass 2: the page spliced with the stylesheet callback's answer for
      every link the pattern finds, with the group list built as `report`
      says. */
  function CssPass(report: Report, res: Resolution, u: Location, fetch: string -> Fetched,
                   page: string, ms: seq<Match>): (r: string)
    requires Tiles(ms, |page|)
    requires forall k :: 0 <= k < |ms| ==> Start(ms[k]) < End(ms[k])
    ensures (CssAccepts(res, u, fetch, report, page, ms);
             Spliced(r, page, ms, Replacements(page, ms, report, CssCallback(res, u, fetch))))
  {
    CssAccepts(res, u, fetch, report, page, ms);
    WeaveSpliced(page, ms, Replacements(page, ms, report, CssCallback(res, u, fetch)));
    ReplaceAll(page, ms, report, CssCallback(res, u, fetch))
  }

  /** When no stylesheet can be downloaded the page keeps every link tag:
      the pass returns it unchanged. */
  lemma CssPassAllFailed(report: Report, res: Resolution, u: Location, fetch: string -> Fetched,
                         page: string, ms: seq<Match>)
    requires Tiles(ms, |page|)
    requires forall k :: 0 <= k < |ms| ==> Start(ms[k]) < End(ms[k])
    requires forall url :: fetch(url) == Failed
    ensures CssPass(report, res, u, fetch, page, ms) == page
  {
    CssAccepts(res, u, fetch, report, page, ms);
    ReplaceAllUnchanged(page, ms, report, CssCallback(res, u, fetch));
  }

  /** The stylesheet pattern's first alternative, rel="stylesheet" before
      href: group 1 (the tag's attributes) and group 2 (the href value) take
      part, group 3 does not. Both captured texts are non-empty. */
  predicate RelFirst(m: Match) {
    && |m.groups| == 3
    && 0 <= m.groups[0].lo < m.groups[0].hi
    && 0 <= m.groups[1].lo < m.groups[1].hi
    && m.groups[2] == Absent
  }

  /** The second alternative, href before rel="stylesheet": group 1 and
      group 3 (the href value) take part, group 2 does not. */
  predicate HrefFirst(m: Match) {
    && |m.groups| == 3
    && 0 <= m.groups[0].lo < m.groups[0].hi
    && m.groups[1] == Absent
    && 0 <= m.groups[2].lo < m.groups[2].hi
  }

  /** For the first alternative the callback resolves the href value, however
      absent groups are reported. */
  lemma StylesheetRefRelFirst(report: Report, s: string, m: Match)
    requires MatchWithin(m, |s|) && Start(m) < End(m) && RelFirst(m)
    ensures |DeleteEmptySlices(MatchGroups(report, s, m))| > 0
    ensures StylesheetRef(MatchGroups(report, s, m)) == Captured(s, m.groups[1])
  {
    var g := MatchGroups(report, s, m);
    SpansOfMatchWithin(m, |s|);
    DeleteEmptySlicesKeepsHead(g);
    assert Spans(m)[1] == m.groups[0] && Spans(m)[2] == m.groups[1] && Spans(m)[3] == m.groups[2];
    assert g[2] == Captured(s, m.groups[1]) != "";
    assert |g| == 3 || g[3] == "";
  }

  /** As sfd.go builds the group list, the second alternative reports only
      the whole match and group 1: the loop stops at the absent group 2 and
      never reaches group 3. The callback then resolves group 1, the tag's
      attribute text, instead of the href value. */
  lemma StylesheetRefHrefFirstAsWritten(s: string, m: Match)
    requires MatchWithin(m, |s|) && Start(m) < End(m) && HrefFirst(m)
    ensures MatchGroups(StopAtAbsent, s, m) == [Captured(s, m.whole), Captured(s, m.groups[0])]
    ensures |DeleteEmptySlices(MatchGroups(StopAtAbsent, s, m))| > 0
    ensures StylesheetRef(MatchGroups(StopAtAbsent, s, m)) == Captured(s, m.groups[0])
  {
    var g := MatchGroups(StopAtAbsent, s, m);
    SpansOfMatchWithin(m, |s|);
    DeleteEmptySlicesKeepsHead(g);
    assert Spans(m)[1] == m.groups[0] && Spans(m)[2] == m.groups[1];
  }

  /** With absent groups padded by empty strings, the second alternative's
      group list ends in the href value, and the callback resolves it. */
  lemma StylesheetRefHrefFirstCorrected(s: string, m: Match)
    requires MatchWithin(m, |s|) && Start(m) < End(m) && HrefFirst(m)
    ensures |DeleteEmptySlices(MatchGroups(BlankAbsent, s, m))| > 0
    ensures StylesheetRef(MatchGroups(BlankAbsent, s, m)) == Captured(s, m.groups[2])
  {
    var g := MatchGroups(BlankAbsent, s, m);
    SpansOfMatchWithin(m, |s|);
    DeleteEmptySlicesKeepsHead(g);
    assert Spans(m)[3] == m.groups[2];
  }

  /** A link tag with href before rel: as written, the stylesheet callback
      resolves `href="a.css" rel="stylesheet"`; with padded groups it
      resolves `a.css`. */
  lemma StylesheetRefCounterexample()
    ensures var href := "a.css";
            var attrs := "href=\"" + href + "\" rel=\"stylesheet\"";
            var page := "<link " + attrs + ">";
            var m := Match(Span(0, 36), [Span(6, 35), Absent, Span(12, 17)]);
            && MatchWithin(m, |page|) && HrefFirst(m)
            && |DeleteEmptySlices(MatchGroups(StopAtAbsent, page, m))| > 0
            && StylesheetRef(MatchGroups(StopAtAbsent, page, m)) == attrs
            && |DeleteEmptySlices(MatchGroups(BlankAbsent, page, m))| > 0
            && StylesheetRef(MatchGroups(BlankAbsent, page, m)) == href
  {
    var href := "a.css";
    var attrs := "href=\"" + href + "\" rel=\"stylesheet\"";
    var page := "<link " + attrs + ">";
    assert page[6..35] == attrs;
    assert page[6..35][6..11] == href;
    var m := Match(Span(0, 36), [Span(6, 35), Absent, Span(12, 17)]);
    assert MatchWithin(m, |page|);
    StylesheetRefHrefFirstAsWritten(page, m);
    StylesheetRefHrefFirstCorrected(page, m);
  }

  // --------------------------------------------------------------- scripts

  const ScriptOpen := "\n<script language='text/javascript'>"
  const ScriptClose := "</script>\n"

  /** The element a script becomes: its text inside a <script> element. */
  function ScriptElement(body: string): (r: string)
    ensures Framed(r, ScriptOpen, body, ScriptClose)
  {
    FramedConcat(ScriptOpen, body, ScriptClose);
    ScriptOpen + body + ScriptClose
  }

  /** The script callback. Its reference is the last group; a failed
      download keeps the matched tag (groups[0]) and a successful one
      replaces it by a <script> element holding the downloaded text. */
  function ScriptRepl(res: Resolution, u: Location, fetch: string -> Fetched, groups: seq<string>): (r: string)
    requires |groups| > 0
    ensures fetch(ResolveBy(res, u, groups[|groups| - 1])) == Failed ==> r == groups[0]
    ensures fetch(ResolveBy(res, u, groups[|groups| - 1])).Ok? ==>
              r == ScriptElement(fetch(ResolveBy(res, u, groups[|groups| - 1])).body)
  {
    match fetch(ResolveBy(res, u, groups[|groups| - 1]))
    case Failed => groups[0]
    case Ok(body) => ScriptElement(body)
  }

  function ScriptCallback(res: Resolution, u: Location, fetch: string -> Fetched): seq<string> --> string {
    groups requires |groups| > 0 => ScriptRepl(res, u, fetch, groups)
  }

  /** What the script pattern guarantees of each of its matches: one
      capture group, the src value, which takes part. */
  predicate ScriptMatch(m: Match) {
    |m.groups| == 1 && Participates(m.groups[0])
  }

  /** The script callback's last group is the src value of the tag. */
  lemma ScriptSrcGroup(report: Report, s: string, m: Match)
    requires MatchWithin(m, |s|) && ScriptMatch(m)
    ensures |MatchGroups(report, s, m)| == 2
    ensures MatchGroups(report, s, m)[1] == Captured(s, m.groups[0])
  {
    AllParticipateGroups(report, s, m);
  }

  /** Pass 3: the page spliced with the script callback's answer for every
      script tag the pattern finds. */
  function ScriptPass(res: Resolution, u: Location, fetch: string -> Fetched, page: string, ms: seq<Match>): (r: string)
    requires Tiles(ms, |page|)
    ensures (assert Accepts(ScriptCallback(res, u, fetch), StopAtAbsent, page, ms);
             Spliced(r, page, ms, Replacements(page, ms, StopAtAbsent, ScriptCallback(res, u, fetch))))
  {
    assert Accepts(ScriptCallback(res, u, fetch), StopAtAbsent, page, ms);
    WeaveSpliced(page, ms, Replacements(page, ms, StopAtAbsent, ScriptCallback(res, u, fetch)));
    ReplaceAll(page, ms, StopAtAbsent, ScriptCallback(res, u, fetch))
  }

  /** When no script can be downloaded the page keeps every script tag: the
      pass returns it unchanged. */
  lemma ScriptPassAllFailed(res: Resolution, u: Location, fetch: string -> Fetched, page: string, ms: seq<Match>)
    requires Tiles(ms, |page|)
    requires forall url :: fetch(url) == Failed
    ensures ScriptPass(res, u, fetch, page, ms) == page
  {
    assert Accepts(ScriptCallback(res, u, fetch), StopAtAbsent, page, ms);
    ReplaceAllUnchanged(page, ms, StopAtAbsent, ScriptCallback(res, u, fetch));
  }

  // -------------------------------------------------------------- the page

  /** The three passes of main in order, each over the previous one's
      output; `links` and `scripts` are the matches found in the output of
      the pass before. sfd.go itself is SingleFile(StopAtAbsent, AsWritten,
      ...); with BlankAbsent and Corrected both forms of link tag resolve
      their href and document-relative references land beside the page.
      A page without images, when nothing can be downloaded, is saved as it
      was. */
  ghost function SingleFile(report: Report, res: Resolution, u: Location, fetch: string -> Fetched,
                            encode: string -> string, page: string,
                            images: seq<Match>, links: seq<Match>, scripts: seq<Match>): (r: string)
    requires Tiles(images, |page|) && forall k :: 0 <= k < |images| ==> ImageMatch(images[k])
    requires Tiles(links, |ImagePass(res, u, fetch, encode, page, images)|)
    requires forall k :: 0 <= k < |links| ==> Start(links[k]) < End(links[k])
    requires Tiles(scripts, |CssPass(report, res, u, fetch, ImagePass(res, u, fetch, encode, page, images), links)|)
    ensures images == [] && (forall url :: fetch(url) == Failed) ==> r == page
  {
    var noImages := ImagePass(res, u, fetch, encode, page, images);
    var noStyles := CssPass(report, res, u, fetch, noImages, links);
    var r := ScriptPass(res, u, fetch, noStyles, scripts);
    if images == [] && (forall url :: fetch(url) == Failed) then
      ReplaceAllUnchanged(page, [], StopAtAbsent, ImageCallback(res, u, fetch, encode));
      CssPassAllFailed(report, res, u, fetch, noImages, links);
      ScriptPassAllFailed(res, u, fetch, noStyles, scripts);
      r
    else
      r
  }
}
