# sfd — single-file download, modelled in Dafny

sfd downloads a web page and saves it as one self-contained `.htm` file.
It works in three passes over the page text, and each pass is the same
splice engine (`ReplaceAllStringSubmatchFunc`) run with a different
callback:

1. every `<img … src="…">` becomes an `<img>` whose src is a base64 `data:`
   URL of the downloaded image, or an `<em>[MISSING: url]</em>` placeholder;
2. every `<link … rel="stylesheet" … href="…">` becomes a `<style>` element
   holding the downloaded stylesheet, or stays as it is;
3. every `<script … src="…">` becomes an inline `<script>` element, or stays
   as it is.

Each reference is first made absolute against the page URL by
`MakeAbsolutePath`. The output file is named after the page's host and path.

sfd.go has two bugs in this pipeline (see "## Findings"), so the model keeps
both readings side by side:
- every callback and pass takes a `Resolution`:
  - `AsWritten` resolves references with sfd.go's `MakeAbsolutePath`;
  - `Corrected` merges a document-relative reference with the page's
    directory;
- the stylesheet pass takes a `Report`, the way absent capture groups are
  reported.

sfd.go's own behaviour is the `AsWritten` / `StopAtAbsent` instance of each
member.

The Dafny project has five modules:

- `Text` (text.dfy): prefix and suffix predicates, and `Option`.
- `Splice` (splice.dfy): the splice engine.
  - `ReplaceAllStringSubmatchFunc` and its inner group loop `CollectGroups`
    are methods written like the Go loops.
  - They are proved equal to a reference left fold: `Emitted`, `Weave` and
    `ReplaceAll`, over the match spans and the callback's replacements.
  - The lemmas about the fold state its meaning:
    - text outside the matches is copied in order;
    - each replacement stands at its drifted offset;
    - identity callbacks change nothing.
  - The regular expression is not modelled. A pass takes its matches as an
    input shaped like Go's `FindAllSubmatchIndex` result, and `Tiles` states
    what that result guarantees: spans in bounds, ordered and disjoint.
  - `Report` chooses how the group list treats a group that did not take
    part:
    - `StopAtAbsent` stops the list there, as sfd.go does;
    - `BlankAbsent` puts an empty string there and goes on, as Go's
      `FindStringSubmatch` does.
- `Slices` (slices.dfy): `DeleteEmptySlices`, as a filter that keeps order.
- `Paths` (paths.dfy): resolving references and naming the target file.
  - `MakeAbsolutePath` and `Resolve` are as written.
  - `ResolveReference` is the corrected resolution.
  - `ResolveBy` picks one of the two by `Resolution`.
  - `TargetFileName` names the output file.
- `Inline` (inline.dfy): the three passes and their pipeline.
  - The callbacks are `ImageRepl`, `CssRepl` and `ScriptRepl`.
  - The MIME table is `ImageTypes` and the data URL is `DataUrl` /
    `ParseDataUrl`.
  - The passes are `ImagePass`, `CssPass` and `ScriptPass`. Each is stated
    as a splice (`Splice.Spliced`) of its page with its callback's answers.
  - `SingleFile` chains the three passes.

Downloading is a parameter `fetch: string -> Fetched`. A download is either
`Failed` (the request returned an error) or `Ok(body)`. Base64 encoding is a
parameter `encode`.

## Model

| member | source | states |
|---|---|---|
| Splice.GroupsFrom | sfd.go:44-46 | the list holds the texts of index pairs i, i+1, … in order, all of which participate, and stops exactly at the first pair whose end is -1 or at the end of the list |
| Splice.Groups | sfd.go:43-46 | the group list starts at group 0; its entries are the texts of leading participating groups, and its length is the index of the first absent group |
| Splice.BlankGroups | sfd.go:44-46 | the corrected group list: one entry per group, the group's text when it participated and "" otherwise |
| Splice.GroupsBy | sfd.go:43-47 | under either way of reporting, the first entry handed to the callback is the whole match's text |
| Splice.MatchGroups | sfd.go:42-47 | for every match, the callback's group list is non-empty and its element 0 is the matched span of the subject |
| Splice.GroupsPrefixOfBlank | sfd.go:44-46 | the loop's list is a prefix of the padded list, and equals it when every group participated |
| Splice.GroupsUnique | sfd.go:44-46 | any list of leading group texts that stops exactly at the first absent group is the group list; this is what the inner loop must produce |
| Splice.CollectGroups | sfd.go:43-46 | the inner loop (append while the end offset is not -1) returns exactly the group list |
| Splice.CallBack | sfd.go:43-47 | one iteration hands the callback the match's group list as sfd.go builds it and returns its answer |
| Splice.Step | sfd.go:47-48 | one outer iteration appends the text since the previous match and then the replacement, and moves lastIndex to the match's end, keeping the loop invariant |
| Splice.ReplaceAllStringSubmatchFunc | sfd.go:39-51 | the engine's loop computes the reference splice: text between matches copied, each match replaced by the callback's answer, the tail after the last match appended |
| Splice.Replacements | sfd.go:47 | one replacement per match, in match order, each the callback applied to that match's group list |
| Splice.Emitted | sfd.go:47-48 | after k matches, the output length is the subject up to the end of match k-1, plus the replacement lengths minus the span lengths |
| Splice.EmittedGrows | sfd.go:47 | the engine only appends: what was emitted after k matches is a prefix of what is emitted after any later match |
| Splice.WeaveKeepsGap | sfd.go:47-50 | every stretch of unmatched text stands verbatim in the result, at its subject offset shifted by the drift of earlier matches |
| Splice.WeavePlacesReplacement | sfd.go:47-50 | each replacement stands in the result where its match began, shifted by the drift of the matches before it |
| Splice.WeaveLength | sfd.go:47-50 | the result is as long as the subject, minus the matched spans, plus the replacements |
| Splice.EmittedUnchanged | sfd.go:47-48 | when each replacement equals its matched text, what was emitted after k matches is the subject up to the end of match k-1 |
| Splice.ReplaceAllUnchanged | sfd.go:39-51 | with no matches, or a callback that returns groups[0], the engine returns its input unchanged |
| Splice.ReplaceAllPlacesReplacement | sfd.go:39-51 | the callback's answer for match k stands in the engine's result at the start of match k, shifted by the drift |
| Splice.WeaveSpliced | sfd.go:39-51 | the engine's result is a splice: every unmatched stretch and every replacement stands at its drifted offset, and the length adds up |
| Splice.SplicedPrefix | sfd.go:47-48 | any splice begins with what the loop has emitted after k matches |
| Splice.SplicedIsWeave | sfd.go:39-51 | the engine's result is the only splice, so Spliced characterises what ReplaceAllStringSubmatchFunc returns |
| Splice.SplicedStep | sfd.go:47-48 | in a splice, stretch j and replacement j stand side by side, right after the text for the matches before j |
| Splice.SpansOfMatchWithin | sfd.go:42 | the index list of an in-bounds match is in bounds, and its entry 0 (the whole match) participates |
| Slices.DeleteEmptySlices | sfd.go:66-74 | the result keeps exactly the non-empty strings, each as many times as the input has it, in input order, and is no longer than the input |
| Slices.DeleteEmptySlicesIdentity | sfd.go:66-74 | a list without empty strings passes through unchanged |
| Slices.DeleteEmptySlicesIdempotent | sfd.go:66-74 | filtering twice equals filtering once |
| Slices.DeleteEmptySlicesKeepsHead | sfd.go:66-74 | a non-empty first element stays first |
| Slices.DeleteEmptySlicesLast | sfd.go:66-74 | the last element kept is the input's last non-empty element |
| Slices.DeleteEmptyAllEmpty | sfd.go:66-74 | a list of empty strings filters to the empty list |
| Paths.MakeAbsolutePath | sfd.go:53-64 | an http:/https: reference comes back unchanged; any other reference gives scheme + "://" + host, then the page path if the flag is set, then the reference |
| Paths.Resolve | sfd.go:129-135 | the callbacks' call of MakeAbsolutePath: a "/" reference is appended to scheme://host, any other non-absolute one to scheme://host plus the whole page path |
| Paths.AbsoluteIgnoresFlag | sfd.go:54-57 | for an absolute reference the isRelative flag makes no difference |
| Paths.ResolveHostRelative | sfd.go:129-132 | a reference starting with "/" is appended to scheme://host |
| Paths.ResolveDocumentRelative | sfd.go:59-60 | any other non-absolute reference is appended to scheme://host followed by the whole page path |
| Paths.ResolveIdempotent | sfd.go:53-64 | for an http or https page every resolved reference is absolute, so resolving it again changes nothing |
| Paths.ResolveGluesHost | sfd.go:59-60 | on a page with an empty path, a document-relative reference runs into the host name: the result does not start with scheme://host/ |
| Paths.ResolveEmptyPathExample | sfd.go:59-60 | for page http://h.com and reference a.png, sfd.go yields http://h.coma.png while the corrected resolution yields http://h.com/a.png |
| Paths.ResolveFilePathExample | sfd.go:59-60 | for page path /d/i.htm and reference a.png, sfd.go appends to the file name (/d/i.htma.png) while the corrected resolution yields /d/a.png |
| Paths.Directory | sfd.go:59-60 | the directory of a path ends in "/", is a prefix of the path, and no "/" follows it in the path; it is "/" when the path has none |
| Paths.ResolveReferenceAgrees | sfd.go:59-60 | when the page path ends in "/", the corrected resolution and sfd.go's agree on every reference |
| Paths.ResolveReference | sfd.go:53-64 | corrected resolution: absolute references are unchanged and "/"-references are appended to the origin, as in sfd.go; other references are appended to the origin plus the path's directory, so the result ends with the reference and, for a rooted path, starts with scheme://host/ |
| Paths.ResolveBy | sfd.go:135 | AsWritten is sfd.go's MakeAbsolutePath call, Corrected the directory merge; both leave absolute references alone, agree on "/" references, start with the origin and end with the reference |
| Paths.Underscored | sfd.go:116 | every "/" of the path becomes "_"; every other character and the length are kept |
| Paths.TargetFileName | sfd.go:116 | the file name is target, "/", then "[host] ", the path with every "/" turned into "_", and ".htm"; it adds no directory level when the host has no "/" |
| Inline.ImageSuffixesExclusive | sfd.go:137-149 | no reference ends with two of the recognised suffixes, so the order of the if-chain does not matter |
| Inline.ImageType | sfd.go:137-149 | the if-chain on the src suffix picks the same MIME type as the lookup in the five-entry suffix table |
| Inline.ImageTypeOfEntry | sfd.go:137-144 | a reference ending with a table suffix gets that entry's MIME type, wherever the entry stands |
| Inline.LookupFromNone | sfd.go:145-149 | the type is unknown if and only if no table suffix ends the reference |
| Inline.ImageTypeBare | sfd.go:137-144 | every MIME type the callback can choose is free of ';' parameters |
| Inline.Missing | sfd.go:148 | the placeholder is `<em>[MISSING: `, the URL, and `]</em>` |
| Inline.MissingNamesUrl | sfd.go:148 | two placeholders are equal exactly when they name the same URL |
| Inline.DataUrl | sfd.go:165 | the data URL is `data:`, the MIME type, `;base64,` and the payload |
| Inline.ImageTag | sfd.go:165 | the new tag is `<img `, the attributes before src, ` src="`, the new src, `" `, the attributes after src, and ` />` |
| Inline.DataUrlRoundTrip | sfd.go:165 | a data:TYPE;base64,PAYLOAD URL parses back to TYPE and PAYLOAD when TYPE has no ';' |
| Inline.ParsedDataUrl | sfd.go:165 | every string the data-URL parser accepts is the data URL of what it returns |
| Inline.ImageRepl | sfd.go:123-166 | with url the src resolved as res says (sfd.go's MakeAbsolutePath under AsWritten), the callback returns the MISSING placeholder for url exactly when the suffix is unknown or fetching url fails; otherwise it returns an img tag that keeps groups[2] and groups[5] and whose src is the data URL of the encoded body |
| Inline.ImageReplEmbedsImage | sfd.go:152-165 | an inlined image's src attribute reads back as its MIME type and the encoded bytes downloaded from the resolved src |
| Inline.ImageUnknownIgnoresFetch | sfd.go:145-149 | an image of unknown type is never downloaded: the placeholder names the resolved src and does not depend on fetch or encode |
| Inline.ImageUnknownPlaceholder | sfd.go:129-148 | for a document-relative src of unknown type, sfd.go's placeholder names scheme://host + page path + src; the corrected one names scheme://host + page directory + src |
| Inline.AllParticipateGroups | sfd.go:44-46 | when every group participated, the group list is the padded list, with entry k+1 equal to group k's text |
| Inline.ImageSrcGroup | sfd.go:122-125 | for a match of the image pattern, the callback gets six groups, and groups[4] is the src path |
| Inline.ImageAccepts | sfd.go:123-130 | the image callback can index every group list the image pattern's matches produce |
| Inline.ImagePass | sfd.go:122-166 | the image pass's result is the splice of the page with the image callback's answer for each image tag |
| Inline.ImagePassReportIndependent | sfd.go:122-123 | the image pass gives the same result whichever way absent groups are reported |
| Inline.ImagePlaceholderReplacement | sfd.go:145-157 | an image of unknown type, or whose download from the resolved src fails, has as its replacement the MISSING placeholder naming that resolved src |
| Inline.LastNonEmpty | sfd.go:172-174 | returns the index of a non-empty entry after which every entry is empty, or -1 |
| Inline.StylesheetRef | sfd.go:172-174 | the reference taken after DeleteEmptySlices is the last non-empty group |
| Inline.StyleElement | sfd.go:195 | the style element is a newline and `<style type='text/css'>`, the stylesheet text, then `</style>` and a newline |
| Inline.CssRepl | sfd.go:171-196 | the reference resolved as res says is fetched; a failed download returns the first element of the list DeleteEmptySlices leaves (the tag itself when groups[0] is non-empty); a successful one returns a style element holding the body |
| Inline.CssAccepts | sfd.go:172-174 | every non-empty match leaves a non-empty list after DeleteEmptySlices, so groups[len-1] is defined |
| Inline.CssPass | sfd.go:170-196 | the stylesheet pass's result is the splice of its input with the stylesheet callback's answer for each link tag |
| Inline.CssPassAllFailed | sfd.go:184-189 | when no stylesheet can be downloaded, the CSS pass returns the page unchanged |
| Inline.StylesheetRefRelFirst | sfd.go:170-174 | for a link with rel before href, the callback resolves the href value under either way of reporting |
| Inline.StylesheetRefHrefFirstAsWritten | sfd.go:170-174 | for a link with href before rel, sfd.go's group list is only [tag, group 1], so the callback resolves the whole attribute text |
| Inline.StylesheetRefHrefFirstCorrected | sfd.go:170-174 | with padded groups, a link with href before rel resolves its href value |
| Inline.StylesheetRefCounterexample | sfd.go:170-174 | for `<link href="a.css" rel="stylesheet">`, sfd.go resolves `href="a.css" rel="stylesheet"` and the corrected list resolves a.css |
| Inline.ScriptElement | sfd.go:224 | the script element is a newline and `<script language='text/javascript'>`, the script text, then `</script>` and a newline |
| Inline.ScriptRepl | sfd.go:201-225 | the last group, resolved as res says, is fetched; a failed download keeps groups[0] (the tag); a successful one returns a script element holding the body |
| Inline.ScriptSrcGroup | sfd.go:200-203 | for a match of the script pattern, the last group is the src value |
| Inline.ScriptPass | sfd.go:200-225 | the script pass's result is the splice of its input with the script callback's answer for each script tag |
| Inline.ScriptPassAllFailed | sfd.go:213-218 | when no script can be downloaded, the script pass returns the page unchanged |
| Inline.SingleFile | sfd.go:120-225 | the three passes in order; a page without images, with every download failing, comes out unchanged |

## Left out

- The regular expressions are not modelled. Each pass takes its matches as
  an input. `Tiles`, `ImageMatch`, `RelFirst`, `HrefFirst` and `ScriptMatch`
  describe the match shapes the patterns produce; they are not derived from
  the patterns.
- HTTP is a parameter `fetch`, so requests, redirects and status codes are
  not modelled. `http.Get` does not fail on an error status, so such a page
  is an `Ok` body. Read errors are ignored as in the source. Deferred
  `Body.Close` calls are not modelled.
- Base64 encoding is a parameter `encode`, because its arithmetic is not
  what the core does.
- `url.Parse` is not modelled. `Location` holds the scheme, host and path it
  would yield, and the failure to parse is left out.
- Command-line flags, the home directory lookup, the page download, file
  creation and writing, and all console output are left out, because they
  are I/O.
- Strings are sequences of characters where Go uses bytes. No rule here
  depends on multi-byte characters.
- An index out of range, which makes Go panic, is a precondition here.
  Examples are `ImageArgs` and the non-empty list `StylesheetRef` needs. The
  patterns guarantee these conditions.
- Inline.SingleFile takes each pass's matches as found in the previous
  pass's output, not by re-running a pattern. sfd.go's main is its
  `StopAtAbsent` / `AsWritten` instance, and the corrected pipeline is its
  `BlankAbsent` / `Corrected` instance.
- Inline.SingleFile is a ghost function, because its contract quantifies
  over all URLs.
- Paths.ResolveReference: `.` and `..` segments are not removed, and
  neither sfd.go nor this model does so.

## Findings

| source | as written | input that shows it | evidently intended | confidence | as-written member | corrected member |
|---|---|---|---|---|---|---|
| sfd.go:170-174 | The group loop stops at the first absent group. In the stylesheet pattern's second alternative (href before rel), group 2 is absent, so the list is [tag, attribute text]. The last non-empty item is then the whole attribute text, not the href. | `<link href="a.css" rel="stylesheet">`: the callback fetches a URL ending in `href="a.css" rel="stylesheet"` | resolve the href value (group 3), as when absent groups are padded with "" | high; not executed | Inline.StylesheetRefHrefFirstAsWritten | Inline.StylesheetRefHrefFirstCorrected |
| sfd.go:59-60 | A document-relative reference is appended to the whole page path. | page `http://h.com` with `a.png` gives `http://h.coma.png`; page path `/d/i.htm` gives `/d/i.htma.png` | merge with the directory of the page path (section 5.2.3 of RFC 3986): `http://h.com/a.png`, `/d/a.png` | high; not executed | Paths.ResolveEmptyPathExample | Paths.ResolveReference |
