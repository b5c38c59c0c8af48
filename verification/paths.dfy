/** Resolving the references found in a page against the page's own URL
    (MakeAbsolutePath of sfd.go and the leading-slash rule every callback
    applies before calling it), and the name of the output file. */
module Paths {
  import opened Text

  /** The parts of the parsed page URL that sfd.go uses. */
  datatype Location = Location(scheme: string, host: string, path: string)

  /** The reference already names a scheme sfd.go fetches directly. */
  predicate IsAbsolute(s: string) {
    StartsWith(s, "http:") || StartsWith(s, "https:")
  }

  /** The callbacks' rule: a reference is relative to the page's path unless
      it begins with "/", in which case it is relative to the host. */
  predicate IsRelative(s: string) {
    !StartsWith(s, "/")
  }

  /** scheme + "://" + host, the part every resolved reference starts with. */
  function Origin(u: Location): string {
    u.scheme + "://" + u.host
  }

  function MakeAbsolutePath(u: Location, s: string, isRelative: bool): (r: string)
    ensures IsAbsolute(s) ==> r == s
    ensures !IsAbsolute(s) ==> StartsWith(r, Origin(u))
    ensures EndsWith(r, s)
    ensures !IsAbsolute(s) ==> r == Origin(u) + (if isRelative then u.path else "") + s
  {
    if IsAbsolute(s) then s
    else
      var r := if isRelative then Origin(u) + u.path + s else Origin(u) + s;
      StartsWithExtended(Origin(u), Origin(u), if isRelative then u.path + s else s);
      assert isRelative ==> r == Origin(u) + (u.path + s);
      EndsWithAppended(if isRelative then Origin(u) + u.path else Origin(u), s);
      r
  }

  /** How every callback resolves a reference: MakeAbsolutePath with the
      flag set exactly when the reference does not begin with "/". */
  function Resolve(u: Location, s: string): (r: string)
    ensures IsAbsolute(s) ==> r == s
    ensures !IsAbsolute(s) && StartsWith(s, "/") ==> r == Origin(u) + s
    ensures !IsAbsolute(s) && !StartsWith(s, "/") ==> r == Origin(u) + u.path + s
  {
    MakeAbsolutePath(u, s, IsRelative(s))
  }

  /** An absolute reference comes back unchanged, whatever the flag says. */
  lemma AbsoluteIgnoresFlag(u: Location, s: string)
    requires IsAbsolute(s)
    ensures MakeAbsolutePath(u, s, true) == s && MakeAbsolutePath(u, s, false) == s
  {
  }

  /** A host-relative reference ("/img/a.png") is appended to the origin. */
  lemma ResolveHostRelative(u: Location, s: string)
    requires StartsWith(s, "/")
    ensures Resolve(u, s) == u.scheme + "://" + u.host + s
  {
    assert s[0] == '/';
    assert !StartsWith(s, "http:") && !StartsWith(s, "https:");
  }

  /** A document-relative reference ("a.png") is appended to the page path,
      with no normalisation of "." or ".." segments. */
  lemma ResolveDocumentRelative(u: Location, s: string)
    requires !StartsWith(s, "/") && !IsAbsolute(s)
    ensures Resolve(u, s) == u.scheme + "://" + u.host + u.path + s
  {
  }

  /** When the page itself was fetched over http or https, every resolved
      reference is absolute, so resolving it again changes nothing. */
  lemma ResolveIdempotent(u: Location, s: string)
    requires u.scheme == "http" || u.scheme == "https"
    ensures IsAbsolute(Resolve(u, s))
    ensures Resolve(u, Resolve(u, s)) == Resolve(u, s)
  {
    if !IsAbsolute(s) {
      var r := Resolve(u, s);
      var p := u.scheme + ":";
      assert Origin(u) == p + ("//" + u.host);
      StartsWithExtended(p, p, "//" + u.host);
      assert r[..|p|] == Origin(u)[..|p|];
      if u.scheme == "http" {
        assert StartsWith(r, "http:");
      } else {
        assert StartsWith(r, "https:");
      }
    }
  }

  /** As written, a document-relative reference is glued to the whole page
      path. When the page's URL has an empty path the reference runs into
      the host name, and the result no longer starts with the origin
      followed by "/". */
  lemma ResolveGluesHost(u: Location, s: string)
    requires u.path == "" && |s| > 0 && !StartsWith(s, "/") && !IsAbsolute(s)
    ensures !StartsWith(Resolve(u, s), Origin(u) + "/")
  {
    var r := Resolve(u, s);
    assert r == Origin(u) + s;
    assert r[|Origin(u)|] == s[0] != '/';
  }

  /** The directory part of a URL path: everything up to and including its
      last "/", or "/" when there is none. */
  function Directory(p: string): (d: string)
    ensures |d| > 0 && d[|d| - 1] == '/'
    ensures '/' in p ==> StartsWith(p, d) && forall k :: |d| <= k < |p| ==> p[k] != '/'
    ensures '/' !in p ==> d == "/"
    ensures (p == "" || p[0] == '/') ==> d[0] == '/'
    decreases |p|
  {
    if |p| == 0 then "/"
    else if p[|p| - 1] == '/' then p
    else
      var q := p[..|p| - 1];
      assert '/' in p ==> '/' in q;
      var d := Directory(q);
      assert '/' in q ==> p[..|d|] == q[..|d|];
      d
  }

  /** The path of a URL that has a host is empty or begins with "/". */
  predicate PathRooted(u: Location) {
    u.path == "" || StartsWith(u.path, "/")
  }

  /** Resolution as evidently intended: a document-relative reference is
      merged with the directory of the page's path, as section 5.2.3 of
      RFC 3986 describes, so it never runs into the host name or the page's
      own file name. */
  function ResolveReference(u: Location, s: string): (r: string)
    ensures IsAbsolute(s) ==> r == s
    ensures !IsAbsolute(s) && !IsRelative(s) ==> r == Origin(u) + s
    ensures !IsAbsolute(s) && IsRelative(s) ==> r == Origin(u) + Directory(u.path) + s
    ensures !IsAbsolute(s) ==> EndsWith(r, s)
    ensures !IsAbsolute(s) && PathRooted(u) ==> StartsWith(r, Origin(u) + "/")
  {
    if IsAbsolute(s) then s
    else if IsRelative(s) then
      var d := Directory(u.path);
      assert Origin(u) + d + s == Origin(u) + (d + s);
      EndsWithAppended(Origin(u) + d, s);
      OriginThenRooted(u, d + s);
      Origin(u) + d + s
    else
      EndsWithAppended(Origin(u), s);
      OriginThenRooted(u, s);
      Origin(u) + s
  }

  /** A rooted path appended to the origin keeps the "/" after the host. */
  lemma OriginThenRooted(u: Location, tail: string)
    ensures |tail| > 0 && tail[0] == '/' ==> StartsWith(Origin(u) + tail, Origin(u) + "/")
  {
    if |tail| > 0 && tail[0] == '/' {
      assert (Origin(u) + tail)[..|Origin(u)| + 1] == Origin(u) + "/";
    }
  }

  /** When the page's path names a directory (ends in "/"), the intended
      resolution and sfd.go's agree. */
  lemma ResolveReferenceAgrees(u: Location, s: string)
    requires |u.path| > 0 && u.path[|u.path| - 1] == '/'
    ensures ResolveReference(u, s) == Resolve(u, s)
  {
  }

  /** A page with an empty path: sfd.go runs the reference into the host
      name ("http://h.com" + "a.png"), the intended resolution puts it under
      the root. */
  lemma ResolveEmptyPathExample()
    ensures var u, ref := Location("http", "h.com", ""), "a.png";
            && Resolve(u, ref) == Origin(u) + ref
            && !StartsWith(Resolve(u, ref), Origin(u) + "/")
            && ResolveReference(u, ref) == Origin(u) + "/" + ref
  {
    var u, ref := Location("http", "h.com", ""), "a.png";
    assert ref[0] != "http:"[0] && ref[0] != "/"[0];
    ResolveGluesHost(u, ref);
  }

  /** A page that names a file: sfd.go appends the reference to the file
      name ("/d/i.htm" + "a.png"), the intended resolution puts it beside
      the file. */
  lemma ResolveFilePathExample()
    ensures var u, ref := Location("http", "h.com", "/d/i.htm"), "a.png";
            && Resolve(u, ref) == Origin(u) + u.path + ref
            && ResolveReference(u, ref) == Origin(u) + "/d/" + ref
  {
    var u, ref := Location("http", "h.com", "/d/i.htm"), "a.png";
    assert ref[0] != "http:"[0] && ref[0] != "/"[0];
    assert !IsAbsolute(ref) && IsRelative(ref);
    FileDirectory();
    assert ResolveReference(u, ref) == Origin(u) + Directory(u.path) + ref;
  }

  /** The directory of "/d/i.htm" is "/d/". */
  lemma FileDirectory()
    ensures Directory("/d/i.htm") == "/d/"
  {
    assert "/d/i.htm"[..7] == "/d/i.ht";
    assert "/d/i.ht"[..6] == "/d/i.h";
    assert "/d/i.h"[..5] == "/d/i.";
    assert "/d/i."[..4] == "/d/i";
    assert "/d/i"[..3] == "/d/";
  }

  /** Which resolution the callbacks use: sfd.go's own (Resolve) or the
      corrected one (ResolveReference). */
  datatype Resolution = AsWritten | Corrected

  /** The two resolutions agree on absolute and host-relative references and
      both end with the reference; they differ only in what comes between
      the origin and a document-relative reference. */
  function ResolveBy(res: Resolution, u: Location, s: string): (r: string)
    ensures res == AsWritten ==> r == MakeAbsolutePath(u, s, IsRelative(s))
    ensures res == Corrected ==> r == ResolveReference(u, s)
    ensures IsAbsolute(s) ==> r == s
    ensures !IsAbsolute(s) && !IsRelative(s) ==> r == Origin(u) + s
    ensures !IsAbsolute(s) ==> StartsWith(r, Origin(u)) && EndsWith(r, s)
  {
    match res
    case AsWritten => Resolve(u, s)
    case Corrected =>
      var r := ResolveReference(u, s);
      if IsAbsolute(s) then r
      else if IsRelative(s) then
        StartsWithExtended(Origin(u), Origin(u), Directory(u.path) + s);
        assert r == Origin(u) + (Directory(u.path) + s);
        r
      else
        StartsWithExtended(Origin(u), Origin(u), s);
        r
  }

  /** strings.Replace(p, "/", "_", -1) */
  function Underscored(p: string): (r: string)
    ensures |r| == |p|
    ensures forall i :: 0 <= i < |p| ==> r[i] == (if p[i] == '/' then '_' else p[i])
    ensures '/' !in r
  {
    if |p| == 0 then ""
    else [if p[0] == '/' then '_' else p[0]] + Underscored(p[1..])
  }

  /** The output file: target + "/[" + host + "] " + path with every "/"
      turned into "_" + ".htm". */
  function TargetFileName(target: string, u: Location): (r: string)
    ensures StartsWith(r, target + "/")
    ensures EndsWith(r, ".htm")
    ensures r[|target| + 1..] == "[" + u.host + "] " + Underscored(u.path) + ".htm"
    ensures '/' !in u.host ==> '/' !in r[|target| + 1..]
  {
    var stem := "[" + u.host + "] " + Underscored(u.path);
    var leaf := stem + ".htm";
    var r := (target + "/") + leaf;
    StartsWithExtended(target + "/", target + "/", leaf);
    assert r == (target + "/" + stem) + ".htm";
    EndsWithAppended(target + "/" + stem, ".htm");
    assert r[|target| + 1..] == leaf;
    assert '/' !in u.host ==> '/' !in stem && '/' !in leaf;
    r
  }
}
