/** Static files: the allow-list of roots a resolved path must fall under,
    and the answer built from a file read (src/server.js:10-27, 44-60,
    135-141). */
module StaticFiles {

  import opened Http
  import opened Strings

  /** The extension table `mimeTypes`. */
  const MimeTypes: map<string, string> := map[
    ".ico" := "image/x-icon",
    ".html" := "text/html",
    ".ttf" := "font/ttf",
    ".js" := "application/javascript",
    ".css" := "text/css",
    ".txt" := "text/plain"
  ]

  const OctetStream := "application/octet-stream"
  const ImmutableCache := "public, max-age=31536000, immutable"
  const ForbiddenPath := Response(403, TextPlain, None, Text("Forbidden"))

  /** The table's type for the extension, or `application/octet-stream`
      when the extension is not in the table (src/server.js:51-52). */
  function ContentType(ext: string): (t: string)
    ensures t != ""
    ensures ext in MimeTypes ==> t == MimeTypes[ext]
    ensures t == OctetStream <==> ext !in MimeTypes
  {
    if ext in MimeTypes && MimeTypes[ext] != "" then MimeTypes[ext] else OctetStream
  }

  /** isPathAllowed as the source writes it: some root is a string prefix
      of the resolved path. */
  predicate IsPathAllowedAsWritten(roots: seq<string>, resolved: string) {
    exists i :: 0 <= i < |roots| && roots[i] <= resolved
  }

  /** `resolved` is the directory `root` itself or lies inside it: the
      prefix ends where a path component ends. */
  predicate IsWithin(root: string, resolved: string) {
    root <= resolved
    && (|resolved| == |root| || resolved[|root|] == '/' || (root != [] && root[|root| - 1] == '/'))
  }

  /** The allow-list check the path-traversal defence needs: the resolved
      path lies inside one of the roots. */
  predicate IsPathAllowed(roots: seq<string>, resolved: string) {
    exists i :: 0 <= i < |roots| && IsWithin(roots[i], resolved)
  }

  /** The check as written admits a sibling directory whose name extends
      the last component of a root; the corrected check refuses it. */
  lemma SiblingDirectoryAdmitted(roots: seq<string>, resolved: string)
    requires roots == ["/srv/app/public", "/srv/app"] && resolved == "/srv/app-old/secret.txt"
    ensures IsPathAllowedAsWritten(roots, resolved)
    ensures !IsPathAllowed(roots, resolved)
  {
    assert roots[1] <= resolved by {
      assert resolved[..|roots[1]|] == roots[1];
    }
    assert !(roots[0] <= resolved) by {
      assert roots[0][8] != resolved[8];
    }
    assert resolved[|roots[1]|] == '-';
  }

  /** The corrected check never admits more than the check as written. */
  lemma WithinIsStricter(roots: seq<string>, resolved: string)
    requires IsPathAllowed(roots, resolved)
    ensures IsPathAllowedAsWritten(roots, resolved)
  {
  }

  /** For a root without a trailing slash, lying inside it means that its
      components are the first components of the path. */
  lemma WithinIffComponents(root: string, resolved: string)
    requires root != [] && root[|root| - 1] != '/'
    ensures IsWithin(root, resolved) <==> Split(root, '/') <= Split(resolved, '/')
  {
    if IsWithin(root, resolved) {
      WithinGivesComponents(root, resolved);
    }
    if Split(root, '/') <= Split(resolved, '/') {
      ComponentsGiveWithin(root, resolved);
    }
  }

  lemma WithinGivesComponents(root: string, resolved: string)
    requires root != [] && root[|root| - 1] != '/' && IsWithin(root, resolved)
    ensures Split(root, '/') <= Split(resolved, '/')
  {
    if |resolved| == |root| {
      assert resolved == root;
    } else {
      var rest := resolved[|root| + 1..];
      assert resolved == root + ['/'] + rest;
      SplitAtSep(root, rest, '/');
    }
  }

  lemma ComponentsGiveWithin(root: string, resolved: string)
    requires Split(root, '/') <= Split(resolved, '/')
    ensures IsWithin(root, resolved)
  {
    var rc, pc := Split(root, '/'), Split(resolved, '/');
    var tail := pc[|rc|..];
    assert pc == rc + tail;
    if tail == [] {
      assert pc == rc;
      assert resolved == root;
    } else {
      JoinAppend(rc, tail, '/');
      assert resolved == root + ['/'] + Join(tail, '/');
    }
  }

  /** The handler's static branch as the source writes it: a path outside
      the roots (by the prefix test of `isPathAllowed`) is refused without
      being read; a readable file is sent with its type and a far-future
      cache header, an unreadable one gives 404. */
  function StaticAnswer(roots: seq<string>, resolved: string, ext: string, read: ReadResult<seq<byte>>): (r: Response)
    ensures r.status == 403 <==> !IsPathAllowedAsWritten(roots, resolved)
    ensures r.status == 403 ==> r == ForbiddenPath
    ensures r.status == 200 <==> IsPathAllowedAsWritten(roots, resolved) && read.Read?
    ensures r.status == 200 ==>
      read.Read? && r == Response(200, ContentType(ext), Some(ImmutableCache), Bytes(read.data))
    ensures r.status != 200 && r.status != 403 ==> r == NotFound
    ensures r.cacheControl.Some? <==> r.status == 200
  {
    if !IsPathAllowedAsWritten(roots, resolved) then ForbiddenPath
    else
      match read
      case ReadError => NotFound
      case Read(data) => Response(200, ContentType(ext), Some(ImmutableCache), Bytes(data))
  }

  /** The same branch with the corrected allow-list: it refuses exactly the
      paths outside every root, and otherwise answers as the source does. */
  function CorrectedStaticAnswer(roots: seq<string>, resolved: string, ext: string, read: ReadResult<seq<byte>>): (r: Response)
    ensures r.status == 403 <==> !IsPathAllowed(roots, resolved)
    ensures !IsPathAllowed(roots, resolved) ==> r == ForbiddenPath
    ensures IsPathAllowed(roots, resolved) ==> r == StaticAnswer(roots, resolved, ext, read)
  {
    if !IsPathAllowed(roots, resolved) then ForbiddenPath
    else
      WithinIsStricter(roots, resolved);
      StaticAnswer(roots, resolved, ext, read)
  }

  /** The sibling directory of the finding: the source sends the file; the
      corrected branch refuses it. */
  lemma SiblingFileServed(roots: seq<string>, resolved: string, ext: string, data: seq<byte>)
    requires roots == ["/srv/app/public", "/srv/app"] && resolved == "/srv/app-old/secret.txt"
    ensures StaticAnswer(roots, resolved, ext, Read(data)).status == 200
    ensures CorrectedStaticAnswer(roots, resolved, ext, Read(data)) == ForbiddenPath
  {
    SiblingDirectoryAdmitted(roots, resolved);
  }

  /** A refused path gets the same answer whatever the file system holds. */
  lemma RefusedIgnoresFiles(roots: seq<string>, resolved: string, ext: string, a: ReadResult<seq<byte>>, b: ReadResult<seq<byte>>)
    requires !IsPathAllowedAsWritten(roots, resolved)
    ensures StaticAnswer(roots, resolved, ext, a) == StaticAnswer(roots, resolved, ext, b) == ForbiddenPath
  {
  }
}
