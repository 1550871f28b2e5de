/** The request handler's choice of route and the mapping of a URL path to
    a file path (src/server.js:110-133). */
module Router {

  /** A file path before `path.resolve`: a `path.join` of the server's
      directory, a fixed segment and the rest of the URL path, or a path
      relative to the working directory. */
  datatype FilePath = Joined(segment: string, rest: string) | Relative(path: string)

  datatype Route = ScriptRoute | ApiRoute | StaticRoute(file: FilePath)

  const ClientScriptPath := "/public/client.js"
  const ApiPath := "/api/ip"

  const PublicPrefix := "./public/"
  const AssetsPrefix := "./assets/"

  /** The if-chain from `'.' + pathname` to the file to serve. */
  function MapFile(pathname: string): (f: FilePath)
    ensures f.Relative? ==> f.path == "." + pathname
    ensures f.Joined? ==> f.segment in {"../public", "../assets", "../index.html", "../robots.txt"}
  {
    var dotted := "." + pathname;
    var filePath := if dotted == "./" then "./index.html" else dotted;
    if PublicPrefix <= filePath then Joined("../public", filePath[|PublicPrefix|..])
    else if AssetsPrefix <= filePath then Joined("../assets", filePath[|AssetsPrefix|..])
    else if filePath == "./index.html" then Joined("../index.html", "")
    else if filePath == "./robots.txt" then Joined("../robots.txt", "")
    else Relative(filePath)
  }

  /** The two dynamic routes are checked first; everything else is static. */
  function Classify(pathname: string): (r: Route)
    ensures r == ScriptRoute <==> pathname == ClientScriptPath
    ensures r == ApiRoute <==> pathname == ApiPath
    ensures r.StaticRoute? ==> r.file == MapFile(pathname)
  {
    if pathname == ClientScriptPath then ScriptRoute
    else if pathname == ApiPath then ApiRoute
    else StaticRoute(MapFile(pathname))
  }

  /** A leading dot turns a URL prefix into the matching file prefix. */
  lemma DottedPrefix(prefix: string, pathname: string)
    ensures ("." + prefix <= "." + pathname) <==> prefix <= pathname
  {
    var a, b := "." + prefix, "." + pathname;
    if prefix <= pathname {
      assert b[..|a|] == "." + pathname[..|prefix|];
    }
    if a <= b {
      assert pathname[..|prefix|] == b[1..|a|];
      assert a[1..] == prefix;
    }
  }

  /** Two texts that differ at a position inside both are not prefixes. */
  lemma NotPrefixAt(p: string, s: string, k: nat)
    requires k < |p| && k < |s| && p[k] != s[k]
    ensures !(p <= s)
  {
  }

  /** `/public/<rest>` is served from the public directory, except the
      client script, which the dynamic route takes first. */
  lemma PublicRule(rest: string)
    ensures MapFile("/public/" + rest) == Joined("../public", rest)
    ensures Classify("/public/" + rest) == if rest == "client.js" then ScriptRoute else StaticRoute(Joined("../public", rest))
  {
    var pathname := "/public/" + rest;
    var filePath := "." + pathname;
    assert filePath == PublicPrefix + rest;
    assert filePath[|PublicPrefix|..] == rest;
    if pathname == ClientScriptPath {
      assert rest == pathname[8..] == "client.js";
    }
    if rest == "client.js" {
      assert pathname == ClientScriptPath;
    }
  }

  /** `/assets/<rest>` is served from the assets directory. */
  lemma AssetsRule(rest: string)
    ensures MapFile("/assets/" + rest) == Joined("../assets", rest)
  {
    var filePath := "." + ("/assets/" + rest);
    assert filePath == AssetsPrefix + rest;
    NotPrefixAt(PublicPrefix, filePath, 2);
    assert filePath[|AssetsPrefix|..] == rest;
  }

  /** The site root and `/index.html` are the entry document. */
  lemma IndexFile(pathname: string)
    requires pathname == "/" || pathname == "/index.html"
    ensures MapFile(pathname) == Joined("../index.html", "")
  {
    var filePath := if "." + pathname == "./" then "./index.html" else "." + pathname;
    assert filePath == "./index.html";
    NotPrefixAt(PublicPrefix, filePath, 2);
    NotPrefixAt(AssetsPrefix, filePath, 2);
  }

  /** `/robots.txt` is the fixed robots file. */
  lemma RobotsFile(pathname: string)
    requires pathname == "/robots.txt"
    ensures MapFile(pathname) == Joined("../robots.txt", "")
  {
    var filePath := "." + pathname;
    assert filePath == "./robots.txt";
    NotPrefixAt(PublicPrefix, filePath, 2);
    NotPrefixAt(AssetsPrefix, filePath, 2);
  }

  /** Any other path stays relative to the working directory, dot-prefixed. */
  lemma OtherPathsRelative(pathname: string)
    requires !("/public/" <= pathname) && !("/assets/" <= pathname)
    requires pathname != "/" && pathname != "/index.html" && pathname != "/robots.txt"
    ensures MapFile(pathname) == Relative("." + pathname)
  {
    DottedPrefix("/public/", pathname);
    DottedPrefix("/assets/", pathname);
    assert "." + "/public/" == PublicPrefix && "." + "/assets/" == AssetsPrefix;
    var dotted := "." + pathname;
    DotCancel(pathname, "/");
    DotCancel(pathname, "/index.html");
    DotCancel(pathname, "/robots.txt");
    assert "." + "/" == "./" && "." + "/index.html" == "./index.html" && "." + "/robots.txt" == "./robots.txt";
    assert dotted != "./" && dotted != "./index.html" && dotted != "./robots.txt";
    assert !(PublicPrefix <= dotted) && !(AssetsPrefix <= dotted);
  }

  /** The leading dot can be cancelled. */
  lemma DotCancel(a: string, b: string)
    ensures "." + a == "." + b ==> a == b
  {
    if "." + a == "." + b {
      assert a == ("." + a)[1..] && b == ("." + b)[1..];
    }
  }
}
