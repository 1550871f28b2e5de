/** The request handler of `http.createServer`: it computes the caller's
    address, then sends the request to the client-script route, the API
    route or the static files (src/server.js:94-141). */
module Server {

  import opened Http
  import opened ApiKeys
  import ClientIp
  import StaticFiles
  import Router

  /** The parts of a request the handler reads. */
  datatype Request = Request(
    pathname: string,
    forwardedFor: Option<string>,
    apiKey: Option<string>,
    peer: Option<string>)

  /** What the handler learns from outside the modelled code: Node's
      `path.resolve` of a joined or relative path, `path.extname`, the two
      resolved static roots, the file system, and the client script. */
  datatype Host = Host(
    resolve: Router.FilePath -> string,
    extname: string -> string,
    roots: seq<string>,
    readFile: string -> ReadResult<seq<byte>>,
    clientScript: ReadResult<string>)

  /** One request: `freshKey` stands for the random key generated if the
      client script is asked for. */
  method Handle(store: ApiKeyStore, req: Request, host: Host, freshKey: string) returns (r: Response)
    requires store.Valid() && IsApiKey(freshKey)
    modifies store
    ensures store.Valid()
    ensures Router.Classify(req.pathname) == Router.ScriptRoute ==>
      store.keys == Remember(old(store.keys), freshKey) && r == ScriptAnswer(freshKey, host.clientScript)
    ensures Router.Classify(req.pathname) == Router.ApiRoute ==>
      var ip := ClientIp.SelectIp(req.forwardedFor, req.peer);
      store.keys == Forget(old(store.keys), req.apiKey) && r == ApiAnswer(old(store.keys), req.apiKey, ip)
    ensures Router.Classify(req.pathname).StaticRoute? ==>
      var resolved := host.resolve(Router.Classify(req.pathname).file);
      store.keys == old(store.keys)
      && r == StaticFiles.StaticAnswer(host.roots, resolved, host.extname(resolved), host.readFile(resolved))
  {
    var ip := ClientIp.SelectIp(req.forwardedFor, req.peer);
    if req.pathname == Router.ClientScriptPath {
      r := store.ServeClientScript(freshKey, host.clientScript);
      return;
    }
    if req.pathname == Router.ApiPath {
      r := store.ServeApiRequest(req.apiKey, ip);
      return;
    }
    var resolved := host.resolve(Router.MapFile(req.pathname));
    r := StaticFiles.StaticAnswer(host.roots, resolved, host.extname(resolved), host.readFile(resolved));
  }
}
