/** The one-time API keys: a process-wide map from key to `{used}`, filled
    when the client script is served and emptied, key by key, when the API
    endpoint is called (src/server.js:8, 63-89). */
module ApiKeys {

  import opened Http
  import Markup

  /** The value stored under a key. */
  datatype KeyEntry = KeyEntry(used: bool)

  type Store = map<string, KeyEntry>

  /** A digit of `Number.prototype.toString(16)` for a value below 16. */
  predicate IsHexDigit(c: char) {
    '0' <= c <= '9' || 'a' <= c <= 'f'
  }

  /** The shape of a generated key: 32 lower-case hexadecimal digits. */
  predicate IsApiKey(key: string) {
    |key| == 32 && forall i :: 0 <= i < |key| ==> IsHexDigit(key[i])
  }

  /** The store invariant: the only write stores `{used: false}` and no code
      ever sets `used`, so every entry is unused. */
  predicate AllUnused(s: Store) {
    forall k :: k in s ==> !s[k].used
  }

  /** JavaScript truthiness of the `x-api-key` header: present and not empty. */
  predicate Truthy(header: Option<string>) {
    header.Some? && header.value != ""
  }

  /** The negation of the rejection test of serveApiRequest. */
  predicate Authorizes(s: Store, header: Option<string>) {
    Truthy(header) && header.value in s && !s[header.value].used
  }

  /** Under the invariant the `used` flag decides nothing: a key authorizes
      exactly when it is non-empty and present. */
  lemma AuthorizesIffPresent(s: Store, header: Option<string>)
    requires AllUnused(s)
    ensures Authorizes(s, header) <==> Truthy(header) && header.value in s
  {
  }

  const ForbiddenKeyBody := "Forbidden: Invalid or used API key"
  const ForbiddenKey := Response(403, TextPlain, None, Text(ForbiddenKeyBody))
  const HtmlType := "text/html"
  const ScriptType := "application/javascript"

  /** Stores `key` as unused, replacing any entry it had (src/server.js:65). */
  function Remember(s: Store, key: string): (t: Store)
    ensures key in t && !t[key].used
    ensures forall k :: k != key ==> (k in t <==> k in s)
    ensures forall k :: k != key && k in s ==> t[k] == s[k]
    ensures AllUnused(s) ==> AllUnused(t)
  {
    s[key := KeyEntry(false)]
  }

  /** `apiKeys.delete(apiKey)`: removes the presented key, if any; a missing
      header or an absent key leaves the store as it was. */
  function Forget(s: Store, header: Option<string>): (t: Store)
    ensures forall k :: k in t <==> k in s && header != Some(k)
    ensures forall k :: k in t ==> t[k] == s[k]
    ensures header.Some? && header.value !in s ==> t == s
    ensures AllUnused(s) ==> AllUnused(t)
  {
    if header.Some? then s - {header.value} else s
  }

  /** The answer of serveApiRequest for the store as it was on entry. */
  function ApiAnswer(s: Store, header: Option<string>, ip: string): (r: Response)
    ensures r.status == 200 <==> Authorizes(s, header)
    ensures r.status == 200 ==>
      r.contentType == HtmlType && r.cacheControl == None && r.body == Text(Markup.WrapChars(ip))
    ensures r.status != 200 ==> r == ForbiddenKey
  {
    if !Truthy(header) || header.value !in s || s[header.value].used then ForbiddenKey
    else Response(200, HtmlType, None, Text(Markup.WrapChars(ip)))
  }

  const KeyPrefix := "window.__API_KEY__ = '"
  const KeySuffix := "';\n"

  /** The answer of serveClientScript: the key assigned to a global, then the
      script, or 404 when the script cannot be read. */
  function ScriptAnswer(key: string, script: ReadResult<string>): (r: Response)
    ensures r.status == 200 <==> script.Read?
    ensures script.ReadError? ==> r == NotFound
    ensures script.Read? ==>
      r.contentType == ScriptType && r.cacheControl == None && r.body == Text(KeyPrefix + key + KeySuffix + script.data)
    ensures script.Read? && IsApiKey(key) ==> InjectedKey(r.body.text) == Some(key)
  {
    match script
    case ReadError => NotFound
    case Read(content) =>
      var text := KeyPrefix + key + KeySuffix + content;
      ReadKeyBack(key, content);
      Response(200, ScriptType, None, Text(text))
  }

  /** What the browser binds to `window.__API_KEY__`: the characters between
      the opening quote and the next quote, if the script starts with the
      assignment. */
  function InjectedKey(text: string): Option<string> {
    if |text| >= |KeyPrefix| && text[..|KeyPrefix|] == KeyPrefix
    then UpToQuote(text[|KeyPrefix|..])
    else None
  }

  /** The prefix of `s` before its first `'`, or None when there is none. */
  function UpToQuote(s: string): (r: Option<string>)
    ensures r.Some? ==> |r.value| < |s| && r.value == s[..|r.value|] && s[|r.value|] == '\''
    ensures r.Some? ==> '\'' !in r.value
    decreases |s|
  {
    if s == [] then None
    else if s[0] == '\'' then Some([])
    else
      match UpToQuote(s[1..])
      case None => None
      case Some(p) => Some([s[0]] + p)
  }

  /** A quote-free key followed by a quote reads back as itself. */
  lemma {:induction false} UpToQuoteOf(key: string, rest: string)
    requires '\'' !in key
    ensures UpToQuote(key + ['\''] + rest) == Some(key)
    decreases |key|
  {
    var s := key + ['\''] + rest;
    if key != [] {
      assert s[1..] == key[1..] + ['\''] + rest;
      UpToQuoteOf(key[1..], rest);
      assert [key[0]] + key[1..] == key;
    }
  }

  /** The script text of a served key starts with an assignment of that key. */
  lemma ReadKeyBack(key: string, content: string)
    ensures IsApiKey(key) ==> InjectedKey(KeyPrefix + key + KeySuffix + content) == Some(key)
  {
    if IsApiKey(key) {
      var text := KeyPrefix + key + KeySuffix + content;
      assert '\'' !in key by {
        forall i | 0 <= i < |key| ensures key[i] != '\'' {
          assert IsHexDigit(key[i]);
        }
      }
      assert text[..|KeyPrefix|] == KeyPrefix;
      assert text[|KeyPrefix|..] == key + ['\''] + (";\n" + content);
      UpToQuoteOf(key, ";\n" + content);
    }
  }

  /** The process-wide store `apiKeys` with its two handlers. */
  class ApiKeyStore {
    var keys: Store

    ghost predicate Valid()
      reads this
    {
      AllUnused(keys)
    }

    constructor ()
      ensures Valid() && keys == map[]
    {
      keys := map[];
    }

    /** serveClientScript: the key is stored before, and whatever the
        outcome of, reading the script; `key` stands for the random digits
        of line 64. */
    method ServeClientScript(key: string, script: ReadResult<string>) returns (r: Response)
      requires Valid() && IsApiKey(key)
      modifies this
      ensures Valid()
      ensures keys == Remember(old(keys), key)
      ensures r == ScriptAnswer(key, script)
    {
      keys := keys[key := KeyEntry(false)];
      r := ScriptAnswer(key, script);
    }

    /** serveApiRequest: answer from the store as found, then delete the
        presented key whatever the answer was. */
    method ServeApiRequest(header: Option<string>, ip: string) returns (r: Response)
      requires Valid()
      modifies this
      ensures Valid()
      ensures r == ApiAnswer(old(keys), header, ip)
      ensures keys == Forget(old(keys), header)
    {
      r := ApiAnswer(keys, header, ip);
      if header.Some? {
        keys := keys - {header.value};
      }
    }
  }

  /** One call into the store: fetching the client script with the key it
      generates, or calling the API with a header value and an address. */
  datatype Call =
    | ScriptCall(key: string, script: ReadResult<string>)
    | ApiCall(header: Option<string>, ip: string)

  function Answer(s: Store, c: Call): Response {
    match c
    case ScriptCall(key, script) => ScriptAnswer(key, script)
    case ApiCall(header, ip) => ApiAnswer(s, header, ip)
  }

  function After(s: Store, c: Call): Store {
    match c
    case ScriptCall(key, _) => Remember(s, key)
    case ApiCall(header, _) => Forget(s, header)
  }

  /** The store after a sequence of calls; the invariant survives any sequence. */
  function Final(s: Store, calls: seq<Call>): (t: Store)
    ensures AllUnused(s) ==> AllUnused(t)
    decreases |calls|
  {
    if calls == [] then s else Final(After(s, calls[0]), calls[1..])
  }

  /** The call is an API call presenting `key`. */
  predicate Presents(c: Call, key: string) {
    c.ApiCall? && c.header == Some(key)
  }

  /** How many calls presenting `key` were answered 200. */
  function Successes(s: Store, calls: seq<Call>, key: string): nat
    decreases |calls|
  {
    if calls == [] then 0
    else
      var hit := Presents(calls[0], key) && Answer(s, calls[0]).status == 200;
      (if hit then 1 else 0) + Successes(After(s, calls[0]), calls[1..], key)
  }

  /** A key authorizes at most one successful answer, and none at all unless
      it was in the store, however calls are interleaved, as long as the same
      key is not handed out again. */
  lemma {:induction false} AtMostOneSuccess(s: Store, calls: seq<Call>, key: string)
    requires forall i :: 0 <= i < |calls| && calls[i].ScriptCall? ==> calls[i].key != key
    ensures Successes(s, calls, key) <= if key in s then 1 else 0
    decreases |calls|
  {
    if calls != [] {
      var c := calls[0];
      var t := After(s, c);
      assert forall i :: 0 <= i < |calls[1..]| && calls[1..][i].ScriptCall? ==> calls[1..][i].key != key by {
        forall i | 0 <= i < |calls[1..]| && calls[1..][i].ScriptCall?
          ensures calls[1..][i].key != key
        {
          assert calls[1..][i] == calls[i + 1];
        }
      }
      AtMostOneSuccess(t, calls[1..], key);
      if Presents(c, key) {
        assert key !in t;
      } else {
        assert key in t ==> key in s;
        if Answer(s, c).status == 200 && c.ApiCall? {
          assert c.header != Some(key);
        }
      }
    }
  }

  /** A key that is in the store and is not handed out again gets exactly
      one 200 answer in any sequence of calls that presents it at least once:
      the first call that presents it succeeds, wherever that call comes. */
  lemma {:induction false} ExactlyOneSuccess(s: Store, calls: seq<Call>, key: string)
    requires AllUnused(s) && key in s && key != ""
    requires forall i :: 0 <= i < |calls| && calls[i].ScriptCall? ==> calls[i].key != key
    requires exists i :: 0 <= i < |calls| && Presents(calls[i], key)
    ensures Successes(s, calls, key) == 1
    decreases |calls|
  {
    var c := calls[0];
    var t := After(s, c);
    var rest := calls[1..];
    assert forall i :: 0 <= i < |rest| && rest[i].ScriptCall? ==> rest[i].key != key by {
      forall i | 0 <= i < |rest| && rest[i].ScriptCall?
        ensures rest[i].key != key
      {
        assert rest[i] == calls[i + 1];
      }
    }
    if Presents(c, key) {
      assert Answer(s, c).status == 200;
      AtMostOneSuccess(t, rest, key);
    } else {
      var i :| 0 <= i < |calls| && Presents(calls[i], key);
      assert i != 0;
      assert Presents(rest[i - 1], key);
      assert key in t;
      ExactlyOneSuccess(t, rest, key);
    }
  }

  /** A freshly issued key is good for one answer, showing the address cell
      by cell, and the same key is then refused. */
  lemma IssueThenConsumeTwice(s: Store, key: string, script: ReadResult<string>, ip: string, ip2: string)
    requires IsApiKey(key)
    ensures var s1 := After(s, ScriptCall(key, script));
            var s2 := After(s1, ApiCall(Some(key), ip));
            Answer(s1, ApiCall(Some(key), ip)) == Response(200, HtmlType, None, Text(Markup.WrapChars(ip)))
            && key !in s2
            && Answer(s2, ApiCall(Some(key), ip2)) == ForbiddenKey
  {
  }

  /** Two keys issued one after the other are each good for one answer,
      in either order of use. */
  lemma TwoKeysIndependent(s: Store, k1: string, k2: string, ip: string)
    requires IsApiKey(k1) && IsApiKey(k2) && k1 != k2
    ensures var s2 := Remember(Remember(s, k1), k2);
            var s3 := Forget(s2, Some(k1));
            ApiAnswer(s2, Some(k1), ip).status == 200
            && ApiAnswer(s3, Some(k2), ip).status == 200
            && ApiAnswer(Forget(s3, Some(k2)), Some(k1), ip) == ForbiddenKey
            && ApiAnswer(Forget(s3, Some(k2)), Some(k2), ip) == ForbiddenKey
  {
  }

  /** A missing, empty or never-issued key is refused and changes nothing. */
  lemma UnknownKeyRefused(s: Store, header: Option<string>, ip: string)
    requires header.None? || header == Some("") || header.value !in s
    ensures ApiAnswer(s, header, ip) == ForbiddenKey
    ensures header != Some("") ==> Forget(s, header) == s
  {
  }
}
