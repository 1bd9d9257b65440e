/**
 * The request router of sendfile-fcgi.c: `sendfile_request` (:238-270),
 * `fcgi_request` (:272-284) and the 400 fallback of `main` (:290-292).
 *
 * The FastCGI parameters of a request are a map from name to value; a value
 * is read as the C string it holds, as `FCGX_GetParam` hands it out. What the
 * request writes to its output stream is a `Reply`: the bytes of the header
 * block, or, in a build without NDEBUG, the debug dump whose text is not
 * modelled.
 */
module Router {
  import opened Wrappers
  import opened CStrings
  import opened Decoder
  import opened Response
  import opened Query

  type Params = map<string, string>

  /** `fcgi_getenv`: the parameter's C string, or None (NULL) when it is absent. */
  function Param(env: Params, name: string): (r: Option<string>)
    ensures r.Some? <==> name in env
    ensures r.Some? ==> NUL !in r.value
  {
    if name in env then Some(CStr(env[name])) else None
  }

  /**
   * The query `sendfile_request` works on (:240-254): QUERY_STRING when it is
   * present and not empty, else the text after the first '?' of REQUEST_URI,
   * which must not be empty.
   */
  function QueryOf(env: Params): Option<string>
  {
    var qs := Param(env, "QUERY_STRING");
    if qs.Some? && qs.value != [] then qs
    else
      match Param(env, "REQUEST_URI")
      case None => None
      case Some(uri) =>
        var i := Find(uri, '?');
        if i == |uri| || i + 1 == |uri| then None else Some(uri[i + 1..])
  }

  /** What the host does for the router: the filesystem and whether `strdup` fails. */
  datatype Host = Host(fs: FileSystem, strdupFails: bool)

  /** What a request writes: a header block, or the debug dump for this query. */
  datatype Reply = Headers(text: string) | DebugDump(query: string)

  /**
   * `sendfile_request`: None where it returns false. In a debug build a query
   * that the dispatcher turns down is dumped instead, and the dump returns
   * true (:260-265).
   */
  function SendfileRequest(env: Params, host: Host, debug: bool): Option<Reply>
  {
    match QueryOf(env)
    case None => None
    case Some(q) =>
      if host.strdupFails then None
      else
        match QueryResponse(q, host.fs)
        case Some(text) => Some(Headers(text))
        case None => if debug then Some(DebugDump(q)) else None
  }

  /** `fcgi_request`: only SCRIPT_NAME "/sendfile/" is routed (:276-283). */
  function FcgiRequest(env: Params, host: Host, debug: bool): Option<Reply>
  {
    if Param(env, "SCRIPT_NAME") == Some("/sendfile/") then SendfileRequest(env, host, debug) else None
  }

  /** One round of `main`'s accept loop: a request turned down gets a 400 block (:291-292). */
  function Serve(env: Params, host: Host, debug: bool): Reply
  {
    match FcgiRequest(env, host, debug)
    case Some(reply) => reply
    case None => Headers(StatusBlock(BadRequest))
  }

  // ---------------------------------------------------------------------------
  // Properties of the router
  // ---------------------------------------------------------------------------

  /** A non-empty QUERY_STRING is the query. */
  lemma QueryFromQueryString(env: Params)
    requires "QUERY_STRING" in env && CStr(env["QUERY_STRING"]) != []
    ensures QueryOf(env) == Some(CStr(env["QUERY_STRING"]))
  {
  }

  /**
   * Without a non-empty QUERY_STRING the query is exactly the non-empty text
   * after the first '?' of REQUEST_URI, in both directions.
   */
  lemma QueryFromRequestUri(env: Params, x: string)
    requires "QUERY_STRING" !in env || CStr(env["QUERY_STRING"]) == []
    ensures QueryOf(env) == Some(x) <==>
              "REQUEST_URI" in env && x != [] &&
              exists pre :: '?' !in pre && CStr(env["REQUEST_URI"]) == pre + "?" + x
  {
    if QueryOf(env) == Some(x) {
      QueryIsAfterMark(env, x);
    }
    forall pre | "REQUEST_URI" in env && x != [] && '?' !in pre && CStr(env["REQUEST_URI"]) == pre + "?" + x
      ensures QueryOf(env) == Some(x)
    {
      MarkThenQuery(env, pre, x);
    }
  }

  /** A query taken from REQUEST_URI is the non-empty text after its first '?'. */
  lemma QueryIsAfterMark(env: Params, x: string)
    requires "QUERY_STRING" !in env || CStr(env["QUERY_STRING"]) == []
    requires QueryOf(env) == Some(x)
    ensures "REQUEST_URI" in env && x != []
    ensures var uri := CStr(env["REQUEST_URI"]);
            var pre := uri[..Find(uri, '?')];
            '?' !in pre && uri == pre + "?" + x
  {
    var uri := CStr(env["REQUEST_URI"]);
    var i := Find(uri, '?');
    assert uri == uri[..i] + "?" + x;
  }

  /** The text after the first '?' of REQUEST_URI is the query, when it is not empty. */
  lemma MarkThenQuery(env: Params, pre: string, x: string)
    requires "QUERY_STRING" !in env || CStr(env["QUERY_STRING"]) == []
    requires "REQUEST_URI" in env && x != [] && '?' !in pre && CStr(env["REQUEST_URI"]) == pre + "?" + x
    ensures QueryOf(env) == Some(x)
  {
    AfterMark(pre, x);
    assert Param(env, "REQUEST_URI") == Some(pre + "?" + x);
  }

  /** In `pre?x`, with no '?' in `pre`, the first '?' is the one after `pre`, and `x` follows it. */
  lemma AfterMark(pre: string, x: string)
    requires '?' !in pre
    ensures Find(pre + "?" + x, '?') == |pre|
    ensures (pre + "?" + x)[|pre| + 1..] == x
  {
    FindIs("?" + x, '?', 0);
    FindPrefix(pre, "?" + x, '?');
    assert pre + "?" + x == pre + ("?" + x);
  }

  /** A request for any other script, or with no SCRIPT_NAME, is answered with the 400 block. */
  lemma OtherRouteIsBadRequest(env: Params, host: Host, debug: bool)
    requires Param(env, "SCRIPT_NAME") != Some("/sendfile/")
    ensures Serve(env, host, debug) == Headers("Status: 400 Bad Request\r\n\r\n")
  {
    BadRequestBlock();
  }

  /** A request without a query, or whose copy fails, is answered with the 400 block in every build. */
  lemma NoQueryIsBadRequest(env: Params, host: Host, debug: bool)
    requires QueryOf(env).None? || host.strdupFails
    ensures Serve(env, host, debug) == Headers("Status: 400 Bad Request\r\n\r\n")
  {
    BadRequestBlock();
  }

  /**
   * In a release build a routed query that the dispatcher turns down is
   * answered with the 400 block, as is a request whose copy fails.
   */
  lemma RefusedQueryIsBadRequest(env: Params, host: Host)
    ensures Param(env, "SCRIPT_NAME") == Some("/sendfile/") && QueryOf(env).Some? &&
            (host.strdupFails || QueryResponse(QueryOf(env).value, host.fs).None?) ==>
              Serve(env, host, false) == Headers("Status: 400 Bad Request\r\n\r\n")
  {
    BadRequestBlock();
  }

  /**
   * In a debug build a routed query the dispatcher turns down is dumped
   * instead of refused; a release build never dumps.
   */
  lemma DebugDumpsRefusedQueries(env: Params, host: Host)
    ensures Serve(env, host, false).Headers?
    ensures Serve(env, host, true).DebugDump? <==>
              Param(env, "SCRIPT_NAME") == Some("/sendfile/") && QueryOf(env).Some? &&
              !host.strdupFails && QueryResponse(QueryOf(env).value, host.fs).None?
    ensures Serve(env, host, true).DebugDump? ==> Serve(env, host, true).query == QueryOf(env).value
  {
  }

  /**
   * A release build writes exactly one header block per request: the 400
   * block when the request is turned down, otherwise the response of
   * `sendfile_filename` for the path the query names. That block parses as
   * one block unless the served path holds a CR.
   */
  lemma OneBlockPerRequest(env: Params, host: Host)
    ensures Serve(env, host, false).Headers?
    ensures var text := Serve(env, host, false).text;
            text == StatusBlock(BadRequest) ||
            exists path :: path != [] && text == SendfileFilename(path, host.fs)
    ensures var text := Serve(env, host, false).text;
            ParseBlock(text).Some? ||
            exists path :: '\r' in path && text == SendfileFilename(path, host.fs)
  {
    var text := Serve(env, host, false).text;
    StatusBlockParses(BadRequest);
    if FcgiRequest(env, host, false).Some? {
      var q := QueryOf(env).value;
      AnswerIsDelivery(q, host.fs);
      var path :| path != [] && text == SendfileFilename(path, host.fs);
      if '\r' !in path {
        RenderParses(path, host.fs);
      }
    }
  }

  /** A routed request whose query the dispatcher answers gets that answer, in either build. */
  lemma Routed(env: Params, host: Host, debug: bool)
    ensures Param(env, "SCRIPT_NAME") == Some("/sendfile/") && QueryOf(env).Some? && !host.strdupFails &&
            QueryResponse(QueryOf(env).value, host.fs).Some? ==>
              Serve(env, host, debug) == Headers(QueryResponse(QueryOf(env).value, host.fs).value)
  {
  }

  /**
   * The way through the whole program: a request for "/sendfile/" whose
   * QUERY_STRING is `filename=<path>`, for a non-empty path of plain
   * characters, is answered with the response of `sendfile_filename` for
   * that path, in either build.
   */
  lemma ServesPlainFilename(env: Params, host: Host, debug: bool, path: string)
    requires "SCRIPT_NAME" in env && env["SCRIPT_NAME"] == "/sendfile/"
    requires "QUERY_STRING" in env && env["QUERY_STRING"] == "filename=" + path
    requires path != [] && forall i :: 0 <= i < |path| ==> Plain(path[i])
    requires !host.strdupFails
    ensures Serve(env, host, debug) == Headers(SendfileFilename(path, host.fs))
  {
    PlainRequest(env, path);
    PlainFilenameQuery(path, host.fs);
    Routed(env, host, debug);
  }

  /** Such a request is routed to `/sendfile/`, and its query is `filename=<path>`. */
  lemma PlainRequest(env: Params, path: string)
    requires "SCRIPT_NAME" in env && env["SCRIPT_NAME"] == "/sendfile/"
    requires "QUERY_STRING" in env && env["QUERY_STRING"] == "filename=" + path
    requires forall i :: 0 <= i < |path| ==> Plain(path[i])
    ensures Param(env, "SCRIPT_NAME") == Some("/sendfile/")
    ensures QueryOf(env) == Some("filename=" + path)
  {
    assert NUL !in "/sendfile/";
    assert NUL !in "filename=" + path by {
      assert forall i :: 0 <= i < |"filename=" + path| ==> ("filename=" + path)[i] != NUL;
    }
    QueryFromQueryString(env);
  }
}
