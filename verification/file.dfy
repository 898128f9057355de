/** `Model\File`: the Egnyte file-system endpoints. Each operation builds
    one request (method, URL, body) for the transport; only `download`
    looks at the response it gets back. */
module File {
  import opened Text
  import opened UrlEncoding
  import opened Http
  import Client

  /** The routes under the base URL. */
  const FsRoute: Bytes := "/fs"
  const FsDirRoute: Bytes := "/fs/"
  const ContentRoute: Bytes := "/fs-content"

  /** The JSON member names and actions of the request bodies. */
  const ActionKey: Bytes := "action"
  const DestinationKey: Bytes := "destination"
  const PermissionsKey: Bytes := "permissions"
  const AddFolder: Bytes := "add_folder"
  const MoveAction: Bytes := "move"
  const CopyAction: Bytes := "copy"

  /** The query `listFolder` appends, before `true` or `false`. */
  const ListContentQuery: Bytes := "?list_content="
  const TrueText: Bytes := "true"
  const FalseText: Bytes := "false"

  /** `rawurlencode` applied to each segment. */
  function EncodeSegments(segments: seq<Bytes>): seq<Bytes> {
    seq(|segments|, i requires 0 <= i < |segments| => RawUrlEncode(segments[i]))
  }

  /** `rawurldecode` applied to each segment. */
  function DecodeSegments(segments: seq<Bytes>): seq<Bytes> {
    seq(|segments|, i requires 0 <= i < |segments| => RawUrlDecode(segments[i]))
  }

  /** `pathEncode`: split on `/`, encode every segment, join with `/`. */
  function PathEncode(path: Bytes): Bytes {
    Implode('/', EncodeSegments(Explode('/', path)))
  }

  lemma EncodedSegmentsSlashFree(segments: seq<Bytes>)
    ensures forall i :: 0 <= i < |EncodeSegments(segments)| ==> '/' !in EncodeSegments(segments)[i]
  {
    forall i | 0 <= i < |segments| ensures '/' !in EncodeSegments(segments)[i] {
      var e := RawUrlEncode(segments[i]);
      assert forall k :: 0 <= k < |e| ==> e[k] != '/';
    }
  }

  /** `pathEncode` keeps the segment structure: the output has as many `/`
      as the input, and its i-th segment is the encoding of the input's
      i-th segment, empty segments included. */
  lemma PathEncodeStructure(path: Bytes)
    ensures Explode('/', PathEncode(path)) == EncodeSegments(Explode('/', path))
    ensures forall i :: 0 <= i < |Explode('/', path)| ==>
              Explode('/', PathEncode(path))[i] == RawUrlEncode(Explode('/', path)[i])
    ensures Count('/', PathEncode(path)) == Count('/', path)
  {
    EncodedSegmentsSlashFree(Explode('/', path));
    ExplodeImplode('/', EncodeSegments(Explode('/', path)));
  }

  lemma {:induction false} ImplodeTokens(segments: seq<Bytes>)
    requires forall i :: 0 <= i < |segments| ==> Tokens(segments[i], false)
    ensures Tokens(Implode('/', segments), true)
  {
    if |segments| == 1 {
      TokensWiden(segments[0]);
    } else if |segments| > 1 {
      ImplodeTokens(segments[1..]);
      TokensWiden(segments[0]);
      var slash: Bytes := ['/'];
      assert Tokens(slash, true) by { assert slash[1..] == []; }
      TokensAppend(segments[0], ['/'], true);
      TokensAppend(segments[0] + ['/'], Implode('/', segments[1..]), true);
    }
  }

  /** The output of `pathEncode` holds only unreserved characters, `/`, and
      `%` followed by two upper-case hex digits. */
  lemma PathEncodeAlphabet(path: Bytes)
    ensures Tokens(PathEncode(path), true)
    ensures forall i :: 0 <= i < |PathEncode(path)| ==> TokenByte(PathEncode(path), i, true)
  {
    var segments := Explode('/', path);
    forall i | 0 <= i < |segments| ensures Tokens(EncodeSegments(segments)[i], false) {
      EncodeTokens(segments[i]);
    }
    ImplodeTokens(EncodeSegments(segments));
    TokensBytes(PathEncode(path), true);
  }

  lemma {:induction false} DecodeImplode(segments: seq<Bytes>)
    ensures RawUrlDecode(Implode('/', EncodeSegments(segments))) == Implode('/', segments)
  {
    if |segments| == 1 {
      DecodeEncode(segments[0]);
    } else if |segments| > 1 {
      var encoded := EncodeSegments(segments);
      var tail := Implode('/', encoded[1..]);
      assert encoded == [encoded[0]] + encoded[1..];
      assert encoded[1..] == EncodeSegments(segments[1..]);
      ImplodeCons('/', encoded[0], encoded[1..]);
      DecodeImplode(segments[1..]);
      EncodeTokens(segments[0]);
      DecodeEncode(segments[0]);
      DecodeJoin(encoded[0], tail);
      assert segments == [segments[0]] + segments[1..];
      ImplodeCons('/', segments[0], segments[1..]);
    }
  }

  /** Decoding an encoded segment, a `/` and the rest piece by piece. */
  lemma DecodeJoin(e: Bytes, tail: Bytes)
    requires Tokens(e, false)
    ensures RawUrlDecode(e + ['/'] + tail) == RawUrlDecode(e) + ['/'] + RawUrlDecode(tail)
  {
    var rest: Bytes := ['/'] + tail;
    assert e + ['/'] + tail == e + rest;
    DecodeAppend(e, rest, false);
    DecodeLiteral(rest);
    assert rest[1..] == tail;
  }

  /** Percent-decoding gives the path back, whether each segment is decoded
      on its own or the encoded path is decoded as a whole. */
  lemma PathEncodeRoundTrip(path: Bytes)
    ensures Implode('/', DecodeSegments(Explode('/', PathEncode(path)))) == path
    ensures RawUrlDecode(PathEncode(path)) == path
  {
    var segments := Explode('/', path);
    PathEncodeStructure(path);
    forall i | 0 <= i < |segments| ensures DecodeSegments(EncodeSegments(segments))[i] == segments[i] {
      DecodeEncode(segments[i]);
    }
    assert DecodeSegments(EncodeSegments(segments)) == segments;
    ImplodeExplode('/', path);
    DecodeImplode(segments);
  }

  lemma {:induction false} ImplodeBytes(sep: Byte, parts: seq<Bytes>, c: Byte)
    requires c in Implode(sep, parts)
    ensures c == sep || exists k :: 0 <= k < |parts| && c in parts[k]
  {
    if |parts| > 1 {
      if c !in parts[0] && c != sep {
        ImplodeBytes(sep, parts[1..], c);
        var k :| 0 <= k < |parts[1..]| && c in parts[1..][k];
        assert parts[k + 1] == parts[1..][k];
      }
    }
  }

  lemma {:induction false} ExplodeBytes(sep: Byte, s: Bytes, k: nat, c: Byte)
    requires k < |Explode(sep, s)| && c in Explode(sep, s)[k]
    ensures c in s
  {
    ImplodeExplode(sep, s);
    ImplodeHolds(sep, Explode(sep, s), k, c);
  }

  lemma {:induction false} ImplodeHolds(sep: Byte, parts: seq<Bytes>, k: nat, c: Byte)
    requires k < |parts| && c in parts[k]
    ensures c in Implode(sep, parts)
  {
    if |parts| > 1 && k > 0 {
      ImplodeHolds(sep, parts[1..], k - 1, c);
    }
  }

  /** `pathEncode` leaves a path unchanged exactly when the path is made of
      unreserved characters and `/`. */
  lemma PathEncodeIdentity(path: Bytes)
    ensures PathEncode(path) == path <==> forall c :: c in path ==> Unreserved(c) || c == '/'
  {
    var segments := Explode('/', path);
    if forall c :: c in path ==> Unreserved(c) || c == '/' {
      forall i | 0 <= i < |segments| ensures EncodeSegments(segments)[i] == segments[i] {
        forall j | 0 <= j < |segments[i]| ensures Unreserved(segments[i][j]) {
          ExplodeBytes('/', path, i, segments[i][j]);
        }
        EncodeFixedPoint(segments[i]);
      }
      assert EncodeSegments(segments) == segments;
      ImplodeExplode('/', path);
    }
    if PathEncode(path) == path {
      PathEncodeStructure(path);
      forall c | c in path ensures Unreserved(c) || c == '/' {
        if c != '/' {
          ImplodeExplode('/', path);
          ImplodeBytes('/', segments, c);
          var k :| 0 <= k < |segments| && c in segments[k];
          assert RawUrlEncode(segments[k]) == segments[k];
          EncodeFixedPoint(segments[k]);
          var j :| 0 <= j < |segments[k]| && segments[k][j] == c;
        }
      }
    }
  }

  /** `pathEncode` is not idempotent: a second pass encodes the `%` again. */
  lemma PathEncodeNotIdempotent()
    ensures PathEncode("%") == "%25"
    ensures PathEncode(PathEncode("%")) == "%2525"
  {
    var percent: Bytes := "%";
    assert percent[1..] == [];
    ExplodeImplode('/', [percent]);
    assert RawUrlEncode(percent) == "%25";
    assert EncodeSegments([percent]) == ["%25"];
    var once: Bytes := "%25";
    assert '/' !in once by {
      assert forall k :: 0 <= k < |once| ==> once[k] != '/';
    }
    ExplodeImplode('/', [once]);
    assert RawUrlEncode(once) == "%2525" by {
      assert once[1..][1..] == ['5'] && once[1..][1..][1..] == [];
      assert once[1..] == "25";
    }
    assert EncodeSegments([once]) == ["%2525"];
  }

  /** A path that starts with `/` keeps its leading `/`. */
  lemma PathEncodeLeadingSlash(path: Bytes)
    requires |path| > 0 && path[0] == '/'
    ensures |PathEncode(path)| > 0 && PathEncode(path)[0] == '/'
  {
    var rest := Explode('/', path[1..]);
    assert Explode('/', path) == [[]] + rest;
    assert EncodeSegments([[]] + rest) == [[]] + EncodeSegments(rest);
    ImplodeCons('/', [], EncodeSegments(rest));
  }

  /** The query part of `getMetadata`: no parameters, or the already-built
      `http_build_query` string of a non-empty parameter array. */
  datatype Query = NoParams | Params(built: Bytes)

  function QueryString(params: Query): Bytes {
    if params.Params? then "?" + params.built else []
  }

  /** The JSON value of an optional string argument. */
  function JsonOf(value: Option<Bytes>): JsonValue {
    if value.Some? then JsonString(value.value) else JsonNull
  }

  /** The remote path `upload` writes to: `$file_name` is appended only when
      it is truthy, so `""` and `"0"` are dropped like a missing name. */
  function UploadTarget(remotePath: Bytes, fileName: Option<Bytes>): (target: Bytes)
    ensures StartsWith(target, remotePath)
    ensures fileName.Some? && Truthy(fileName.value) ==>
              |target| == |remotePath| + 1 + |fileName.value|
              && target[|remotePath|] == '/' && target[|remotePath| + 1..] == fileName.value
    ensures fileName.None? || !Truthy(fileName.value) ==> target == remotePath
  {
    remotePath + (if fileName.Some? && Truthy(fileName.value) then "/" + fileName.value else [])
  }

  /** The operations of the class, for statements about all of them. */
  datatype Call =
    | GetMetadataCall(path: Bytes, params: Query)
    | CreateFolderCall(path: Bytes)
    | UploadCall(remotePath: Bytes, contents: Bytes, fileName: Option<Bytes>)
    | UploadChunkedCall(remotePath: Bytes, contents: Bytes, fileName: Option<Bytes>)
    | MoveCall(path: Bytes, destination: Bytes, permissions: Option<Bytes>)
    | CopyCall(path: Bytes, destination: Bytes, permissions: Option<Bytes>)
    | DeleteCall(path: Bytes)
    | DownloadCall(path: Bytes)
    | ListFolderCall(path: Bytes, recursive: bool)

  /** `new File($domain, $oauth_token)`: the base URL and the authorization
      header of a freshly built `Client`. */
  function New(domain: Bytes, oauthToken: Bytes): (f: File)
    ensures f.baseUrl == Client.New(domain, oauthToken).baseUrl
    ensures f.authorization == Client.New(domain, oauthToken).authorization
  {
    var c := Client.New(domain, oauthToken);
    File(c.baseUrl, c.authorization)
  }

  /** The three pieces of `head + middle + tail` can be cut back out of it. */
  lemma Pieces(head: Bytes, middle: Bytes, tail: Bytes)
    ensures var s := head + middle + tail;
            && |s| == |head| + |middle| + |tail|
            && s[..|head|] == head
            && s[|s| - |tail|..] == tail
            && s[|head|..|s| - |tail|] == middle
  {
  }

  datatype File = File(baseUrl: Bytes, authorization: Bytes)
  {
    /** `url` is the base URL, then `route`, then an encoded path that
        decodes to `path`, then `query`. */
    predicate Targets(url: Bytes, route: Bytes, path: Bytes, query: Bytes) {
      var head := baseUrl + route;
      && |head| + |query| <= |url|
      && url[..|head|] == head
      && url[|url| - |query|..] == query
      && Tokens(url[|head|..|url| - |query|], true)
      && RawUrlDecode(url[|head|..|url| - |query|]) == path
    }

    /** A request to `baseUrl + route + pathEncode(path) + query`. */
    function Encoded(verb: Method, route: Bytes, path: Bytes, query: Bytes, body: Body): (r: Request)
      ensures r.verb == verb && r.body == body && r.authorization == authorization
      ensures Targets(r.url, route, path, query)
      ensures r.url == baseUrl + route + PathEncode(path) + query
    {
      var url := baseUrl + route + PathEncode(path) + query;
      PathEncodeRoundTrip(path);
      PathEncodeAlphabet(path);
      Pieces(baseUrl + route, PathEncode(path), query);
      Request(verb, url, authorization, body)
    }

    /** `getMetadata`: GET `/fs/` followed by the encoded path and the query. */
    function GetMetadata(path: Bytes, params: Query): (r: Request)
      ensures r.verb == GET && r.body == NoBody && r.authorization == authorization
      ensures Targets(r.url, FsDirRoute, path, QueryString(params))
      ensures r.url == baseUrl + FsDirRoute + PathEncode(path) + QueryString(params)
    {
      Encoded(GET, FsDirRoute, path, QueryString(params), NoBody)
    }

    /** `createFolder`: POST `/fs/` with exactly `{ActionKey: AddFolder}`. */
    function CreateFolder(path: Bytes): (r: Request)
      ensures r.verb == POST && r.authorization == authorization
      ensures r.body == Json([(ActionKey, JsonString(AddFolder))])
      ensures Targets(r.url, FsDirRoute, path, [])
      ensures r.url == baseUrl + FsDirRoute + PathEncode(path)
    {
      Encoded(POST, FsDirRoute, path, [], Json([(ActionKey, JsonString(AddFolder))]))
    }

    /** `upload`: POST the contents, unchanged, to `/fs-content` followed by
        the encoded remote path, with `/` and the file name appended first
        when the name is truthy. */
    function Upload(remotePath: Bytes, contents: Bytes, fileName: Option<Bytes>): (r: Request)
      ensures r.verb == POST && r.body == Octets(contents) && r.authorization == authorization
      ensures Targets(r.url, ContentRoute, UploadTarget(remotePath, fileName), [])
      ensures r.url == baseUrl + ContentRoute + PathEncode(UploadTarget(remotePath, fileName))
    {
      Encoded(POST, ContentRoute, UploadTarget(remotePath, fileName), [], Octets(contents))
    }

    /** `uploadChunked` builds the very request `upload` builds. */
    function UploadChunked(remotePath: Bytes, contents: Bytes, fileName: Option<Bytes>): (r: Request)
      ensures r == Upload(remotePath, contents, fileName)
    {
      Upload(remotePath, contents, fileName)
    }

    /** The JSON body of `move` and `copy`: the destination and the
        permissions are passed literally, never encoded. */
    function Transfer(action: Bytes, path: Bytes, destination: Bytes, permissions: Option<Bytes>): (r: Request)
      ensures r.verb == POST && r.authorization == authorization
      ensures r.body.Member(ActionKey) == Some(JsonString(action))
      ensures r.body.Member(DestinationKey) == Some(JsonString(destination))
      ensures r.body.Member(PermissionsKey) == Some(JsonOf(permissions))
      ensures r.body.Json? && |r.body.members| == 3
      ensures Targets(r.url, FsRoute, path, [])
      ensures r.url == baseUrl + FsRoute + PathEncode(path)
    {
      var members := [(ActionKey, JsonString(action)), (DestinationKey, JsonString(destination)),
                      (PermissionsKey, JsonOf(permissions))];
      var d: Bytes := DestinationKey;
      var p: Bytes := PermissionsKey;
      assert d[0] != p[0];
      assert members[1..][1..] == [members[2]];
      assert Lookup(members, DestinationKey) == Lookup(members[1..], DestinationKey);
      assert Lookup(members, PermissionsKey) == Lookup(members[1..][1..], PermissionsKey);
      Encoded(POST, FsRoute, path, [], Json(members))
    }

    /** `move`: POST `/fs` + encoded path with action `move`. */
    function Move(path: Bytes, destination: Bytes, permissions: Option<Bytes>): (r: Request)
      ensures r.verb == POST && r.authorization == authorization
      ensures r.body.Member(ActionKey) == Some(JsonString(MoveAction))
      ensures r.body.Member(DestinationKey) == Some(JsonString(destination))
      ensures r.body.Member(PermissionsKey) == Some(JsonOf(permissions))
      ensures r.body.Json? && |r.body.members| == 3
      ensures Targets(r.url, FsRoute, path, [])
      ensures r.url == baseUrl + FsRoute + PathEncode(path)
    {
      Transfer(MoveAction, path, destination, permissions)
    }

    /** `copy`: POST `/fs` + encoded path with action `copy`. */
    function Copy(path: Bytes, destination: Bytes, permissions: Option<Bytes>): (r: Request)
      ensures r.verb == POST && r.authorization == authorization
      ensures r.body.Member(ActionKey) == Some(JsonString(CopyAction))
      ensures r.body.Member(DestinationKey) == Some(JsonString(destination))
      ensures r.body.Member(PermissionsKey) == Some(JsonOf(permissions))
      ensures r.body.Json? && |r.body.members| == 3
      ensures Targets(r.url, FsRoute, path, [])
      ensures r.url == baseUrl + FsRoute + PathEncode(path)
    {
      Transfer(CopyAction, path, destination, permissions)
    }

    /** `delete`: DELETE `/fs` + encoded path. */
    function Delete(path: Bytes): (r: Request)
      ensures r.verb == DELETE && r.body == NoBody && r.authorization == authorization
      ensures Targets(r.url, FsRoute, path, [])
      ensures r.url == baseUrl + FsRoute + PathEncode(path)
    {
      Encoded(DELETE, FsRoute, path, [], NoBody)
    }

    /** The request `download` sends: GET `/fs-content` + encoded path. */
    function DownloadRequest(path: Bytes): (r: Request)
      ensures r.verb == GET && r.body == NoBody && r.authorization == authorization
      ensures Targets(r.url, ContentRoute, path, [])
      ensures r.url == baseUrl + ContentRoute + PathEncode(path)
    {
      Encoded(GET, ContentRoute, path, [], NoBody)
    }

    /** `download`: the body of a 200 response and the empty string for any
        other status; an exception of the transport propagates. */
    function Download(path: Bytes, send: Request -> Outcome): (r: Attempt<Bytes>)
      ensures r.Raised? <==> send(DownloadRequest(path)).TransportFailed?
      ensures r.Raised? ==> r.exception == TransportException
      ensures RespondedWith(send, DownloadRequest(path), 200) ==>
                r == Returned(send(DownloadRequest(path)).response.body)
      ensures send(DownloadRequest(path)).Responded? && !RespondedWith(send, DownloadRequest(path), 200) ==>
                r == Returned([])
    {
      match send(DownloadRequest(path))
      case TransportFailed => Raised(TransportException)
      case Responded(response) =>
        if response.status == 200 then Returned(response.body) else Returned([])
    }

    /** `listFolder`: GET `/fs` + the path exactly as given, not encoded,
        followed by the `list_content` query. */
    function ListFolder(path: Bytes, recursive: bool): (r: Request)
      ensures r.verb == GET && r.body == NoBody && r.authorization == authorization
      ensures |r.url| > |baseUrl| + |FsRoute| + |path|
      ensures r.url[..|baseUrl| + |FsRoute|] == baseUrl + FsRoute
      ensures r.url[|baseUrl| + |FsRoute|..|baseUrl| + |FsRoute| + |path|] == path
      ensures r.url[|baseUrl| + |FsRoute| + |path|..] == ListContentQuery + (if recursive then TrueText else FalseText)
    {
      var flag := if recursive then TrueText else FalseText;
      var url := baseUrl + FsRoute + path + ListContentQuery + flag;
      Pieces(baseUrl + FsRoute, path, ListContentQuery + flag);
      assert url == baseUrl + FsRoute + path + (ListContentQuery + flag);
      Request(GET, url, authorization, NoBody)
    }

    /** `mv`, an alias of `move`. */
    function Mv(path: Bytes, destination: Bytes, permissions: Option<Bytes>): (r: Request)
      ensures r == Move(path, destination, permissions)
    {
      Move(path, destination, permissions)
    }

    /** `rm`, an alias of `delete`. */
    function Rm(path: Bytes): (r: Request)
      ensures r == Delete(path)
    {
      Delete(path)
    }

    /** `mkdir`, an alias of `createFolder`. */
    function Mkdir(path: Bytes): (r: Request)
      ensures r == CreateFolder(path)
    {
      CreateFolder(path)
    }

    /** The request each operation sends. */
    function Build(call: Call): Request {
      match call
      case GetMetadataCall(path, params) => GetMetadata(path, params)
      case CreateFolderCall(path) => CreateFolder(path)
      case UploadCall(remotePath, contents, fileName) => Upload(remotePath, contents, fileName)
      case UploadChunkedCall(remotePath, contents, fileName) => UploadChunked(remotePath, contents, fileName)
      case MoveCall(path, destination, permissions) => Move(path, destination, permissions)
      case CopyCall(path, destination, permissions) => Copy(path, destination, permissions)
      case DeleteCall(path) => Delete(path)
      case DownloadCall(path) => DownloadRequest(path)
      case ListFolderCall(path, recursive) => ListFolder(path, recursive)
    }

    /** Every request goes under the base URL and carries the client's
        authorization header. */
    lemma BuildUnderBase(call: Call)
      ensures StartsWith(Build(call).url, baseUrl)
      ensures Build(call).authorization == authorization
    {
      match call
      case GetMetadataCall(path, params) => TargetsUnderBase(Build(call).url, FsDirRoute, path, QueryString(params));
      case CreateFolderCall(path) => TargetsUnderBase(Build(call).url, FsDirRoute, path, []);
      case UploadCall(remotePath, _, fileName) =>
        TargetsUnderBase(Build(call).url, ContentRoute, UploadTarget(remotePath, fileName), []);
      case UploadChunkedCall(remotePath, _, fileName) =>
        TargetsUnderBase(Build(call).url, ContentRoute, UploadTarget(remotePath, fileName), []);
      case MoveCall(path, _, _) => TargetsUnderBase(Build(call).url, FsRoute, path, []);
      case CopyCall(path, _, _) => TargetsUnderBase(Build(call).url, FsRoute, path, []);
      case DeleteCall(path) => TargetsUnderBase(Build(call).url, FsRoute, path, []);
      case DownloadCall(path) => TargetsUnderBase(Build(call).url, ContentRoute, path, []);
      case ListFolderCall(path, recursive) =>
        var url := Build(call).url;
        assert StartsWith(url, baseUrl + FsRoute);
        StartsWithShorter(url, baseUrl, FsRoute);
    }

    lemma TargetsUnderBase(url: Bytes, route: Bytes, path: Bytes, query: Bytes)
      requires Targets(url, route, path, query)
      ensures StartsWith(url, baseUrl)
    {
      StartsWithShorter(url, baseUrl, route);
    }
  }

  /** Every request a `File` built from a subdomain and a token sends goes
      under `https://<subdomain>.egnyte.com/pubapi/v1` and carries
      `Bearer <token>`. */
  lemma EveryRequestUnderBase(domain: Bytes, oauthToken: Bytes, call: Call)
    ensures StartsWith(New(domain, oauthToken).Build(call).url, Client.Scheme + domain + Client.HostSuffix)
    ensures StartsWith(New(domain, oauthToken).Build(call).url, Client.Scheme)
    ensures New(domain, oauthToken).Build(call).authorization == Client.Bearer + oauthToken
  {
    var base := Client.Scheme + domain + Client.HostSuffix;
    Pieces(Client.Scheme, domain, Client.HostSuffix);
    UnderBase(New(domain, oauthToken), call, base);
  }

  lemma UnderBase(f: File, call: Call, base: Bytes)
    requires f.baseUrl == base && StartsWith(base, Client.Scheme)
    ensures StartsWith(f.Build(call).url, base) && StartsWith(f.Build(call).url, Client.Scheme)
    ensures f.Build(call).authorization == f.authorization
  {
    f.BuildUnderBase(call);
    StartsWithTransitive(f.Build(call).url, base, Client.Scheme);
  }
}
