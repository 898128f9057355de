/** `EgnyteAdapter`: the Flysystem adapter. It canonicalises every path,
    hands one request to the transport, and turns what comes back into the
    return shape the Flysystem contract expects. */
module EgnyteAdapter {
  import opened Text
  import opened Http
  import File

  /** `'/' . trim($path, '/')`: one leading `/`, and no trailing `/` unless
      the result is the root. */
  function Canonicalize(path: Bytes): (r: Bytes)
    ensures |r| >= 1 && r[0] == '/'
    ensures |r| >= 2 ==> r[1] != '/'
    ensures r[|r| - 1] == '/' <==> r == "/"
    ensures r == "/" <==> forall i :: 0 <= i < |path| ==> path[i] == '/'
  {
    "/" + Trim('/', path)
  }

  /** The shape `Canonicalize` produces. */
  predicate IsCanonical(p: Bytes) {
    && |p| >= 1 && p[0] == '/'
    && (|p| >= 2 ==> p[1] != '/' && p[|p| - 1] != '/')
  }

  /** `r` is `/` followed by the part of `path` from its first to its last
      byte that is not `/`: only slashes outside that window are dropped. */
  predicate KeepsWindow(path: Bytes, r: Bytes) {
    exists lo, hi ::
      && 0 <= lo <= hi <= |path|
      && r == "/" + path[lo..hi]
      && (lo < hi ==> path[lo] != '/' && path[hi - 1] != '/')
      && (forall i :: 0 <= i < lo ==> path[i] == '/')
      && (forall i :: hi <= i < |path| ==> path[i] == '/')
  }

  /** Canonicalisation keeps that window. */
  lemma CanonicalizeWindow(path: Bytes)
    ensures KeepsWindow(path, Canonicalize(path))
  {
    TrimWindow('/', path);
  }

  lemma TrimAfterSlash(t: Bytes)
    requires |t| > 0 ==> t[0] != '/' && t[|t| - 1] != '/'
    ensures Trim('/', "/" + t) == t
  {
    var s: Bytes := "/" + t;
    assert s[1..] == t;
    assert TrimLeft('/', s) == TrimLeft('/', t);
    TrimFixed('/', t);
  }

  /** Canonicalisation is idempotent. */
  lemma CanonicalizeIdempotent(path: Bytes)
    ensures Canonicalize(Canonicalize(path)) == Canonicalize(path)
  {
    TrimAfterSlash(Trim('/', path));
  }

  /** A canonical path is left alone by canonicalisation. */
  lemma CanonicalIsFixed(p: Bytes)
    requires IsCanonical(p)
    ensures Canonicalize(p) == p
  {
    var t := p[1..];
    assert p == "/" + t;
    TrimAfterSlash(t);
  }

  /** The canonical paths are exactly the ones canonicalisation leaves alone. */
  lemma CanonicalizeFixedPoints(p: Bytes)
    ensures Canonicalize(p) == p <==> IsCanonical(p)
  {
    var c := Canonicalize(p);
    assert IsCanonical(c);
    if IsCanonical(p) {
      CanonicalIsFixed(p);
    }
  }

  /** `get_class($this) . ' does not support mimetype. Path: '` */
  const MimetypeMessage: Bytes :=
    "Suman\\Egnyte\\" + "EgnyteAdapter" + " does not support" + " mimetype. Path: "

  /** A listing payload as `json_decode` returns it. */
  datatype Listing<E> = Listing(folders: seq<E>, files: seq<E>)

  /** `false`, or a PHP array from string keys to strings. */
  datatype ReadResult = False | Fields(fields: map<Bytes, Bytes>)
  {
    /** PHP truthiness: `false` and the empty array are falsy. */
    predicate Truthy() {
      Fields? && |fields| > 0
    }
  }

  /** `isSuccess($response, $code = 200)`: strict comparison of the status. */
  function IsSuccess(response: Response, code: int := 200): bool {
    response.status == code
  }

  /** A write-type result: true when the transport answered with exactly
      `code`, false for any other status, and the transport's exception
      when it threw. */
  predicate Reports(r: Attempt<bool>, send: Request -> Outcome, request: Request, code: int) {
    && (r == Returned(true) <==> RespondedWith(send, request, code))
    && (r == Returned(false) <==> send(request).Responded? && send(request).response.status != code)
    && (r.Raised? <==> send(request).TransportFailed?)
    && (r.Raised? ==> r.exception == TransportException)
  }

  /** Sends `request` and classifies the response against `code`. */
  function Classify(request: Request, send: Request -> Outcome, code: int): (r: Attempt<bool>)
    ensures Reports(r, send, request, code)
  {
    match send(request)
    case TransportFailed => Raised(TransportException)
    case Responded(response) => Returned(IsSuccess(response, code))
  }

  /** The keys of the arrays `readStream` and `read` return. */
  const StreamKey: Bytes := "stream"
  const ContentsKey: Bytes := "contents"

  /** `new EgnyteAdapter($client, $prefix)`. `prefixStep` is what the
      inherited `applyPathPrefix` does with the configured prefix. */
  datatype Adapter = Adapter(client: File.File, prefixStep: Bytes -> Bytes)
  {
    /** `applyPathPrefix`: the inherited prefix step, then canonicalisation.
        The result is canonical whatever the prefix step returns. */
    function ApplyPathPrefix(path: Bytes): (r: Bytes)
      ensures IsCanonical(r)
      ensures r == "/" <==> forall i :: 0 <= i < |prefixStep(path)| ==> prefixStep(path)[i] == '/'
      ensures KeepsWindow(prefixStep(path), r)
    {
      CanonicalizeWindow(prefixStep(path));
      Canonicalize(prefixStep(path))
    }

    /** The protected `upload`: true iff the upload answered 200. */
    function Upload(path: Bytes, contents: Bytes, send: Request -> Outcome): (r: Attempt<bool>)
      ensures Reports(r, send, client.Upload(ApplyPathPrefix(path), contents, None), 200)
    {
      Classify(client.Upload(ApplyPathPrefix(path), contents, None), send, 200)
    }

    /** The protected `uploadChunked`: true iff the chunked upload answered 200. */
    function UploadChunked(path: Bytes, contents: Bytes, send: Request -> Outcome): (r: Attempt<bool>)
      ensures Reports(r, send, client.UploadChunked(ApplyPathPrefix(path), contents, None), 200)
    {
      Classify(client.UploadChunked(ApplyPathPrefix(path), contents, None), send, 200)
    }

    function Write(path: Bytes, contents: Bytes, send: Request -> Outcome): (r: Attempt<bool>)
      ensures Reports(r, send, client.Upload(ApplyPathPrefix(path), contents, None), 200)
    {
      Upload(path, contents, send)
    }

    function Update(path: Bytes, contents: Bytes, send: Request -> Outcome): (r: Attempt<bool>)
      ensures Reports(r, send, client.Upload(ApplyPathPrefix(path), contents, None), 200)
    {
      Upload(path, contents, send)
    }

    function WriteStream(path: Bytes, contents: Bytes, send: Request -> Outcome): (r: Attempt<bool>)
      ensures Reports(r, send, client.Upload(ApplyPathPrefix(path), contents, None), 200)
    {
      UploadChunked(path, contents, send)
    }

    function UpdateStream(path: Bytes, contents: Bytes, send: Request -> Outcome): (r: Attempt<bool>)
      ensures Reports(r, send, client.Upload(ApplyPathPrefix(path), contents, None), 200)
    {
      UploadChunked(path, contents, send)
    }

    /** `rename`: both paths canonicalised, then `move`; true iff 200. */
    function Rename(path: Bytes, newPath: Bytes, send: Request -> Outcome): (r: Attempt<bool>)
      ensures Reports(r, send, client.Move(ApplyPathPrefix(path), ApplyPathPrefix(newPath), None), 200)
    {
      Classify(client.Move(ApplyPathPrefix(path), ApplyPathPrefix(newPath), None), send, 200)
    }

    /** `copy`: both paths canonicalised, then `copy`; true iff 200. */
    function Copy(path: Bytes, newPath: Bytes, send: Request -> Outcome): (r: Attempt<bool>)
      ensures Reports(r, send, client.Copy(ApplyPathPrefix(path), ApplyPathPrefix(newPath), None), 200)
    {
      Classify(client.Copy(ApplyPathPrefix(path), ApplyPathPrefix(newPath), None), send, 200)
    }

    function Delete(path: Bytes, send: Request -> Outcome): (r: Attempt<bool>)
      ensures Reports(r, send, client.Delete(ApplyPathPrefix(path)), 200)
    {
      Classify(client.Delete(ApplyPathPrefix(path)), send, 200)
    }

    function DeleteDir(dirname: Bytes, send: Request -> Outcome): (r: Attempt<bool>)
      ensures Reports(r, send, client.Delete(ApplyPathPrefix(dirname)), 200)
    {
      Delete(dirname, send)
    }

    /** `createDir`: the one operation that expects 201. */
    function CreateDir(dirname: Bytes, send: Request -> Outcome): (r: Attempt<bool>)
      ensures Reports(r, send, client.CreateFolder(ApplyPathPrefix(dirname)), 201)
    {
      Classify(client.CreateFolder(ApplyPathPrefix(dirname)), send, 201)
    }

    /** `getMetadata`: the raw response of the metadata request, no query. */
    function GetMetadata(path: Bytes, send: Request -> Outcome): (r: Attempt<Response>)
      ensures var request := client.GetMetadata(ApplyPathPrefix(path), File.NoParams);
              && (r.Raised? <==> send(request).TransportFailed?)
              && (r.Raised? ==> r.exception == TransportException)
              && (r.Returned? ==> r.value == send(request).response)
    {
      match send(client.GetMetadata(ApplyPathPrefix(path), File.NoParams))
      case TransportFailed => Raised(TransportException)
      case Responded(response) => Returned(response)
    }

    /** `getSize` returns the metadata response unchanged. */
    function GetSize(path: Bytes, send: Request -> Outcome): (r: Attempt<Response>)
      ensures r == GetMetadata(path, send)
    {
      GetMetadata(path, send)
    }

    /** `getTimestamp` returns the metadata response unchanged. */
    function GetTimestamp(path: Bytes, send: Request -> Outcome): (r: Attempt<Response>)
      ensures r == GetMetadata(path, send)
    {
      GetMetadata(path, send)
    }

    /** `getMimetype` always throws a `LogicException` naming the path; it
        sends nothing. */
    function GetMimetype(path: Bytes): (r: Attempt<Response>)
      ensures r.Raised? && r.exception.LogicException?
      ensures EndsWith(r.exception.message, path)
      ensures StartsWith(r.exception.message, MimetypeMessage)
    {
      var head := MimetypeMessage;
      assert (head + path)[..|head|] == head;
      Raised(LogicException(head + path))
    }

    /** `setVisibility` is not implemented and returns null. */
    function SetVisibility(path: Bytes, visibility: Bytes): (r: Option<Bytes>)
      ensures r == None
    {
      None
    }

    /** `getVisibility` is not implemented and returns null. */
    function GetVisibility(path: Bytes): (r: Option<Bytes>)
      ensures r == None
    {
      None
    }

    /** `has`: true iff the metadata request answered 200; an exception is
        caught and reported as false. */
    function Has(path: Bytes, send: Request -> Outcome): (r: bool)
      ensures r <==> RespondedWith(send, client.GetMetadata(ApplyPathPrefix(path), File.NoParams), 200)
    {
      match GetMetadata(path, send)
      case Raised(_) => false
      case Returned(response) => IsSuccess(response)
    }

    /** `readStream`: `false` when the download throws, otherwise
        `['stream' => <downloaded string>]`. */
    function ReadStream(path: Bytes, send: Request -> Outcome): (r: ReadResult)
      ensures var downloaded := client.Download(ApplyPathPrefix(path), send);
              && (downloaded.Raised? ==> r == False)
              && (downloaded.Returned? ==> r == Fields(map[StreamKey := downloaded.value]))
    {
      var downloaded := client.Download(ApplyPathPrefix(path), send);
      if downloaded.Raised? then False else Fields(map[StreamKey := downloaded.value])
    }

    /** `read`: `false` when `readStream` is falsy, otherwise the same array
        with the key `stream` renamed to `contents`. */
    function Read(path: Bytes, send: Request -> Outcome): (r: ReadResult)
      ensures var downloaded := client.Download(ApplyPathPrefix(path), send);
              && (downloaded.Raised? ==> r == False)
              && (downloaded.Returned? ==> r == Fields(map[ContentsKey := downloaded.value]))
    {
      var obj := ReadStream(path, send);
      if !obj.Truthy() then False
      else
        var contents := obj.fields[StreamKey];
        RenameKey(contents);
        Fields(obj.fields[ContentsKey := contents] - {StreamKey})
    }

    /** `listContents`: the listed folders and then the listed files, each
        passed through `strip` (`removePathPrefixForFile`), both groups in
        the order the payload lists them. The status is not looked at. */
    function ListContents<E>(directory: Bytes, recursive: bool, send: Request -> Outcome,
                             decode: Bytes -> Listing<E>, strip: E -> E): (r: Attempt<seq<E>>)
      ensures var request := client.ListFolder(ApplyPathPrefix(directory), recursive);
              && (r.Raised? <==> send(request).TransportFailed?)
              && (r.Raised? ==> r.exception == TransportException)
              && (r.Returned? ==> r.value == Merge(decode(send(request).response.body), strip))
    {
      match send(client.ListFolder(ApplyPathPrefix(directory), recursive))
      case TransportFailed => Raised(TransportException)
      case Responded(response) => Returned(Merge(decode(response.body), strip))
    }
  }

  /** `array_merge` of the stripped folders and the stripped files: the
      folders first, then the files, each group in its own order. */
  function Merge<E>(listing: Listing<E>, strip: E -> E): (entries: seq<E>)
    ensures |entries| == |listing.folders| + |listing.files|
    ensures forall i :: 0 <= i < |listing.folders| ==> entries[i] == strip(listing.folders[i])
    ensures forall j :: 0 <= j < |listing.files| ==>
              entries[|listing.folders| + j] == strip(listing.files[j])
  {
    MapSeq(strip, listing.folders) + MapSeq(strip, listing.files)
  }

  /** Moving the one entry of `['stream' => v]` to the key `contents`. */
  lemma RenameKey(v: Bytes)
    ensures map[StreamKey := v][ContentsKey := v] - {StreamKey} == map[ContentsKey := v]
  {
    assert ContentsKey[0] != StreamKey[0];
  }

  function MapSeq<E>(f: E -> E, xs: seq<E>): (ys: seq<E>)
    ensures |ys| == |xs| && forall i :: 0 <= i < |xs| ==> ys[i] == f(xs[i])
  {
    seq(|xs|, i requires 0 <= i < |xs| => f(xs[i]))
  }

  /** For one and the same response, every write-type operation reports
      `status == 200`, while `createDir` reports `status == 201`: a 200
      answer to `createDir` is a failure. */
  lemma SuccessCodes(a: Adapter, path: Bytes, newPath: Bytes, contents: Bytes, response: Response)
    ensures var send := (_: Request) => Responded(response);
            && a.Write(path, contents, send) == Returned(response.status == 200)
            && a.Update(path, contents, send) == Returned(response.status == 200)
            && a.WriteStream(path, contents, send) == Returned(response.status == 200)
            && a.UpdateStream(path, contents, send) == Returned(response.status == 200)
            && a.Rename(path, newPath, send) == Returned(response.status == 200)
            && a.Copy(path, newPath, send) == Returned(response.status == 200)
            && a.Delete(path, send) == Returned(response.status == 200)
            && a.DeleteDir(path, send) == Returned(response.status == 200)
            && a.CreateDir(path, send) == Returned(response.status == 201)
  {
  }

  /** A transport exception escapes every write-type operation. */
  lemma WritesPropagateFailure(a: Adapter, path: Bytes, newPath: Bytes, contents: Bytes)
    ensures var send := (_: Request) => TransportFailed;
            && a.Write(path, contents, send) == Raised(TransportException)
            && a.Update(path, contents, send) == Raised(TransportException)
            && a.WriteStream(path, contents, send) == Raised(TransportException)
            && a.UpdateStream(path, contents, send) == Raised(TransportException)
            && a.Rename(path, newPath, send) == Raised(TransportException)
            && a.Copy(path, newPath, send) == Raised(TransportException)
            && a.Delete(path, send) == Raised(TransportException)
            && a.DeleteDir(path, send) == Raised(TransportException)
            && a.CreateDir(path, send) == Raised(TransportException)
  {
  }

  /** `has` cannot tell a missing file from a failed transport. */
  lemma HasConflatesFailures(a: Adapter, path: Bytes, body: Bytes)
    ensures !a.Has(path, (_: Request) => Responded(Response(404, body)))
    ensures !a.Has(path, (_: Request) => TransportFailed)
    ensures a.Has(path, (_: Request) => Responded(Response(200, body)))
  {
  }

  /** A download that answers with any status but 200 reads as empty
      contents, not as `false`; only a thrown exception reads as `false`. */
  lemma ReadOfFailedDownload(a: Adapter, path: Bytes, response: Response)
    requires response.status != 200
    ensures a.Read(path, (_: Request) => Responded(response)) == Fields(map[ContentsKey := []])
    ensures a.ReadStream(path, (_: Request) => Responded(response)) == Fields(map[StreamKey := []])
    ensures a.Read(path, (_: Request) => TransportFailed) == False
  {
  }

  /** `read` of a 200 download hands back the body under `contents`. */
  lemma ReadOfDownload(a: Adapter, path: Bytes, body: Bytes)
    ensures a.Read(path, (_: Request) => Responded(Response(200, body))) == Fields(map[ContentsKey := body])
  {
  }

  /** The listing ignores the status: two responses with the same body list
      the same entries. */
  lemma ListContentsIgnoresStatus<E>(a: Adapter, directory: Bytes, recursive: bool, body: Bytes,
                                     s1: int, s2: int, decode: Bytes -> Listing<E>, strip: E -> E)
    ensures a.ListContents(directory, recursive, (_: Request) => Responded(Response(s1, body)), decode, strip)
         == a.ListContents(directory, recursive, (_: Request) => Responded(Response(s2, body)), decode, strip)
  {
  }

  const Slash: Bytes := "/"

  lemma PrependSlash(head: Bytes, e: Bytes)
    requires |e| > 0 && e[0] == '/'
    ensures StartsWith(head + e, head + Slash)
  {
    assert e == Slash + e[1..];
    assert head + e == (head + Slash) + e[1..];
  }

  /** `getMetadata` and `createFolder` put `/fs/` in front of a path that
      already starts with `/`, so their URLs always hold `/fs//`. */
  lemma MetadataUrlDoubleSlash(a: Adapter, path: Bytes)
    ensures StartsWith(a.client.GetMetadata(a.ApplyPathPrefix(path), File.NoParams).url, a.client.baseUrl + File.FsDirRoute + Slash)
    ensures StartsWith(a.client.CreateFolder(a.ApplyPathPrefix(path)).url, a.client.baseUrl + File.FsDirRoute + Slash)
  {
    var p := a.ApplyPathPrefix(path);
    File.PathEncodeLeadingSlash(p);
    var head := a.client.baseUrl + File.FsDirRoute;
    PrependSlash(head, File.PathEncode(p));
    assert a.client.GetMetadata(p, File.NoParams).url == head + File.PathEncode(p);
    assert a.client.CreateFolder(p).url == head + File.PathEncode(p);
  }
}
