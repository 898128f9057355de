# Egnyte Flysystem adapter — a Dafny model

This project models the core of the Egnyte adapter for Flysystem (PHP). It
has three layers:

- **`Client`** (`client.dfy`). It builds the base URL
  `https://<subdomain>.egnyte.com/pubapi/v1` and the header
  `Authorization: Bearer <token>`.
- **`File`** (`file.dfy`). This is the `Model\File` class. Each operation is
  modelled as the HTTP request it builds:
  - the method;
  - the URL, with the path passed through `pathEncode`;
  - the authorization header;
  - the body: none, raw octets, or a JSON object.

  `download` is the only operation that looks at the response. It returns
  the body on status 200 and the empty string on any other status.
- **`EgnyteAdapter`** (`adapter.dfy`). This is the Flysystem adapter:
  - It canonicalises every path to `'/' . trim(path, '/')`.
  - It sends one request and turns the answer into the return value Flysystem
    expects. That is `status === 200`, or `=== 201` for `createDir`; `false`
    on exceptions in `has` and `readStream`; the `['stream' => …]` and
    `['contents' => …]` arrays; or the merged folder and file listing.

Supporting modules:
- `text.dfy` models PHP's byte strings and these builtins:
  - `explode` and `implode`, with a one-byte delimiter
  - `trim`, with a one-byte character list
  - string truthiness
- `url_encoding.dfy` models `rawurlencode` and `rawurldecode`, following
  sections 2.1 and 2.3 of RFC 3986.
- `http.dfy` holds the request, response and exception values.

The transport is not modelled. Each operation that talks to Egnyte takes a
function `send: Request -> Outcome`, and the outcome is either a response or a
thrown transport exception. So every statement about an operation holds
whatever the server or Guzzle does, including Guzzle's `http_errors` option
(throw on 4xx or 5xx, or return the response). A thrown exception is
`Attempt.Raised`.

The following are consequences of the model's definitions:
- `getMetadata` and `createFolder` append `/fs/` in front of a path the
  adapter has already made start with `/`. Their URLs therefore always contain
  `/fs//` (`MetadataUrlDoubleSlash`). The other routes use `/fs` or
  `/fs-content`, with no trailing slash.
- `pathEncode` is not idempotent: `%` becomes `%25`, and a second pass turns
  that into `%2525`.
- `read` and `readStream` return `false` only when the download throws. A
  download answered with a status other than 200 reads as empty contents.
- `has` cannot tell a missing file from a failed transport.
- `listFolder` puts the path into the URL without encoding it, unlike every
  other operation.

## Model

| member | source | states |
|---|---|---|
| UrlEncoding.RawUrlEncode | src/Model/File.php:208 | the encoding is between one and three times as long as its input and uses only unreserved characters and `%` |
| UrlEncoding.DecodeEncode | src/Model/File.php:208 | `rawurldecode(rawurlencode(s)) == s` for every byte string |
| UrlEncoding.EncodeLength | src/Model/File.php:208 | every reserved byte costs two extra characters, and none is reserved exactly when nothing grows |
| UrlEncoding.EncodeFixedPoint | src/Model/File.php:208 | `rawurlencode(s) == s` exactly when every byte of `s` is unreserved |
| UrlEncoding.EncodeTokens | src/Model/File.php:208 | the encoding is a sequence of unreserved bytes and `%HH` triplets with upper-case hex digits, and never contains `/` |
| UrlEncoding.DecodeAppend | src/Model/File.php:208 | decoding a string of whole tokens followed by anything is the concatenation of the two decodings |
| Text.ImplodeExplode | src/Model/File.php:208 | `implode(sep, explode(sep, s)) == s` |
| Text.ExplodeImplode | src/Model/File.php:208 | pieces that contain no delimiter come back out of `explode` after `implode` |
| File.PathEncodeStructure | src/Model/File.php:206-209 | the encoded path has the same number of `/` as the input, and its i-th segment is `rawurlencode` of the input's i-th segment, empty segments included |
| File.PathEncodeAlphabet | src/Model/File.php:206-209 | every byte of the output is unreserved, a `/`, or the `%` of a `%HH` triplet with upper-case hex digits |
| File.PathEncodeRoundTrip | src/Model/File.php:206-209 | decoding the encoded path, either segment by segment or as a whole, gives the path back |
| File.PathEncodeIdentity | src/Model/File.php:206-209 | `pathEncode(p) == p` exactly when `p` holds only unreserved characters and `/` |
| File.PathEncodeNotIdempotent | src/Model/File.php:206-209 | `pathEncode("%") == "%25"` and `pathEncode("%25") == "%2525"`, so the function is not idempotent |
| File.PathEncodeLeadingSlash | src/Model/File.php:206-209 | a path that starts with `/` is encoded to one that starts with `/` |
| File.UploadTarget | src/Model/File.php:74 | the file name is appended after a `/` exactly when it is truthy; `""`, `"0"` and null leave the remote path unchanged |
| File.New | src/Model/File.php:28-33 | the file model carries the base URL and the authorization header of the `Client` built from the same subdomain and token |
| File.File.GetMetadata | src/Model/File.php:40-50 | GET request; its URL is the base URL, then `/fs/`, then a token string that decodes to the path, then `?` and the built query when there are parameters |
| File.File.CreateFolder | src/Model/File.php:56-63 | POST to `/fs/` plus the encoded path, with the JSON body `{"action": "add_folder"}` and nothing else |
| File.File.Upload | src/Model/File.php:71-82 | POST to `/fs-content` plus the encoded upload target, with the contents as the body, unchanged |
| File.File.UploadChunked | src/Model/File.php:90-93 | builds the very request `upload` builds |
| File.File.Move | src/Model/File.php:101-111 | POST to exactly the base URL, `/fs` and the encoded path; the JSON has exactly three members: action `move`, the destination as given (not encoded), and the permissions or null |
| File.File.Copy | src/Model/File.php:128-138 | POST to exactly the base URL, `/fs` and the encoded path; the JSON has exactly three members: action `copy`, the destination as given, and the permissions or null |
| File.File.Delete | src/Model/File.php:117-120 | DELETE to `/fs` plus the encoded path, with no body |
| File.File.DownloadRequest | src/Model/File.php:147-152 | GET to `/fs-content` plus the encoded path |
| File.File.Download | src/Model/File.php:147-158 | returns the body when the status is 200 and `""` for any other status; a transport exception propagates |
| File.File.ListFolder | src/Model/File.php:166-172 | GET to `/fs` plus the path exactly as given, not encoded, followed by `?list_content=true` or `?list_content=false` |
| File.File.Mv | src/Model/File.php:177-180 | `mv` builds the request `move` builds |
| File.File.Rm | src/Model/File.php:185-188 | `rm` builds the request `delete` builds |
| File.File.Mkdir | src/Model/File.php:193-196 | `mkdir` builds the request `createFolder` builds |
| File.File.BuildUnderBase | src/Model/File.php:40-172 | every request of every operation goes under the base URL and carries the client's authorization header |
| File.EveryRequestUnderBase | src/Client.php:29-35 | every request of a model built from a subdomain and a token starts with `https://` and the subdomain's base URL, and carries `Bearer <token>` |
| Client.New | src/Client.php:29-38 | the base URL starts with `https://`, ends with `.egnyte.com/pubapi/v1` and holds exactly the subdomain between them; the header is `Bearer ` followed by the token |
| Client.NewRoundTrip | src/Client.php:32-35 | the subdomain and the token can be read back from the base URL and the header |
| Client.NewFromParts | src/Client.php:32-35 | every client whose base URL is `https://`, something, `.egnyte.com/pubapi/v1`, and whose header starts with `Bearer `, is the client built from the subdomain and token read back from it |
| Client.NewInjective | src/Client.php:32-35 | two clients have the same base URL exactly when they have the same subdomain, and the same header exactly when they have the same token |
| Text.Trim | src/EgnyteAdapter.php:230 | the result is empty exactly when every byte of the input is the trimmed character, and otherwise it neither starts nor ends with that character |
| Text.TrimWindow | src/EgnyteAdapter.php:230 | `trim` cuts out one window whose end bytes are not the trimmed character, and every byte outside that window is that character |
| Text.TrimIdempotent | src/EgnyteAdapter.php:230 | trimming twice is trimming once |
| EgnyteAdapter.Canonicalize | src/EgnyteAdapter.php:230 | the result starts with exactly one `/`; it ends with `/` only when it is the root `/`; it is `/` exactly when the input is all slashes |
| EgnyteAdapter.CanonicalizeWindow | src/EgnyteAdapter.php:227-231 | canonicalisation keeps the window from the first to the last byte that is not `/`, and drops only slashes outside it |
| EgnyteAdapter.CanonicalizeIdempotent | src/EgnyteAdapter.php:227-231 | canonicalising a canonical path changes nothing |
| EgnyteAdapter.CanonicalIsFixed | src/EgnyteAdapter.php:227-231 | a canonical path comes out of canonicalisation unchanged |
| EgnyteAdapter.CanonicalizeFixedPoints | src/EgnyteAdapter.php:227-231 | the fixed points of canonicalisation are exactly the canonical paths |
| EgnyteAdapter.Adapter.ApplyPathPrefix | src/EgnyteAdapter.php:227-231 | whatever the inherited prefix step returns, the result is canonical, and it is `/` followed by the step's output from its first to its last byte that is not `/`; it is `/` exactly when the step returned only slashes |
| EgnyteAdapter.Classify | src/EgnyteAdapter.php:273-276 | true exactly when the transport answered with the expected code, false for any other status, and a transport exception when the transport threw |
| EgnyteAdapter.Adapter.Upload | src/EgnyteAdapter.php:246-254 | sends `upload` with the canonical path and no file name, and reports `status === 200` |
| EgnyteAdapter.Adapter.UploadChunked | src/EgnyteAdapter.php:263-270 | sends `uploadChunked` with the canonical path, and reports `status === 200` |
| EgnyteAdapter.Adapter.Write | src/EgnyteAdapter.php:33-36 | `write` is the upload of the canonical path, reported against 200 |
| EgnyteAdapter.Adapter.WriteStream | src/EgnyteAdapter.php:43-46 | `writeStream` sends the same request as `write`, reported against 200 |
| EgnyteAdapter.Adapter.Update | src/EgnyteAdapter.php:51-54 | `update` is the upload of the canonical path, reported against 200 |
| EgnyteAdapter.Adapter.UpdateStream | src/EgnyteAdapter.php:59-62 | `updateStream` sends the same request as `write`, reported against 200 |
| EgnyteAdapter.Adapter.Rename | src/EgnyteAdapter.php:69-78 | sends `move` with both paths canonicalised and no permissions, and reports `status === 200` |
| EgnyteAdapter.Adapter.Copy | src/EgnyteAdapter.php:85-93 | sends `copy` with both paths canonicalised and no permissions, and reports `status === 200` |
| EgnyteAdapter.Adapter.Delete | src/EgnyteAdapter.php:100-106 | sends `delete` for the canonical path, and reports `status === 200` |
| EgnyteAdapter.Adapter.DeleteDir | src/EgnyteAdapter.php:111-114 | `deleteDir` is `delete` |
| EgnyteAdapter.Adapter.CreateDir | src/EgnyteAdapter.php:121-126 | sends `createFolder` for the canonical path, and reports `status === 201` |
| EgnyteAdapter.SuccessCodes | src/EgnyteAdapter.php:121-126 | for one and the same response, every write-type operation reports `status == 200` while `createDir` reports `status == 201` |
| EgnyteAdapter.WritesPropagateFailure | src/EgnyteAdapter.php:33-126 | a transport exception escapes all nine write-type operations (`write`, `writeStream`, `update`, `updateStream`, `rename`, `copy`, `delete`, `deleteDir`, `createDir`); none of them catches it |
| EgnyteAdapter.Adapter.SetVisibility | src/EgnyteAdapter.php:128-131 | returns null |
| EgnyteAdapter.Adapter.Has | src/EgnyteAdapter.php:136-144 | true exactly when the metadata request of the canonical path was answered with 200; a thrown exception reads as false |
| EgnyteAdapter.HasConflatesFailures | src/EgnyteAdapter.php:136-144 | a 404 and a transport failure both read as false, and a 200 reads as true |
| EgnyteAdapter.Adapter.Read | src/EgnyteAdapter.php:149-158 | false when the download throws; otherwise `['contents' => <downloaded string>]`, with the `stream` key gone |
| EgnyteAdapter.Adapter.ReadStream | src/EgnyteAdapter.php:163-174 | false when the download throws; otherwise `['stream' => <downloaded string>]` |
| EgnyteAdapter.ReadOfFailedDownload | src/EgnyteAdapter.php:149-174 | a download answered with any status except 200 reads as empty contents, not as false; only a thrown exception reads as false |
| EgnyteAdapter.ReadOfDownload | src/EgnyteAdapter.php:149-174 | a download answered with 200 reads as its body under `contents` |
| EgnyteAdapter.Adapter.ListContents | src/EgnyteAdapter.php:176-186 | sends `listFolder` for the canonical path; a transport exception propagates; otherwise the result is the merge of the decoded body |
| EgnyteAdapter.Merge | src/EgnyteAdapter.php:182-185 | the stripped folders come first, then the stripped files, each group in its listed order, and nothing else |
| EgnyteAdapter.ListContentsIgnoresStatus | src/EgnyteAdapter.php:176-186 | two responses with the same body give the same listing, whatever their statuses |
| EgnyteAdapter.Adapter.GetMetadata | src/EgnyteAdapter.php:191-197 | the response to the metadata request of the canonical path, unchanged; a transport exception propagates |
| EgnyteAdapter.Adapter.GetSize | src/EgnyteAdapter.php:202-205 | `getSize` is `getMetadata` |
| EgnyteAdapter.Adapter.GetMimetype | src/EgnyteAdapter.php:210-214 | always throws a `LogicException`; the message starts with the class name and ` does not support mimetype. Path: `, and ends with the path |
| EgnyteAdapter.Adapter.GetTimestamp | src/EgnyteAdapter.php:219-222 | `getTimestamp` is `getMetadata` |
| EgnyteAdapter.Adapter.GetVisibility | src/EgnyteAdapter.php:233-236 | returns null |
| EgnyteAdapter.MetadataUrlDoubleSlash | src/Model/File.php:40-63 | for every adapter path, the URLs of `getMetadata` and `createFolder` start with the base URL followed by `/fs//` |

## Left out

- The transport (Guzzle) is the `send` parameter. Timeouts, retries, redirects and concurrency are its business and are not modelled. The same goes for whether a 4xx or 5xx answer arrives as a response or as an exception.
- `parent::applyPathPrefix`, which is Flysystem's `AbstractAdapter`, is the adapter's `prefixStep` function. Only the canonicalisation that follows it is modelled, and every property of `ApplyPathPrefix` holds whatever that step does.
- `json_decode` of the listing body is the `decode` parameter of `ListContents`, and `removePathPrefixForFile` is the `strip` parameter. When the body does not decode to an array with `folders` and `files`, PHP raises an error; the model assumes a decoded listing.
- `http_build_query` for `getMetadata`'s extra parameters is taken as its output string (`Query.Params`). For `listFolder` the single fixed parameter is written out literally.
- The `Content-Type` declarations in `upload`, `move` and `copy` are not modelled. They are passed under the Guzzle option `header`, which Guzzle does not read (it reads `headers`), so they never reach the request. The only header modelled is `Authorization`.
- The JSON encoding of request bodies is not modelled. A body is the ordered list of its members, and the value of `permissions` is a string or null.
- `WriteStream` and `UpdateStream` model only a call whose `$resource` is a string. `writeStream` and `updateStream` pass `$resource` on to `uploadChunked`, whose parameter is declared `string $file_contents` (src/Model/File.php:90). A real PHP stream resource is rejected there with a `TypeError`. That is an `Error`, not an `Exception`, so no `catch (\Exception)` in the adapter catches it. The `Config` argument is not modelled either.
- `mv`, `rm` and `mkdir` forward their arguments through `call_user_func_array`. They are modelled with the parameters of the methods they forward to.
- `download`'s `$output` parameter is unused by the source, and it is not modelled.
- The server's state is not modelled, so a write followed by a read is not related. Each operation is stated for one request and its answer.
- `getMimetype`'s message uses `get_class($this)`. It is taken to be `Suman\Egnyte\EgnyteAdapter`, so a subclass's name is not modelled.
- `download` returns a Guzzle stream object, which the declared `string` return type converts to a string. It is modelled as the body bytes.
