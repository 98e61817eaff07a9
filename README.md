# Blossom blob-server core in Dafny

A model of the core of a Blossom (BUD-01) blob server, written in Go. Blobs
are named by the SHA-256 hash of their content. The model covers three parts:

- **hash identity** (`hash.go`): the 32-byte `Hash`, its lowercase hex text,
  the `ParseHash` parser, and the database round trip `Value` / `Scan`;
- **error signal** (`error.go`): the `Error{Code, Reason}` record, its
  message text, and its hand-written `Is` comparison;
- **transfer writer** (`http.go`): `WriteBlob`, which streams a blob into an
  HTTP response with `Content-Type` and `Content-Length`, and `WriteError`,
  which turns an `Error` into a response with an optional `X-Reason` header.

The files:

| file | module | models |
|---|---|---|
| `basics.dfy` | `Basics` | `Byte`, and `Option`/`Result` for Go's `(T, error)` pairs |
| `base16.dfy` | `Base16` | Go's `encoding/hex` (section 8 of RFC 4648) as `hash.go` uses it |
| `decimal.dfy` | `Decimal` | `strconv.FormatInt(n, 10)` / `%d`, with an inverse reading |
| `hashes.dfy` | `Hashes` | `hash.go` |
| `errors.dfy` | `Errors` | `error.go` |
| `transfer.dfy` | `Transfer` | `http.go`, with the parts of `net/http` and `io.Copy` it depends on |

Modelling choices:

- A Go string is a Dafny `string`. Each character stands for one byte of the
  Go string, so `len` is the length of the sequence.
- `hex.DecodeString` accepts upper- and lower-case digits. `ParseHash`
  therefore accepts an upper-case hash too, although the canonical text is
  lowercase. What is proved is that the text of a parsed hash is the
  lowercase form of its input (`Hashes.HexOfParsed`).
- The decoder reads digits in pairs from the left. It reports the first byte
  that is not a digit. `ErrLength` comes only when every byte is a digit and
  the count is odd.
- `Scan` takes a `DbValue`. Its four cases are the arms of the Go type
  switch: string, byte slice, nil, and any other type (by name). The `*Hash`
  receiver is a 32-element `array<Byte>` that `Scan` overwrites on success.
- `Is` takes the receiver as `Option<Error>`, where `None` is a nil pointer.
  The target is a `Target`: the nil interface, a value `Error`, a `*Error`
  pointer, or an error of another type. A typed nil `*Error` is not the nil
  interface, so a nil receiver does not match it.
- `http.go` uses `b.ContentType()`, `b.Size()` and `b.Data`. The `Blob` of
  `blob.go:5` (an `io.ReadSeekCloser`) has none of these. The model uses the
  shape `http.go` needs. `Transfer.Blob` holds the outcome of `ContentType()`,
  the outcome of `Size()`, and a reader. The reader delivers `content` from
  `cursor` on, then ends with EOF or with an error.
- The response is `Transfer.Response`. It holds a header map (key to list of
  values), the final status (0 until one is written), the headers sent, and
  the body bytes.
  - `WriteHeader` keeps the first final status. Writing it takes a copy of
    the header map: these are the headers handed on for sending. Changing the
    map afterwards has no effect on the response, as net/http documents.
    `Outgoing()` is that copy, or the current map while no status is written.
  - `Write` writes status 200 first if no status was written. A status of
    101, 204 or 304 allows no body, and `Write` then refuses non-empty data
    with net/http's `ErrBodyNotAllowed`.
  - A 1xx code other than 101 is an interim response and does not become the
    status.
  - `net/http` panics on a code outside 100..999, so `WriteHeader`,
    `HttpError` and `WriteError` require a code in that range.
- `http.Error(w, "", code)` writes `fmt.Fprintln(w, "")`, which is a single
  newline byte, so the error body is not empty. It stays empty only for a
  status that allows no body. The model includes the two headers
  `http.Error` sets (`Content-Type: text/plain; charset=utf-8` and
  `X-Content-Type-Options: nosniff`). It also includes the status, which is
  200 if the code is interim.
- Header keys are written here in canonical form, as `Header().Set` would
  store them.

## Model

| member | source | states |
|---|---|---|
| `Base16.Encode` | hash.go:14-16 | the text of n bytes has exactly 2n characters, all lowercase hex digits |
| `Base16.Decode` | hash.go:35-38 | a successful decoding has half as many bytes as the input has characters; `ErrLength` only for odd lengths |
| `Base16.DecodeEncode` | hash.go:14-16 | decoding the encoding of any byte sequence gives that sequence back |
| `Base16.DecodeSucceeds` | hash.go:70-73 | decoding succeeds exactly when the input has even length and every character is a hex digit of either case |
| `Base16.DecodeFirstInvalid` | hash.go:70-73 | a failed decoding names the first character that is not a hex digit |
| `Base16.DecodeOddLength` | hash.go:35-38 | an odd number of valid digits fails with `ErrLength` |
| `Base16.EncodeDecode` | hash.go:70-75 | re-encoding a decoded string gives its lowercase form, character by character |
| `Decimal.FormatInt` | http.go:24 | the text is non-empty, starts with '-' exactly for negative numbers, and is otherwise digits |
| `Decimal.FormatIntRoundTrip` | http.go:24 | reading the text back gives the same integer |
| `Decimal.FormatIntInjective` | error.go:15 | distinct integers have distinct texts |
| `Hashes.Hex` | hash.go:13-16 | the hex text of a hash is exactly 64 lowercase hex digits |
| `Hashes.String` | hash.go:18-21 | `String` is `Hex` |
| `Hashes.Value` | hash.go:23-26 | `Value` never fails and gives the hex text as a string value |
| `Hashes.ParseHash` | hash.go:63-77 | a length other than 64 fails with the length error; success exactly when the input is 64 hex digits; a 64-character failure is a wrapped invalid-byte error |
| `Hashes.ParseHashRejectsNonDigit` | hash.go:69-73 | a 64-character input with a non-digit fails, naming the first non-digit |
| `Hashes.ParseHashOfHex` | hash.go:64-77 | round trip: `ParseHash(h.Hex())` succeeds with `h`, for every hash |
| `Hashes.HexOfParsed` | hash.go:64-77 | the hex text of a parsed hash is the lowercase form of the input |
| `Hashes.ScanOutcome` | hash.go:29-55 | a string succeeds exactly when `ParseHash` does, with the same hash, and a wrong length reports that length; a byte slice succeeds exactly at length 32 and yields those bytes; nil and other types always fail with their own errors |
| `Hashes.Scan` | hash.go:28-55 | on success the receiver holds the scanned hash; on every error path the receiver's bytes are unchanged and that error is returned |
| `Hashes.ValueThenScan` | hash.go:24-55 | scanning what `Value` produced restores the original hash |
| `Errors.Error.Message` | error.go:14-16 | the message is `code: `, then text that reads back as the code, then `, reason: `, then the reason |
| `Errors.Error.String` | error.go:18-20 | `String` is `Error()` |
| `Errors.MessageInjective` | error.go:14-16 | two errors with the same message text are the same error (code and reason) |
| `Errors.Is` | error.go:22-32 | a nil receiver matches only the nil interface; a non-nil receiver matches exactly a value `Error` equal to it in both code and reason |
| `Errors.IsReflexive` | error.go:31 | every non-nil receiver matches its own value |
| `Errors.IsRejectsNonValues` | error.go:27-30 | a `*Error` target (even a typed nil) and an error of another type never match |
| `Errors.IsSymmetric` | error.go:31 | matching two values does not depend on which one is the receiver |
| `Errors.EmptyReasonIsDistinct` | error.go:31 | with the same code, an empty reason and a non-empty one do not match, in either order |
| `Transfer.Fault.Message` | http.go:31 | a passed-through error keeps its text; the mismatch text reads `copied size mismatch: expected `, then the expected size, then `, wrote `, then the count, and both numbers read back |
| `Transfer.FinalStatus` | http.go:42 | an existing status is kept; otherwise the code becomes the status, or 200 when the code is interim |
| `Transfer.Response.Set` | http.go:23-24 | `Header().Set` replaces the key's values with the one value; status, sent headers and body unchanged |
| `Transfer.Response.WriteHeader` | http.go:42 | only the first final status is kept, and writing it fixes the sent headers as the current map; headers and body unchanged |
| `Transfer.Response.Write` | http.go:26 | writes status 200 (and fixes the sent headers) if none was written; appends the data when the status allows a body, otherwise refuses non-empty data with `BodyNotAllowed` |
| `Transfer.Blob.Read` | http.go:26 | delivers the next bytes of the content in order, then EOF or the reader's error |
| `Transfer.Copy` | http.go:26-29 | the body grows by exactly the undelivered content, the count is its length, and the error is the reader's; a status already written that allows no body ends the copy at once with `BodyNotAllowed`; the header map is unchanged |
| `Transfer.FramedHeader` | http.go:23-24 | the map gets `Content-Type` and a `Content-Length` that reads back as the size; every other header is kept and none is added |
| `Transfer.WriteBlob` | http.go:12-34 | a content-type error, then a size error, is returned unchanged with nothing written; otherwise both headers are set; when no status was written before, the response goes out with exactly those headers, so they were set before the copy; a copy error is returned unchanged; success exactly when all is well and the bytes written equal the declared size, otherwise the mismatch error with both numbers; on success, when no status was written before, the outgoing `Content-Length` reads back as the body length; when a status was written before, the headers sent are left as they were |
| `Transfer.PlainTextHeader` | http.go:42 | the map gets the plain-text `Content-Type` and `nosniff`; every other header is kept and none is added |
| `Transfer.HttpError` | http.go:42 | sets the plain-text and nosniff headers, the status by `FinalStatus`, fixes the sent headers if no status was written before, and appends the message and a newline when the status allows a body |
| `Transfer.WriteError` | http.go:38-43 | `X-Reason` is set to the reason exactly when it is non-empty and otherwise left as it was; when no status was written before, the sent headers are that map, so `X-Reason` reaches the client exactly when the reason is non-empty (or was already set); the status is given by `FinalStatus`: the code if no status was written before, 200 for an interim code, and otherwise the status already written; the body gets only the newline of `http.Error`, when the status allows a body |

## Left out

- `ComputeHash` (hash.go:59-61) is a call into SHA-256. Nothing in the modelled core depends on how the digest is computed, so it is not modelled, and every `Hash` value is taken as given.
- `ExtFromType` and content sniffing are not part of this model. Their implementation is not among the files modelled, and it depends on the tables of the `mime` library.
- `blob.go` declares `Blob` as an interface alias and the `BlobMeta` record. It has no behaviour, and `BlobMeta` is not used by the modelled code, so it is not modelled.
- The text of the hash errors (`invalid hash length: %d`, `NULL cannot be scanned into Hash`, …) is not modelled. Each error is a `HashError` variant that carries its data (the length, the type name, the decoder's error). The `%#U` text of `hex.InvalidByteError` is left out too.
- The `Hash{}` zero value that `ParseHash` returns next to an error is not modelled. The error case carries no hash.
- `Transfer.HttpError`: newer Go versions also delete `Content-Length` in `http.Error`. This depends on the Go version and is not modelled.
- `Transfer.Response.Write`: of net/http's refusals, only `ErrBodyNotAllowed` is modelled. Not modelled:
  - `ErrContentLength`. On the buffered path, `Write` refuses bytes past the `Content-Length` that `WriteBlob` set. A blob that yields more than its declared size then makes `WriteBlob` return that copy error, not `SizeMismatch`. The check depends on the write path (the sendfile path skips it), so the model reports `SizeMismatch` throughout.
  - I/O failures of the connection.
  - Hijacked connections.
  - The body that HEAD requests discard.
- `Transfer.Copy`: the `ReaderFrom` fast path of `io.Copy` is not modelled. It does not change what is written. The 32 KiB chunking is modelled, but no contract depends on it. After a `BodyNotAllowed` refusal, the exact read position depends on that path, so the contract only says that reading moved forward.
- `Transfer.Response.WriteHeader`: net/http panics on a status code outside 100..999. The model does not model the panic: `WriteHeader`, `Transfer.HttpError` and `Transfer.WriteError` require a code in that range. The `Content-Length` parsing that net/http does at this point is not modelled either.
- `Transfer.Response.WriteHeader`: interim 1xx responses are not recorded. They appear only in that they do not become the final status. Logging of superfluous `WriteHeader` calls is not modelled.
- Go strings are modelled as Dafny `string`, where each character stands for one byte. Nothing enforces that the characters are below 256. A string with a larger character has no Go counterpart. The parsers reject such a character like any other non-digit.
- Response headers beyond those the modelled code and `http.Error` set are not modelled. These include `Date` and sniffed content types, which net/http adds when it sends the headers.
- `Transfer.Response.Outgoing`: net/http drops some headers as it sends them, and this is not modelled. For a 304 it drops `Content-Type` and `Content-Length`; for a 101 or 204 it drops `Content-Length`. The copy the model keeps still holds them. So for `Transfer.WriteError` with code 304, the client receives no `Content-Type`, even though `sent` holds the plain-text one.
- Integers are unbounded. `Code` (Go `int`) and sizes (Go `int64`) are compared and printed but never computed with, so wrap-around cannot arise.
- Concurrency on one blob's read cursor, closing the blob, timeouts and networking belong to the layers around this core.
- Seeking: `ContentType()` and `Size()` are taken as results that leave the read cursor where it was. Their own probing and rewinding is not in the modelled code.
