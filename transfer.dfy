/** The transfer writer (http.go): streaming a blob into an HTTP response with
    its framing headers, and turning an `Error` into a response. */
module Transfer {
  import opened Basics
  import Decimal
  import Errors

  const ContentTypeHeader := "Content-Type"
  const ContentLengthHeader := "Content-Length"
  const ReasonHeader := "X-Reason"
  const ContentTypeOptionsHeader := "X-Content-Type-Options"
  /** The content type `http.Error` gives its plain-text body. */
  const PlainText := "text/plain; charset=utf-8"
  /** The size of the buffer `io.Copy` reads into. */
  const CopyBufferSize := 32 * 1024
  /** The byte `fmt.Fprintln` adds after its operand. */
  const Newline: Byte := 10

  const MismatchPrefix := "copied size mismatch: expected "
  const MismatchSeparator := ", wrote "

  /** A Go `error` value as this file sees it: one passed through from the
      blob, net/http's refusal of a body, or the mismatch error `WriteBlob`
      creates itself. */
  datatype Fault =
    | Fault(message: string)
    | BodyNotAllowed
    | SizeMismatch(expected: int, wrote: int)
  {
    /** The text of the error. A mismatch prints
        `copied size mismatch: expected %d, wrote %d`, from which both
        numbers can be read back. */
    function Message(): (m: string)
      ensures this.Fault? ==> m == message
      ensures this.SizeMismatch? ==>
        var e := |MismatchPrefix| + |Decimal.FormatInt(expected)|;
        && e + |MismatchSeparator| + |Decimal.FormatInt(wrote)| == |m|
        && m[..|MismatchPrefix|] == MismatchPrefix
        && m[e..e + |MismatchSeparator|] == MismatchSeparator
        && Decimal.IsIntText(m[|MismatchPrefix|..e])
        && Decimal.ParseInt(m[|MismatchPrefix|..e]) == expected
        && Decimal.IsIntText(m[e + |MismatchSeparator|..])
        && Decimal.ParseInt(m[e + |MismatchSeparator|..]) == wrote
    {
      match this
      case Fault(m) => m
      case BodyNotAllowed => "http: request method or response status code does not allow body"
      case SizeMismatch(expected, wrote) =>
        var fe, fw := Decimal.FormatInt(expected), Decimal.FormatInt(wrote);
        Decimal.FormatIntRoundTrip(expected);
        Decimal.FormatIntRoundTrip(wrote);
        var m := MismatchPrefix + fe + MismatchSeparator + fw;
        assert m[|MismatchPrefix|..|MismatchPrefix| + |fe|] == fe;
        assert m[|MismatchPrefix| + |fe| + |MismatchSeparator|..] == fw;
        m
    }
  }

  /** A 1xx status other than 101 is sent at once as an interim response and
      does not become the response's status. */
  predicate IsInterim(code: int) {
    100 <= code <= 199 && code != 101
  }

  /** net/http's `bodyAllowedForStatus`: 1xx, 204 and 304 responses carry no
      body. */
  predicate BodyAllowed(status: int) {
    !(100 <= status <= 199 || status == 204 || status == 304)
  }

  /** The status a response ends up with when `code` is written to one whose
      status is `status`, and the body is then written. */
  function FinalStatus(status: int, code: int): (r: int)
    requires 100 <= code <= 999
    ensures 100 <= status <= 999 ==> r == status
    ensures status == 0 && !IsInterim(code) ==> r == code
    ensures status == 0 && IsInterim(code) ==> r == 200
  {
    if status != 0 then status else if IsInterim(code) then 200 else code
  }

  /** A read either delivers bytes or reports why it delivered none. */
  datatype ReadStatus = Progress | EndOfFile | Failed(error: Fault)

  /** The `http.ResponseWriter`: the header map the handler edits, the final
      status once written (0 before), the copy of the header map taken when
      that status was written (the headers handed on for sending), and the
      body written so far. Editing `header` after the status is written
      changes nothing the client sees. */
  class Response {
    var header: map<string, seq<string>>
    var status: int
    var sent: map<string, seq<string>>
    var body: seq<Byte>

    ghost predicate Valid()
      reads this
    {
      status == 0 || 100 <= status <= 999
    }

    /** The headers handed on for sending: the copy taken when the status was
        written, or, while no status is written, the current map, which is
        handed on when the handler returns. */
    function Outgoing(): map<string, seq<string>>
      reads this
    {
      if status == 0 then header else sent
    }

    constructor ()
      ensures Valid()
      ensures header == map[] && status == 0 && sent == map[] && body == []
    {
      header, status, sent, body := map[], 0, map[], [];
    }

    /** `Header().Set(key, value)`: replaces every value of `key`. */
    method Set(key: string, value: string)
      requires Valid()
      modifies this
      ensures Valid()
      ensures header == old(header)[key := [value]]
      ensures status == old(status) && sent == old(sent) && body == old(body)
    {
      header := header[key := [value]];
    }

    /** `WriteHeader(code)`: only the first final status written counts, and
        writing it fixes the headers sent; net/http panics on a code outside
        100..999. */
    method WriteHeader(code: int)
      requires Valid() && 100 <= code <= 999
      modifies this
      ensures Valid()
      ensures status == if old(status) == 0 && !IsInterim(code) then code else old(status)
      ensures sent == if old(status) == 0 && !IsInterim(code) then old(header) else old(sent)
      ensures header == old(header) && body == old(body)
    {
      if status == 0 && !IsInterim(code) {
        status := code;
        sent := header;
      }
    }

    /** `Write(data)`: writes a 200 status first if none was written; a
        status that allows no body refuses non-empty data. */
    method Write(data: seq<Byte>) returns (n: nat, err: Option<Fault>)
      requires Valid()
      modifies this
      ensures Valid()
      ensures status == if old(status) == 0 then 200 else old(status)
      ensures sent == if old(status) == 0 then old(header) else old(sent)
      ensures header == old(header)
      ensures data == [] || BodyAllowed(status) ==> n == |data| && err == None && body == old(body) + data
      ensures data != [] && !BodyAllowed(status) ==> n == 0 && err == Some(BodyNotAllowed) && body == old(body)
    {
      WriteHeader(200);
      if data == [] {
        return 0, None;
      }
      if !BodyAllowed(status) {
        return 0, Some(BodyNotAllowed);
      }
      body := body + data;
      return |data|, None;
    }
  }

  /** The blob as http.go uses it: the outcomes of `ContentType()` and
      `Size()`, and the reader `Data`, which delivers `content` from
      `cursor` on and then ends with EOF (`ending == None`) or with an
      error. */
  class Blob {
    const contentType: Result<string, Fault>
    const size: Result<int, Fault>
    const content: seq<Byte>
    const ending: Option<Fault>
    var cursor: nat

    ghost predicate Valid()
      reads this
    {
      cursor <= |content|
    }

    constructor (contentType: Result<string, Fault>, size: Result<int, Fault>,
                 content: seq<Byte>, ending: Option<Fault>)
      ensures Valid() && cursor == 0
      ensures this.contentType == contentType && this.size == size
      ensures this.content == content && this.ending == ending
    {
      this.contentType, this.size := contentType, size;
      this.content, this.ending := content, ending;
      cursor := 0;
    }

    /** `Data.Read` into a buffer of `max` bytes. */
    method Read(max: nat) returns (chunk: seq<Byte>, status: ReadStatus)
      requires Valid() && max > 0
      modifies this`cursor
      ensures Valid()
      ensures old(cursor) < |content| ==>
        status == Progress && old(cursor) < cursor <= old(cursor) + max &&
        chunk == content[old(cursor)..cursor]
      ensures old(cursor) == |content| ==>
        chunk == [] && cursor == old(cursor) &&
        status == if ending.None? then EndOfFile else Failed(ending.value)
    {
      if cursor < |content| {
        var next := if cursor + max <= |content| then cursor + max else |content|;
        chunk, status := content[cursor..next], Progress;
        cursor := next;
      } else {
        chunk := [];
        status := if ending.None? then EndOfFile else Failed(ending.value);
      }
    }
  }

  /** `io.Copy(w, b.Data)`: writes every byte the reader delivers, in
      order, and returns how many it wrote and the reader's error (EOF is
      not one). A status already written that allows no body makes the
      first write fail, and that error ends the copy. */
  method Copy(w: Response, b: Blob) returns (written: int, err: Option<Fault>)
    requires w.Valid() && b.Valid()
    modifies w, b`cursor
    ensures w.Valid() && b.Valid()
    ensures w.header == old(w.header)
    ensures old(w.status) != 0 && !BodyAllowed(old(w.status)) && old(b.cursor) < |b.content| ==>
      && written == 0 && err == Some(BodyNotAllowed) && old(b.cursor) < b.cursor
      && w.body == old(w.body) && w.status == old(w.status) && w.sent == old(w.sent)
    ensures !(old(w.status) != 0 && !BodyAllowed(old(w.status)) && old(b.cursor) < |b.content|) ==>
      && b.cursor == |b.content|
      && written == |b.content| - old(b.cursor)
      && err == b.ending
      && w.body == old(w.body) + b.content[old(b.cursor)..]
      && w.status == (if old(w.status) == 0 && written > 0 then 200 else old(w.status))
      && w.sent == (if old(w.status) == 0 && written > 0 then old(w.header) else old(w.sent))
  {
    written := 0;
    while true
      invariant w.Valid() && b.Valid() && old(b.cursor) <= b.cursor
      invariant written == b.cursor - old(b.cursor)
      invariant w.body == old(w.body) + b.content[old(b.cursor)..b.cursor]
      invariant w.header == old(w.header)
      invariant w.status == if old(w.status) == 0 && written > 0 then 200 else old(w.status)
      invariant w.sent == if old(w.status) == 0 && written > 0 then old(w.header) else old(w.sent)
      invariant old(w.status) != 0 && !BodyAllowed(old(w.status)) ==> b.cursor == old(b.cursor)
      decreases |b.content| - b.cursor
    {
      var chunk, status := b.Read(CopyBufferSize);
      if |chunk| > 0 {
        var n, writeErr := w.Write(chunk);
        written := written + n;
        if writeErr.Some? {
          return written, writeErr;
        }
      }
      match status
      case Progress =>
      case EndOfFile =>
        return written, None;
      case Failed(e) =>
        return written, Some(e);
    }
  }

  /** The header map after `WriteBlob` sets its two framing headers. */
  function FramedHeader(h: map<string, seq<string>>, contentType: string, size: int): (r: map<string, seq<string>>)
    ensures ContentTypeHeader in r && r[ContentTypeHeader] == [contentType]
    ensures ContentLengthHeader in r && r[ContentLengthHeader] == [Decimal.FormatInt(size)]
    ensures Decimal.ParseInt(r[ContentLengthHeader][0]) == size
    ensures forall k :: k in h && k != ContentTypeHeader && k != ContentLengthHeader ==> k in r && r[k] == h[k]
    ensures forall k :: k in r ==> k in h || k == ContentTypeHeader || k == ContentLengthHeader
  {
    Decimal.FormatIntRoundTrip(size);
    h[ContentTypeHeader := [contentType]][ContentLengthHeader := [Decimal.FormatInt(size)]]
  }

  /** `WriteBlob`: the content type, then the size, each returning its error
      untouched before anything is written; then both headers, which the
      response goes out with unless a status was written before; then the
      copy, whose error is returned untouched; success only when the copy
      wrote exactly the declared size. */
  method WriteBlob(w: Response, b: Blob) returns (err: Option<Fault>)
    requires w.Valid() && b.Valid()
    modifies w, b`cursor
    ensures w.Valid() && b.Valid()
    ensures b.contentType.Err? ==>
      err == Some(b.contentType.error) && unchanged(w) && b.cursor == old(b.cursor)
    ensures b.contentType.Ok? && b.size.Err? ==>
      err == Some(b.size.error) && unchanged(w) && b.cursor == old(b.cursor)
    ensures b.contentType.Ok? && b.size.Ok? ==>
      var framed := FramedHeader(old(w.header), b.contentType.value, b.size.value);
      var refused := old(w.status) != 0 && !BodyAllowed(old(w.status)) && old(b.cursor) < |b.content|;
      var written := |b.content| - old(b.cursor);
      && w.header == framed
      && (old(w.status) == 0 ==> w.Outgoing() == framed)
      && (old(w.status) != 0 ==> w.status == old(w.status) && w.sent == old(w.sent))
      && (refused ==>
            err == Some(BodyNotAllowed) && w.body == old(w.body) && old(b.cursor) < b.cursor)
      && (!refused ==>
            && w.body == old(w.body) + b.content[old(b.cursor)..]
            && w.status == (if old(w.status) == 0 && written > 0 then 200 else old(w.status))
            && b.cursor == |b.content|
            && err == (if b.ending.Some? then b.ending
                       else if written != b.size.value then Some(SizeMismatch(b.size.value, written))
                       else None))
    ensures err == None <==>
      && b.contentType.Ok? && b.size.Ok? && b.ending == None
      && !(old(w.status) != 0 && !BodyAllowed(old(w.status)) && old(b.cursor) < |b.content|)
      && |b.content| - old(b.cursor) == b.size.value
    ensures err == None && old(w.status) == 0 ==>
      && ContentLengthHeader in w.Outgoing() && |w.Outgoing()[ContentLengthHeader]| == 1
      && Decimal.IsIntText(w.Outgoing()[ContentLengthHeader][0])
      && Decimal.ParseInt(w.Outgoing()[ContentLengthHeader][0]) == |w.body| - |old(w.body)|
  {
    if b.contentType.Err? {
      return Some(b.contentType.error);
    }
    var ct := b.contentType.value;
    if b.size.Err? {
      return Some(b.size.error);
    }
    var size := b.size.value;
    w.Set(ContentTypeHeader, ct);
    w.Set(ContentLengthHeader, Decimal.FormatInt(size));
    assert w.header == FramedHeader(old(w.header), ct, size);
    var written, copyErr := Copy(w, b);
    if copyErr.Some? {
      return copyErr;
    }
    if written != size {
      return Some(SizeMismatch(size, written));
    }
    Decimal.FormatIntRoundTrip(size);
    return None;
  }

  /** The header map after `http.Error` sets its two headers. */
  function PlainTextHeader(h: map<string, seq<string>>): (r: map<string, seq<string>>)
    ensures ContentTypeHeader in r && r[ContentTypeHeader] == [PlainText]
    ensures ContentTypeOptionsHeader in r && r[ContentTypeOptionsHeader] == ["nosniff"]
    ensures forall k :: k in h && k != ContentTypeHeader && k != ContentTypeOptionsHeader ==> k in r && r[k] == h[k]
    ensures forall k :: k in r ==> k in h || k == ContentTypeHeader || k == ContentTypeOptionsHeader
  {
    h[ContentTypeHeader := [PlainText]][ContentTypeOptionsHeader := ["nosniff"]]
  }

  /** `http.Error(w, error, code)`, as far as this model goes: the two
      headers it sets, the status, and the body `fmt.Fprintln` writes. The
      status is always written, so the headers go out unless a status was
      written before. */
  method HttpError(w: Response, error: seq<Byte>, code: int)
    requires w.Valid() && 100 <= code <= 999
    modifies w
    ensures w.Valid() && w.status != 0
    ensures w.header == PlainTextHeader(old(w.header))
    ensures w.status == FinalStatus(old(w.status), code)
    ensures w.sent == if old(w.status) == 0 then w.header else old(w.sent)
    ensures w.body == if BodyAllowed(w.status) then old(w.body) + error + [Newline] else old(w.body)
  {
    w.Set(ContentTypeHeader, PlainText);
    w.Set(ContentTypeOptionsHeader, "nosniff");
    w.WriteHeader(code);
    var _, _ := w.Write(error + [Newline]);
  }

  /** `WriteError`: a non-empty reason goes into `X-Reason` (BUD-01) before
      the status is written, so it is handed on for sending unless a status
      was written before; an empty one leaves that header as it was. The
      status follows `FinalStatus`: the code if no status was written
      before, 200 for an interim code, otherwise the status already written.
      The message of `http.Error` is empty. */
  method WriteError(w: Response, e: Errors.Error)
    requires w.Valid() && 100 <= e.code <= 999
    modifies w
    ensures w.Valid()
    ensures w.header == PlainTextHeader(if e.reason != "" then old(w.header)[ReasonHeader := [e.reason]] else old(w.header))
    ensures old(w.status) == 0 ==> w.sent == w.header
    ensures old(w.status) == 0 ==>
      (ReasonHeader in w.sent <==> e.reason != "" || ReasonHeader in old(w.header))
    ensures old(w.status) == 0 && e.reason != "" ==> w.sent[ReasonHeader] == [e.reason]
    ensures old(w.status) == 0 && e.reason == "" && ReasonHeader in old(w.header) ==>
      w.sent[ReasonHeader] == old(w.header)[ReasonHeader]
    ensures old(w.status) != 0 ==> w.sent == old(w.sent)
    ensures w.status == FinalStatus(old(w.status), e.code)
    ensures w.body == if BodyAllowed(w.status) then old(w.body) + [Newline] else old(w.body)
  {
    if e.reason != "" {
      w.Set(ReasonHeader, e.reason);
    }
    HttpError(w, [], e.code);
  }
}
