/** A complete response: header list and content in, write buffers out, and what a peer reads
    back from them. */
module Serving {
  import opened Bytes
  import opened Frames
  import opened HeaderTable
  import opened HpackEncoder
  import opened HpackDecoder
  import opened HpackBlocks
  import opened Representations
  import opened Responses

  function HeadersFrame(hs: seq<Header>, sid: uint32): Frame {
    NewFrame(HEADERS_FRAME, END_HEADERS, sid, EncodeBlock(DefaultSensitive(), hs))
  }

  function BodyFrame(content: seq<byte>, sid: uint32): Frame {
    NewFrame(DATA_FRAME, END_STREAM, sid, content)
  }

  function ResponseFrames(hs: seq<Header>, content: seq<byte>, sid: uint32): (fs: seq<Frame>)
    ensures AllSmall(fs) && AllEncodable(fs)
  {
    var fs := Processed([HeadersFrame(hs, sid), BodyFrame(content, sid)]);
    ProcessedIsSmall([HeadersFrame(hs, sid), BodyFrame(content, sid)]);
    fs
  }

  function ResponseBuffers(hs: seq<Header>, content: seq<byte>, sid: uint32): seq<seq<byte>> {
    Buffers(Groups(ResponseFrames(hs, content, sid)))
  }

  /** The common part of `respondGet` and `showErrorPage`: a fresh encoder per response. For
      content of any size the abort on 24-bit lengths is out of reach. */
  method Respond(hs: seq<Header>, content: seq<byte>, sid: uint32) returns (buffers: seq<seq<byte>>)
    requires AllShort(hs)
    ensures buffers == ResponseBuffers(hs, content, sid)
  {
    hide EncodeBlock, Groups, Buffers;
    var encoder := new Encoder();
    var encodedHeaders := encoder.EncodeAll(hs, []);
    assert [] + EncodeBlock(DefaultSensitive(), hs) == EncodeBlock(DefaultSensitive(), hs);
    var headerFrame := NewFrame(HEADERS_FRAME, END_HEADERS, sid, encodedHeaders);
    var dataFrame := NewFrame(DATA_FRAME, END_STREAM, sid, content);
    var response := new Response();
    response.AddFrame(headerFrame);
    response.AddFrame(dataFrame);
    assert response.frames == [headerFrame, dataFrame];
    response.ProcessFrames();
    assert response.frames == ResponseFrames(hs, content, sid);
    buffers := response.EncodeFrames();
  }

  /** The six headers of a page, or the five of an error page, never make the header frame too
      long to stay in one piece; seventeen would still fit. */
  lemma HeadersFit(hs: seq<Header>, sid: uint32)
    requires AllShort(hs) && |hs| <= 17
    ensures |HeadersFrame(hs, sid).payload| + 9 <= MAX_FRAME_SIZE
    ensures ProcessOne(HeadersFrame(hs, sid)) == [HeadersFrame(hs, sid)]
  {
    BlockLength(DefaultSensitive(), hs);
  }

  lemma ResponseFramesAre(hs: seq<Header>, content: seq<byte>, sid: uint32)
    requires AllShort(hs) && |hs| <= 17
    ensures ResponseFrames(hs, content, sid) == [HeadersFrame(hs, sid)] + ProcessOne(BodyFrame(content, sid))
  {
    hide EncodeBlock, ProcessOne;
    HeadersFit(hs, sid);
    var h, d := HeadersFrame(hs, sid), BodyFrame(content, sid);
    assert [h, d][..1] == [h] && [h][..0] == [];
    assert Processed([h]) == Processed([]) + ProcessOne(h) == [h];
  }

  /** `data` is the content on stream `sid`, END_STREAM on the last frame and no other flag. */
  ghost predicate IsBody(data: seq<Frame>, content: seq<byte>, sid: uint32) {
    && |data| > 0
    && Joined(data) == content
    && (forall i :: 0 <= i < |data| - 1 ==> |data[i].payload| == MAX_FRAME_SIZE)
    && forall i :: 0 <= i < |data| ==>
         && 0 < |data[i].payload| <= MAX_FRAME_SIZE
         && data[i] == NewFrame(DATA_FRAME, if i == |data| - 1 then END_STREAM else 0, sid, data[i].payload)
  }

  lemma BodyFramesAre(content: seq<byte>, sid: uint32)
    requires |content| > 0
    ensures IsBody(ProcessOne(BodyFrame(content, sid)), content, sid)
  {
    var f := BodyFrame(content, sid);
    var data := ProcessOne(f);
    if |content| > MAX_FRAME_SIZE {
      SplitCarries(f);
      ChunksFacts(content);
      forall i | 0 <= i < |data|
        ensures 0 < |data[i].payload| <= MAX_FRAME_SIZE
        ensures data[i] == NewFrame(DATA_FRAME, if i == |data| - 1 then END_STREAM else 0, sid, data[i].payload)
      {
        assert data[i] in data;
      }
    } else {
      assert data[1..] == [];
    }
  }

  /** A response as RFC 7540, section 8.1, lays it out: a HEADERS frame (1) with END_HEADERS and
      without END_STREAM, then DATA frames (0) that carry the content, of which the last one, and
      no other, ends the stream, and the others are of one size; none is longer than any peer accepts. */
  ghost predicate IsMessage(fs: seq<Frame>, content: seq<byte>, sid: uint32) {
    && |fs| >= 2
    && fs[0].kind == 1 && fs[0].flags == 0x04
    && (forall i :: 1 <= i < |fs| ==> fs[i].kind == 0 && fs[i].flags == if i == |fs| - 1 then 0x01 else 0x00)
    && (forall i :: 1 <= i < |fs| ==> |fs[i].payload| > 0)
    && (forall i :: 1 <= i < |fs| - 1 ==> |fs[i].payload| == 16369)
    && (forall f <- fs :: f.sid == sid && |f.payload| <= 16384)
    && Joined(fs[1..]) == content
  }

  lemma ResponseIsMessage(hs: seq<Header>, content: seq<byte>, sid: uint32)
    requires AllShort(hs) && |hs| <= 17 && |content| > 0
    ensures IsMessage(ResponseFrames(hs, content, sid), content, sid)
    ensures ResponseFrames(hs, content, sid)[0].payload == EncodeBlock(DefaultSensitive(), hs)
  {
    hide EncodeBlock, ProcessOne, Joined, IsBody, IsMessage, ResponseFrames;
    ResponseFramesAre(hs, content, sid);
    HeadersFit(hs, sid);
    BodyFramesAre(content, sid);
    MessageOf(HeadersFrame(hs, sid), ProcessOne(BodyFrame(content, sid)), content, sid);
  }

  lemma MessageOf(first: Frame, data: seq<Frame>, content: seq<byte>, sid: uint32)
    requires first.kind == 1 && first.flags == 0x04 && first.sid == sid && |first.payload| <= 16384
    requires IsBody(data, content, sid)
    ensures IsMessage([first] + data, content, sid)
  {
    hide Joined;
    var fs := [first] + data;
    assert fs[1..] == data;
    forall i | 1 <= i < |fs|
      ensures fs[i].kind == 0 && fs[i].flags == if i == |fs| - 1 then 0x01 else 0x00
      ensures fs[i].sid == sid && 0 < |fs[i].payload| <= 16384
    {
      assert fs[i] == data[i - 1];
    }
  }

  /** Whatever the content, the joined buffers read back as a message with that content, and its
      block is the header list that was to be sent: by RFC 7541, and for the decoder at hand. */
  lemma EndToEnd(hs: seq<Header>, content: seq<byte>, sid: uint32, t: Table)
    requires AllShort(hs) && |hs| <= 17 && |content| > 0 && sid < 0x8000_0000
    ensures var r := Segment(Flatten(ResponseBuffers(hs, content, sid)));
            && r.defined && |r.frames| >= 2
            && r.frames[0] == HeadersFrame(hs, sid)
            && DecodeBlock(t, r.frames[0].payload)
                 == Result(Accepted, hs, TableAfterAll(DefaultSensitive(), t, hs))
            && IsBody(r.frames[1..], content, sid)
            && IsMessage(r.frames, content, sid)
            && Says(r.frames[0].payload, hs)
  {
    hide EncodeBlock, ProcessOne, Groups, Buffers, EncodeFrames, Segment, DecodeBlock, TableAfterAll, IsBody;
    hide IsMessage, Says;
    var fs := ResponseFrames(hs, content, sid);
    ResponseIsMessage(hs, content, sid);
    BlockSays(DefaultSensitive(), hs);
    ResponseFramesAre(hs, content, sid);
    BodyFramesAre(content, sid);
    GroupsPartition(fs);
    FlattenBuffers(Groups(fs));
    ResponseIsPlain(hs, content, sid);
    SegmentRoundTrip(fs);
    BlockRoundTrip(DefaultSensitive(), t, hs);
    assert fs[1..] == ProcessOne(BodyFrame(content, sid));
    BodyNotEmpty(fs[1..], content, sid);
  }

  lemma BodyNotEmpty(data: seq<Frame>, content: seq<byte>, sid: uint32)
    requires IsBody(data, content, sid)
    ensures |data| > 0
  {
  }

  lemma ResponseIsPlain(hs: seq<Header>, content: seq<byte>, sid: uint32)
    requires AllShort(hs) && |hs| <= 17 && |content| > 0 && sid < 0x8000_0000
    ensures forall f <- ResponseFrames(hs, content, sid) :: Plain(f)
  {
    hide EncodeBlock, ProcessOne;
    var data := ProcessOne(BodyFrame(content, sid));
    ResponseFramesAre(hs, content, sid);
    HeadersFit(hs, sid);
    BodyFramesAre(content, sid);
    forall f | f in ResponseFrames(hs, content, sid)
      ensures Plain(f)
    {
      if f != HeadersFrame(hs, sid) {
        var i :| 0 <= i < |data| && f == data[i];
      }
    }
  }

  /** No write is empty, and none is longer than one full frame. */
  lemma WritesAreSmall(hs: seq<Header>, content: seq<byte>, sid: uint32)
    requires AllShort(hs) && |hs| <= 17
    ensures forall b <- ResponseBuffers(hs, content, sid) :: 0 < |b| <= MAX_FRAME_SIZE + 9
  {
    hide EncodeBlock, ProcessOne, Groups, EncodeFrames, EncodedSize;
    var fs := ResponseFrames(hs, content, sid);
    var groups := Groups(fs);
    ResponseFramesAre(hs, content, sid);
    HeadersFit(hs, sid);
    BatchingBounds(fs);
    forall i | 0 <= i < |groups|
      ensures 0 < |Buffers(groups)[i]| <= MAX_FRAME_SIZE + 9
    {
      var g := groups[i];
      assert g in groups;
      EncodedSizeIsLength(g);
      assert i > 0 ==> Overflowed(groups[i - 1], g);
      NonEmptySize(g);
    }
  }

  lemma NonEmptySize(g: seq<Frame>)
    ensures |g| > 0 ==> EncodedSize(g) > 0
  {
  }

  // ---------------------------------------------------------------- answering a request

  /** What the file system makes of a path: `getContent` and `getErrorPage` of the web binder. */
  datatype Page = Page(content: seq<byte>, mimeType: seq<byte>)

  /** `std::to_string` */
  function Decimal(n: nat): seq<byte> {
    if n < 10 then [0x30 + n] else Decimal(n / 10) + [0x30 + n % 10]
  }

  /** The first header with that name has that value. */
  ghost predicate FirstIs(headers: seq<Header>, name: seq<byte>, value: seq<byte>) {
    exists i :: 0 <= i < |headers| && headers[i] == Header(name, value)
                && forall j :: 0 <= j < i ==> headers[j].name != name
  }

  lemma FirstIsLater(headers: seq<Header>, name: seq<byte>, value: seq<byte>)
    requires |headers| > 0 && headers[0].name != name && FirstIs(headers[1..], name, value)
    ensures FirstIs(headers, name, value)
  {
    var rest := headers[1..];
    var i :| 0 <= i < |rest| && rest[i] == Header(name, value) && forall j :: 0 <= j < i ==> rest[j].name != name;
    assert headers[i + 1] == Header(name, value);
    assert forall j :: 1 <= j < i + 1 ==> headers[j] == rest[j - 1];
  }

  /** `Headers::first` */
  function FirstValue(headers: seq<Header>, name: seq<byte>): (r: Option<seq<byte>>)
    ensures r.None? <==> forall h <- headers :: h.name != name
    ensures r.Some? ==> FirstIs(headers, name, r.value)
  {
    if |headers| == 0 then None
    else if headers[0].name == name then
      assert headers[0] == Header(name, headers[0].value);
      Some(headers[0].value)
    else
      var r := FirstValue(headers[1..], name);
      assert r.Some? ==> FirstIs(headers, name, r.value) by {
        if r.Some? {
          FirstIsLater(headers, name, r.value);
        }
      }
      assert headers == [headers[0]] + headers[1..];
      r
  }

  function PageHeaders(path: seq<byte>, page: Page): seq<Header> {
    [
      Text(":status", "200"), Text("cache-control", "private"),
      Header(Ascii("content-type"), page.mimeType),
      Header(Ascii("content-length"), Decimal(|page.content|)),
      Header(Ascii("location"), path), Text("server", "HTTP2Server/1.0")
    ]
  }

  function ErrorHeaders(code: nat, page: Page): seq<Header> {
    [
      Header(Ascii(":status"), Decimal(code)), Text("cache-control", "private"),
      Header(Ascii("content-type"), page.mimeType),
      Header(Ascii("content-length"), Decimal(|page.content|)),
      Text("server", "HTTP2Server/1.0")
    ]
  }

  /** Buffers are sent one after the other until one is refused; `takes` gives the results of the
      writes. */
  ghost predicate SentInTurn(buffers: seq<seq<byte>>, takes: nat -> int, sent: seq<seq<byte>>, ok: bool) {
    && sent <= buffers
    && (forall i: nat :: i + 1 < |sent| ==> takes(i) >= 0)
    && (ok <==> sent == buffers && forall i: nat :: i < |sent| ==> takes(i) >= 0)
    && (!ok ==> |sent| > 0 && takes(|sent| - 1) < 0)
  }

  /** The send loop of `respondGet` and `showErrorPage`. */
  method SendAll(buffers: seq<seq<byte>>, takes: nat -> int) returns (ok: bool, sent: seq<seq<byte>>)
    ensures SentInTurn(buffers, takes, sent, ok)
  {
    sent := [];
    var i := 0;
    while i < |buffers|
      invariant 0 <= i <= |buffers| && sent == buffers[..i]
      invariant forall j: nat :: j < i ==> takes(j) >= 0
    {
      sent := sent + [buffers[i]];
      if takes(i) < 0 {
        return false, sent;
      }
      i := i + 1;
    }
    ok := true;
  }

  /** The encoder aborts the process on a header list that is not `AllShort`, before anything is
      sent. */
  method RespondGet(headers: seq<Header>, sid: uint32, site: seq<byte> -> Page, takes: nat -> int)
    returns (aborted: bool, ok: bool, sent: seq<seq<byte>>)
    ensures var path := FirstValue(headers, Ascii(":path"));
            if path.None? || |site(path.value).content| == 0 then !aborted && !ok && sent == []
            else
              var page := site(path.value);
              var hs := PageHeaders(path.value, page);
              && (aborted <==> !AllShort(hs))
              && (!aborted ==> SentInTurn(ResponseBuffers(hs, page.content, sid), takes, sent, ok))
  {
    hide ResponseBuffers, SentInTurn, PageHeaders, FirstValue, Short;
    aborted, ok, sent := false, false, [];
    var path := FirstValue(headers, Ascii(":path"));
    if path.None? {
      return;
    }
    var page := site(path.value);
    if |page.content| == 0 {
      return;
    }
    var hs := PageHeaders(path.value, page);
    if !AllShort(hs) {
      aborted := true;
      return;
    }
    var buffers := Respond(hs, page.content, sid);
    ok, sent := SendAll(buffers, takes);
  }

  method ShowErrorPage(code: nat, page: Page, sid: uint32, takes: nat -> int)
    returns (aborted: bool, ok: bool, sent: seq<seq<byte>>)
    ensures if |page.content| == 0 then !aborted && !ok && sent == []
            else
              var hs := ErrorHeaders(code, page);
              && (aborted <==> !AllShort(hs))
              && (!aborted ==> SentInTurn(ResponseBuffers(hs, page.content, sid), takes, sent, ok))
  {
    hide ResponseBuffers, SentInTurn, ErrorHeaders, Short;
    aborted, ok, sent := false, false, [];
    if |page.content| == 0 {
      return;
    }
    var hs := ErrorHeaders(code, page);
    if !AllShort(hs) {
      aborted := true;
      return;
    }
    var buffers := Respond(hs, page.content, sid);
    ok, sent := SendAll(buffers, takes);
  }

  function Pow10(k: nat): nat {
    if k == 0 then 1 else 10 * Pow10(k - 1)
  }

  /** Decimal digits, read from left to right. */
  function ReadDecimal(digits: seq<byte>): int {
    if |digits| == 0 then 0
    else 10 * ReadDecimal(digits[..|digits| - 1]) + (digits[|digits| - 1] as int - 0x30)
  }

  /** Only digits, and none too many. */
  predicate IsNumeral(digits: seq<byte>) {
    && |digits| > 0
    && (forall c <- digits :: '0' as int <= c <= '9' as int)
    && (|digits| > 1 ==> digits[0] != '0' as int)
  }

  lemma {:induction false} DecimalReads(n: nat)
    ensures IsNumeral(Decimal(n)) && ReadDecimal(Decimal(n)) == n
    ensures n > 0 ==> Decimal(n)[0] != '0' as int
  {
    if n >= 10 {
      DecimalReads(n / 10);
      assert Decimal(n)[..|Decimal(n)| - 1] == Decimal(n / 10);
    } else {
      assert [0x30 + n][..0] == [];
    }
  }

  /** The first header with the name is this number. */
  ghost predicate FirstNumber(headers: seq<Header>, name: seq<byte>, n: nat) {
    exists v: seq<byte> :: FirstIs(headers, name, v) && IsNumeral(v) && ReadDecimal(v) == n
  }

  /** What the headers say of a page: the status, the type and length of the content, that only the
      client itself may keep it, and who sent it. */
  ghost predicate Describes(headers: seq<Header>, code: nat, page: Page) {
    && FirstNumber(headers, Ascii(":status"), code)
    && FirstIs(headers, Ascii("content-type"), page.mimeType)
    && FirstNumber(headers, Ascii("content-length"), |page.content|)
    && FirstIs(headers, Ascii("cache-control"), Ascii("private"))
    && FirstIs(headers, Ascii("server"), Ascii("HTTP2Server/1.0"))
  }

  lemma FirstAt(headers: seq<Header>, i: nat)
    requires i < |headers| && forall j :: 0 <= j < i ==> |headers[j].name| != |headers[i].name|
    ensures FirstIs(headers, headers[i].name, headers[i].value)
  {
  }

  lemma TwoHundred()
    ensures IsNumeral(Ascii("200")) && ReadDecimal(Ascii("200")) == 200
  {
    var d := Ascii("200");
    assert d == [0x32, 0x30, 0x30];
    assert d[..2] == [0x32, 0x30] && d[..2][..1] == [0x32] && d[..1][..0] == [];
    assert ReadDecimal(d[..1]) == 2;
    assert ReadDecimal(d[..2]) == 20;
  }

  lemma PageDescribed(path: seq<byte>, page: Page)
    ensures Describes(PageHeaders(path, page), 200, page)
    ensures FirstIs(PageHeaders(path, page), Ascii("location"), path)
  {
    hide Decimal, IsNumeral, ReadDecimal, FirstIs;
    var hs := PageHeaders(path, page);
    TwoHundred();
    DecimalReads(|page.content|);
    FirstAt(hs, 0);
    FirstAt(hs, 2);
    FirstAt(hs, 1);
    FirstAt(hs, 3);
    FirstAt(hs, 4);
    FirstAt(hs, 5);
  }

  lemma ErrorDescribed(code: nat, page: Page)
    ensures Describes(ErrorHeaders(code, page), code, page)
  {
    hide Decimal, IsNumeral, ReadDecimal, FirstIs;
    var hs := ErrorHeaders(code, page);
    DecimalReads(code);
    DecimalReads(|page.content|);
    FirstAt(hs, 0);
    FirstAt(hs, 1);
    FirstAt(hs, 2);
    FirstAt(hs, 3);
    FirstAt(hs, 4);
  }

  lemma {:induction false} DecimalLength(n: nat, k: nat)
    requires k >= 1
    ensures |Decimal(n)| > k <==> n >= Pow10(k)
    decreases k
  {
    if n < 10 {
      Pow10AtLeast(k);
    } else if k == 1 {
      assert Pow10(1) == 10 * Pow10(0) == 10;
    } else {
      DecimalLength(n / 10, k - 1);
    }
  }

  lemma {:induction false} Pow10AtLeast(k: nat)
    requires k >= 1
    ensures Pow10(k) >= 10
  {
    if k > 1 {
      Pow10AtLeast(k - 1);
    }
  }

  /** A GET makes the process abort exactly when it finds a page and the path, as the peer sent it,
      or the page's MIME type has 127 bytes or more, or the content 10^126. */
  lemma AbortsExactly(path: seq<byte>, page: Page)
    ensures !AllShort(PageHeaders(path, page)) <==>
            |path| >= 127 || |page.mimeType| >= 127 || |page.content| >= Pow10(126)
  {
    hide Decimal, Pow10;
    DecimalLength(|page.content|, 126);
    var hs := PageHeaders(path, page);
    assert |hs| == 6;
    assert Short(hs[0]) && Short(hs[1]) && Short(hs[5]);
    assert AllShort(hs) <==> Short(hs[2]) && Short(hs[3]) && Short(hs[4]) by {
      assert (forall h <- hs :: Short(h)) <==> forall i :: 0 <= i < 6 ==> Short(hs[i]);
    }
  }

  /** The frames of a page: its headers, then its content. */
  lemma PageFrames(path: seq<byte>, page: Page, sid: uint32, t: Table)
    requires AllShort(PageHeaders(path, page)) && |page.content| > 0
    ensures var fs := ResponseFrames(PageHeaders(path, page), page.content, sid);
            && |fs| >= 2
            && fs[0] == HeadersFrame(PageHeaders(path, page), sid)
            && DecodeBlock(t, fs[0].payload).outcome == Accepted
            && DecodeBlock(t, fs[0].payload).headers == PageHeaders(path, page)
            && IsBody(fs[1..], page.content, sid)
            && IsMessage(fs, page.content, sid) && Says(fs[0].payload, PageHeaders(path, page))
  {
    hide IsMessage, Says, ResponseFrames, DecodeBlock, EncodeBlock, AllShort, TableAfterAll, ProcessOne, IsBody;
    assert |PageHeaders(path, page)| == 6;
    hide PageHeaders;
    var hs := PageHeaders(path, page);
    ResponseIsMessage(hs, page.content, sid);
    BlockSays(DefaultSensitive(), hs);
    ResponseFramesAre(hs, page.content, sid);
    BodyFramesAre(page.content, sid);
    BlockRoundTrip(DefaultSensitive(), t, hs);
    var data := ProcessOne(BodyFrame(page.content, sid));
    BodyNotEmpty(data, page.content, sid);
    assert ([HeadersFrame(hs, sid)] + data)[1..] == data;
  }
}
