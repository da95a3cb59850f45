/** The multipart/x-mixed-replace body of the camera upload (section 5.1.1 of RFC 2046) inside chunked
    coding: what the upload task writes for a sequence of frames, a recipient that cuts each part by
    its Content-Length, and the proof that the two are inverse. */
module MultipartStream {
  import opened Numerals
  import opened ChunkedCoding

  /** The Content-Type field that the sender puts on the request. */
  const CONTENT_TYPE := "multipart/x-mixed-replace; boundary=frame"

  // ---------- The sender ----------

  const DELIMITER := "--frame"
  const BOUNDARY_LINE := DELIMITER + CRLF
  const PART_TAIL := CRLF + BOUNDARY_LINE

  const TYPE_LINE := "Content-Type: image/jpeg"
  const LENGTH_NAME := "Content-Length:"

  function PartHeader(length: nat): string {
    (TYPE_LINE + CRLF) + (LengthLine(length) + CRLF) + CRLF
  }

  function LengthLine(length: nat): string { LENGTH_NAME + " " + Dec(length) }

  /** The part header, spelled out. */
  lemma HeaderText(length: nat)
    ensures PartHeader(length) == "Content-Type: image/jpeg\r\nContent-Length: " + Dec(length) + "\r\n\r\n"
  {
    assert TYPE_LINE + CRLF + (LENGTH_NAME + " ") == "Content-Type: image/jpeg\r\nContent-Length: ";
    assert PartHeader(length) == TYPE_LINE + CRLF + (LENGTH_NAME + " ") + Dec(length) + (CRLF + CRLF);
  }

  /** The part header always fits its 128-byte buffer, so the source's size check skips no frame. */
  lemma PartHeaderFits(length: nat)
    requires length < 0x1_0000_0000
    ensures 0 < |PartHeader(length)| < 128
  {
    Printed32(length);
  }

  /** The three chunks of one frame. */
  function PartChunks(frame: string): string {
    Chunk(PartHeader(|frame|)) + Chunk(frame) + Chunk(PART_TAIL)
  }

  /** Everything one connection carries after `frames` were committed on it. */
  function StreamOf(frames: seq<string>): string {
    if frames == [] then Chunk(BOUNDARY_LINE)
    else StreamOf(frames[..|frames| - 1]) + PartChunks(frames[|frames| - 1])
  }

  // ---------- The recipient ----------

  /** What comes after the first `mark` in `s`. */
  function AfterMark(s: string, mark: string): Option<string> {
    if mark <= s then Some(s[|mark|..])
    else if s == "" then None
    else AfterMark(s[1..], mark)
  }

  /** A parameter value that is a token: up to the next separator. */
  function Token(s: string): string {
    if s == "" || s[0] == ';' || s[0] == ' ' then "" else [s[0]] + Token(s[1..])
  }

  /** The boundary delimiter that a multipart media type announces: "--" and its boundary parameter. */
  function DelimiterOf(contentType: string): Option<string> {
    if !("multipart/" <= contentType) then None else
    match AfterMark(contentType, "boundary=")
    case None => None
    case Some(rest) => Some("--" + Token(rest))
  }

  datatype LineKind =
    | Delimiter                                  // a boundary delimiter line is due
    | Header(length: Option<nat>, isJpeg: bool)  // a header line, or the blank line that ends the headers
    | Gap                                        // the CRLF that belongs to the next delimiter is due

  datatype PartPhase =
    | Line(kind: LineKind, text: string)
    | Content(left: nat, content: string)
    | Closed                          // the close-delimiter was read
    | Bad

  /** A server that takes JPEG parts with a Content-Length. */
  datatype Splitter = Splitter(delimiter: string, phase: PartPhase, frames: seq<string>)

  function Start(contentType: string): Splitter {
    match DelimiterOf(contentType)
    case None => Splitter("", Bad, [])
    case Some(delimiter) => Splitter(delimiter, Line(Delimiter, ""), [])
  }

  /** The value of a field line, without the blanks in front of it. */
  function SkipBlanks(s: string): string {
    if s != "" && s[0] == ' ' then SkipBlanks(s[1..]) else s
  }

  function BeginContent(delimiter: string, n: nat, frames: seq<string>): Splitter {
    if n == 0 then Splitter(delimiter, Line(Gap, ""), frames + [""]) else Splitter(delimiter, Content(n, ""), frames)
  }

  function EndOfLine(delimiter: string, kind: LineKind, line: string, frames: seq<string>): Splitter {
    match kind
    case Delimiter =>
      Splitter(delimiter, if line == delimiter then Line(Header(None, false), "")
                          else if line == delimiter + "--" then Closed else Bad, frames)
    case Gap => Splitter(delimiter, if line == "" then Line(Delimiter, "") else Bad, frames)
    case Header(length, isJpeg) =>
      if line == "" then
        if length.Some? && isJpeg then BeginContent(delimiter, length.value, frames)
        else Splitter(delimiter, Bad, frames)
      else Splitter(delimiter, HeaderLine(length, isJpeg, line), frames)
  }

  function HeaderLine(length: Option<nat>, isJpeg: bool, line: string): PartPhase {
    if "Content-Length:" <= line then
      var v := SkipBlanks(line[|"Content-Length:"|..]);
      if v != "" && AllDigits(v) then Line(Header(Some(DecValue(v)), isJpeg), "") else Bad
    else Line(Header(length, isJpeg || line == "Content-Type: image/jpeg"), "")
  }

  function SplitByte(s: Splitter, c: char): Splitter {
    match s.phase
    case Line(kind, text) =>
      if c == '\n' && text != "" && text[|text| - 1] == '\r'
      then EndOfLine(s.delimiter, kind, text[..|text| - 1], s.frames)
      else s.(phase := Line(kind, text + [c]))
    case Content(left, content) =>
      if left <= 1 then s.(phase := Line(Gap, ""), frames := s.frames + [content + [c]])
      else s.(phase := Content(left - 1, content + [c]))
    case Closed => s
    case Bad => s
  }

  function SplitFrom(s: Splitter, body: string): Splitter {
    if body == "" then s else SplitByte(SplitFrom(s, body[..|body| - 1]), body[|body| - 1])
  }

  /** The frames a server has received in full when `wire` has arrived on a connection whose request has
      that Content-Type. */
  function Received(contentType: string, wire: string): seq<string> {
    SplitFrom(Start(contentType), Dechunk(wire).body).frames
  }

  /** The recipient of `wire` still expects frames: neither layer has ended or found an error. */
  predicate Live(contentType: string, wire: string) {
    && Open(Dechunk(wire))
    && var p := SplitFrom(Start(contentType), Dechunk(wire).body).phase;
       !p.Closed? && !p.Bad?
  }

  lemma {:induction false} MarkIsFound(before: string, mark: string, rest: string)
    requires mark != "" && mark[0] !in before
    ensures AfterMark(before + mark + rest, mark) == Some(rest)
  {
    var s := before + mark + rest;
    if before == "" {
      assert s == mark + rest;
    } else {
      assert s[0] == before[0] && s[1..] == before[1..] + mark + rest;
      MarkIsFound(before[1..], mark, rest);
    }
  }

  lemma {:induction false} WholeToken(s: string)
    requires ';' !in s && ' ' !in s
    ensures Token(s) == s
  {
    if s != "" { WholeToken(s[1..]); }
  }

  /** The boundary of a media type that has no other parameter before it. */
  lemma BoundaryIsFound(before: string, value: string)
    requires "multipart/" <= before && 'b' !in before && ';' !in value && ' ' !in value
    ensures DelimiterOf(before + "boundary=" + value) == Some("--" + value)
  {
    hide AfterMark, Token;
    MarkIsFound(before, "boundary=", value);
    WholeToken(value);
  }

  lemma SenderBoundary() returns (before: string, value: string)
    ensures CONTENT_TYPE == before + "boundary=" + value && "multipart/" <= before && "--" + value == DELIMITER
    ensures 'b' !in before && ';' !in value && ' ' !in value
  {
    before, value := "multipart/x-mixed-replace; ", "frame";
  }

  /** The sender's delimiter is the one its Content-Type announces. */
  lemma DelimiterIsAnnounced()
    ensures DelimiterOf(CONTENT_TYPE) == Some(DELIMITER)
  {
    hide DelimiterOf;
    var before, value := SenderBoundary();
    BoundaryIsFound(before, value);
  }

  /** The recipient of the sender's stream, inside a line or inside a frame. */
  function AtLine(kind: LineKind, text: string, frames: seq<string>): Splitter {
    Splitter(DELIMITER, Line(kind, text), frames)
  }

  function InContent(left: nat, content: string, frames: seq<string>): Splitter {
    Splitter(DELIMITER, Content(left, content), frames)
  }

  lemma StartsWithDelimiter()
    ensures Start(CONTENT_TYPE) == AtLine(Delimiter, "", [])
  {
    hide DelimiterOf;
    DelimiterIsAnnounced();
  }

  // ---------- The recipient only moves forward ----------

  lemma {:induction false} SplitConcat(s: Splitter, a: string, b: string)
    ensures SplitFrom(s, a + b) == SplitFrom(SplitFrom(s, a), b)
  {
    if b == "" {
      assert a + b == a;
    } else {
      SplitConcat(s, a, b[..|b| - 1]);
      assert (a + b)[..|a + b| - 1] == a + b[..|b| - 1];
    }
  }

  lemma {:induction false} SplitMonotone(s: Splitter, more: string)
    ensures s.frames <= SplitFrom(s, more).frames
    ensures s.phase.Closed? || s.phase.Bad? ==> SplitFrom(s, more).phase == s.phase
  {
    if more != "" { SplitMonotone(s, more[..|more| - 1]); }
  }

  /** What was received stays received, and a dead stream stays dead, whatever comes after. */
  lemma ReceivedMonotone(wire: string, more: string)
    ensures Received(CONTENT_TYPE, wire) <= Received(CONTENT_TYPE, wire + more)
    ensures Live(CONTENT_TYPE, wire + more) ==> Live(CONTENT_TYPE, wire)
  {
    hide Start;
    DechunkConcat(FRESH, wire, more);
    DechunkMonotone(Dechunk(wire), more);
    var body, whole := Dechunk(wire).body, Dechunk(wire + more).body;
    var rest := whole[|body|..];
    assert whole == body + rest;
    SplitConcat(Start(CONTENT_TYPE), body, rest);
    SplitMonotone(SplitFrom(Start(CONTENT_TYPE), body), rest);
  }

  lemma PrefixReceived(wire: string, longer: string)
    requires wire <= longer
    ensures Received(CONTENT_TYPE, wire) <= Received(CONTENT_TYPE, longer)
    ensures Live(CONTENT_TYPE, longer) ==> Live(CONTENT_TYPE, wire)
  {
    assert longer == wire + longer[|wire|..];
    ReceivedMonotone(wire, longer[|wire|..]);
  }

  // ---------- Reading the pieces ----------

  lemma {:induction false} ReadText(kind: LineKind, frames: seq<string>, text: string)
    requires '\n' !in text
    ensures SplitFrom(AtLine(kind, "", frames), text) == AtLine(kind, text, frames)
  {
    if text != "" {
      ReadText(kind, frames, text[..|text| - 1]);
      assert text == text[..|text| - 1] + [text[|text| - 1]];
    }
  }

  lemma ReadLine(kind: LineKind, frames: seq<string>, text: string)
    requires '\n' !in text
    ensures SplitFrom(AtLine(kind, "", frames), text + CRLF) == EndOfLine(DELIMITER, kind, text, frames)
  {
    var s := AtLine(kind, "", frames);
    ReadText(kind, frames, text + "\r");
    assert (text + CRLF)[..|text| + 1] == text + "\r";
    assert (text + "\r")[..|text|] == text;
  }

  lemma {:induction false} ReadContent(n: nat, frames: seq<string>, data: string)
    requires |data| <= n && 0 < n
    ensures SplitFrom(InContent(n, "", frames), data)
         == if |data| == n then AtLine(Gap, "", frames + [data])
            else InContent(n - |data|, data, frames)
  {
    if data != "" {
      ReadContent(n, frames, data[..|data| - 1]);
      assert data == data[..|data| - 1] + [data[|data| - 1]];
    }
  }

  lemma SkipToDigits(n: nat)
    ensures SkipBlanks(" " + Dec(n)) == Dec(n)
  {
    assert (" " + Dec(n))[1..] == Dec(n);
  }

  lemma TypeLineIsRead(frames: seq<string>)
    ensures EndOfLine(DELIMITER, Header(None, false), TYPE_LINE, frames)
         == AtLine(Header(None, true), "", frames)
  {
    assert "Content-Length:"[8] != TYPE_LINE[8];
  }

  lemma LengthLineIsRead(frames: seq<string>, n: nat)
    ensures EndOfLine(DELIMITER, Header(None, true), LengthLine(n), frames)
         == AtLine(Header(Some(n), true), "", frames)
  {
    var line := LENGTH_NAME + (" " + Dec(n));
    assert line == LengthLine(n);
    assert line[|LENGTH_NAME|..] == " " + Dec(n);
    SkipToDigits(n);
    DecRoundTrip(n);
  }

  /** Reading two pieces one after the other. */
  lemma Then(s: Splitter, a: string, t: Splitter, b: string)
    requires SplitFrom(s, a) == t
    ensures SplitFrom(s, a + b) == SplitFrom(t, b)
  {
    SplitConcat(s, a, b);
  }

  lemma ReadPartHeader(frames: seq<string>, n: nat)
    ensures SplitFrom(AtLine(Header(None, false), "", frames), PartHeader(n)) == BeginContent(DELIMITER, n, frames)
  {
    var s := AtLine(Header(None, false), "", frames);
    var typed := AtLine(Header(None, true), "", frames);
    ReadLine(Header(None, false), frames, TYPE_LINE);
    TypeLineIsRead(frames);
    ReadLine(Header(None, true), frames, LengthLine(n));
    LengthLineIsRead(frames, n);
    Then(s, TYPE_LINE + CRLF, typed, LengthLine(n) + CRLF);
    ReadBlankLine(Header(Some(n), true), frames);
    Then(s, (TYPE_LINE + CRLF) + (LengthLine(n) + CRLF), AtLine(Header(Some(n), true), "", frames), CRLF);
  }

  lemma ReadBlankLine(kind: LineKind, frames: seq<string>)
    ensures SplitFrom(AtLine(kind, "", frames), CRLF) == EndOfLine(DELIMITER, kind, "", frames)
  {
    ReadLine(kind, frames, "");
    assert "" + CRLF == CRLF;
  }

  lemma ReadBoundary(frames: seq<string>)
    ensures SplitFrom(AtLine(Delimiter, "", frames), BOUNDARY_LINE)
         == AtLine(Header(None, false), "", frames)
  {
    ReadLine(Delimiter, frames, DELIMITER);
  }

  lemma ReadPartTail(frames: seq<string>)
    ensures SplitFrom(AtLine(Gap, "", frames), PART_TAIL) == AtLine(Header(None, false), "", frames)
  {
    ReadBlankLine(Gap, frames);
    ReadBoundary(frames);
    Then(AtLine(Gap, "", frames), CRLF, AtLine(Delimiter, "", frames), BOUNDARY_LINE);
  }

  // ---------- The whole stream ----------

  predicate NoneEmpty(frames: seq<string>) { forall i :: 0 <= i < |frames| ==> frames[i] != "" }

  function PartBody(frame: string): string { PartHeader(|frame|) + frame + PART_TAIL }

  /** The payload of StreamOf(frames) once the chunk framing is taken off. */
  function BodyOf(frames: seq<string>): string {
    if frames == [] then BOUNDARY_LINE
    else
      var last := frames[|frames| - 1];
      BodyOf(frames[..|frames| - 1]) + PartBody(last)
  }

  lemma ReadFrame(frames: seq<string>, frame: string)
    ensures SplitFrom(AtLine(Header(None, false), "", frames), PartHeader(|frame|) + frame)
         == AtLine(Gap, "", frames + [frame])
  {
    hide PartHeader;
    var s := AtLine(Header(None, false), "", frames);
    SplitConcat(s, PartHeader(|frame|), frame);
    ReadPartHeader(frames, |frame|);
    if frame != "" { ReadContent(|frame|, frames, frame); }
  }

  lemma ReadPart(frames: seq<string>, frame: string)
    ensures SplitFrom(AtLine(Header(None, false), "", frames), PartBody(frame))
         == AtLine(Header(None, false), "", frames + [frame])
  {
    ReadFrame(frames, frame);
    Then(AtLine(Header(None, false), "", frames), PartHeader(|frame|) + frame,
         AtLine(Gap, "", frames + [frame]), PART_TAIL);
    ReadPartTail(frames + [frame]);
  }

  lemma SplitNext(body: string, before: seq<string>, frame: string)
    requires SplitFrom(Start(CONTENT_TYPE), body) == AtLine(Header(None, false), "", before)
    ensures SplitFrom(Start(CONTENT_TYPE), body + PartBody(frame)) == AtLine(Header(None, false), "", before + [frame])
  {
    hide SplitFrom, PartBody, Start;
    Then(Start(CONTENT_TYPE), body, AtLine(Header(None, false), "", before), PartBody(frame));
    ReadPart(before, frame);
  }

  lemma {:induction false} SplitBody(frames: seq<string>)
    ensures SplitFrom(Start(CONTENT_TYPE), BodyOf(frames)) == AtLine(Header(None, false), "", frames)
  {
    hide PartBody, SplitFrom, Start;
    if frames == [] {
      StartsWithDelimiter();
      ReadBoundary([]);
    } else {
      var before, last := frames[..|frames| - 1], frames[|frames| - 1];
      SplitBody(before);
      SplitNext(BodyOf(before), before, last);
      assert before + [last] == frames;
    }
  }

  lemma DechunkNext(wire: string, data: string)
    requires Dechunk(wire).phase == Size(0, 0)
    ensures var body := Dechunk(wire).body;
            Dechunk(wire + Chunk(data))
            == if data == "" then Dechunker(Last, body) else Dechunker(Size(0, 0), body + data)
  {
    DechunkConcat(FRESH, wire, Chunk(data));
    ReadChunk(Dechunk(wire).body, data);
    assert data == "" ==> Dechunk(wire).body + data == Dechunk(wire).body;
  }

  /** Three chunks in a row; an empty one in the middle ends the body. */
  lemma DechunkThree(wire: string, a: string, b: string, c: string)
    requires Dechunk(wire).phase == Size(0, 0) && a != "" && c != ""
    ensures var body := Dechunk(wire).body;
            Dechunk(wire + (Chunk(a) + Chunk(b) + Chunk(c)))
            == if b == "" then Dechunker(Last, body + a) else Dechunker(Size(0, 0), body + (a + b + c))
  {
    hide Chunk, DechunkFrom;
    var w1, w2 := wire + Chunk(a), wire + Chunk(a) + Chunk(b);
    assert wire + (Chunk(a) + Chunk(b) + Chunk(c)) == w2 + Chunk(c);
    DechunkNext(wire, a);
    DechunkNext(w1, b);
    if b == "" {
      DechunkConcat(FRESH, w2, Chunk(c));
      Ended(Dechunk(w2), Chunk(c));
    } else {
      DechunkNext(w2, c);
      var body := Dechunk(wire).body;
      assert body + a + b + c == body + (a + b + c);
    }
  }

  /** Reading one more frame after `wire`, which left the recipient between two chunks. */
  lemma DechunkPart(wire: string, frame: string)
    requires Dechunk(wire).phase == Size(0, 0)
    ensures var body := Dechunk(wire).body;
            Dechunk(wire + PartChunks(frame))
            == if frame == "" then Dechunker(Last, body + PartHeader(0))
               else Dechunker(Size(0, 0), body + PartBody(frame))
  {
    DechunkThree(wire, PartHeader(|frame|), frame, PART_TAIL);
  }

  lemma {:induction false} Ended(d: Dechunker, more: string)
    requires d.phase.Last?
    ensures DechunkFrom(d, more) == d
  {
    if more != "" { Ended(d, more[..|more| - 1]); }
  }

  lemma {:induction false} DechunkStream(frames: seq<string>)
    requires NoneEmpty(frames)
    ensures Dechunk(StreamOf(frames)) == Dechunker(Size(0, 0), BodyOf(frames))
  {
    if frames == [] {
      ReadChunk("", BOUNDARY_LINE);
    } else {
      var before, last := frames[..|frames| - 1], frames[|frames| - 1];
      DechunkStream(before);
      DechunkPart(StreamOf(before), last);
    }
  }

  /** Round trip: whatever bytes the frames hold, CRLF and "--frame" included, the server gets exactly
      the frames that were sent and the stream stays open for more. */
  lemma StreamRoundTrip(frames: seq<string>)
    requires NoneEmpty(frames)
    ensures Received(CONTENT_TYPE, StreamOf(frames)) == frames
    ensures Live(CONTENT_TYPE, StreamOf(frames))
  {
    hide Start;
    DechunkStream(frames);
    SplitBody(frames);
  }

  // ---------- A frame of length zero ----------

  /** `frames` up to and including its first empty frame. */
  function UpToFirstEmpty(frames: seq<string>): seq<string> {
    if frames == [] then []
    else if frames[0] == "" then [""]
    else [frames[0]] + UpToFirstEmpty(frames[1..])
  }

  lemma {:induction false} UpToFirstEmptySplit(before: seq<string>, rest: seq<string>)
    requires NoneEmpty(before)
    ensures UpToFirstEmpty(before + rest) == before + UpToFirstEmpty(rest)
  {
    if before == [] {
      assert before + rest == rest;
    } else {
      UpToFirstEmptySplit(before[1..], rest);
      assert (before + rest)[1..] == before[1..] + rest;
    }
  }

  lemma {:induction false} StreamConcat(frames: seq<string>, more: seq<string>)
    ensures StreamOf(frames) <= StreamOf(frames + more)
  {
    hide PartChunks;
    if more == [] {
      assert frames + more == frames;
    } else {
      StreamConcat(frames, more[..|more| - 1]);
      assert (frames + more)[..|frames + more| - 1] == frames + more[..|more| - 1];
    }
  }

  lemma EmptyFrameEndsBody(before: seq<string>)
    requires NoneEmpty(before)
    ensures Dechunk(StreamOf(before + [""])) == Dechunker(Last, BodyOf(before) + PartHeader(0))
  {
    assert (before + [""])[..|before|] == before;
    DechunkStream(before);
    DechunkPart(StreamOf(before), "");
  }

  lemma EmptyFrameIsReceived(before: seq<string>)
    ensures SplitFrom(Start(CONTENT_TYPE), BodyOf(before) + PartHeader(0)).frames == before + [""]
  {
    hide Start;
    SplitBody(before);
    Then(Start(CONTENT_TYPE), BodyOf(before), AtLine(Header(None, false), "", before), PartHeader(0));
    ReadPartHeader(before, 0);
  }

  lemma EmptyFrameEndsStream(before: seq<string>, rest: seq<string>)
    requires NoneEmpty(before)
    ensures Received(CONTENT_TYPE, StreamOf(before + [""] + rest)) == before + [""]
    ensures Dechunk(StreamOf(before + [""] + rest)).phase == Last
    ensures !Live(CONTENT_TYPE, StreamOf(before + [""] + rest))
  {
    hide StreamOf, BodyOf, PartHeader, DechunkFrom, SplitFrom, Start;
    var cut, whole := StreamOf(before + [""]), StreamOf(before + [""] + rest);
    EmptyFrameEndsBody(before);
    EmptyFrameIsReceived(before);
    StreamConcat(before + [""], rest);
    assert whole == cut + whole[|cut|..];
    DechunkConcat(FRESH, cut, whole[|cut|..]);
    Ended(Dechunk(cut), whole[|cut|..]);
  }

  lemma {:induction false} FirstEmpty(frames: seq<string>) returns (k: nat)
    requires !NoneEmpty(frames)
    ensures k < |frames| && frames[k] == "" && NoneEmpty(frames[..k])
  {
    if frames[0] == "" {
      k := 0;
    } else {
      var i := FirstEmpty(frames[1..]);
      k := i + 1;
      assert frames[..k] == [frames[0]] + frames[1..][..i];
    }
  }

  /** Exactly what an empty frame costs: its data chunk reads as the last-chunk, so the server gets the
      frames up to it, and the stream survives if and only if no frame is empty. */
  lemma EmptyFrames(frames: seq<string>)
    ensures Received(CONTENT_TYPE, StreamOf(frames)) == UpToFirstEmpty(frames)
    ensures Live(CONTENT_TYPE, StreamOf(frames)) <==> NoneEmpty(frames)
  {
    hide StreamOf, Received, Live, Dechunk, SplitFrom;
    if NoneEmpty(frames) {
      StreamRoundTrip(frames);
      UpToFirstEmptySplit(frames, []);
      assert frames + [] == frames;
    } else {
      var k := FirstEmpty(frames);
      var before, rest := frames[..k], frames[k + 1..];
      assert frames == before + [""] + rest == before + ([""] + rest);
      EmptyFrameEndsStream(before, rest);
      UpToFirstEmptySplit(before, [""] + rest);
    }
  }

  // ---------- A stream cut at any byte ----------

  /** The wire up to and including the last byte of `frame`'s data. */
  function UpToFrameEnd(frames: seq<string>, frame: string): string {
    StreamOf(frames) + Chunk(PartHeader(|frame|)) + (Hex(|frame|) + CRLF) + frame
  }

  /** Part of a frame's data is not a frame yet. */
  lemma PartialFrame(frames: seq<string>, frame: string, data: string)
    requires NoneEmpty(frames) && frame != "" && data <= frame
    ensures Received(CONTENT_TYPE, StreamOf(frames) + Chunk(PartHeader(|frame|)) + (Hex(|frame|) + CRLF) + data)
         == if data == frame then frames + [frame] else frames
  {
    hide Start;
    var head, line := Chunk(PartHeader(|frame|)), Hex(|frame|) + CRLF;
    var body := BodyOf(frames) + PartHeader(|frame|);
    DechunkStream(frames);
    DechunkConcat(FRESH, StreamOf(frames), head);
    ReadChunk(BodyOf(frames), PartHeader(|frame|));
    DechunkConcat(FRESH, StreamOf(frames) + head, line);
    ReadSizeLine(|frame|, body);
    DechunkConcat(FRESH, StreamOf(frames) + head + line, data);
    ReadData(|frame|, body, data);
    SplitBody(frames);
    Then(Start(CONTENT_TYPE), BodyOf(frames), AtLine(Header(None, false), "", frames), PartHeader(|frame|));
    ReadPartHeader(frames, |frame|);
    Then(Start(CONTENT_TYPE), body, InContent(|frame|, "", frames), data);
    ReadContent(|frame|, frames, data);
  }

  /** One byte before the end of a frame the server does not have it; with that byte it does. */
  lemma FrameEnd(frames: seq<string>, frame: string)
    requires NoneEmpty(frames) && frame != ""
    ensures var all := UpToFrameEnd(frames, frame);
            Received(CONTENT_TYPE, all) == frames + [frame] && Received(CONTENT_TYPE, all[..|all| - 1]) == frames
  {
    hide StreamOf, PartHeader, Chunk, Received;
    var start := StreamOf(frames) + Chunk(PartHeader(|frame|)) + (Hex(|frame|) + CRLF);
    var most := frame[..|frame| - 1];
    PartialFrame(frames, frame, frame);
    PartialFrame(frames, frame, most);
    assert UpToFrameEnd(frames, frame) == start + frame;
    assert (start + frame)[..|start + frame| - 1] == start + most;
  }

  lemma Regroup(s: string, a: string, line: string, d: string, e: string, t: string)
    ensures s + (a + (line + d + e) + t) == s + a + line + d + (e + t)
  {
  }

  lemma FrameEndIsInside(frames: seq<string>, frame: string)
    ensures StreamOf(frames) <= UpToFrameEnd(frames, frame) <= StreamOf(frames + [frame])
    ensures |StreamOf(frames)| < |UpToFrameEnd(frames, frame)|
  {
    assert (frames + [frame])[..|frames|] == frames;
    Regroup(StreamOf(frames), Chunk(PartHeader(|frame|)), Hex(|frame|) + CRLF, frame, CRLF, Chunk(PART_TAIL));
  }

  lemma CutBetween(start: string, end: string, whole: string, wire: string, few: seq<string>, many: seq<string>)
    requires start <= wire <= whole && start <= end <= whole && |start| < |end|
    requires Received(CONTENT_TYPE, start) == Received(CONTENT_TYPE, end[..|end| - 1]) == few
    requires Received(CONTENT_TYPE, end) == Received(CONTENT_TYPE, whole) == many && Live(CONTENT_TYPE, whole)
    ensures Live(CONTENT_TYPE, wire) && Received(CONTENT_TYPE, wire) == if |wire| < |end| then few else many
  {
    PrefixReceived(start, wire);
    PrefixReceived(wire, whole);
    if |wire| < |end| {
      PrefixReceived(wire, end[..|end| - 1]);
    } else {
      PrefixReceived(end, wire);
    }
  }

  /** A connection that breaks at any byte while `frame` is being written leaves a well-framed stream,
      and the server holds the committed frames, plus `frame` exactly when its last data byte got out. */
  lemma CutStream(frames: seq<string>, frame: string, wire: string)
    requires NoneEmpty(frames) && frame != ""
    requires StreamOf(frames) <= wire <= StreamOf(frames + [frame])
    ensures Live(CONTENT_TYPE, wire)
    ensures Received(CONTENT_TYPE, wire) == if |wire| < |UpToFrameEnd(frames, frame)| then frames else frames + [frame]
  {
    hide StreamOf, UpToFrameEnd, Received, Live;
    FrameEndIsInside(frames, frame);
    FrameEnd(frames, frame);
    StreamRoundTrip(frames);
    StreamRoundTrip(frames + [frame]);
    CutBetween(StreamOf(frames), UpToFrameEnd(frames, frame), StreamOf(frames + [frame]), wire,
               frames, frames + [frame]);
  }

  /** The same for a connection that breaks while its opening boundary is being written. */
  lemma CutBoundary(wire: string)
    requires wire <= StreamOf([])
    ensures Live(CONTENT_TYPE, wire) && Received(CONTENT_TYPE, wire) == []
  {
    hide Start, DechunkFrom, SplitFrom;
    StreamRoundTrip([]);
    PrefixReceived(wire, StreamOf([]));
  }
}
