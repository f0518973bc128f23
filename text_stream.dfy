/** `OpenAIService.generateTale`: the chat-completion event stream decoded into
    text increments (OpenAIService.swift:44-89). The decoder reads the body one
    byte at a time, keeps the bytes that decode on their own as UTF-8 (the
    ASCII bytes) in a text buffer, and handles every complete line: lines
    without the `data: ` prefix are skipped, the line `data: [DONE]` ends the
    stream, and any other `data: ` line yields the `choices[0].delta.content`
    string of its JSON payload when it has one. */
module TextStream {
  import opened Common
  import opened Utf8
  import opened Lines
  import opened JsonModel
  import opened Frames

  const Newline: char := '\n'
  const DataPrefix: string := "data: "
  const DoneLine: string := "data: [DONE]"

  /** The text increment a frame payload carries (OpenAIService.swift:71-76):
      the payload is handed to the parser as UTF-8 bytes, and the result is
      navigated to `choices[0].delta.content`. */
  function FrameContent(payload: string, parse: Parser): Option<string> {
    match parse(Encode(payload))
    case None => None
    case Some(json) => DeltaContent(json)
  }

  /** What one complete line does (OpenAIService.swift:65-78): a line without
      the `data: ` prefix is skipped, the sentinel ends the stream, and any
      other `data: ` line yields the content of its payload (the line without
      its first six characters), if it carries one. */
  function Classify(line: string, parse: Parser): (action: LineAction)
    ensures action.Finish? <==> line == DoneLine
    ensures !(DataPrefix <= line) ==> action == Ignore
    ensures action.Yield? <==>
      DataPrefix <= line && line != DoneLine && FrameContent(line[|DataPrefix|..], parse).Some?
    ensures action.Yield? ==> FrameContent(line[|DataPrefix|..], parse) == Some(action.content)
  {
    if !(DataPrefix <= line) then Ignore
    else if line == DoneLine then Finish
    else
      match FrameContent(line[|DataPrefix|..], parse)
      case None => Ignore
      case Some(content) => Yield(content)
  }

  function Classifier(parse: Parser): string -> LineAction {
    line => Classify(line, parse)
  }

  /** What one byte adds to the buffer: its character when it decodes on its
      own, nothing otherwise (OpenAIService.swift:57-58). */
  function Admit(b: byte): (text: string)
    ensures text == [] <==> b >= 0x80
    ensures text != [] ==> text == [(b as int) as char]
  {
    match DecodeLoneByte(b)
    case None => []
    case Some(c) => [c]
  }

  /** All the text the bytes put into the buffer: the ASCII bytes as
      characters, in order; every other byte is dropped. */
  function BufferedText(body: seq<byte>): (text: string)
    ensures |text| <= |body|
  {
    if body == [] then [] else BufferedText(body[..|body| - 1]) + Admit(body[|body| - 1])
  }

  /** The buffer only ever holds ASCII, and an all-ASCII body reaches it
      whole, byte for character. */
  lemma {:induction false} BufferedTextAscii(body: seq<byte>)
    ensures IsAscii(BufferedText(body))
    ensures (forall i :: 0 <= i < |body| ==> body[i] < 0x80) ==>
      |BufferedText(body)| == |body|
      && forall i :: 0 <= i < |body| ==> BufferedText(body)[i] as int == body[i] as int
    decreases |body|
  {
    if body != [] {
      var init := body[..|body| - 1];
      BufferedTextAscii(init);
      assert forall i :: 0 <= i < |init| ==> init[i] == body[i];
    }
  }

  lemma {:induction false} BufferedTextAppend(body: seq<byte>, more: seq<byte>)
    ensures BufferedText(body + more) == BufferedText(body) + BufferedText(more)
    decreases |more|
  {
    if more == [] {
      assert body + more == body;
    } else {
      var init, last := more[..|more| - 1], more[|more| - 1];
      assert (body + more)[..|body + more| - 1] == body + init;
      assert (body + more)[|body + more| - 1] == last;
      var a, b, c := BufferedText(body), BufferedText(init), Admit(last);
      calc {
        BufferedText(body + more);
        BufferedText(body + init) + c;
        { BufferedTextAppend(body, init); }
        (a + b) + c;
        a + (b + c);
        a + BufferedText(more);
      }
    }
  }

  /** The decoding of the complete lines of the buffered text. */
  function ReadLines(body: seq<byte>, parse: Parser): Decoded {
    DecodeLines(CompleteLines(BufferedText(body), Newline), Classifier(parse))
  }

  /** The whole stream `generateTale` produces for one exchange. A response
      other than an HTTP status 200 throws `invalidResponse` before any byte is
      read; a sentinel line finishes the stream normally, even when the
      transport failed later; otherwise the stream finishes with the
      transport's error, if any, after the events of every complete line. */
  function DecodeTale(exchange: Exchange, parse: Parser): Stream<string> {
    match exchange
    case ConnectionFailed(error) => Stream([], FinishedThrowing(Transport(error)))
    case Responded(status, body, interruption) =>
      if status != Some(200) then Stream([], FinishedThrowing(Service(InvalidResponse)))
      else
        var decoded := ReadLines(body, parse);
        if decoded.done || interruption.None? then Stream(decoded.events, Finished)
        else Stream(decoded.events, FinishedThrowing(Transport(interruption.value)))
  }

  /** How one more byte changes the buffered text, its complete lines and its
      fragment: a newline byte completes the fragment as a line and empties
      it; any other byte extends the fragment by what it admits. */
  lemma ReadStep(body: seq<byte>, k: nat)
    requires k < |body|
    ensures BufferedText(body[..k + 1]) == BufferedText(body[..k]) + Admit(body[k])
    ensures body[k] == 0x0A ==>
      CompleteLines(BufferedText(body[..k + 1]), Newline)
        == CompleteLines(BufferedText(body[..k]), Newline) + [Fragment(BufferedText(body[..k]), Newline)]
      && Fragment(BufferedText(body[..k + 1]), Newline) == []
    ensures body[k] != 0x0A ==>
      CompleteLines(BufferedText(body[..k + 1]), Newline) == CompleteLines(BufferedText(body[..k]), Newline)
      && Fragment(BufferedText(body[..k + 1]), Newline) == Fragment(BufferedText(body[..k]), Newline) + Admit(body[k])
  {
    var b := body[k];
    var text := BufferedText(body[..k]);
    assert body[..k + 1] == body[..k] + [b];
    BufferedTextAppend(body[..k], [b]);
    assert [b][..0] == [];
    if Admit(b) != [] {
      var c := (b as int) as char;
      assert Admit(b) == [c];
      assert c == Newline <==> b == 0x0A;
      LinesSnoc(text, c, Newline);
    } else {
      assert text + Admit(b) == text;
    }
  }

  /** The decoder's state after one more byte: a byte other than a newline
      leaves the events as they were and extends the buffer by what it admits;
      a newline byte hands the buffered line to `Classify` and empties the
      buffer. */
  lemma ByteStep(body: seq<byte>, k: nat, parse: Parser, events: seq<string>, buffer: string)
    requires k < |body|
    requires buffer == Fragment(BufferedText(body[..k]), Newline)
    requires ReadLines(body[..k], parse) == Decoded(events, false)
    ensures Newline !in buffer
    ensures body[k] != 0x0A ==>
      ReadLines(body[..k + 1], parse) == Decoded(events, false)
      && Fragment(BufferedText(body[..k + 1]), Newline) == buffer + Admit(body[k])
    ensures body[k] == 0x0A ==>
      Fragment(BufferedText(body[..k + 1]), Newline) == []
      && ReadLines(body[..k + 1], parse) == Step(Decoded(events, false), Classify(buffer, parse))
  {
    ReadStep(body, k);
    if body[k] == 0x0A {
      var lines := CompleteLines(BufferedText(body[..k]), Newline);
      DecodeLinesSnoc(lines, buffer, Classifier(parse));
      assert Classifier(parse)(buffer) == Classify(buffer, parse);
    }
  }

  /** Once a sentinel line has been read, the rest of the body cannot change
      the outcome. */
  lemma SentinelIsFinal(body: seq<byte>, k: nat, parse: Parser)
    requires k <= |body|
    requires ReadLines(body[..k], parse).done
    ensures ReadLines(body, parse) == ReadLines(body[..k], parse)
  {
    assert body[..k] + body[k..] == body;
    EventsGrow(body[..k], body[k..], parse);
  }

  /** The inner loop of `generateTale`, `for line in lines.dropLast()`
      (OpenAIService.swift:64-80): every piece but the last is a complete line
      and is handled in order; `finished` reports the sentinel, after which no
      line is looked at. */
  method HandleLines(lines: seq<string>, parse: Parser) returns (yielded: seq<string>, finished: bool)
    requires |lines| >= 1
    ensures Decoded(yielded, finished) == DecodeLines(lines[..|lines| - 1], Classifier(parse))
  {
    yielded := [];
    var j := 0;
    while j < |lines| - 1
      invariant 0 <= j <= |lines| - 1
      invariant DecodeLines(lines[..j], Classifier(parse)) == Decoded(yielded, false)
    {
      var line := lines[j];
      DecodeNext(lines, j, Classifier(parse));
      assert Classifier(parse)(line) == Classify(line, parse);
      if DataPrefix <= line {
        if line == DoneLine {
          finished := true;
          DoneStaysDone(lines, j + 1, |lines| - 1, Classifier(parse));
          return;
        }
        var jsonString := line[|DataPrefix|..];
        match FrameContent(jsonString, parse) {
          case None =>
          case Some(content) =>
            yielded := yielded + [content];
        }
      }
      j := j + 1;
    }
    finished := false;
  }

  /** The method form of `generateTale`: the events it yields, in order, and
      how it finishes, byte loop and all, are those of `DecodeTale`. */
  method GenerateTale(exchange: Exchange, parse: Parser) returns (events: seq<string>, completion: Completion)
    ensures Stream(events, completion) == DecodeTale(exchange, parse)
  {
    events := [];
    if exchange.ConnectionFailed? {
      completion := FinishedThrowing(Transport(exchange.error));
      return;
    }
    if exchange.statusCode != Some(200) {
      completion := FinishedThrowing(Service(InvalidResponse));
      return;
    }
    var body := exchange.body;
    var buffer: string := [];
    var k := 0;
    while k < |body|
      invariant 0 <= k <= |body|
      invariant buffer == Fragment(BufferedText(body[..k]), Newline)
      invariant ReadLines(body[..k], parse) == Decoded(events, false)
    {
      var b := body[k];
      ByteStep(body, k, parse, events, buffer);
      ghost var line := buffer;
      k := k + 1;
      match DecodeLoneByte(b) {
        case None =>
        case Some(c) =>
          buffer := buffer + [c];
          if Newline in buffer {
            SplitTerminatedLine(line, Newline);
            var lines := Split(buffer, Newline);
            buffer := lines[|lines| - 1];
            var yielded, finished := HandleLines(lines, parse);
            assert lines[..|lines| - 1] == [line];
            DecodeSingle(line, Classifier(parse), events);
            events := events + yielded;
            if finished {
              completion := Finished;
              SentinelIsFinal(body, k, parse);
              return;
            }
          }
      }
    }
    assert body[..k] == body;
    completion := if exchange.interruption.None? then Finished else FinishedThrowing(Transport(exchange.interruption.value));
  }

  /** A status other than exactly 200, or a response that is not HTTP, ends
      the stream with `invalidResponse` and nothing yielded, whatever the body
      and the transport would have delivered: no byte is examined
      (OpenAIService.swift:49-51). */
  lemma RejectedBeforeReading(status: Option<int>, body: seq<byte>, other: seq<byte>,
                              interruption: Option<TransportError>, otherInterruption: Option<TransportError>, parse: Parser)
    requires status != Some(200)
    ensures DecodeTale(Responded(status, body, interruption), parse) == Stream([], FinishedThrowing(Service(InvalidResponse)))
    ensures DecodeTale(Responded(status, body, interruption), parse) == DecodeTale(Responded(status, other, otherInterruption), parse)
  {
  }

  /** Reading on never takes back an event: the events of a prefix of the
      body come first, in the same order, among the events of the whole. */
  lemma EventsGrow(body: seq<byte>, more: seq<byte>, parse: Parser)
    ensures ReadLines(body, parse).events <= ReadLines(body + more, parse).events
    ensures ReadLines(body, parse).done ==> ReadLines(body + more, parse) == ReadLines(body, parse)
  {
    var text, rest := BufferedText(body), BufferedText(more);
    BufferedTextAppend(body, more);
    CompleteLinesPrefix(text, rest, Newline);
    DecodePrefix(CompleteLines(text, Newline), CompleteLines(text + rest, Newline), Classifier(parse));
  }

  /** A transport error ends the stream with that error after exactly the
      events of the bytes received before it, unless the sentinel was among
      them (OpenAIService.swift:56, 85-86). */
  lemma InterruptionKeepsEvents(body: seq<byte>, more: seq<byte>, error: TransportError, parse: Parser)
    ensures DecodeTale(Responded(Some(200), body, Some(error)), parse).elements
      <= DecodeTale(Responded(Some(200), body + more, None), parse).elements
    ensures DecodeTale(Responded(Some(200), body, Some(error)), parse).completion ==
      if ReadLines(body, parse).done then Finished else FinishedThrowing(Transport(error))
  {
    EventsGrow(body, more, parse);
  }

  /** Once the sentinel line has been read, neither further bytes nor a later
      transport error change the stream: it finishes normally
      (OpenAIService.swift:66-69). */
  lemma SentinelIgnoresRest(body: seq<byte>, rest: seq<byte>, interruption: Option<TransportError>, parse: Parser)
    requires ReadLines(body, parse).done
    ensures DecodeTale(Responded(Some(200), body + rest, interruption), parse) ==
      Stream(ReadLines(body, parse).events, Finished)
  {
    EventsGrow(body, rest, parse);
  }

  /** Bytes without a newline byte put no newline into the buffer. */
  lemma {:induction false} NoNewlineBuffered(bytes: seq<byte>)
    requires 0x0A !in bytes
    ensures Newline !in BufferedText(bytes)
    decreases |bytes|
  {
    if bytes != [] {
      var init := bytes[..|bytes| - 1];
      assert forall b :: b in init ==> b in bytes;
      NoNewlineBuffered(init);
    }
  }

  /** Text after the last newline byte is never decoded, whatever it holds: a
      final line without its newline is dropped when the byte stream ends
      (OpenAIService.swift:62, 84). */
  lemma UnterminatedTailIgnored(body: seq<byte>, tail: seq<byte>, parse: Parser)
    requires 0x0A !in tail
    ensures ReadLines(body + tail, parse) == ReadLines(body, parse)
  {
    BufferedTextAppend(body, tail);
    NoNewlineBuffered(tail);
    LinesWithinLine(BufferedText(body), BufferedText(tail), Newline);
  }

  /** The events are the contents of the complete lines before the first
      `data: [DONE]` line, in line order, and the stream ends early exactly
      when that line is among the complete lines (OpenAIService.swift:54-84). */
  lemma EventsUpToSentinel(body: seq<byte>, parse: Parser)
    ensures ReadLines(body, parse).events ==
      Contents(BeforeSentinel(CompleteLines(BufferedText(body), Newline), Classifier(parse)), Classifier(parse))
    ensures ReadLines(body, parse).done <==> DoneLine in CompleteLines(BufferedText(body), Newline)
  {
    var lines := CompleteLines(BufferedText(body), Newline);
    EventsBeforeSentinel(lines, Classifier(parse));
    DoneIffSentinel(lines, Classifier(parse));
    assert forall i :: 0 <= i < |lines| ==> (Classifier(parse)(lines[i]).Finish? <==> lines[i] == DoneLine);
  }

  /** ASCII text reaches the buffer unchanged. */
  lemma {:induction false} BufferedAscii(s: string)
    requires IsAscii(s)
    ensures BufferedText(Encode(s)) == s
    decreases |s|
  {
    if s != [] {
      var init, last := s[..|s| - 1], s[|s| - 1];
      assert init + [last] == s;
      assert forall i :: 0 <= i < |init| ==> init[i] == s[i];
      BufferedAscii(init);
      var b := (last as int) as byte;
      assert EncodeChar(last) == [b];
      assert Encode(s) == Encode(init) + [b];
      BufferedTextAppend(Encode(init), [b]);
      assert [b][..0] == [];
      assert BufferedText([b]) == Admit(b) == [last];
    }
  }

  lemma {:induction false} TerminatedAscii(lines: seq<string>)
    requires forall i :: 0 <= i < |lines| ==> IsAscii(lines[i])
    ensures IsAscii(Terminated(lines, Newline))
    decreases |lines|
  {
    if lines != [] {
      var init := lines[..|lines| - 1];
      assert forall i :: 0 <= i < |init| ==> init[i] == lines[i];
      TerminatedAscii(init);
      var t := Terminated(lines, Newline);
      assert t == Terminated(init, Newline) + lines[|lines| - 1] + [Newline];
    }
  }

  /** A body that is a sequence of ASCII lines, each ended by a newline, is
      decoded line by line: the output is the pure decoding of exactly those
      lines. */
  lemma WellFormedBody(lines: seq<string>, parse: Parser)
    requires forall i :: 0 <= i < |lines| ==> IsAscii(lines[i]) && Newline !in lines[i]
    ensures ReadLines(Encode(Terminated(lines, Newline)), parse) == DecodeLines(lines, Classifier(parse))
  {
    TerminatedAscii(lines);
    BufferedAscii(Terminated(lines, Newline));
    CompleteLinesOfTerminated(lines, Newline);
  }

  /** Every `data: ` line other than the sentinel is a frame line: it yields
      exactly the content its payload carries, if any. */
  lemma FrameLine(payload: string, parse: Parser)
    requires DataPrefix + payload != DoneLine
    ensures Classify(DataPrefix + payload, parse) ==
      match FrameContent(payload, parse) case None => Ignore case Some(content) => Yield(content)
  {
    var line := DataPrefix + payload;
    assert line[..|DataPrefix|] == DataPrefix;
    assert line[|DataPrefix|..] == payload;
  }

  /** A payload that opens a JSON object never makes the sentinel. */
  lemma ObjectPayloadNotSentinel(payload: string)
    requires |payload| > 0 && payload[0] == '{'
    ensures DataPrefix + payload != DoneLine
  {
    assert (DataPrefix + payload)[|DataPrefix|] != DoneLine[|DataPrefix|];
  }

  /** A typical reply: a frame without content (such as the one announcing
      the assistant's role), two content frames and the sentinel, separated
      by blank lines, then a content frame after the sentinel. Exactly the
      two increments are yielded, in order, and the stream finishes normally. */
  lemma TypicalReply(role: string, once: string, upon: string, first: string, second: string, parse: Parser)
    requires IsAscii(role) && IsAscii(once) && IsAscii(upon)
    requires Newline !in role && Newline !in once && Newline !in upon
    requires |role| > 0 && role[0] == '{' && |once| > 0 && once[0] == '{' && |upon| > 0 && upon[0] == '{'
    requires FrameContent(role, parse) == None
    requires FrameContent(once, parse) == Some(first)
    requires FrameContent(upon, parse) == Some(second)
    ensures DecodeTale(Responded(Some(200), Encode(Terminated(Reply(role, once, upon), Newline)), None), parse)
      == Stream([first, second], Finished)
  {
    var lines := Reply(role, once, upon);
    ReplyLinesShape(role, once, upon);
    WellFormedBody(lines, parse);
    var classify := Classifier(parse);
    assert classify(lines[0]) == Ignore by {
      ObjectPayloadNotSentinel(role);
      FrameLine(role, parse);
    }
    assert classify(lines[2]) == Yield(first) by {
      ObjectPayloadNotSentinel(once);
      FrameLine(once, parse);
    }
    assert classify(lines[3]) == Yield(second) by {
      ObjectPayloadNotSentinel(upon);
      FrameLine(upon, parse);
    }
    assert classify(lines[1]) == classify(lines[4]) == Ignore;
    assert classify(lines[5]) == Finish;
    DecodeReply(lines, classify, first, second);
  }

  /** The decoding of the reply's lines, from their classification alone. */
  lemma DecodeReply(lines: seq<string>, classify: string -> LineAction, first: string, second: string)
    requires |lines| == 8
    requires classify(lines[0]) == Ignore && classify(lines[1]) == Ignore
    requires classify(lines[2]) == Yield(first) && classify(lines[3]) == Yield(second)
    requires classify(lines[4]) == Ignore && classify(lines[5]) == Finish
    ensures DecodeLines(lines, classify) == Decoded([first, second], true)
  {
    assert lines[..0] == [];
    assert lines[..1] == lines[..0] + [lines[0]];
    assert lines[..2] == lines[..1] + [lines[1]];
    assert lines[..3] == lines[..2] + [lines[2]];
    assert lines[..4] == lines[..3] + [lines[3]];
    assert lines[..5] == lines[..4] + [lines[4]];
    assert lines[..6] == lines[..5] + [lines[5]];
    DecodeLinesSnoc(lines[..0], lines[0], classify);
    DecodeLinesSnoc(lines[..1], lines[1], classify);
    DecodeLinesSnoc(lines[..2], lines[2], classify);
    DecodeLinesSnoc(lines[..3], lines[3], classify);
    DecodeLinesSnoc(lines[..4], lines[4], classify);
    DecodeLinesSnoc(lines[..5], lines[5], classify);
    assert DecodeLines(lines[..3], classify) == Decoded([first], false);
    assert DecodeLines(lines[..6], classify) == Decoded([first, second], true);
    DecodeLinesAppend(lines[..6], lines[6..], classify);
    assert lines[..6] + lines[6..] == lines;
  }

  /** The lines of `TypicalReply`. */
  function Reply(role: string, once: string, upon: string): seq<string> {
    [DataPrefix + role, "", DataPrefix + once, DataPrefix + upon, "", DoneLine, "", DataPrefix + once]
  }

  lemma ReplyLinesShape(role: string, once: string, upon: string)
    requires IsAscii(role) && IsAscii(once) && IsAscii(upon)
    requires Newline !in role && Newline !in once && Newline !in upon
    ensures forall i :: 0 <= i < |Reply(role, once, upon)| ==>
      IsAscii(Reply(role, once, upon)[i]) && Newline !in Reply(role, once, upon)[i]
  {
    forall p | p in [role, once, upon]
      ensures IsAscii(DataPrefix + p) && Newline !in DataPrefix + p
    {
      assert forall i :: 0 <= i < |p| ==> (DataPrefix + p)[|DataPrefix| + i] == p[i];
    }
  }
}
