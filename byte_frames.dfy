/** The text decoder with its lines split on the newline byte instead of on a
    buffer of one-byte strings, so that every byte of a frame reaches the
    JSON parser. `generateTale` drops each byte that is not a whole UTF-8
    sequence by itself (OpenAIService.swift:57), so any character outside
    ASCII in a frame is lost before the frame is parsed; `AccentDropped`
    exhibits this, and `ReadByteLines` is the decoder with it corrected. On
    ASCII bodies the two agree (`CorrectedAgreesOnAscii`). */
module ByteFrames {
  import opened Common
  import opened Utf8
  import opened Lines
  import opened JsonModel
  import opened Frames
  import opened TextStream

  const NewlineByte: byte := 0x0A

  /** What one complete line of bytes does: the rules of `Classify`, with the
      prefix and the sentinel compared as UTF-8 bytes and the payload handed
      to the parser as it arrived. */
  function ClassifyBytes(line: seq<byte>, parse: Parser): (action: LineAction)
    ensures action.Finish? <==> line == Encode(DoneLine)
    ensures !(Encode(DataPrefix) <= line) ==> action == Ignore
  {
    if !(Encode(DataPrefix) <= line) then
      (assert !(Encode(DoneLine) <= line) by { PrefixEncodings(); } Ignore)
    else if line == Encode(DoneLine) then Finish
    else
      match parse(line[|Encode(DataPrefix)|..])
      case None => Ignore
      case Some(json) =>
        match DeltaContent(json)
        case None => Ignore
        case Some(content) => Yield(content)
  }

  function ByteClassifier(parse: Parser): seq<byte> -> LineAction {
    line => ClassifyBytes(line, parse)
  }

  /** The decoding of the complete lines of the body, split on the newline
      byte. */
  function ReadByteLines(body: seq<byte>, parse: Parser): Decoded {
    DecodeLines(CompleteLines(body, NewlineByte), ByteClassifier(parse))
  }

  /** `DecodeTale` with `ReadByteLines` in place of `ReadLines`. */
  function DecodeTaleBytes(exchange: Exchange, parse: Parser): Stream<string> {
    match exchange
    case ConnectionFailed(error) => Stream([], FinishedThrowing(Transport(error)))
    case Responded(status, body, interruption) =>
      if status != Some(200) then Stream([], FinishedThrowing(Service(InvalidResponse)))
      else
        var decoded := ReadByteLines(body, parse);
        if decoded.done || interruption.None? then Stream(decoded.events, Finished)
        else Stream(decoded.events, FinishedThrowing(Transport(interruption.value)))
  }

  /** The encodings of the prefix and the sentinel: six bytes, and the
      sentinel starts with the prefix. */
  lemma PrefixEncodings()
    ensures |Encode(DataPrefix)| == |DataPrefix|
    ensures Encode(DataPrefix) <= Encode(DoneLine)
  {
    assert IsAscii(DataPrefix) && IsAscii(DoneLine);
    EncodeAscii(DataPrefix);
    EncodeAsciiInjective(DataPrefix, DoneLine);
  }

  /** The corrected decoder hands the parser every byte of a frame's payload:
      any `data: ` line other than the sentinel yields exactly the content the
      parser finds in its payload. */
  lemma EveryPayloadByteParsed(payload: seq<byte>, parse: Parser)
    requires Encode(DataPrefix) + payload != Encode(DoneLine)
    ensures ClassifyBytes(Encode(DataPrefix) + payload, parse) ==
      match parse(payload)
      case None => Ignore
      case Some(json) => match DeltaContent(json) case None => Ignore case Some(content) => Yield(content)
  {
    PrefixEncodings();
    var line := Encode(DataPrefix) + payload;
    assert line[..|Encode(DataPrefix)|] == Encode(DataPrefix);
    assert line[|Encode(DataPrefix)|..] == payload;
  }

  /** A payload whose first byte opens a JSON object never makes the encoded
      sentinel. */
  lemma ObjectBytesNotSentinel(payload: seq<byte>)
    requires |payload| > 0 && payload[0] == 0x7B
    ensures Encode(DataPrefix) + payload != Encode(DoneLine)
  {
    PrefixEncodings();
    assert IsAscii(DoneLine);
    EncodeAscii(DoneLine);
    assert (Encode(DataPrefix) + payload)[|DataPrefix|] != Encode(DoneLine)[|DataPrefix|];
  }

  /** A body of newline-free byte lines, each ended by a newline byte, is
      decoded line by line. */
  lemma WellFormedByteBody(lines: seq<seq<byte>>, parse: Parser)
    requires forall i :: 0 <= i < |lines| ==> NewlineByte !in lines[i]
    ensures ReadByteLines(Terminated(lines, NewlineByte), parse) == DecodeLines(lines, ByteClassifier(parse))
  {
    CompleteLinesOfTerminated(lines, NewlineByte);
  }

  /** On an ASCII line the corrected classification is the original one. */
  lemma ClassifyAgrees(line: string, parse: Parser)
    requires IsAscii(line)
    ensures ClassifyBytes(Encode(line), parse) == Classify(line, parse)
  {
    assert IsAscii(DataPrefix) && IsAscii(DoneLine);
    assert (Encode(DataPrefix) <= Encode(line)) == (DataPrefix <= line) by {
      EncodeAsciiInjective(DataPrefix, line);
    }
    assert (Encode(line) == Encode(DoneLine)) == (line == DoneLine) by {
      EncodeAsciiInjective(DoneLine, line);
    }
    if DataPrefix <= line && line != DoneLine {
      var payload := line[|DataPrefix|..];
      assert Encode(line)[|Encode(DataPrefix)|..] == Encode(payload) by {
        assert DataPrefix + payload == line;
        EncodeAppend(DataPrefix, payload);
        PrefixEncodings();
      }
    }
  }

  function EncodeAll(lines: seq<string>): (encoded: seq<seq<byte>>)
    ensures |encoded| == |lines|
  {
    if lines == [] then [] else EncodeAll(lines[..|lines| - 1]) + [Encode(lines[|lines| - 1])]
  }

  /** On an ASCII body, splitting the bytes on the newline byte gives the
      encodings of the lines of the buffered text. */
  lemma {:induction false} ByteLinesAgree(body: seq<byte>)
    requires forall i :: 0 <= i < |body| ==> body[i] < 0x80
    ensures CompleteLines(body, NewlineByte) == EncodeAll(CompleteLines(BufferedText(body), Newline))
    ensures Fragment(body, NewlineByte) == Encode(Fragment(BufferedText(body), Newline))
    decreases |body|
  {
    if body != [] {
      var k := |body| - 1;
      assert body[..k] + [body[k]] == body;
      assert forall i :: 0 <= i < k ==> body[..k][i] == body[i];
      ByteLinesAgree(body[..k]);
      ByteLinesStep(body[..k], body[k]);
    }
  }

  lemma EncodeAllSnoc(lines: seq<string>, line: string)
    ensures EncodeAll(lines + [line]) == EncodeAll(lines) + [Encode(line)]
  {
    assert (lines + [line])[..|lines|] == lines;
  }

  /** One more ASCII byte keeps the byte lines and the text lines in step. */
  lemma ByteLinesStep(init: seq<byte>, b: byte)
    requires b < 0x80
    requires CompleteLines(init, NewlineByte) == EncodeAll(CompleteLines(BufferedText(init), Newline))
    requires Fragment(init, NewlineByte) == Encode(Fragment(BufferedText(init), Newline))
    ensures CompleteLines(init + [b], NewlineByte) == EncodeAll(CompleteLines(BufferedText(init + [b]), Newline))
    ensures Fragment(init + [b], NewlineByte) == Encode(Fragment(BufferedText(init + [b]), Newline))
  {
    var text := BufferedText(init);
    var c := (b as int) as char;
    var lines, fragment := CompleteLines(text, Newline), Fragment(text, Newline);
    assert BufferedText(init + [b]) == text + [c] by {
      assert (init + [b])[..|init|] == init;
    }
    LinesSnoc(init, b, NewlineByte);
    LinesSnoc(text, c, Newline);
    if b == NewlineByte {
      assert c == Newline;
      calc {
        CompleteLines(init + [b], NewlineByte);
        EncodeAll(lines) + [Encode(fragment)];
        { EncodeAllSnoc(lines, fragment); }
        EncodeAll(lines + [fragment]);
      }
    } else {
      assert c != Newline;
      calc {
        Fragment(init + [b], NewlineByte);
        Encode(fragment) + [b];
        { EncodeSnoc(fragment, c); EncodeCharWellFormed(c); }
        Encode(fragment + [c]);
      }
    }
  }

  /** The lines of an ASCII body are ASCII. */
  lemma AsciiLines(body: seq<byte>)
    ensures forall i :: 0 <= i < |CompleteLines(BufferedText(body), Newline)| ==>
      IsAscii(CompleteLines(BufferedText(body), Newline)[i])
  {
    BufferedTextAscii(body);
    LinesKeepElements(BufferedText(body), Newline, c => c as int < 0x80);
  }

  /** The corrected decoding of encoded ASCII lines is their original
      decoding. */
  lemma {:induction false} DecodeEncodedLines(lines: seq<string>, parse: Parser)
    requires forall i :: 0 <= i < |lines| ==> IsAscii(lines[i])
    ensures DecodeLines(EncodeAll(lines), ByteClassifier(parse)) == DecodeLines(lines, Classifier(parse))
    decreases |lines|
  {
    if lines != [] {
      var init, last := lines[..|lines| - 1], lines[|lines| - 1];
      assert forall i :: 0 <= i < |init| ==> init[i] == lines[i];
      DecodeEncodedLines(init, parse);
      ClassifyAgrees(last, parse);
      var encoded := EncodeAll(lines);
      assert encoded[..|encoded| - 1] == EncodeAll(init);
      assert ByteClassifier(parse)(Encode(last)) == Classifier(parse)(last);
    }
  }

  /** The correction changes nothing on an ASCII body: there the corrected
      decoder and `generateTale` produce the same stream. */
  lemma CorrectedAgreesOnAscii(exchange: Exchange, parse: Parser)
    requires exchange.Responded? ==> forall i :: 0 <= i < |exchange.body| ==> exchange.body[i] < 0x80
    ensures DecodeTaleBytes(exchange, parse) == DecodeTale(exchange, parse)
  {
    if exchange.Responded? {
      var body := exchange.body;
      ByteLinesAgree(body);
      AsciiLines(body);
      DecodeEncodedLines(CompleteLines(BufferedText(body), Newline), parse);
    }
  }

  /** The body of one frame whose payload has the two bytes C3 A9, the UTF-8
      encoding of U+00E9, between an ASCII head and an ASCII tail. */
  function AccentedFrame(head: string, tail: string): seq<byte> {
    Encode(DataPrefix + head) + [0xC3, 0xA9] + Encode(tail + [Newline])
  }

  /** As written, the buffer receives the frame without the accent's bytes. */
  lemma AccentNotBuffered(head: string, tail: string)
    requires IsAscii(head) && IsAscii(tail)
    ensures BufferedText(AccentedFrame(head, tail)) == DataPrefix + head + tail + [Newline]
  {
    var front, back := DataPrefix + head, tail + [Newline];
    assert IsAscii(front) && IsAscii(back) by {
      assert IsAscii(DataPrefix);
      assert forall i :: 0 <= i < |head| ==> front[|DataPrefix| + i] == head[i];
      assert forall i :: 0 <= i < |tail| ==> back[i] == tail[i];
    }
    BytesAroundAccent(front, back);
    assert front + back == DataPrefix + head + tail + [Newline];
  }

  /** The two bytes C3 A9 between two runs of ASCII leave no trace in the
      buffer. */
  lemma BytesAroundAccent(front: string, back: string)
    requires IsAscii(front) && IsAscii(back)
    ensures BufferedText(Encode(front) + [0xC3, 0xA9] + Encode(back)) == front + back
  {
    var first, second: seq<byte> := Encode(front), Encode(back);
    var accent: seq<byte> := [0xC3, 0xA9];
    assert BufferedText(accent) == [] by {
      assert accent[..1][..0] == [];
    }
    assert BufferedText(first + accent) == front by {
      BufferedAscii(front);
      BufferedTextAppend(first, accent);
      assert front + [] == front;
    }
    assert BufferedText(first + accent + second) == front + back by {
      BufferedAscii(back);
      BufferedTextAppend(first + accent, second);
    }
  }

  /** As written, the buffered text of the accented frame is one line: the
      prefix, the head and the tail. */
  lemma AccentedFrameText(head: string, tail: string)
    requires IsAscii(head) && IsAscii(tail) && Newline !in head && Newline !in tail
    ensures CompleteLines(BufferedText(AccentedFrame(head, tail)), Newline) == [DataPrefix + (head + tail)]
  {
    var line := DataPrefix + (head + tail);
    AccentNotBuffered(head, tail);
    assert DataPrefix + head + tail + [Newline] == line + [Newline];
    assert Newline !in line by {
      assert Newline !in DataPrefix;
    }
    SingleLine(line, Newline);
  }

  /** As written, the accented frame is decoded as the one line without the
      accent. */
  lemma AccentedFrameAsWritten(head: string, tail: string, parse: Parser)
    requires IsAscii(head) && IsAscii(tail) && Newline !in head && Newline !in tail
    requires |head| > 0 && head[0] == '{'
    ensures ReadLines(AccentedFrame(head, tail), parse) ==
      match FrameContent(head + tail, parse)
      case None => Decoded([], false)
      case Some(content) => Decoded([content], false)
  {
    var line := DataPrefix + (head + tail);
    AccentedFrameText(head, tail);
    assert ReadLines(AccentedFrame(head, tail), parse) == Step(Decoded([], false), Classify(line, parse)) by {
      DecodeSingle(line, Classifier(parse), []);
    }
    ObjectPayloadNotSentinel(head + tail);
    FrameLine(head + tail, parse);
    match FrameContent(head + tail, parse)
    case None =>
      assert Classify(line, parse) == Ignore;
    case Some(content) =>
      assert Classify(line, parse) == Yield(content);
  }

  /** The accented frame is one line of bytes: the encoded prefix, then the
      payload with the accent's bytes, then the newline byte. */
  lemma AccentedFrameBytes(head: string, tail: string)
    ensures AccentedFrame(head, tail) ==
      Encode(DataPrefix) + (Encode(head) + [0xC3, 0xA9] + Encode(tail)) + [NewlineByte]
  {
    var prefix, front, back: seq<byte> := Encode(DataPrefix), Encode(head), Encode(tail);
    var accent: seq<byte> := [0xC3, 0xA9];
    assert Encode(DataPrefix + head) == prefix + front by {
      EncodeAppend(DataPrefix, head);
    }
    assert Encode(tail + [Newline]) == back + [NewlineByte] by {
      EncodeSnoc(tail, Newline);
      EncodeCharWellFormed(Newline);
    }
    calc {
      AccentedFrame(head, tail);
      (prefix + front) + accent + (back + [NewlineByte]);
      prefix + (front + accent + back) + [NewlineByte];
    }
  }

  /** No newline byte inside the accented frame's line. */
  lemma AccentedLineUnbroken(head: string, tail: string)
    requires IsAscii(head) && IsAscii(tail) && Newline !in head && Newline !in tail
    ensures NewlineByte !in Encode(DataPrefix) + (Encode(head) + [0xC3, 0xA9] + Encode(tail))
  {
    assert IsAscii(DataPrefix) && Newline !in DataPrefix;
    EncodeAsciiAvoids(DataPrefix, Newline);
    EncodeAsciiAvoids(head, Newline);
    EncodeAsciiAvoids(tail, Newline);
  }

  /** The corrected decoder reads the accented frame as one line of bytes
      whose payload keeps the accent. */
  lemma AccentedFrameCorrected(head: string, tail: string, parse: Parser)
    requires IsAscii(head) && IsAscii(tail) && Newline !in head && Newline !in tail
    requires |head| > 0 && head[0] == '{'
    ensures ReadByteLines(AccentedFrame(head, tail), parse) ==
      match parse(Encode(head) + [0xC3, 0xA9] + Encode(tail))
      case None => Decoded([], false)
      case Some(json) => match DeltaContent(json) case None => Decoded([], false) case Some(content) => Decoded([content], false)
  {
    var payload := Encode(head) + [0xC3, 0xA9] + Encode(tail);
    var line := Encode(DataPrefix) + payload;
    assert CompleteLines(AccentedFrame(head, tail), NewlineByte) == [line] by {
      AccentedFrameBytes(head, tail);
      AccentedLineUnbroken(head, tail);
      SingleLine(line, NewlineByte);
    }
    assert ReadByteLines(AccentedFrame(head, tail), parse) == Step(Decoded([], false), ClassifyBytes(line, parse)) by {
      DecodeSingle(line, ByteClassifier(parse), []);
    }
    assert payload[0] == 0x7B by {
      EncodeAscii(head);
    }
    ObjectBytesNotSentinel(payload);
    EveryPayloadByteParsed(payload, parse);
  }

  /** As written, the two bytes of the accent never reach the parser: the
      frame `{"choices":[{"delta":{"content":"café"}}]}` is parsed as if it
      read `caf` and yields what the parser finds there. The corrected
      decoder parses the payload as it arrived and yields `café`. */
  lemma AccentDropped(head: string, tail: string, parse: Parser)
    requires IsAscii(head) && IsAscii(tail) && Newline !in head && Newline !in tail
    requires |head| > 0 && head[0] == '{'
    requires parse(Encode(head + tail)) == Some(ContentFrame("caf"))
    requires parse(Encode(head) + [0xC3, 0xA9] + Encode(tail)) == Some(ContentFrame("caf\U{E9}"))
    ensures DecodeTale(Responded(Some(200), AccentedFrame(head, tail), None), parse) == Stream(["caf"], Finished)
    ensures DecodeTaleBytes(Responded(Some(200), AccentedFrame(head, tail), None), parse) == Stream(["caf\U{E9}"], Finished)
  {
    AccentedFrameAsWritten(head, tail, parse);
    AccentedFrameCorrected(head, tail, parse);
    ContentFrameYieldsText("caf");
    ContentFrameYieldsText("caf\U{E9}");
  }
}
