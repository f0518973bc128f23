# TaleGenie's OpenAI service, modelled in Dafny

TaleGenie writes children's fairytales with a chat-completion model and reads
them aloud with a text-to-speech model. The core of the app is
`OpenAIService`, which has three operations:

- `generateTale` sends a streamed chat request for a prompt. It decodes the
  server-sent-event body byte by byte into text increments. Each complete
  `data: ` line carries a JSON frame whose `choices[0].delta.content` is
  yielded. The line `data: [DONE]` ends the stream.
- `generateAudioStream` sends a speech request. It cuts the MP3 body into
  chunks of 32 KiB.
- `playAudioStream` concatenates the chunks, writes them to a file, opens an
  audio player on it and removes the file.

The model has these modules:

- `Common`: bytes, the service's errors, and what an `AsyncThrowingStream`
  delivers (its elements, then how it finished).
- `Exchange`, also in `Common`: what the URL loading system delivers. This is
  either a failed connection, or a status, the body bytes and the error that
  cut the body short, if any.
- `Utf8`: the two UTF-8 conversions the decoder makes. One decodes a lone
  byte; the other encodes a frame for the parser.
- `JsonModel`: JSON values and the optional-chaining navigation to the delta
  content. The parser is a parameter.
- `Lines`: `components(separatedBy:)` and the complete lines and fragment of a
  buffer. It is generic over the element type.
- `Frames`: the line-by-line decoding, with the sentinel.
- `TextStream`: `generateTale`.
  - `DecodeTale` is the pure specification of the whole stream.
  - `GenerateTale` is the byte loop with its buffer and its inner loop over
    `lines.dropLast()`, proved equal to `DecodeTale`.
- `AudioStream`: `generateAudioStream`. `GenerateAudioStream` is the byte
  loop, proved equal to the specification `AudioChunks`.
- `AudioSink`: `playAudioStream`. `PlayAudioStream` is proved equal to `Sink`.
  The file system and the player are an `Environment` parameter.
- `Requests`: the two request bodies, and the prefix put before the user's
  prompt.
- `Story`: how the main view accumulates the text stream.
- `ByteFrames`: the corrected decoder described under Findings.

Behaviour of the code that the model keeps as written:

- Only HTTP status 200 is accepted (OpenAIService.swift:50, :115). Any other
  status, and a response that is not HTTP, throws `invalidResponse` before the
  body is read.
- `failedToGenerateText` and `failedToGenerateAudio` are never thrown. A
  transport failure reaches the consumer as the transport's own error
  (:85-86, :136-137), `Transport` in the model.
- A file the player rejects stays on disk, and a failed `removeItem` is
  thrown to the caller (:154-158).
- An interrupted audio stream does not yield the partial chunk it holds: the
  error skips the final yield (:131-137).

## Model

| member | source | states |
|---|---|---|
| Utf8.EncodeChar | TaleGenie/Services/OpenAIService.swift:72 | the UTF-8 encoding of one character, one to four bytes |
| Utf8.Encode | TaleGenie/Services/OpenAIService.swift:72 | `jsonString.data(using: .utf8)`: the characters' encodings in order, at least one byte per character |
| Utf8.DecodeLoneByte | TaleGenie/Services/OpenAIService.swift:57 | a lone byte decodes exactly when it is a one-byte UTF-8 sequence, and then to the character with its code |
| Utf8.EncodeCharWellFormed | TaleGenie/Services/OpenAIService.swift:72 | a character encodes to one well-formed UTF-8 sequence: the lead byte announces the length and the rest are continuation bytes; a character below 0x80 is the one byte with its code |
| Utf8.EncodeAppend | TaleGenie/Services/OpenAIService.swift:72 | encoding a concatenation is concatenating the encodings |
| Utf8.EncodeAscii | TaleGenie/Services/OpenAIService.swift:57-72 | ASCII text encodes to one byte per character with the same code, and each such byte decodes on its own back to its character |
| Utf8.EncodeAsciiAvoids | TaleGenie/Services/OpenAIService.swift:60-72 | an ASCII character missing from an ASCII text is missing as a byte from its encoding |
| Utf8.EncodeAsciiInjective | TaleGenie/Services/OpenAIService.swift:65-66 | for ASCII texts, prefix and equality hold between the encodings exactly when they hold between the texts |
| JsonModel.AsObjectArray | TaleGenie/Services/OpenAIService.swift:74 | the cast to an array of dictionaries succeeds exactly when the value is an array all of whose elements are objects, and keeps their members in order |
| JsonModel.DeltaContent | TaleGenie/Services/OpenAIService.swift:73-76 | the optional chain `json as? [String: Any]`, `["choices"] as? [[String: Any]]`, `first?["delta"] as? [String: Any]`, `["content"] as? String`; `None` when any link fails |
| JsonModel.DeltaContentSucceeds | TaleGenie/Services/OpenAIService.swift:73-76 | the navigation yields a text exactly when the frame is an object, its `choices` is a non-empty array of objects, the first has an object `delta`, and that object's `content` is that string |
| JsonModel.ContentFrameYieldsText | TaleGenie/Services/OpenAIService.swift:73-77 | a frame `{"choices":[{"delta":{"content":t}}]}` yields `t` |
| JsonModel.RoleFrameYieldsNothing | TaleGenie/Services/OpenAIService.swift:73-76 | a frame whose delta carries only a role yields nothing |
| JsonModel.ChainFailures | TaleGenie/Services/OpenAIService.swift:74-76 | content that is not a string, an empty `choices`, or a non-object element anywhere in `choices` each make the navigation fail |
| Lines.Split | TaleGenie/Services/OpenAIService.swift:61 | `components(separatedBy:)`: the pieces between separators, always at least one |
| Lines.SplitPieces | TaleGenie/Services/OpenAIService.swift:61 | no piece of a split holds the separator, and there is one piece more than there are separators |
| Lines.JoinSplit | TaleGenie/Services/OpenAIService.swift:61 | joining the pieces with the separator gives back the text |
| Lines.SplitJoin | TaleGenie/Services/OpenAIService.swift:61 | splitting the join of separator-free pieces gives back the pieces |
| Lines.SplitWithoutSeparator | TaleGenie/Services/OpenAIService.swift:60-61 | a text without the separator splits into itself alone |
| Lines.SplitTerminatedLine | TaleGenie/Services/OpenAIService.swift:60-64 | a line followed by a newline splits into that line and an empty last piece, which becomes the new buffer |
| Lines.SplitIsLinesAndFragment | TaleGenie/Services/OpenAIService.swift:61-64 | the pieces are the complete lines, then the unterminated fragment that is kept as the buffer |
| Lines.CompleteLines | TaleGenie/Services/OpenAIService.swift:60-64 | the lines the decoder handles: every run of text ended by a separator, in order, without its separator |
| Lines.Fragment | TaleGenie/Services/OpenAIService.swift:60-62 | the `buffer` kept between bytes: the text after the last separator, which never holds one |
| Lines.LinesSnoc | TaleGenie/Services/OpenAIService.swift:58-62 | one more element: a separator completes the fragment as a line and empties it, any other element extends the fragment |
| Lines.LinesShape | TaleGenie/Services/OpenAIService.swift:61-64 | complete lines hold no separator, there is one per separator, and the fragment is a suffix of the text |
| Lines.LinesRoundTrip | TaleGenie/Services/OpenAIService.swift:54-64 | the complete lines, each with its separator, followed by the fragment, are the text |
| Lines.CompleteLinesOfTerminated | TaleGenie/Services/OpenAIService.swift:54-64 | separator-free lines each ended by the separator are read back as exactly those lines, with an empty fragment |
| Lines.LinesWithinLine | TaleGenie/Services/OpenAIService.swift:62 | text without a separator only extends the fragment and completes no line |
| Lines.CompleteLinesPrefix | TaleGenie/Services/OpenAIService.swift:56-64 | more text never takes back or changes a complete line |
| Lines.LinesKeepElements | TaleGenie/Services/OpenAIService.swift:57-61 | every element of every complete line and of the fragment comes from the text, so a property of all the text's elements holds for them |
| Lines.SingleLine | TaleGenie/Services/OpenAIService.swift:60-64 | one separator-free line and its separator are read as that one line |
| Frames.Step | TaleGenie/Services/OpenAIService.swift:64-78 | one line handled: skipped, its content appended to the events, or the stream ended; once ended, nothing changes |
| Frames.DecodeLines | TaleGenie/Services/OpenAIService.swift:64-69 | the lines handled one after another in order, stopping at the first sentinel as the `return` does |
| Frames.DecodeLinesAppend | TaleGenie/Services/OpenAIService.swift:64-80 | decoding two runs of lines: after a sentinel in the first nothing more happens; otherwise the second run's events follow the first's |
| Frames.DecodePrefix | TaleGenie/Services/OpenAIService.swift:64-80 | the events of a prefix of the lines are a prefix of the events of all of them, and after a sentinel nothing changes |
| Frames.DoneStaysDone | TaleGenie/Services/OpenAIService.swift:66-69 | once a sentinel has been decoded, further lines change nothing |
| Frames.DoneIffSentinel | TaleGenie/Services/OpenAIService.swift:66-69 | the stream ends early exactly when some line is a sentinel |
| Frames.BeforeSentinel | TaleGenie/Services/OpenAIService.swift:64-69 | the lines before the first sentinel: a prefix with no sentinel, followed by a sentinel when it is not all the lines |
| Frames.EventsBeforeSentinel | TaleGenie/Services/OpenAIService.swift:64-80 | the events are the contents of the content lines before the first sentinel, in line order |
| TextStream.FrameContent | TaleGenie/Services/OpenAIService.swift:71-76 | the content a payload carries: its UTF-8 bytes handed to the parser, then the cast chain to `choices[0].delta.content` |
| TextStream.Classify | TaleGenie/Services/OpenAIService.swift:65-78 | a line finishes the stream exactly when it is `data: [DONE]`; a line without `data: ` is skipped; a line yields exactly when it has the prefix, is not the sentinel and its payload carries content, and it yields that content |
| TextStream.Admit | TaleGenie/Services/OpenAIService.swift:57-58 | a byte adds nothing to the buffer exactly when it is 0x80 or above, and otherwise adds the character with its code |
| TextStream.BufferedText | TaleGenie/Services/OpenAIService.swift:56-58 | all the text the body's bytes put into the buffer: each byte's character when it decodes on its own, in order, never longer than the body |
| TextStream.BufferedTextAscii | TaleGenie/Services/OpenAIService.swift:56-58 | the buffer only ever holds ASCII, and an all-ASCII body reaches it whole, byte for character |
| TextStream.BufferedTextAppend | TaleGenie/Services/OpenAIService.swift:56-58 | what two runs of bytes put into the buffer is what each puts in, one after the other |
| TextStream.BufferedAscii | TaleGenie/Services/OpenAIService.swift:57-58 | the encoding of ASCII text reaches the buffer unchanged |
| TextStream.ReadLines | TaleGenie/Services/OpenAIService.swift:54-84 | the decoding of the complete lines of the buffered text, with whether the sentinel was met |
| TextStream.DecodeTale | TaleGenie/Services/OpenAIService.swift:44-89 | the whole text stream for one exchange: `invalidResponse` unless the status is 200, the transport error on a failed connection, otherwise the decoded events, finishing normally after the sentinel or at the end of the body, and with the transport error when the body was cut short before the sentinel |
| TextStream.ReadStep | TaleGenie/Services/OpenAIService.swift:56-62 | one more byte: a newline byte completes the buffered fragment as a line and empties the buffer; any other byte extends the fragment by what it admits |
| TextStream.ByteStep | TaleGenie/Services/OpenAIService.swift:56-80 | the buffer never holds a newline between bytes; a newline byte hands the buffered line to `Classify`, any other byte leaves the events unchanged |
| TextStream.HandleLines | TaleGenie/Services/OpenAIService.swift:61-80 | the inner loop over `lines.dropLast()` yields what decoding every piece but the last yields, and reports the sentinel |
| TextStream.GenerateTale | TaleGenie/Services/OpenAIService.swift:44-89 | the events yielded and the way the stream finishes are those of `DecodeTale`: `invalidResponse` unless the status is 200, the transport error on a failed connection, and otherwise the decoded lines, finishing normally after the sentinel or at the end of the body, and with the transport error when the body was cut short before any sentinel |
| TextStream.SentinelIsFinal | TaleGenie/Services/OpenAIService.swift:66-69 | once the sentinel has been read, the rest of the body cannot change the decoding |
| TextStream.RejectedBeforeReading | TaleGenie/Services/OpenAIService.swift:49-52 | any status other than 200 gives `invalidResponse` with nothing yielded, whatever the body and the transport |
| TextStream.EventsGrow | TaleGenie/Services/OpenAIService.swift:56-83 | reading more bytes never takes back an event, and after the sentinel changes nothing |
| TextStream.InterruptionKeepsEvents | TaleGenie/Services/OpenAIService.swift:56-86 | a transport error keeps exactly the events read before it, which lead the events of any longer body, and ends the stream with that error unless the sentinel was already read |
| TextStream.SentinelIgnoresRest | TaleGenie/Services/OpenAIService.swift:66-69 | after the sentinel, further bytes and a later transport error change nothing, and the stream finishes normally |
| TextStream.NoNewlineBuffered | TaleGenie/Services/OpenAIService.swift:57-60 | bytes without a newline byte put no newline into the buffer |
| TextStream.UnterminatedTailIgnored | TaleGenie/Services/OpenAIService.swift:60-84 | text after the last newline byte is never decoded, whatever it holds |
| TextStream.EventsUpToSentinel | TaleGenie/Services/OpenAIService.swift:54-84 | the events are the contents of the complete lines before the first `data: [DONE]`, and the stream ends early exactly when that line is among them |
| TextStream.WellFormedBody | TaleGenie/Services/OpenAIService.swift:54-84 | a body of ASCII lines, each ended by a newline, is decoded as exactly those lines |
| TextStream.FrameLine | TaleGenie/Services/OpenAIService.swift:65-77 | every `data: ` line other than the sentinel yields exactly the content its payload carries, and nothing when it carries none |
| TextStream.TypicalReply | TaleGenie/Services/OpenAIService.swift:44-89 | a reply of a role frame, two content frames, blank lines, the sentinel and a frame after it yields exactly the two contents, in order, and finishes normally |
| AudioStream.Chunked | TaleGenie/Services/OpenAIService.swift:119-133 | the data cut from the front into chunks of 32768 bytes, the last chunk holding what is left |
| AudioStream.AudioChunks | TaleGenie/Services/OpenAIService.swift:109-140 | the whole audio stream for one exchange: `invalidResponse` unless the status is 200, the transport error on a failed connection, the chunks of the body, or the whole chunks received then the transport error |
| AudioStream.ChunkedFlatten | TaleGenie/Services/OpenAIService.swift:119-133 | the chunks put back together are the data |
| AudioStream.ChunkedShape | TaleGenie/Services/OpenAIService.swift:119-133 | no data gives no chunk; every chunk but the last holds exactly 32768 bytes, and the last holds 1 to 32768 |
| AudioStream.ChunkedCount | TaleGenie/Services/OpenAIService.swift:119-133 | n bytes give ceil(n / 32768) chunks |
| AudioStream.ChunkedAppend | TaleGenie/Services/OpenAIService.swift:122-128 | data that is a whole number of chunks is cut independently of what follows |
| AudioStream.OneMoreChunk | TaleGenie/Services/OpenAIService.swift:125-128 | one more full buffer is one more chunk, at the end |
| AudioStream.AudioDelivered | TaleGenie/Services/OpenAIService.swift:109-140 | a complete response is delivered whole and in order; an interrupted one delivers a prefix of the body that is a whole number of chunks and loses fewer than 32768 bytes |
| AudioStream.AudioRejectedBeforeReading | TaleGenie/Services/OpenAIService.swift:114-117 | any status other than 200 gives `invalidResponse` with no chunk |
| AudioStream.GenerateAudioStream | TaleGenie/Services/OpenAIService.swift:109-140 | the chunks yielded and the way the stream finishes are those of `AudioChunks`: full chunks as the buffer fills, then the non-empty remainder, or the transport error without the remainder |
| AudioSink.Sink | TaleGenie/Services/OpenAIService.swift:147-159 | the outcome of playing a stream: its error before anything is written, then a write error, `invalidAudioData` with the file left, a removal error with the file left, or the player holding the concatenated chunks with no file left |
| AudioSink.PlayAudioStream | TaleGenie/Services/OpenAIService.swift:143-160 | the chunk loop builds the concatenation of every chunk in order, and the call ends as `Sink` says: a stream error before anything is written, then write error, rejected audio (file left), removal error (file left), or the player with the whole audio and no file left |
| AudioSink.SpeechPlayedWhole | TaleGenie/Services/OpenAIService.swift:147-159 | speech fetched in full and played gives a player holding exactly the response body, and leaves no file |
| AudioSink.InterruptedSpeechNotPlayed | TaleGenie/Services/OpenAIService.swift:148-150 | speech cut short is never played and leaves no file; the transport error reaches the caller |
| AudioSink.RejectedSpeechLeftOnDisk | TaleGenie/Services/OpenAIService.swift:152-156 | audio the player rejects gives `invalidAudioData` and leaves the file, holding the whole body, on disk |
| Requests.TaleRequest | TaleGenie/Services/OpenAIService.swift:18-40 | the chat request: endpoint, `POST`, bearer and JSON headers, and the body with the model, the system and user messages, streaming, temperature 0.7 and 500 tokens |
| Requests.SpeechRequest | TaleGenie/Services/OpenAIService.swift:93-105 | the speech request: endpoint, `POST`, the same headers, and the body with `tts-1`, the text, `alloy`, `mp3` and speed 1.0 |
| Requests.UserPrompt | TaleGenie/Services/OpenAIService.swift:29-36 | a prompt is read back only from an object body with `messages` |
| Requests.TaleRequestCarriesPrompt | TaleGenie/Services/OpenAIService.swift:18-40 | the user message carries the prompt behind `Create a fairytale about: `, after the system message, and the key travels as a bearer token |
| Requests.TaleRequestInjective | TaleGenie/Services/OpenAIService.swift:29-36 | different prompts give different requests |
| Requests.SpeechRequestCarriesText | TaleGenie/Services/OpenAIService.swift:93-105 | the story text travels unchanged as `input`, and the key as a bearer token |
| Common.Flatten | TaleGenie/Services/OpenAIService.swift:148-150 | the in-order concatenation of the elements, as `audioData.append(chunk)` and the view's `fullStory += text` build it |
| Story.ShowTale | TaleGenie/Views/MainContentView.swift:71-85 | the story shown once the stream ends, however it ended, is the increments concatenated in the order they were yielded |
| Story.StoryOnlyGrows | TaleGenie/Views/MainContentView.swift:74-82 | the story from a prefix of the body is a prefix of the story from the whole body |
| ByteFrames.ClassifyBytes | TaleGenie/Services/OpenAIService.swift:65-76 | a line of bytes finishes the stream exactly when it is the encoding of `data: [DONE]` |
| ByteFrames.PrefixEncodings | TaleGenie/Services/OpenAIService.swift:65-66 | the encoded prefix is six bytes and starts the encoded sentinel |
| ByteFrames.EveryPayloadByteParsed | TaleGenie/Services/OpenAIService.swift:65-77 | for every `data: ` line other than the sentinel, the corrected decoder hands the parser every byte of the payload and yields exactly the content the parser finds there |
| ByteFrames.WellFormedByteBody | TaleGenie/Services/OpenAIService.swift:54-84 | byte lines each ended by a newline byte are decoded as exactly those lines |
| ByteFrames.ClassifyAgrees | TaleGenie/Services/OpenAIService.swift:65-76 | on an ASCII line the corrected classification is the original one |
| ByteFrames.ByteLinesAgree | TaleGenie/Services/OpenAIService.swift:56-62 | on an ASCII body, splitting the bytes on the newline byte gives the encodings of the buffered text's lines and fragment |
| ByteFrames.DecodeEncodedLines | TaleGenie/Services/OpenAIService.swift:64-80 | the corrected decoding of encoded ASCII lines is their original decoding |
| ByteFrames.CorrectedAgreesOnAscii | TaleGenie/Services/OpenAIService.swift:44-89 | on an ASCII body the corrected decoder and `generateTale` produce the same stream |
| ByteFrames.BytesAroundAccent | TaleGenie/Services/OpenAIService.swift:57 | the two bytes of `é` between runs of ASCII leave no trace in the buffer |
| ByteFrames.AccentNotBuffered | TaleGenie/Services/OpenAIService.swift:57-58 | as written, the accented frame reaches the buffer without the accent |
| ByteFrames.AccentedFrameAsWritten | TaleGenie/Services/OpenAIService.swift:56-78 | as written, the accented frame is decoded as the one line without the accent |
| ByteFrames.AccentedFrameCorrected | TaleGenie/Services/OpenAIService.swift:56-78 | the corrected decoder reads the accented frame as one line whose payload keeps the accent |
| ByteFrames.AccentDropped | TaleGenie/Services/OpenAIService.swift:57-77 | a frame whose content is `café` yields `caf` as written, and `café` with the correction |

## Left out

- Transport: `URLSession`, the request going out and the timing of bytes are not modelled. An `Exchange` stands for everything the transport delivers: a failed connection, or a status, the finite body and an optional error that cut it short.
- Concurrency: `Task`, the buffering of `AsyncThrowingStream`, cancellation, and the main-actor hop in the view are not modelled. A stream is modelled as its elements and how it finished.
- JSON parsing is not modelled: `JSONSerialization.jsonObject(with:)` is the `Parser` parameter. Serialising the request bodies to bytes is not modelled either; a request body is the JSON value handed to the serialiser.
- Requests.TaleRequest: `temperature` 0.7 is an exact real, and its rounding to `Double` is not modelled; `max_tokens` 500 is an integer, modelled as the real 500.
- Requests.SpeechRequest: `speed` 1.0 is an exact real; it is exact as a `Double` too, so nothing is lost.
- Text: characters are Unicode scalars, and Swift's grapheme clusters are not modelled. In Swift, a `\n` appended after a `\r` merges with it into the single Character `"\r\n"`. Depending on which `contains` overload is chosen, `buffer.contains("\n")` (:60) may then not fire, so a line ended by CR LF would be handled only at the next bare LF, or never. The model handles such a line as soon as its LF arrives, keeping the CR at the end of the line.
- The file system and the player are not modelled: the documents directory, the UUID file name, `Data.write`, `AVAudioPlayer(contentsOf:)` and `removeItem`. What each of them does is an `Environment` parameter. A failed write is assumed to leave no file.
- `failedToGenerateText` and `failedToGenerateAudio` are declared but never thrown. The model declares them and no path produces them.
- The service's `@Published` flags `isGenerating` and `isGeneratingAudio` are never changed by its methods, so they are not modelled.
- The API key is a parameter of the request functions; where it is stored is not modelled.
- Outside this model: the views other than the tale consumer in `MainContentView`, authentication, the tale store and the app's wiring.

## Findings

| source | as written | input that shows it | evidently intended | confidence | as-written member | corrected member |
|---|---|---|---|---|---|---|
| TaleGenie/Services/OpenAIService.swift:57 | each body byte is decoded as UTF-8 on its own, so every byte of a multi-byte character decodes to nil and is dropped before the frame is parsed | a frame whose content is `café` (bytes C3 A9 for `é`) yields `caf`; a curly apostrophe or any accented letter in the story is lost the same way | split the body into lines on the newline byte and hand the parser each payload's bytes as they arrived | medium, not executed | ByteFrames.AccentDropped | ByteFrames.CorrectedAgreesOnAscii |
