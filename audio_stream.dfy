/** `OpenAIService.generateAudioStream`: the body of a speech response cut
    into 32 KiB chunks (OpenAIService.swift:109-140). Every byte is appended
    to a buffer; the buffer is yielded and emptied as soon as it holds 32768
    bytes, and whatever remains when the byte stream ends is yielded last. */
module AudioStream {
  import opened Common

  /** `32 * 1024`, the size of every chunk but the last (OpenAIService.swift:119). */
  const ChunkSize: nat := 32 * 1024

  /** The data cut from the front into chunks of `ChunkSize` bytes, the last
      chunk holding what is left over. */
  function Chunked(data: seq<byte>): seq<seq<byte>>
    decreases |data|
  {
    if data == [] then []
    else if |data| <= ChunkSize then [data]
    else [data[..ChunkSize]] + Chunked(data[ChunkSize..])
  }

  /** The chunks put back together are the data. */
  lemma {:induction false} ChunkedFlatten(data: seq<byte>)
    ensures Flatten(Chunked(data)) == data
    decreases |data|
  {
    if 0 < |data| <= ChunkSize {
      FlattenCons(data, []);
    } else if |data| > ChunkSize {
      ChunkedFlatten(data[ChunkSize..]);
      FlattenCons(data[..ChunkSize], Chunked(data[ChunkSize..]));
      assert data[..ChunkSize] + data[ChunkSize..] == data;
    }
  }

  /** No data, no chunk; every chunk but the last holds exactly `ChunkSize`
      bytes and the last holds between 1 and `ChunkSize`. */
  lemma {:induction false} ChunkedShape(data: seq<byte>)
    ensures Chunked(data) == [] <==> data == []
    ensures forall i :: 0 <= i < |Chunked(data)| - 1 ==> |Chunked(data)[i]| == ChunkSize
    ensures Chunked(data) != [] ==> 1 <= |Chunked(data)[|Chunked(data)| - 1]| <= ChunkSize
    decreases |data|
  {
    if |data| > ChunkSize {
      var rest := Chunked(data[ChunkSize..]);
      ChunkedShape(data[ChunkSize..]);
      var chunks := Chunked(data);
      assert chunks == [data[..ChunkSize]] + rest;
      assert forall i :: 1 <= i < |chunks| ==> chunks[i] == rest[i - 1];
    }
  }

  /** There are ceil(n / 32768) chunks of n bytes. */
  lemma {:induction false} ChunkedCount(data: seq<byte>)
    ensures |Chunked(data)| == (|data| + ChunkSize - 1) / ChunkSize
    decreases |data|
  {
    if |data| > ChunkSize {
      ChunkedCount(data[ChunkSize..]);
    }
  }

  /** Data whose length is a whole number of chunks is cut independently of
      what follows it. */
  lemma {:induction false} ChunkedAppend(full: seq<byte>, rest: seq<byte>)
    requires |full| % ChunkSize == 0
    ensures Chunked(full + rest) == Chunked(full) + Chunked(rest)
    decreases |full|
  {
    if full == [] {
      assert full + rest == rest;
    } else {
      var head, tail := full[..ChunkSize], full[ChunkSize..];
      ChunkedAppend(tail, rest);
      if tail == [] && rest == [] {
        assert full + rest == full;
      } else {
        assert Chunked(full + rest) == [head] + Chunked(tail + rest) by {
          assert (full + rest)[..ChunkSize] == head;
          assert (full + rest)[ChunkSize..] == tail + rest;
        }
        assert Chunked(full) == [head] + Chunked(tail) by {
          if tail == [] {
            assert full == head;
          }
        }
        calc {
          [head] + Chunked(tail + rest);
          [head] + (Chunked(tail) + Chunked(rest));
          ([head] + Chunked(tail)) + Chunked(rest);
        }
      }
    }
  }

  /** The chunks of one more whole chunk of data: that chunk comes last. */
  lemma OneMoreChunk(data: seq<byte>, chunk: seq<byte>)
    requires |data| % ChunkSize == 0 && |chunk| == ChunkSize
    ensures Chunked(data + chunk) == Chunked(data) + [chunk]
  {
    ChunkedAppend(data, chunk);
  }

  lemma WholeChunks(whole: nat)
    requires whole % ChunkSize == 0
    ensures (whole + ChunkSize) % ChunkSize == 0
  {
  }

  /** A whole number of chunks followed by less than a chunk: the whole
      chunks are the length without its remainder. */
  lemma WholePart(whole: nat, rest: nat)
    requires whole % ChunkSize == 0 && rest < ChunkSize
    ensures whole == (whole + rest) - (whole + rest) % ChunkSize
  {
  }

  /** The whole stream `generateAudioStream` produces for one exchange. A
      response other than an HTTP status 200 throws `invalidResponse` before
      any byte is read. A transport error ends the stream with that error
      after the full chunks received before it: the remainder in the buffer
      is not yielded, because the error skips the final yield. */
  function AudioChunks(exchange: Exchange): Stream<seq<byte>> {
    match exchange
    case ConnectionFailed(error) => Stream([], FinishedThrowing(Transport(error)))
    case Responded(status, body, interruption) =>
      if status != Some(200) then Stream([], FinishedThrowing(Service(InvalidResponse)))
      else if interruption.None? then Stream(Chunked(body), Finished)
      else Stream(Chunked(body[..|body| - |body| % ChunkSize]), FinishedThrowing(Transport(interruption.value)))
  }

  /** A complete response is delivered whole: its chunks, in order, are the
      body; an interrupted one loses only the bytes after its last full chunk,
      fewer than `ChunkSize` of them. */
  lemma AudioDelivered(body: seq<byte>, interruption: Option<TransportError>)
    ensures interruption.None? ==> Flatten(AudioChunks(Responded(Some(200), body, interruption)).elements) == body
    ensures var got := Flatten(AudioChunks(Responded(Some(200), body, interruption)).elements);
      got <= body && |body| - |got| < ChunkSize && |got| % ChunkSize == (if interruption.None? then |body| % ChunkSize else 0)
  {
    var whole := body[..|body| - |body| % ChunkSize];
    ChunkedFlatten(body);
    ChunkedFlatten(whole);
  }

  /** A status other than exactly 200, or a response that is not HTTP, ends
      the stream with `invalidResponse` and no chunk, whatever the body
      (OpenAIService.swift:114-116). */
  lemma AudioRejectedBeforeReading(status: Option<int>, body: seq<byte>, interruption: Option<TransportError>)
    requires status != Some(200)
    ensures AudioChunks(Responded(status, body, interruption)) == Stream([], FinishedThrowing(Service(InvalidResponse)))
  {
  }

  /** The method form of `generateAudioStream`: the chunks it yields, in order,
      and how it finishes are those of `AudioChunks`. */
  method GenerateAudioStream(exchange: Exchange) returns (chunks: seq<seq<byte>>, completion: Completion)
    ensures Stream(chunks, completion) == AudioChunks(exchange)
  {
    chunks := [];
    if exchange.ConnectionFailed? {
      completion := FinishedThrowing(Transport(exchange.error));
      return;
    }
    if exchange.statusCode != Some(200) {
      completion := FinishedThrowing(Service(InvalidResponse));
      return;
    }
    var body := exchange.body;
    var audioData: seq<byte> := [];
    var k := 0;
    ghost var whole := 0;
    while k < |body|
      invariant 0 <= whole <= k <= |body|
      invariant whole % ChunkSize == 0
      invariant whole + |audioData| == k
      invariant |audioData| < ChunkSize
      invariant audioData == body[whole..k]
      invariant chunks == Chunked(body[..whole])
    {
      audioData := audioData + [body[k]];
      k := k + 1;
      if |audioData| >= ChunkSize {
        assert body[..whole] + audioData == body[..k];
        OneMoreChunk(body[..whole], audioData);
        chunks := chunks + [audioData];
        audioData := [];
        WholeChunks(whole);
        whole := k;
      }
    }
    if exchange.interruption.Some? {
      WholePart(whole, |audioData|);
      completion := FinishedThrowing(Transport(exchange.interruption.value));
      return;
    }
    assert body[..whole] + audioData == body;
    ChunkedAppend(body[..whole], audioData);
    if audioData != [] {
      chunks := chunks + [audioData];
    }
    completion := Finished;
  }
}
