/** Values shared by the two stream pipelines of the OpenAI service: bytes,
    the service's error cases, what an `AsyncThrowingStream` delivers to its
    consumer, and what the transport hands to a pipeline. */
module Common {

  /** One octet of an HTTP response body (Swift's `UInt8`). */
  newtype byte = x: int | 0 <= x < 0x100

  datatype Option<+T> = None | Some(value: T)

  /** The cases of `OpenAIService.OpenAIError`. */
  datatype ServiceError =
    | InvalidResponse
    | FailedToGenerateText
    | FailedToGenerateAudio
    | InvalidAudioData

  /** A failure reported by the URL loading system, identified by its error code. */
  datatype TransportError = TransportError(code: int)

  /** Every error that can reach a consumer of the service. */
  datatype Error =
    | Service(reason: ServiceError)
    | Transport(cause: TransportError)
    | FileSystem(code: int)

  /** How an `AsyncThrowingStream` was finished: `finish()` or `finish(throwing:)`. */
  datatype Completion = Finished | FinishedThrowing(error: Error)

  /** Everything a consumer of an `AsyncThrowingStream` observes: the yielded
      elements in order, then how the stream was finished. */
  datatype Stream<T> = Stream(elements: seq<T>, completion: Completion)

  /** What `URLSession.shared.bytes(for:)` delivers to a pipeline. Either the
      request fails before a response arrives, or a response arrives with a
      status code (`None` when the response is not an HTTP response), the
      finite sequence of body bytes read before the byte stream ended, and
      the transport error that cut the byte stream short, if any. */
  datatype Exchange =
    | ConnectionFailed(error: TransportError)
    | Responded(statusCode: Option<int>, body: seq<byte>, interruption: Option<TransportError>)

  /** The in-order concatenation of a sequence of sequences, as a consumer that
      appends every element it receives builds it. */
  function Flatten<T>(xs: seq<seq<T>>): seq<T>
  {
    if xs == [] then [] else Flatten(xs[..|xs| - 1]) + xs[|xs| - 1]
  }

  lemma {:induction false} FlattenAppend<T>(xs: seq<seq<T>>, ys: seq<seq<T>>)
    ensures Flatten(xs + ys) == Flatten(xs) + Flatten(ys)
    decreases |ys|
  {
    if ys == [] {
      assert xs + ys == xs;
    } else {
      var init, last := ys[..|ys| - 1], ys[|ys| - 1];
      assert (xs + ys)[..|xs + ys| - 1] == xs + init;
      assert (xs + ys)[|xs + ys| - 1] == last;
      var a, b := Flatten(xs), Flatten(init);
      calc {
        Flatten(xs + ys);
        Flatten(xs + init) + last;
        { FlattenAppend(xs, init); }
        (a + b) + last;
        a + (b + last);
        a + Flatten(ys);
      }
    }
  }

  /** Flattening a sequence that starts with `x` puts `x` first. */
  lemma FlattenCons<T>(x: seq<T>, xs: seq<seq<T>>)
    ensures Flatten([x] + xs) == x + Flatten(xs)
  {
    FlattenAppend([x], xs);
    assert [x][..0] == [];
  }
}
