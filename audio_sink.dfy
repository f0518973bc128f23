/** `OpenAIService.playAudioStream`: the audio chunks concatenated in
    arrival order (OpenAIService.swift:147-150), written to a file, opened by
    the platform's audio player, and the file removed (:152-159). The file
    system and the player are outside the model: what they do is given as an
    `Environment`. */
module AudioSink {
  import opened Common
  import opened AudioStream

  /** An audio player opened on a file, holding the file's bytes. */
  datatype Player = Player(audio: seq<byte>)

  /** What the platform does for this call: whether writing the file fails
      (with its error code), which byte contents `AVAudioPlayer(contentsOf:)`
      accepts, and whether removing the file fails. */
  datatype Environment = Environment(
    writeFailure: Option<int>,
    playable: seq<byte> -> bool,
    removeFailure: Option<int>)

  datatype Outcome = Played(player: Player) | Failed(error: Error)

  /** The result of the call, and the bytes of the audio file it leaves in
      the documents directory, if any. */
  datatype Playback = Playback(outcome: Outcome, leftOnDisk: Option<seq<byte>>)

  /** What `playAudioStream` does with a stream. An error from the stream
      propagates before anything is written. A write error propagates. A file
      the player rejects ends the call with `invalidAudioData` and stays on
      disk; a failed removal propagates and the file stays too. Otherwise the
      player holds exactly the concatenated chunks and no file remains. */
  function Sink(stream: Stream<seq<byte>>, env: Environment): Playback {
    if stream.completion.FinishedThrowing? then Playback(Failed(stream.completion.error), None)
    else
      var audio := Flatten(stream.elements);
      if env.writeFailure.Some? then Playback(Failed(FileSystem(env.writeFailure.value)), None)
      else if !env.playable(audio) then Playback(Failed(Service(InvalidAudioData)), Some(audio))
      else if env.removeFailure.Some? then Playback(Failed(FileSystem(env.removeFailure.value)), Some(audio))
      else Playback(Played(Player(audio)), None)
  }

  /** The method form of `playAudioStream`: the chunk loop builds the
      concatenation of every chunk received, in order, and the call ends as
      `Sink` says. */
  method PlayAudioStream(stream: Stream<seq<byte>>, env: Environment) returns (playback: Playback)
    ensures playback == Sink(stream, env)
  {
    var audioData: seq<byte> := [];
    var i := 0;
    while i < |stream.elements|
      invariant 0 <= i <= |stream.elements|
      invariant audioData == Flatten(stream.elements[..i])
    {
      assert stream.elements[..i + 1][..i] == stream.elements[..i];
      audioData := audioData + stream.elements[i];
      i := i + 1;
    }
    assert stream.elements[..i] == stream.elements;
    if stream.completion.FinishedThrowing? {
      return Playback(Failed(stream.completion.error), None);
    }
    if env.writeFailure.Some? {
      return Playback(Failed(FileSystem(env.writeFailure.value)), None);
    }
    if !env.playable(audioData) {
      return Playback(Failed(Service(InvalidAudioData)), Some(audioData));
    }
    if env.removeFailure.Some? {
      return Playback(Failed(FileSystem(env.removeFailure.value)), Some(audioData));
    }
    playback := Playback(Played(Player(audioData)), None);
  }

  /** Speech fetched in full and played: the player holds exactly the
      response body, however it was cut into chunks, and no file is left
      behind. */
  lemma SpeechPlayedWhole(body: seq<byte>, env: Environment)
    requires env.writeFailure.None? && env.removeFailure.None? && env.playable(body)
    ensures Sink(AudioChunks(Responded(Some(200), body, None)), env) == Playback(Played(Player(body)), None)
  {
    ChunkedFlatten(body);
  }

  /** Speech whose transfer was cut short is never played and leaves no file:
      the transport error reaches the caller. */
  lemma InterruptedSpeechNotPlayed(body: seq<byte>, error: TransportError, env: Environment)
    ensures Sink(AudioChunks(Responded(Some(200), body, Some(error))), env) == Playback(Failed(Transport(error)), None)
  {
  }

  /** A player that rejects the speech leaves its file on disk, holding the
      whole body. */
  lemma RejectedSpeechLeftOnDisk(body: seq<byte>, env: Environment)
    requires env.writeFailure.None? && !env.playable(body)
    ensures Sink(AudioChunks(Responded(Some(200), body, None)), env) == Playback(Failed(Service(InvalidAudioData)), Some(body))
  {
    ChunkedFlatten(body);
  }
}
