/** The consumer of the text stream in the main view
    (MainContentView.swift:75-85): each increment is appended to the story,
    and the story shown is replaced by the story so far. An error ends the
    loop and leaves the partial story on screen. */
module Story {
  import opened Common
  import opened JsonModel
  import opened TextStream

  /** The story the view shows once the stream has ended, however it ended:
      the increments concatenated in the order they were yielded. */
  method ShowTale(stream: Stream<string>) returns (currentTale: string)
    ensures currentTale == Flatten(stream.elements)
  {
    currentTale := "";
    var fullStory := "";
    var i := 0;
    while i < |stream.elements|
      invariant 0 <= i <= |stream.elements|
      invariant fullStory == Flatten(stream.elements[..i])
      invariant currentTale == fullStory
    {
      assert stream.elements[..i + 1][..i] == stream.elements[..i];
      fullStory := fullStory + stream.elements[i];
      currentTale := fullStory;
      i := i + 1;
    }
    assert stream.elements[..i] == stream.elements;
  }

  /** More bytes never rewrite the story shown so far: the story of a prefix
      of the body is a prefix of the story of the whole. */
  lemma StoryOnlyGrows(body: seq<byte>, more: seq<byte>, parse: Parser)
    ensures Flatten(ReadLines(body, parse).events) <= Flatten(ReadLines(body + more, parse).events)
  {
    var before := ReadLines(body, parse).events;
    var after := ReadLines(body + more, parse).events;
    EventsGrow(body, more, parse);
    assert after == before + after[|before|..];
    FlattenAppend(before, after[|before|..]);
  }
}
