/** What the text decoder does with its sequence of complete lines, whatever
    a line is made of: each line is classified on its own, the contents of
    content lines are yielded in line order, and the first sentinel line ends
    the stream. */
module Frames {

  /** The fate of one complete line: skipped, yielded as a text event, or the
      end of the stream. */
  datatype LineAction = Ignore | Yield(content: string) | Finish

  /** The events yielded from a sequence of lines, and whether a sentinel line
      was met. */
  datatype Decoded = Decoded(events: seq<string>, done: bool)

  /** One more line handled: once a sentinel has been met, later lines change
      nothing. */
  function Step(before: Decoded, action: LineAction): Decoded {
    if before.done then before
    else match action
      case Ignore => before
      case Finish => Decoded(before.events, true)
      case Yield(content) => Decoded(before.events + [content], false)
  }

  /** The lines handled one after another, as the decoder's loop does. */
  function DecodeLines<L>(lines: seq<L>, classify: L -> LineAction): Decoded
  {
    if lines == [] then Decoded([], false)
    else Step(DecodeLines(lines[..|lines| - 1], classify), classify(lines[|lines| - 1]))
  }

  lemma DecodeLinesSnoc<L>(lines: seq<L>, line: L, classify: L -> LineAction)
    ensures DecodeLines(lines + [line], classify) == Step(DecodeLines(lines, classify), classify(line))
  {
    assert (lines + [line])[..|lines|] == lines;
  }

  /** Decoding one line further along the same sequence. */
  lemma DecodeNext<L>(lines: seq<L>, j: nat, classify: L -> LineAction)
    requires j < |lines|
    ensures DecodeLines(lines[..j + 1], classify) == Step(DecodeLines(lines[..j], classify), classify(lines[j]))
  {
    assert lines[..j + 1][..j] == lines[..j];
  }

  /** Once the lines up to `j` hold a sentinel, decoding further along the
      same sequence changes nothing. */
  lemma DoneStaysDone<L>(lines: seq<L>, j: nat, n: nat, classify: L -> LineAction)
    requires j <= n <= |lines|
    requires DecodeLines(lines[..j], classify).done
    ensures DecodeLines(lines[..n], classify) == DecodeLines(lines[..j], classify)
  {
    assert lines[..j] <= lines[..n];
    DecodePrefix(lines[..j], lines[..n], classify);
  }

  /** A single line decoded from a fresh state, appended to events decoded
      before it. */
  lemma DecodeSingle<L>(line: L, classify: L -> LineAction, events: seq<string>)
    ensures DecodeLines([line], classify) == Step(Decoded([], false), classify(line))
    ensures Step(Decoded(events, false), classify(line)) ==
      Decoded(events + DecodeLines([line], classify).events, DecodeLines([line], classify).done)
  {
    assert [line][..0] == [];
  }

  /** Decoding two runs of lines one after the other: after a sentinel in the
      first run nothing is yielded; otherwise the second run's events follow
      the first run's. */
  lemma {:induction false} DecodeLinesAppend<L>(first: seq<L>, second: seq<L>, classify: L -> LineAction)
    ensures DecodeLines(first + second, classify) ==
      if DecodeLines(first, classify).done then DecodeLines(first, classify)
      else Decoded(DecodeLines(first, classify).events + DecodeLines(second, classify).events,
                   DecodeLines(second, classify).done)
    decreases |second|
  {
    if second == [] {
      assert first + second == first;
    } else {
      var init := second[..|second| - 1];
      DecodeLinesAppend(first, init, classify);
      assert (first + second)[..|first + second| - 1] == first + init;
      assert (first + second)[|first + second| - 1] == second[|second| - 1];
    }
  }

  /** More lines never take back an event, and after a sentinel they change
      nothing. */
  lemma DecodePrefix<L>(lines: seq<L>, all: seq<L>, classify: L -> LineAction)
    requires lines <= all
    ensures DecodeLines(lines, classify).events <= DecodeLines(all, classify).events
    ensures DecodeLines(lines, classify).done ==> DecodeLines(all, classify) == DecodeLines(lines, classify)
  {
    var tail := all[|lines|..];
    assert all == lines + tail;
    DecodeLinesAppend(lines, tail, classify);
    var first, second := DecodeLines(lines, classify), DecodeLines(tail, classify);
    if !first.done {
      assert first.events <= first.events + second.events;
    }
  }

  /** The stream ends early exactly when some line is a sentinel. */
  lemma {:induction false} DoneIffSentinel<L>(lines: seq<L>, classify: L -> LineAction)
    ensures DecodeLines(lines, classify).done <==> exists i :: 0 <= i < |lines| && classify(lines[i]).Finish?
    decreases |lines|
  {
    if lines != [] {
      var init := lines[..|lines| - 1];
      DoneIffSentinel(init, classify);
      if exists i :: 0 <= i < |init| && classify(init[i]).Finish? {
        var i :| 0 <= i < |init| && classify(init[i]).Finish?;
        assert lines[i] == init[i];
      }
      if exists i :: 0 <= i < |lines| && classify(lines[i]).Finish? {
        var i :| 0 <= i < |lines| && classify(lines[i]).Finish?;
        if i < |init| {
          assert init[i] == lines[i];
        }
      }
    }
  }

  /** The lines before the first sentinel line (all lines if there is none). */
  function BeforeSentinel<L>(lines: seq<L>, classify: L -> LineAction): (prefix: seq<L>)
    ensures prefix <= lines
    ensures forall i :: 0 <= i < |prefix| ==> !classify(prefix[i]).Finish?
    ensures |prefix| < |lines| ==> classify(lines[|prefix|]).Finish?
  {
    if lines == [] || classify(lines[0]).Finish? then []
    else [lines[0]] + BeforeSentinel(lines[1..], classify)
  }

  /** The contents of the content lines, in line order, ignoring sentinels. */
  function Contents<L>(lines: seq<L>, classify: L -> LineAction): seq<string>
  {
    if lines == [] then []
    else
      (match classify(lines[0]) case Yield(content) => [content] case _ => [])
      + Contents(lines[1..], classify)
  }

  /** The events are exactly the contents of the lines before the first
      sentinel, in order. */
  lemma {:induction false} EventsBeforeSentinel<L>(lines: seq<L>, classify: L -> LineAction)
    ensures DecodeLines(lines, classify).events == Contents(BeforeSentinel(lines, classify), classify)
    decreases |lines|
  {
    if lines != [] {
      var head, rest := lines[0], lines[1..];
      assert [head] + rest == lines;
      assert [head][..0] == [];
      DecodeLinesAppend([head], rest, classify);
      if !classify(head).Finish? {
        EventsBeforeSentinel(rest, classify);
        var prefix := BeforeSentinel(lines, classify);
        assert prefix[1..] == BeforeSentinel(rest, classify);
      }
    }
  }
}
