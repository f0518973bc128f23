/** Line splitting, over any element type: Foundation's
    `components(separatedBy:)`, and the view of a sequence as complete
    separator-terminated lines followed by an unterminated fragment. */
module Lines {

  /** The number of occurrences of `x` in `s`. */
  function Count<T(==)>(s: seq<T>, x: T): nat {
    if s == [] then 0 else (if s[0] == x then 1 else 0) + Count(s[1..], x)
  }

  /** `s.components(separatedBy: sep)`: the pieces between separators, in
      order. */
  function Split<T(==)>(s: seq<T>, sep: T): (pieces: seq<seq<T>>)
    ensures |pieces| >= 1
    decreases |s|
  {
    if s == [] then [[]]
    else
      var rest := Split(s[1..], sep);
      if s[0] == sep then [[]] + rest else [[s[0]] + rest[0]] + rest[1..]
  }

  /** No piece contains the separator, and there is one piece more than there
      are separators. */
  lemma {:induction false} SplitPieces<T>(s: seq<T>, sep: T)
    ensures forall i :: 0 <= i < |Split(s, sep)| ==> sep !in Split(s, sep)[i]
    ensures |Split(s, sep)| == Count(s, sep) + 1
    decreases |s|
  {
    if s != [] {
      SplitPieces(s[1..], sep);
      var rest := Split(s[1..], sep);
      if s[0] != sep {
        var pieces := Split(s, sep);
        assert pieces[0] == [s[0]] + rest[0];
        assert forall i :: 1 <= i < |pieces| ==> pieces[i] == rest[i];
      }
    }
  }

  /** The pieces glued back together with one separator between neighbours. */
  function Join<T>(pieces: seq<seq<T>>, sep: T): seq<T>
    requires |pieces| >= 1
  {
    if |pieces| == 1 then pieces[0] else pieces[0] + [sep] + Join(pieces[1..], sep)
  }

  lemma {:induction false} JoinSplit<T>(s: seq<T>, sep: T)
    ensures Join(Split(s, sep), sep) == s
    decreases |s|
  {
    if s != [] {
      var rest := Split(s[1..], sep);
      JoinSplit(s[1..], sep);
      if s[0] != sep {
        if |rest| == 1 {
          assert Split(s, sep) == [[s[0]] + rest[0]];
        } else {
          assert Split(s, sep)[1..] == rest[1..];
        }
      }
    }
  }

  lemma {:induction false} SplitJoin<T>(pieces: seq<seq<T>>, sep: T)
    requires |pieces| >= 1
    requires forall i :: 0 <= i < |pieces| ==> sep !in pieces[i]
    ensures Split(Join(pieces, sep), sep) == pieces
    decreases |pieces|, |pieces[0]|
  {
    var p := pieces[0];
    if |pieces| == 1 {
      SplitWithoutSeparator(p, sep);
    } else if p == [] {
      var s := Join(pieces, sep);
      assert s == [sep] + Join(pieces[1..], sep);
      assert s[1..] == Join(pieces[1..], sep);
      SplitJoin(pieces[1..], sep);
    } else {
      var shorter := [p[1..]] + pieces[1..];
      assert p[0] in p;
      assert forall i :: 1 <= i < |shorter| ==> shorter[i] == pieces[i];
      var s := Join(pieces, sep);
      assert s == [p[0]] + Join(shorter, sep);
      assert s[1..] == Join(shorter, sep);
      SplitJoin(shorter, sep);
      assert [p[0]] + p[1..] == p;
      assert pieces == [p] + shorter[1..];
    }
  }

  lemma {:induction false} SplitWithoutSeparator<T>(s: seq<T>, sep: T)
    requires sep !in s
    ensures Split(s, sep) == [s]
    decreases |s|
  {
    if s != [] {
      SplitWithoutSeparator(s[1..], sep);
      assert [s[0]] + s[1..] == s;
    }
  }

  /** A line without separators followed by one separator splits into that
      line and an empty last piece. */
  lemma SplitTerminatedLine<T>(line: seq<T>, sep: T)
    requires sep !in line
    ensures Split(line + [sep], sep) == [line, []]
  {
    assert Join([line, []], sep) == line + [sep];
    SplitJoin([line, []], sep);
  }

  /** The complete lines of `s`, in order and without their separators; the
      text after the last separator is not among them. */
  function CompleteLines<T(==)>(s: seq<T>, sep: T): (lines: seq<seq<T>>)
    decreases |s|
  {
    if s == [] then []
    else if s[|s| - 1] == sep then CompleteLines(s[..|s| - 1], sep) + [Fragment(s[..|s| - 1], sep)]
    else CompleteLines(s[..|s| - 1], sep)
  }

  /** The unterminated text after the last separator of `s`. */
  function Fragment<T(==)>(s: seq<T>, sep: T): (f: seq<T>)
    ensures sep !in f
    decreases |s|
  {
    if s == [] then []
    else if s[|s| - 1] == sep then []
    else Fragment(s[..|s| - 1], sep) + [s[|s| - 1]]
  }

  /** One more element: a separator completes the fragment as a line, any
      other element extends the fragment. */
  lemma LinesSnoc<T>(s: seq<T>, x: T, sep: T)
    ensures CompleteLines(s + [x], sep)
      == if x == sep then CompleteLines(s, sep) + [Fragment(s, sep)] else CompleteLines(s, sep)
    ensures Fragment(s + [x], sep) == if x == sep then [] else Fragment(s, sep) + [x]
  {
    assert (s + [x])[..|s|] == s;
  }

  /** Each complete line is free of separators, there is one per separator,
      and the fragment is a suffix of the text. */
  lemma {:induction false} LinesShape<T>(s: seq<T>, sep: T)
    ensures forall i :: 0 <= i < |CompleteLines(s, sep)| ==> sep !in CompleteLines(s, sep)[i]
    ensures |CompleteLines(s, sep)| == Count(s, sep)
    ensures |Fragment(s, sep)| <= |s| && Fragment(s, sep) == s[|s| - |Fragment(s, sep)|..]
    decreases |s|
  {
    if s != [] {
      var init, last := s[..|s| - 1], s[|s| - 1];
      LinesShape(init, sep);
      assert init + [last] == s;
      CountSnoc(init, last, sep);
      LinesSnoc(init, last, sep);
    }
  }

  lemma {:induction false} CountSnoc<T>(s: seq<T>, x: T, y: T)
    ensures Count(s + [x], y) == Count(s, y) + if x == y then 1 else 0
    decreases |s|
  {
    if s == [] {
      assert [] + [x] == [x];
    } else {
      CountSnoc(s[1..], x, y);
      assert (s + [x])[1..] == s[1..] + [x];
    }
  }

  /** Each line followed by its separator, concatenated. */
  function Terminated<T>(lines: seq<seq<T>>, sep: T): seq<T>
  {
    if lines == [] then [] else Terminated(lines[..|lines| - 1], sep) + lines[|lines| - 1] + [sep]
  }

  lemma {:induction false} LinesRoundTrip<T>(s: seq<T>, sep: T)
    ensures Terminated(CompleteLines(s, sep), sep) + Fragment(s, sep) == s
    decreases |s|
  {
    if s != [] {
      var init, last := s[..|s| - 1], s[|s| - 1];
      LinesRoundTrip(init, sep);
      LinesSnoc(init, last, sep);
      var lines := CompleteLines(init, sep);
      assert init + [last] == s;
      if last == sep {
        var withLast := lines + [Fragment(init, sep)];
        assert withLast[..|withLast| - 1] == lines;
        assert Terminated(withLast, sep) == Terminated(lines, sep) + Fragment(init, sep) + [sep];
      }
    }
  }

  /** The text made of separator-free lines, each terminated, has exactly
      those lines and an empty fragment. */
  lemma {:induction false} CompleteLinesOfTerminated<T>(lines: seq<seq<T>>, sep: T)
    requires forall i :: 0 <= i < |lines| ==> sep !in lines[i]
    ensures CompleteLines(Terminated(lines, sep), sep) == lines
    ensures Fragment(Terminated(lines, sep), sep) == []
    decreases |lines|
  {
    if lines != [] {
      var init := lines[..|lines| - 1];
      var last := lines[|lines| - 1];
      var prefix := Terminated(init, sep);
      CompleteLinesOfTerminated(init, sep);
      LinesWithinLine(prefix, last, sep);
      assert Fragment(prefix + last, sep) == last;
      LinesSnoc(prefix + last, sep, sep);
      assert Terminated(lines, sep) == (prefix + last) + [sep];
      assert CompleteLines(Terminated(lines, sep), sep) == init + [last];
      assert init + [last] == lines;
    }
  }

  /** Appending separator-free text adds no line and extends the fragment. */
  lemma {:induction false} LinesWithinLine<T>(s: seq<T>, text: seq<T>, sep: T)
    requires sep !in text
    ensures CompleteLines(s + text, sep) == CompleteLines(s, sep)
    ensures Fragment(s + text, sep) == Fragment(s, sep) + text
    decreases |text|
  {
    if text == [] {
      assert s + text == s;
    } else {
      var init, last := text[..|text| - 1], text[|text| - 1];
      assert text == init + [last];
      assert s + text == (s + init) + [last];
      LinesWithinLine(s, init, sep);
      LinesSnoc(s + init, last, sep);
      var f := Fragment(s, sep);
      calc {
        Fragment(s + text, sep);
        Fragment(s + init, sep) + [last];
        (f + init) + [last];
        f + (init + [last]);
        f + text;
      }
    }
  }

  /** Reading on never takes back a line: the complete lines of a prefix are a
      prefix of the complete lines of the whole. */
  lemma {:induction false} CompleteLinesPrefix<T>(s: seq<T>, more: seq<T>, sep: T)
    ensures |CompleteLines(s, sep)| <= |CompleteLines(s + more, sep)|
    ensures CompleteLines(s + more, sep)[..|CompleteLines(s, sep)|] == CompleteLines(s, sep)
    decreases |more|
  {
    if more == [] {
      assert s + more == s;
    } else {
      var init, last := more[..|more| - 1], more[|more| - 1];
      CompleteLinesPrefix(s, init, sep);
      assert s + more == (s + init) + [last];
      LinesSnoc(s + init, last, sep);
    }
  }

  /** `components(separatedBy:)` and the line view agree: the pieces are the
      complete lines followed by the fragment. */
  lemma SplitIsLinesAndFragment<T>(s: seq<T>, sep: T)
    ensures Split(s, sep) == CompleteLines(s, sep) + [Fragment(s, sep)]
  {
    var lines := CompleteLines(s, sep);
    var f := Fragment(s, sep);
    LinesRoundTrip(s, sep);
    LinesShape(s, sep);
    JoinTerminated(lines, f, sep);
    SplitJoin(lines + [f], sep);
  }

  lemma {:induction false} JoinTerminated<T>(lines: seq<seq<T>>, last: seq<T>, sep: T)
    ensures Join(lines + [last], sep) == Terminated(lines, sep) + last
    decreases |lines|
  {
    if lines != [] {
      JoinTerminated(lines[1..], last, sep);
      assert (lines + [last])[1..] == lines[1..] + [last];
      TerminatedCons(lines[0], lines[1..], sep);
      assert [lines[0]] + lines[1..] == lines;
    }
  }

  lemma {:induction false} TerminatedCons<T>(line: seq<T>, lines: seq<seq<T>>, sep: T)
    ensures Terminated([line] + lines, sep) == line + [sep] + Terminated(lines, sep)
    decreases |lines|
  {
    if lines != [] {
      var init := lines[..|lines| - 1];
      TerminatedCons(line, init, sep);
      assert ([line] + lines)[..|lines|] == [line] + init;
    }
  }

  /** Every element of every complete line, and of the fragment, is an
      element of the text. */
  lemma {:induction false} LinesKeepElements<T>(s: seq<T>, sep: T, p: T -> bool)
    requires forall i :: 0 <= i < |s| ==> p(s[i])
    ensures forall j, i :: 0 <= j < |CompleteLines(s, sep)| && 0 <= i < |CompleteLines(s, sep)[j]| ==> p(CompleteLines(s, sep)[j][i])
    ensures forall i :: 0 <= i < |Fragment(s, sep)| ==> p(Fragment(s, sep)[i])
    decreases |s|
  {
    if s != [] {
      var init, last := s[..|s| - 1], s[|s| - 1];
      assert init + [last] == s;
      assert forall i :: 0 <= i < |init| ==> p(init[i]) by {
        assert forall i :: 0 <= i < |init| ==> init[i] == s[i];
      }
      LinesKeepElements(init, sep, p);
      LinesSnoc(init, last, sep);
      var lines, fragment := CompleteLines(init, sep), Fragment(init, sep);
      if last == sep {
        assert CompleteLines(s, sep) == lines + [fragment];
      } else {
        assert Fragment(s, sep) == fragment + [last];
      }
    }
  }

  /** One separator-free line with its separator is that one line. */
  lemma SingleLine<T>(line: seq<T>, sep: T)
    requires sep !in line
    ensures CompleteLines(line + [sep], sep) == [line]
  {
    LinesWithinLine([], line, sep);
    assert [] + line == line;
    LinesSnoc(line, sep, sep);
  }
}
