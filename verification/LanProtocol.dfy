/** Newline-delimited framing of JSON messages between the teacher's hub and the lab machines. */
module LanProtocol {

  import opened JsonText

  function EncodeWireMessage(msg: Json): string { Stringify(msg) + "\n" }

  // ---------- splitting a whole stream ----------

  /** The newline-terminated lines of a stream, without their newlines. */
  function Lines(s: string): seq<string> {
    if s == "" then []
    else
      var n := |s| - 1;
      if s[n] == '\n' then Lines(s[..n]) + [Rest(s[..n])] else Lines(s[..n])
  }

  /** What follows the last newline. */
  function Rest(s: string): string {
    if s == "" then ""
    else
      var n := |s| - 1;
      if s[n] == '\n' then "" else Rest(s[..n]) + [s[n]]
  }

  function Unsplit(lines: seq<string>): string {
    if lines == [] then "" else Unsplit(lines[..|lines| - 1]) + lines[|lines| - 1] + "\n"
  }

  /** The split is the stream again, cut only at newlines. */
  lemma {:induction false} SplitIsFaithful(s: string)
    ensures Unsplit(Lines(s)) + Rest(s) == s
    ensures NewlineFree(Rest(s)) && forall i :: 0 <= i < |Lines(s)| ==> NewlineFree(Lines(s)[i])
  {
    if s != "" {
      var n := |s| - 1;
      SplitIsFaithful(s[..n]);
      assert s == s[..n] + [s[n]];
    }
  }

  /** Cutting a stream anywhere and carrying the rest over gives the same lines. */
  lemma {:induction false} SplitIsIncremental(a: string, b: string)
    ensures Lines(a + b) == Lines(a) + Lines(Rest(a) + b)
    ensures Rest(a + b) == Rest(Rest(a) + b)
  {
    if b == "" {
      assert a + b == a && Rest(a) + b == Rest(a);
      SplitIsFaithful(a);
      NoNewlineNoLines(Rest(a));
    } else {
      var n := |b| - 1;
      SplitIsIncremental(a, b[..n]);
      assert (a + b)[..|a + b| - 1] == a + b[..n];
      assert (Rest(a) + b)[..|Rest(a) + b| - 1] == Rest(a) + b[..n];
    }
  }

  lemma {:induction false} NoNewlineNoLines(s: string)
    requires NewlineFree(s)
    ensures Lines(s) == [] && Rest(s) == s
  {
    if s != "" {
      NoNewlineNoLines(s[..|s| - 1]);
      assert s == s[..|s| - 1] + [s[|s| - 1]];
    }
  }

  lemma FirstLineSplits(line: string, tail: string)
    requires NewlineFree(line)
    ensures Lines(line + "\n" + tail) == [line] + Lines(tail) && Rest(line + "\n" + tail) == Rest(tail)
  {
    NoNewlineNoLines(line);
    assert (line + "\n")[..|line|] == line;
    assert Lines(line + "\n") == [line] && Rest(line + "\n") == "";
    SplitIsIncremental(line + "\n", tail);
    assert "" + tail == tail;
  }

  lemma LineEnds(s: string)
    ensures Lines(s + "\n") == Lines(s) + [Rest(s)] && Rest(s + "\n") == ""
  {
    assert (s + "\n")[..|s|] == s;
  }

  lemma OneMoreLine(before: string, last: string)
    requires Rest(before) == "" && NewlineFree(last)
    ensures Lines(before + last + "\n") == Lines(before) + [last] && Rest(before + last + "\n") == ""
  {
    assert Lines(before + last) == Lines(before) && Rest(before + last) == last by {
      assert "" + last == last;
      SplitIsIncremental(before, last);
      NoNewlineNoLines(last);
    }
    LineEnds(before + last);
  }

  lemma {:induction false} LinesOfUnsplit(lines: seq<string>)
    requires forall i :: 0 <= i < |lines| ==> NewlineFree(lines[i])
    ensures Lines(Unsplit(lines)) == lines && Rest(Unsplit(lines)) == ""
  {
    if lines != [] {
      var n := |lines| - 1;
      LinesOfUnsplit(lines[..n]);
      OneMoreLine(Unsplit(lines[..n]), lines[n]);
      assert lines == lines[..n] + [lines[n]];
    }
  }

  /** Any other cut of a stream at newlines is the same one. */
  lemma SplitIsUnique(lines: seq<string>, rest: string)
    requires NewlineFree(rest) && forall i :: 0 <= i < |lines| ==> NewlineFree(lines[i])
    ensures Lines(Unsplit(lines) + rest) == lines && Rest(Unsplit(lines) + rest) == rest
  {
    LinesOfUnsplit(lines);
    SplitIsIncremental(Unsplit(lines), rest);
    NoNewlineNoLines(rest);
    assert "" + rest == rest;
  }

  // ---------- frames ----------

  function EncodeAll(msgs: seq<Json>): string {
    if msgs == [] then "" else EncodeAll(msgs[..|msgs| - 1]) + EncodeWireMessage(msgs[|msgs| - 1])
  }

  function Texts(msgs: seq<Json>): seq<string> {
    if msgs == [] then [] else Texts(msgs[..|msgs| - 1]) + [Stringify(msgs[|msgs| - 1])]
  }

  lemma {:induction false} TextsAreNewlineFree(msgs: seq<Json>)
    ensures forall i :: 0 <= i < |Texts(msgs)| ==> NewlineFree(Texts(msgs)[i])
  {
    if msgs != [] {
      TextsAreNewlineFree(msgs[..|msgs| - 1]);
      JsonIsNewlineFree(msgs[|msgs| - 1]);
    }
  }

  lemma UnsplitSnoc(lines: seq<string>, last: string)
    ensures Unsplit(lines + [last]) == Unsplit(lines) + (last + "\n")
  {
    assert (lines + [last])[..|lines|] == lines;
  }

  lemma {:induction false} FramesAreLines(msgs: seq<Json>)
    ensures EncodeAll(msgs) == Unsplit(Texts(msgs))
  {
    if msgs != [] {
      var n := |msgs| - 1;
      FramesAreLines(msgs[..n]);
      UnsplitSnoc(Texts(msgs[..n]), Stringify(msgs[n]));
    }
  }

  /** Concatenated frames split back into exactly the messages' texts, and nothing is left over. */
  lemma FramesComeBack(msgs: seq<Json>)
    ensures Lines(EncodeAll(msgs)) == Texts(msgs) && Rest(EncodeAll(msgs)) == ""
  {
    FramesAreLines(msgs);
    TextsAreNewlineFree(msgs);
    LinesOfUnsplit(Texts(msgs));
  }

  lemma {:induction false} TextsAreDifferent(msgs: seq<Json>, others: seq<Json>)
    requires Texts(msgs) == Texts(others)
    ensures msgs == others
  {
    if msgs != [] && others != [] {
      var m, n := |msgs| - 1, |others| - 1;
      var s, t := Texts(msgs[..m]), Texts(others[..n]);
      assert s == Texts(msgs)[..|Texts(msgs)| - 1] && t == Texts(others)[..|Texts(others)| - 1];
      TextsAreDifferent(msgs[..m], others[..n]);
      assert Texts(msgs)[|s|] == Stringify(msgs[m]) && Texts(others)[|t|] == Stringify(others[n]);
      StringifyIsInjective(msgs[m], others[n]);
      assert msgs == msgs[..m] + [msgs[m]] && others == others[..n] + [others[n]];
    }
  }

  /** A stream of frames has one reading: different messages, or the same in another order, make another stream. */
  lemma EncodingIsInjective(msgs: seq<Json>, others: seq<Json>)
    requires EncodeAll(msgs) == EncodeAll(others)
    ensures msgs == others
  {
    FramesComeBack(msgs);
    FramesComeBack(others);
    TextsAreDifferent(msgs, others);
  }
}
