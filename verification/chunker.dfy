/** The output chunker `dividirMensagens` (bot.js:430-483): it cuts a long
    reply into segments for a size-limited chat transport, first at line
    breaks and then, for a line that is itself too long, at spaces. A word
    longer than the limit is never cut. */
module Chunker {
  import opened Text

  /** Default limit of the chunker, also the limit used on delivery. */
  const SegmentLimit: nat := 3900
  /** Length above which a formatted message is re-split before sending. */
  const MessageLimit: nat := 4096

  /** The two accumulators of the loops: segments emitted so far and the
      pending buffer (`parteAtual` for lines, `linhaAtual` for words). */
  datatype State = State(out: seq<string>, pending: string)

  /** Pushes the trimmed buffer when it holds a visible character. */
  function Emit(out: seq<string>, buf: string): (r: seq<string>)
    ensures AllWhitespace(buf) ==> r == out
    ensures !AllWhitespace(buf) ==> r == out + [Trim(buf)]
  {
    if Trim(buf) != [] then out + [Trim(buf)] else out
  }

  /** One iteration of the inner loop over the words of a long line. */
  function WordStep(st: State, word: string, limit: nat): State {
    if |st.pending + word + " "| > limit then State(Emit(st.out, st.pending), word + " ")
    else State(st.out, st.pending + word + " ")
  }

  function Words(st: State, words: seq<string>, limit: nat): State
    decreases |words|
  {
    if words == [] then st else Words(WordStep(st, words[0], limit), words[1..], limit)
  }

  /** Saves the pending buffer, trimmed, when it holds a visible character;
      a blank buffer is kept as it is. */
  function Flush(st: State): (r: State)
    ensures r.out == Emit(st.out, st.pending)
    ensures AllWhitespace(r.pending)
  {
    if Trim(st.pending) != [] then State(st.out + [Trim(st.pending)], "") else st
  }

  /** A line longer than the limit: flush the pending buffer, cut the line
      at spaces, and keep its last piece pending. */
  function LongLine(st: State, line: string, limit: nat): State {
    var cleared := Flush(st);
    var w := Words(State(cleared.out, ""), Split(line, ' '), limit);
    State(w.out, if Trim(w.pending) != [] then Trim(w.pending) + "\n" else cleared.pending)
  }

  /** One iteration of the outer loop over lines. */
  function LineStep(st: State, line: string, limit: nat): State {
    if |line| > limit then LongLine(st, line, limit)
    else if |st.pending + line + "\n"| > limit then State(Emit(st.out, st.pending), line + "\n")
    else State(st.out, st.pending + line + "\n")
  }

  function Lines(st: State, lines: seq<string>, limit: nat): State
    decreases |lines|
  {
    if lines == [] then st else Lines(LineStep(st, lines[0], limit), lines[1..], limit)
  }

  /** `dividirMensagens(texto, limite)`. */
  function SplitMessages(text: string, limit: nat): (r: seq<string>)
    ensures |text| <= limit ==> r == [text]
  {
    if |text| <= limit then [text]
    else
      var st := Lines(State([], ""), Split(text, '\n'), limit);
      Emit(st.out, st.pending)
  }

  /** What `processarConsulta` sends for a list of formatted messages
      (bot.js:398-421): a message over the transport limit is re-split with
      the default chunk limit, any other message is sent as it is. */
  function Deliver(messages: seq<string>): (r: seq<string>)
    ensures forall m :: m in messages && |m| <= MessageLimit ==> m in r
  {
    if messages == [] then []
    else
      var rest := Deliver(messages[1..]);
      assert forall m :: m in messages ==> m == messages[0] || m in messages[1..];
      Resend(messages[0]) + rest
  }

  /** The pieces sent for one message (bot.js:401-415). */
  function Resend(m: string): seq<string> {
    if |m| > MessageLimit then SplitMessages(m, SegmentLimit) else [m]
  }

  // ---------------------------------------------------------------------
  // Invariants

  /** Every emitted segment is non-empty and has no whitespace at its ends. */
  ghost predicate Clean(out: seq<string>) {
    forall i :: 0 <= i < |out| ==> out[i] != [] && IsTrimmed(out[i])
  }

  /** Every emitted segment fits, and so will the pending buffer once it is
      trimmed. */
  ghost predicate Within(st: State, limit: nat) {
    AllFit(st.out, limit) && |Trim(st.pending)| <= limit
  }

  ghost predicate AllFit(out: seq<string>, limit: nat) {
    forall i :: 0 <= i < |out| ==> |out[i]| <= limit
  }

  /** Every space-separated word of `line` fits within the limit. */
  ghost predicate WordsFitLine(line: string, limit: nat) {
    forall w :: w in Split(line, ' ') ==> |w| <= limit
  }

  /** No space-separated word of any line of `text` exceeds the limit. */
  ghost predicate WordsFit(text: string, limit: nat) {
    forall line :: line in Split(text, '\n') ==> WordsFitLine(line, limit)
  }

  /** The visible characters emitted or pending, in order. */
  ghost function Content(st: State): string {
    Visible(Concat(st.out)) + Visible(st.pending)
  }

  // ---------------------------------------------------------------------
  // Segments are trimmed and non-empty

  lemma EmitClean(out: seq<string>, buf: string)
    requires Clean(out)
    ensures Clean(Emit(out, buf))
  {
  }

  lemma {:induction false} WordsClean(st: State, words: seq<string>, limit: nat)
    requires Clean(st.out)
    ensures Clean(Words(st, words, limit).out)
    decreases |words|
  {
    if words != [] {
      EmitClean(st.out, st.pending);
      WordsClean(WordStep(st, words[0], limit), words[1..], limit);
    }
  }

  lemma LineStepClean(st: State, line: string, limit: nat)
    requires Clean(st.out)
    ensures Clean(LineStep(st, line, limit).out)
  {
    if |line| > limit {
      var cleared := Flush(st);
      WordsClean(State(cleared.out, ""), Split(line, ' '), limit);
    } else {
      EmitClean(st.out, st.pending);
    }
  }

  lemma {:induction false} LinesClean(st: State, lines: seq<string>, limit: nat)
    requires Clean(st.out)
    ensures Clean(Lines(st, lines, limit).out)
    decreases |lines|
  {
    if lines != [] {
      LineStepClean(st, lines[0], limit);
      LinesClean(LineStep(st, lines[0], limit), lines[1..], limit);
    }
  }

  /** A text longer than the limit is cut into segments that are non-empty
      and equal to their own trim. */
  lemma SegmentsAreTrimmed(text: string, limit: nat)
    requires |text| > limit
    ensures forall i :: 0 <= i < |SplitMessages(text, limit)| ==>
      SplitMessages(text, limit)[i] != [] && Trim(SplitMessages(text, limit)[i]) == SplitMessages(text, limit)[i]
  {
    var st := Lines(State([], ""), Split(text, '\n'), limit);
    LinesClean(State([], ""), Split(text, '\n'), limit);
    EmitClean(st.out, st.pending);
    var r := SplitMessages(text, limit);
    forall i | 0 <= i < |r|
      ensures r[i] != [] && Trim(r[i]) == r[i]
    {
      TrimOfTrimmed(r[i]);
    }
  }

  // ---------------------------------------------------------------------
  // Segments fit the limit

  lemma TrimPlusWhitespace(s: string, c: char)
    requires IsWhitespace(c)
    ensures |Trim(s + [c])| <= |s|
  {
    TrimAppendWhitespace(s, c);
  }

  lemma EmitFits(out: seq<string>, buf: string, limit: nat)
    requires AllFit(out, limit) && |Trim(buf)| <= limit
    ensures AllFit(Emit(out, buf), limit)
  {
  }

  lemma WordStepWithin(st: State, word: string, limit: nat)
    requires Within(st, limit)
    requires |word| <= limit
    ensures Within(WordStep(st, word, limit), limit)
  {
    var next := st.pending + word + " ";
    if |next| > limit {
      EmitFits(st.out, st.pending, limit);
      assert word + " " == word + [' '];
      TrimPlusWhitespace(word, ' ');
      assert WordStep(st, word, limit) == State(Emit(st.out, st.pending), word + " ");
    } else {
      assert |Trim(next)| <= |next|;
      assert WordStep(st, word, limit) == State(st.out, next);
    }
  }

  lemma {:induction false} WordsWithin(st: State, words: seq<string>, limit: nat)
    requires Within(st, limit)
    requires forall w :: w in words ==> |w| <= limit
    ensures Within(Words(st, words, limit), limit)
    decreases |words|
  {
    if words != [] {
      WordStepWithin(st, words[0], limit);
      WordsWithin(WordStep(st, words[0], limit), words[1..], limit);
    }
  }

  lemma LongLineWithin(st: State, line: string, limit: nat)
    requires Within(st, limit)
    requires WordsFitLine(line, limit)
    ensures Within(LongLine(st, line, limit), limit)
  {
    var cleared := Flush(st);
    assert Within(cleared, limit);
    var w := Words(State(cleared.out, ""), Split(line, ' '), limit);
    WordsWithin(State(cleared.out, ""), Split(line, ' '), limit);
    if Trim(w.pending) != [] {
      var p := Trim(w.pending);
      assert p + "\n" == p + ['\n'];
      TrimPlusWhitespace(p, '\n');
      assert LongLine(st, line, limit) == State(w.out, p + "\n");
    } else {
      assert LongLine(st, line, limit) == State(w.out, cleared.pending);
    }
  }

  lemma LineStepWithin(st: State, line: string, limit: nat)
    requires Within(st, limit)
    requires |line| > limit ==> WordsFitLine(line, limit)
    ensures Within(LineStep(st, line, limit), limit)
  {
    var next := st.pending + line + "\n";
    if |line| > limit {
      LongLineWithin(st, line, limit);
    } else if |next| > limit {
      EmitFits(st.out, st.pending, limit);
      assert line + "\n" == line + ['\n'];
      TrimPlusWhitespace(line, '\n');
      assert LineStep(st, line, limit) == State(Emit(st.out, st.pending), line + "\n");
    } else {
      assert |Trim(next)| <= |next|;
      assert LineStep(st, line, limit) == State(st.out, next);
    }
  }

  lemma {:induction false} LinesWithin(st: State, lines: seq<string>, limit: nat)
    requires Within(st, limit)
    requires forall line :: line in lines && |line| > limit ==> WordsFitLine(line, limit)
    ensures Within(Lines(st, lines, limit), limit)
    decreases |lines|
  {
    if lines != [] {
      LineStepWithin(st, lines[0], limit);
      LinesWithin(LineStep(st, lines[0], limit), lines[1..], limit);
    }
  }

  /** When no word is longer than the limit, no segment is either. */
  lemma SegmentsFit(text: string, limit: nat)
    requires WordsFit(text, limit)
    ensures forall i :: 0 <= i < |SplitMessages(text, limit)| ==> |SplitMessages(text, limit)[i]| <= limit
  {
    if |text| > limit {
      var st := Lines(State([], ""), Split(text, '\n'), limit);
      LinesWithin(State([], ""), Split(text, '\n'), limit);
      EmitFits(st.out, st.pending, limit);
      assert SplitMessages(text, limit) == Emit(st.out, st.pending);
    }
  }

  /** The limitation the chunker documents: a text that is one word longer
      than the limit comes out whole, as one segment over the limit. */
  lemma LongWordIsNotCut(word: string, limit: nat)
    requires |word| > limit
    requires forall i :: 0 <= i < |word| ==> IsVisible(word[i])
    ensures SplitMessages(word, limit) == [word]
    ensures |SplitMessages(word, limit)[0]| > limit
  {
    assert '\n' !in word && ' ' !in word;
    SplitNoSeparator(word, '\n');
    SplitNoSeparator(word, ' ');
    TrimOfTrimmed(word);
    assert Trim(word + " ") == word by {
      assert word + " " == word + [' '];
      TrimAppendWhitespace(word, ' ');
    }
    assert Trim(word + "\n") == word by {
      assert word + "\n" == word + ['\n'];
      TrimAppendWhitespace(word, '\n');
    }
    var empty := State([], "");
    assert Trim("") == [];
    WordsOne(empty, word, limit);
    assert LongLine(empty, word, limit) == State([], word + "\n");
    LinesOne(empty, word, limit);
  }

  lemma WordsOne(st: State, word: string, limit: nat)
    ensures Words(st, [word], limit) == WordStep(st, word, limit)
  {
    assert [word][1..] == [];
  }

  lemma LinesOne(st: State, line: string, limit: nat)
    ensures Lines(st, [line], limit) == LineStep(st, line, limit)
  {
    assert [line][1..] == [];
  }

  // ---------------------------------------------------------------------
  // Only whitespace is lost

  lemma EmitContent(out: seq<string>, buf: string)
    ensures Visible(Concat(Emit(out, buf))) == Visible(Concat(out)) + Visible(buf)
  {
    VisibleEmpty(buf);
    if Trim(buf) != [] {
      ConcatAppend(out, Trim(buf));
      VisibleAppend(Concat(out), Trim(buf));
      VisibleTrim(buf);
    }
  }

  /** Appending a whitespace character adds nothing visible. */
  lemma VisibleWithSpace(s: string, c: char)
    requires IsWhitespace(c)
    ensures Visible(s + [c]) == Visible(s)
  {
    VisibleAppend(s, [c]);
    VisibleWhitespaceChar(c);
  }

  lemma WordStepContent(st: State, word: string, limit: nat)
    ensures Content(WordStep(st, word, limit)) == Content(st) + Visible(word)
  {
    assert word + " " == word + [' '];
    VisibleWithSpace(word, ' ');
    if |st.pending + word + " "| > limit {
      EmitContent(st.out, st.pending);
    } else {
      assert st.pending + word + " " == (st.pending + word) + [' '];
      VisibleWithSpace(st.pending + word, ' ');
      VisibleAppend(st.pending, word);
    }
  }

  lemma {:induction false} WordsContent(st: State, words: seq<string>, limit: nat)
    ensures Content(Words(st, words, limit)) == Content(st) + Visible(Concat(words))
    decreases |words|
  {
    if words == [] {
    } else {
      var st1 := WordStep(st, words[0], limit);
      assert Words(st, words, limit) == Words(st1, words[1..], limit);
      WordStepContent(st, words[0], limit);
      WordsContent(st1, words[1..], limit);
      assert Concat(words) == words[0] + Concat(words[1..]);
      VisibleAppend(words[0], Concat(words[1..]));
      Assoc(Content(st), Visible(words[0]), Visible(Concat(words[1..])));
    }
  }

  lemma Assoc(a: string, b: string, c: string)
    ensures (a + b) + c == a + (b + c)
  {
  }

  /** Flushing loses only whitespace. */
  lemma FlushContent(st: State)
    ensures Visible(Concat(Flush(st).out)) == Content(st)
    ensures Visible(Flush(st).pending) == []
  {
    VisibleEmpty(st.pending);
    EmitContent(st.out, st.pending);
    VisibleEmpty(Flush(st).pending);
  }

  lemma LongLineContent(st: State, line: string, limit: nat)
    ensures Content(LongLine(st, line, limit)) == Content(st) + Visible(line)
  {
    var cleared := Flush(st);
    FlushContent(st);
    var w := Words(State(cleared.out, ""), Split(line, ' '), limit);
    CutLineContent(cleared.out, line, limit);
    PendingTailContent(w, cleared.pending);
    assert LongLine(st, line, limit) ==
      State(w.out, if Trim(w.pending) != [] then Trim(w.pending) + "\n" else cleared.pending);
  }

  /** Cutting a line at spaces from an empty buffer loses nothing visible. */
  lemma CutLineContent(out: seq<string>, line: string, limit: nat)
    ensures Content(Words(State(out, ""), Split(line, ' '), limit)) == Visible(Concat(out)) + Visible(line)
  {
    VisibleSplit(line, ' ');
    PiecesContent(out, Split(line, ' '), line, limit);
  }

  lemma PiecesContent(out: seq<string>, pieces: seq<string>, line: string, limit: nat)
    requires Visible(Concat(pieces)) == Visible(line)
    ensures Content(Words(State(out, ""), pieces, limit)) == Visible(Concat(out)) + Visible(line)
  {
    WordsContent(State(out, ""), pieces, limit);
    assert Visible("") == [];
    assert Content(State(out, "")) == Visible(Concat(out));
  }

  /** Keeping the trimmed last piece of a long line pending, followed by a
      line break, or else the blank old buffer, loses nothing visible. */
  lemma PendingTailContent(w: State, blank: string)
    requires Visible(blank) == []
    ensures Content(State(w.out, if Trim(w.pending) != [] then Trim(w.pending) + "\n" else blank)) == Content(w)
  {
    VisibleEmpty(w.pending);
    if Trim(w.pending) != [] {
      var p := Trim(w.pending);
      assert p + "\n" == p + ['\n'];
      VisibleWithSpace(p, '\n');
      VisibleTrim(w.pending);
    }
  }

  lemma LineStepContent(st: State, line: string, limit: nat)
    ensures Content(LineStep(st, line, limit)) == Content(st) + Visible(line)
  {
    var next := st.pending + line + "\n";
    if |line| > limit {
      LongLineContent(st, line, limit);
    } else if |next| > limit {
      EmitContent(st.out, st.pending);
      assert line + "\n" == line + ['\n'];
      VisibleWithSpace(line, '\n');
      assert LineStep(st, line, limit) == State(Emit(st.out, st.pending), line + "\n");
    } else {
      assert next == (st.pending + line) + ['\n'];
      VisibleWithSpace(st.pending + line, '\n');
      VisibleAppend(st.pending, line);
      assert LineStep(st, line, limit) == State(st.out, next);
    }
  }

  lemma {:induction false} LinesContent(st: State, lines: seq<string>, limit: nat)
    ensures Content(Lines(st, lines, limit)) == Content(st) + Visible(Concat(lines))
    decreases |lines|
  {
    if lines != [] {
      var st1 := LineStep(st, lines[0], limit);
      var tail := Visible(Concat(lines[1..]));
      assert Lines(st, lines, limit) == Lines(st1, lines[1..], limit);
      assert Concat(lines) == lines[0] + Concat(lines[1..]);
      LineStepContent(st, lines[0], limit);
      LinesContent(st1, lines[1..], limit);
      VisibleAppend(lines[0], Concat(lines[1..]));
      Assoc(Content(st), Visible(lines[0]), tail);
    }
  }

  /** Deleting whitespace from the segments, read in order, gives the input
      with whitespace deleted: nothing visible is lost or reordered. */
  lemma ContentPreserved(text: string, limit: nat)
    ensures Visible(Concat(SplitMessages(text, limit))) == Visible(text)
  {
    if |text| <= limit {
      assert [text][1..] == [];
      assert Concat([text]) == text + Concat([]);
      assert Concat([text]) == text;
    } else {
      var st := Lines(State([], ""), Split(text, '\n'), limit);
      LinesContent(State([], ""), Split(text, '\n'), limit);
      VisibleSplit(text, '\n');
      EmitContent(st.out, st.pending);
    }
  }

  // ---------------------------------------------------------------------
  // A line that fits is never broken

  /** `x` occurs inside one of the emitted segments. */
  ghost predicate InSome(x: string, out: seq<string>) {
    exists k :: 0 <= k < |out| && IsInfix(x, out[k])
  }

  /** `x` occurs inside an emitted segment or inside the pending buffer. */
  ghost predicate Placed(x: string, st: State) {
    InSome(x, st.out) || IsInfix(x, st.pending)
  }

  /** A non-empty string with visible characters at both ends. */
  ghost predicate Solid(x: string) {
    x != [] && IsTrimmed(x)
  }

  lemma InSomeGrow(x: string, out: seq<string>, more: seq<string>)
    requires InSome(x, out) && out <= more
    ensures InSome(x, more)
  {
    var k :| 0 <= k < |out| && IsInfix(x, out[k]);
    assert more[k] == out[k];
  }

  /** Emitting a buffer that holds `x` places `x` in the emitted segment. */
  lemma EmitPlaces(x: string, out: seq<string>, buf: string)
    requires Solid(x) && Placed(x, State(out, buf))
    ensures InSome(x, Emit(out, buf))
  {
    if InSome(x, out) {
      InSomeGrow(x, out, Emit(out, buf));
    } else {
      InfixOfTrim(x, buf);
      var r := Emit(out, buf);
      assert r[|out|] == Trim(buf);
    }
  }

  lemma {:induction false} WordsGrow(st: State, words: seq<string>, limit: nat)
    ensures st.out <= Words(st, words, limit).out
    decreases |words|
  {
    if words != [] {
      var next := WordStep(st, words[0], limit);
      WordsGrow(next, words[1..], limit);
    }
  }

  lemma LineStepKeeps(x: string, st: State, line: string, limit: nat)
    requires Solid(x) && Placed(x, st)
    ensures Placed(x, LineStep(st, line, limit))
  {
    var next := st.pending + line + "\n";
    if |line| > limit {
      var cleared := Flush(st);
      assert InSome(x, cleared.out) by {
        if !InSome(x, st.out) {
          InfixOfTrim(x, st.pending);
          assert cleared.out[|st.out|] == Trim(st.pending);
        } else {
          InSomeGrow(x, st.out, cleared.out);
        }
      }
      WordsGrow(State(cleared.out, ""), Split(line, ' '), limit);
      InSomeGrow(x, cleared.out, LineStep(st, line, limit).out);
    } else if |next| > limit {
      EmitPlaces(x, st.out, st.pending);
    } else if !InSome(x, st.out) {
      InfixExtend(x, [], st.pending, line + "\n");
      assert [] + st.pending + (line + "\n") == next;
    }
  }

  /** A line within the limit that has a visible character is placed, trimmed
      and whole, by its own step. */
  lemma LineStepPlaces(st: State, line: string, limit: nat)
    requires |line| <= limit && Trim(line) != []
    ensures Placed(Trim(line), LineStep(st, line, limit))
  {
    var next := st.pending + line + "\n";
    TrimIsInfix(line);
    if |next| > limit {
      InfixExtend(Trim(line), [], line, "\n");
      assert [] + line + "\n" == line + "\n";
    } else {
      InfixExtend(Trim(line), st.pending, line, "\n");
    }
  }

  lemma {:induction false} LinesKeep(x: string, st: State, lines: seq<string>, limit: nat)
    requires Solid(x) && Placed(x, st)
    ensures Placed(x, Lines(st, lines, limit))
    decreases |lines|
  {
    if lines != [] {
      LineStepKeeps(x, st, lines[0], limit);
      LinesKeep(x, LineStep(st, lines[0], limit), lines[1..], limit);
    }
  }

  lemma {:induction false} LinesPlace(st: State, lines: seq<string>, limit: nat, j: nat)
    requires j < |lines| && |lines[j]| <= limit && Trim(lines[j]) != []
    ensures Placed(Trim(lines[j]), Lines(st, lines, limit))
    decreases |lines|
  {
    var next := LineStep(st, lines[0], limit);
    assert Lines(st, lines, limit) == Lines(next, lines[1..], limit);
    if j == 0 {
      LineStepPlaces(st, lines[0], limit);
      LinesKeep(Trim(lines[0]), next, lines[1..], limit);
    } else {
      assert lines[1..][j - 1] == lines[j];
      LinesPlace(next, lines[1..], limit, j - 1);
    }
  }

  /** A line that fits the limit and is not blank lands, trimmed but
      otherwise whole, inside a single segment. */
  lemma ShortLineStaysWhole(text: string, limit: nat, j: nat)
    requires j < |Split(text, '\n')|
    requires |Split(text, '\n')[j]| <= limit
    requires Trim(Split(text, '\n')[j]) != []
    ensures exists k :: 0 <= k < |SplitMessages(text, limit)| && IsInfix(Trim(Split(text, '\n')[j]), SplitMessages(text, limit)[k])
  {
    var lines := Split(text, '\n');
    var x := Trim(lines[j]);
    if |text| <= limit {
      TrimIsInfix(lines[j]);
      PieceOfSplit(text, '\n', j);
      InfixTransitive(x, lines[j], text);
      assert SplitMessages(text, limit)[0] == text;
    } else {
      var st := Lines(State([], ""), lines, limit);
      LinesPlace(State([], ""), lines, limit, j);
      assert Solid(x);
      EmitPlaces(x, st.out, st.pending);
      assert SplitMessages(text, limit) == Emit(st.out, st.pending);
    }
  }

  // ---------------------------------------------------------------------
  // A word of a long line is never broken

  /** The word loop only appends to the segments and extends or restarts
      the buffer, so anything placed stays placed. */
  lemma WordStepKeeps(x: string, st: State, word: string, limit: nat)
    requires Solid(x) && Placed(x, st)
    ensures Placed(x, WordStep(st, word, limit))
  {
    var next := st.pending + word + " ";
    if |next| > limit {
      EmitPlaces(x, st.out, st.pending);
    } else if !InSome(x, st.out) {
      InfixExtend(x, [], st.pending, word + " ");
      assert [] + st.pending + (word + " ") == next;
    }
  }

  /** A word with a visible character is placed, trimmed and whole, by its
      own step, whatever its length. */
  lemma WordStepPlaces(st: State, word: string, limit: nat)
    requires Trim(word) != []
    ensures Placed(Trim(word), WordStep(st, word, limit))
  {
    var next := st.pending + word + " ";
    TrimIsInfix(word);
    if |next| > limit {
      InfixExtend(Trim(word), [], word, " ");
      assert [] + word + " " == word + " ";
    } else {
      InfixExtend(Trim(word), st.pending, word, " ");
    }
  }

  lemma {:induction false} WordsKeep(x: string, st: State, words: seq<string>, limit: nat)
    requires Solid(x) && Placed(x, st)
    ensures Placed(x, Words(st, words, limit))
    decreases |words|
  {
    if words != [] {
      WordStepKeeps(x, st, words[0], limit);
      WordsKeep(x, WordStep(st, words[0], limit), words[1..], limit);
    }
  }

  lemma {:induction false} WordsPlace(st: State, words: seq<string>, limit: nat, i: nat)
    requires i < |words| && Trim(words[i]) != []
    ensures Placed(Trim(words[i]), Words(st, words, limit))
    decreases |words|
  {
    var next := WordStep(st, words[0], limit);
    assert Words(st, words, limit) == Words(next, words[1..], limit);
    if i == 0 {
      WordStepPlaces(st, words[0], limit);
      TrimSolid(words[0]);
      WordsKeep(Trim(words[0]), next, words[1..], limit);
    } else {
      assert words[1..][i - 1] == words[i];
      WordsPlace(next, words[1..], limit, i - 1);
    }
  }

  /** The trim of a string with a visible character is solid. */
  lemma TrimSolid(s: string)
    requires Trim(s) != []
    ensures Solid(Trim(s))
  {
  }

  /** Each non-blank word of a long line is placed, trimmed and whole, once
      the line is processed: either inside a pushed segment or inside the
      trimmed last piece kept pending. */
  lemma LongLinePlaces(st: State, line: string, limit: nat, i: nat)
    requires |line| > limit
    requires i < |Split(line, ' ')| && Trim(Split(line, ' ')[i]) != []
    ensures Placed(Trim(Split(line, ' ')[i]), LineStep(st, line, limit))
  {
    var x := Trim(Split(line, ' ')[i]);
    WordsPlace(State(Flush(st).out, ""), Split(line, ' '), limit, i);
    TrimSolid(Split(line, ' ')[i]);
    LongLineSettles(x, st, line, limit);
    assert LineStep(st, line, limit) == LongLine(st, line, limit);
  }

  /** What the word loop of a long line has placed stays placed once the
      last piece is trimmed and kept pending. */
  lemma LongLineSettles(x: string, st: State, line: string, limit: nat)
    requires Solid(x) && Placed(x, Words(State(Flush(st).out, ""), Split(line, ' '), limit))
    ensures Placed(x, LongLine(st, line, limit))
  {
    var w := Words(State(Flush(st).out, ""), Split(line, ' '), limit);
    if !InSome(x, w.out) {
      PendingSettles(x, w.pending);
    }
  }

  lemma PendingSettles(x: string, buf: string)
    requires Solid(x) && IsInfix(x, buf)
    ensures Trim(buf) != [] && IsInfix(x, Trim(buf) + "\n")
  {
    InfixOfTrim(x, buf);
    InfixExtend(x, [], Trim(buf), "\n");
    assert [] + Trim(buf) + "\n" == Trim(buf) + "\n";
  }

  lemma {:induction false} LinesPlaceWord(st: State, lines: seq<string>, limit: nat, j: nat, i: nat)
    requires j < |lines| && |lines[j]| > limit
    requires i < |Split(lines[j], ' ')| && Trim(Split(lines[j], ' ')[i]) != []
    ensures Placed(Trim(Split(lines[j], ' ')[i]), Lines(st, lines, limit))
    decreases |lines|
  {
    var next := LineStep(st, lines[0], limit);
    assert Lines(st, lines, limit) == Lines(next, lines[1..], limit);
    if j == 0 {
      LongLinePlaces(st, lines[0], limit, i);
      TrimSolid(Split(lines[0], ' ')[i]);
      LinesKeep(Trim(Split(lines[0], ' ')[i]), next, lines[1..], limit);
    } else {
      assert lines[1..][j - 1] == lines[j];
      LinesPlaceWord(next, lines[1..], limit, j - 1, i);
    }
  }

  /** A word of a line longer than the limit lands, trimmed but otherwise
      whole, inside a single segment: the chunker cuts long lines only at
      spaces, even when the word itself is longer than the limit. */
  lemma LongLineWordStaysWhole(text: string, limit: nat, j: nat, i: nat)
    requires j < |Split(text, '\n')| && |Split(text, '\n')[j]| > limit
    requires i < |Split(Split(text, '\n')[j], ' ')|
    requires Trim(Split(Split(text, '\n')[j], ' ')[i]) != []
    ensures exists k :: (0 <= k < |SplitMessages(text, limit)| &&
      IsInfix(Trim(Split(Split(text, '\n')[j], ' ')[i]), SplitMessages(text, limit)[k]))
  {
    var lines := Split(text, '\n');
    var word := Split(lines[j], ' ')[i];
    var x := Trim(word);
    if |text| <= limit {
      PieceOfSplit(text, '\n', j);
      assert false;
    } else {
      var st := Lines(State([], ""), lines, limit);
      LinesPlaceWord(State([], ""), lines, limit, j, i);
      TrimSolid(word);
      EmitPlaces(x, st.out, st.pending);
      assert SplitMessages(text, limit) == Emit(st.out, st.pending);
    }
  }

  // ---------------------------------------------------------------------
  // Segments over the limit cannot be cut again

  /** Neither a space nor a line break: nothing the chunker could cut at. */
  ghost predicate Unbreakable(s: string) {
    ' ' !in s && '\n' !in s
  }

  /** A segment that fits, or one the chunker has no place to cut. */
  ghost predicate KeptWhole(s: string, limit: nat) {
    |s| <= limit || Unbreakable(s)
  }

  ghost predicate AllKeptWhole(out: seq<string>, limit: nat) {
    forall i :: 0 <= i < |out| ==> KeptWhole(out[i], limit)
  }

  /** Emitted segments, and the pending buffer once trimmed, are kept whole. */
  ghost predicate StaysWhole(st: State, limit: nat) {
    AllKeptWhole(st.out, limit) && KeptWhole(Trim(st.pending), limit)
  }

  lemma InfixAvoids(x: string, s: string, c: char)
    requires IsInfix(x, s) && c !in s
    ensures c !in x
  {
    var i :| OccursAt(x, s, i);
    forall k | 0 <= k < |x|
      ensures x[k] != c
    {
      assert x[k] == s[i + k];
    }
  }

  /** The trimmed form of a word followed by whitespace is still unbreakable. */
  lemma TrimUnbreakable(word: string, c: char)
    requires Unbreakable(word) && IsWhitespace(c)
    ensures Trim(word + [c]) == Trim(word) && Unbreakable(Trim(word))
  {
    TrimAppendWhitespace(word, c);
    TrimIsInfix(word);
    InfixAvoids(Trim(word), word, ' ');
    InfixAvoids(Trim(word), word, '\n');
  }

  lemma EmitWhole(out: seq<string>, buf: string, limit: nat)
    requires AllKeptWhole(out, limit) && KeptWhole(Trim(buf), limit)
    ensures AllKeptWhole(Emit(out, buf), limit)
  {
  }

  lemma WordStepWhole(st: State, word: string, limit: nat)
    requires StaysWhole(st, limit) && Unbreakable(word)
    ensures StaysWhole(WordStep(st, word, limit), limit)
  {
    EmitWhole(st.out, st.pending, limit);
    TrimUnbreakable(word, ' ');
  }

  lemma {:induction false} WordsWhole(st: State, words: seq<string>, limit: nat)
    requires StaysWhole(st, limit)
    requires forall k :: 0 <= k < |words| ==> Unbreakable(words[k])
    ensures StaysWhole(Words(st, words, limit), limit)
    decreases |words|
  {
    if words != [] {
      WordStepWhole(st, words[0], limit);
      WordsWhole(WordStep(st, words[0], limit), words[1..], limit);
    }
  }

  lemma LongLineWhole(st: State, line: string, limit: nat)
    requires StaysWhole(st, limit) && '\n' !in line
    ensures StaysWhole(LongLine(st, line, limit), limit)
  {
    var cleared := Flush(st);
    EmitWhole(st.out, st.pending, limit);
    var words := Split(line, ' ');
    forall k | 0 <= k < |words|
      ensures Unbreakable(words[k])
    {
      PieceOfSplit(line, ' ', k);
      InfixAvoids(words[k], line, '\n');
    }
    WordsWhole(State(cleared.out, ""), words, limit);
    var w := Words(State(cleared.out, ""), words, limit);
    if Trim(w.pending) != [] {
      TrimAppendWhitespace(Trim(w.pending), '\n');
      TrimOfTrimmed(Trim(w.pending));
    }
  }

  lemma LineStepWhole(st: State, line: string, limit: nat)
    requires StaysWhole(st, limit) && '\n' !in line
    ensures StaysWhole(LineStep(st, line, limit), limit)
  {
    if |line| > limit {
      LongLineWhole(st, line, limit);
    } else if |st.pending + line + "\n"| > limit {
      EmitWhole(st.out, st.pending, limit);
      TrimAppendWhitespace(line, '\n');
    }
  }

  lemma {:induction false} LinesWhole(st: State, lines: seq<string>, limit: nat)
    requires StaysWhole(st, limit)
    requires forall k :: 0 <= k < |lines| ==> '\n' !in lines[k]
    ensures StaysWhole(Lines(st, lines, limit), limit)
    decreases |lines|
  {
    if lines != [] {
      LineStepWhole(st, lines[0], limit);
      LinesWhole(LineStep(st, lines[0], limit), lines[1..], limit);
    }
  }

  /** A segment longer than the limit holds neither a space nor a line
      break: it is a single over-long word. */
  lemma SegmentsKeptWhole(text: string, limit: nat)
    ensures forall k :: 0 <= k < |SplitMessages(text, limit)| ==>
      |SplitMessages(text, limit)[k]| <= limit || Unbreakable(SplitMessages(text, limit)[k])
  {
    if |text| > limit {
      var lines := Split(text, '\n');
      LinesWhole(State([], ""), lines, limit);
      var st := Lines(State([], ""), lines, limit);
      EmitWhole(st.out, st.pending, limit);
    }
  }

  /** Chunking a non-empty trimmed segment that is kept whole hands it back. */
  lemma ResplitFixed(s: string, limit: nat)
    requires s != [] && IsTrimmed(s) && KeptWhole(s, limit)
    ensures SplitMessages(s, limit) == [s]
  {
    if |s| > limit {
      SplitNoSeparator(s, '\n');
      SplitNoSeparator(s, ' ');
      TrimOfTrimmed(s);
      TrimAppendWhitespace(s, ' ');
      TrimAppendWhitespace(s, '\n');
      var empty := State([], "");
      assert Trim("") == [];
      assert Flush(empty) == empty;
      assert WordStep(empty, s, limit) == State([], s + " ");
      assert Words(empty, [s], limit) == State([], s + " ");
      assert LongLine(empty, s, limit) == State([], s + "\n");
      assert Lines(empty, [s], limit) == State([], s + "\n");
    }
  }

  lemma SegmentResplits(text: string, limit: nat, k: nat)
    requires k < |SplitMessages(text, limit)|
    ensures SplitMessages(SplitMessages(text, limit)[k], limit) == [SplitMessages(text, limit)[k]]
  {
    var r := SplitMessages(text, limit);
    var seg := r[k];
    if |text| > limit {
      assert seg != [] && IsTrimmed(seg) by {
        SegmentsAreTrimmed(text, limit);
        assert Trim(r[k]) == r[k];
      }
      assert KeptWhole(seg, limit) by {
        SegmentsKeptWhole(text, limit);
      }
      ResplitFixed(seg, limit);
    } else {
      assert r == [text];
    }
  }

  /** Running the chunker again, with the same limit, on any segment it
      produced gives that segment back: a second pass never shortens
      anything. */
  lemma ResplitIsIdentity(text: string, limit: nat)
    ensures forall k :: 0 <= k < |SplitMessages(text, limit)| ==>
      SplitMessages(SplitMessages(text, limit)[k], limit) == [SplitMessages(text, limit)[k]]
  {
    forall k | 0 <= k < |SplitMessages(text, limit)|
      ensures SplitMessages(SplitMessages(text, limit)[k], limit) == [SplitMessages(text, limit)[k]]
    {
      SegmentResplits(text, limit, k);
    }
  }

  // ---------------------------------------------------------------------
  // Delivery

  /** Every piece sent fits the transport limit, provided no message that
      needs re-splitting contains a word longer than the chunk limit. */
  lemma {:induction false} DeliveredPiecesFit(messages: seq<string>)
    requires forall m :: m in messages && |m| > MessageLimit ==> WordsFit(m, SegmentLimit)
    ensures forall i :: 0 <= i < |Deliver(messages)| ==> |Deliver(messages)[i]| <= MessageLimit
  {
    if messages != [] {
      var m := messages[0];
      var head := Resend(m);
      if |m| > MessageLimit {
        SegmentsFit(m, SegmentLimit);
      }
      DeliveredPiecesFit(messages[1..]);
      assert Deliver(messages) == head + Deliver(messages[1..]);
    }
  }

  /** A message the transport takes as it is, or one the re-split hands
      back whole. */
  ghost predicate Settled(m: string) {
    |m| <= MessageLimit || (m != [] && IsTrimmed(m) && Unbreakable(m))
  }

  lemma ResendSettled(m: string)
    requires Settled(m)
    ensures Resend(m) == [m]
  {
    if |m| > MessageLimit {
      ResplitFixed(m, SegmentLimit);
    }
  }

  lemma {:induction false} DeliverFixed(messages: seq<string>)
    requires forall k :: 0 <= k < |messages| ==> Settled(messages[k])
    ensures Deliver(messages) == messages
  {
    if messages != [] {
      var m := messages[0];
      ResendSettled(m);
      DeliverFixed(messages[1..]);
      assert [m] + messages[1..] == messages;
    }
  }

  lemma SegmentSettled(text: string, k: nat)
    requires k < |SplitMessages(text, SegmentLimit)|
    ensures Settled(SplitMessages(text, SegmentLimit)[k])
  {
    var r := SplitMessages(text, SegmentLimit);
    if |text| > SegmentLimit {
      assert r[k] != [] && IsTrimmed(r[k]) by {
        SegmentsAreTrimmed(text, SegmentLimit);
        assert Trim(r[k]) == r[k];
      }
      assert KeptWhole(r[k], SegmentLimit) by {
        SegmentsKeptWhole(text, SegmentLimit);
      }
    } else {
      assert r == [text];
    }
  }

  /** Delivering the chunker's own output sends it exactly as it is: the
      re-split of a segment over the transport limit hands it back whole, so
      such a segment (a single word over 4096 characters) is sent too long. */
  lemma DeliverKeepsSegments(text: string)
    ensures Deliver(SplitMessages(text, SegmentLimit)) == SplitMessages(text, SegmentLimit)
  {
    var r := SplitMessages(text, SegmentLimit);
    forall k | 0 <= k < |r|
      ensures Settled(r[k])
    {
      SegmentSettled(text, k);
    }
    DeliverFixed(r);
  }

  /** A reply that is one trimmed word of more than 4096 characters reaches
      the transport as a single message of that length. */
  lemma OversizedWordSent(word: string)
    requires IsTrimmed(word) && Unbreakable(word) && |word| > MessageLimit
    ensures Deliver(SplitMessages(word, SegmentLimit)) == [word]
  {
    ResplitFixed(word, SegmentLimit);
    assert Settled([word][0]);
    DeliverFixed([word]);
  }

  /** Delivery loses only whitespace and keeps the order of the messages. */
  lemma {:induction false} DeliveredContent(messages: seq<string>)
    ensures Visible(Concat(Deliver(messages))) == Visible(Concat(messages))
  {
    if messages != [] {
      var m := messages[0];
      var head := Resend(m);
      assert Visible(Concat(head)) == Visible(m) by {
        if |m| > MessageLimit {
          ContentPreserved(m, SegmentLimit);
        } else {
          assert [m][1..] == [];
          assert Concat([m]) == m + Concat([]);
          assert Concat(head) == m;
        }
      }
      DeliveredContent(messages[1..]);
      ConcatJoin(head, Deliver(messages[1..]));
      VisibleAppend(Concat(head), Concat(Deliver(messages[1..])));
      VisibleAppend(m, Concat(messages[1..]));
    }
  }
}
