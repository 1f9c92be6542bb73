/**
 * The console's line editor (common/console.c): editing in place in a bounded buffer, with the bytes
 * sent to the terminal kept in agreement.
 */
module Console {
  import opened Memory
  import opened Terminal
  import opened LineEdit

  const PROMPT: seq<int> := ['>' as int, ' ' as int]

  /** The terminal row shows prompt and text, blank beyond, with its cursor at pos in the text. */
  ghost predicate Shows(t: Screen, text: seq<int>, pos: nat) {
    && t.mode == Plain && t.col == |PROMPT| + pos
    && forall i: nat :: Cell(t.row, i) == Cell(PROMPT + text, i)
  }

  class Console {
    const inputBuf: array<int>
    const history: array<seq<int>>
    var inputLen: nat
    var inputPos: nat
    var historyNext: nat
    var historyPos: nat
    var escState: EscState
    var lastRxWasCr: bool
    var commands: seq<seq<int>>
    var output: seq<int>
    ghost var screen: Screen

    /** The terminal is where the bytes sent so far have put it. */
    ghost predicate Connected()
      reads this
    {
      screen == FeedAll(BlankRow(), output)
    }

    ghost predicate InBounds()
      reads this
    {
      inputPos <= inputLen < inputBuf.Length
    }

    ghost function Before(): seq<int>
      requires InBounds()
      reads this, inputBuf
    {
      inputBuf[..inputPos]
    }

    ghost function After(): seq<int>
      requires InBounds()
      reads this, inputBuf
    {
      inputBuf[inputPos..inputLen]
    }

    ghost function ViewOf(): View
      requires InBounds()
      reads this, inputBuf, history
    {
      View(Before(), After(), history[..], historyNext, historyPos, escState, lastRxWasCr, commands)
    }

    /** Bounds, printable text, and the terminating NUL. */
    ghost predicate TextValid()
      reads this, inputBuf, history
    {
      && history as object != inputBuf
      && InBounds()
      && ViewOf().Valid(inputBuf.Length)
      && inputBuf[inputLen] == 0
    }

    /** The text in order, and the terminal row in agreement with it. */
    ghost predicate Valid()
      reads this, inputBuf, history
    {
      TextValid() && Connected() && Shows(screen, Before() + After(), inputPos)
    }

    /** console_init. */
    constructor Init(size: nat, lines: nat)
      requires size > 0 && lines > 0
      ensures Valid() && fresh(inputBuf) && fresh(history) && inputBuf.Length == size
      ensures ViewOf() == View([], [], EmptyLines(lines), 0, 0, Outside, false, [])
    {
      inputBuf := new int[size](_ => 0);
      history := new seq<int>[lines](_ => []);
      inputLen, inputPos, historyNext, historyPos := 0, 0, 0, 0;
      escState, lastRxWasCr, commands := Outside, false, [];
      output := PROMPT;
      screen := FeedAll(BlankRow(), PROMPT);
      new;
      FeedText(BlankRow(), PROMPT);
      assert history[..] == EmptyLines(lines);
      assert Before() + After() == [] && PROMPT + [] == PROMPT;
    }

    // ----- output -----

    method Putc(c: int)
      requires Connected()
      modifies this`output, this`screen
      ensures Connected() && screen == Feed(old(screen), c)
    {
      output := output + [c];
      screen := Feed(screen, c);
      assert output[..|output| - 1] == old(output);
    }

    method Puts(s: seq<int>)
      requires Connected()
      modifies this`output, this`screen
      ensures Connected() && screen == FeedAll(old(screen), s)
    {
      FeedConcat(BlankRow(), output, s);
      output := output + s;
      screen := FeedAll(screen, s);
    }

    method RepeatChar(c: int, cnt: nat)
      requires Connected()
      modifies this`output, this`screen
      ensures Connected() && screen == FeedAll(old(screen), Repeat(c, cnt))
    {
      var n := 0;
      while n < cnt
        invariant 0 <= n <= cnt && Connected()
        invariant screen == FeedAll(old(screen), Repeat(c, n))
      {
        Putc(c);
        n := n + 1;
        assert Repeat(c, n)[..n - 1] == Repeat(c, n - 1);
      }
    }

    /** ccputs(input_buf + from): the characters up to the NUL. */
    method PutsBuffer(from: nat, len: nat)
      requires from <= len < inputBuf.Length && inputBuf[len] == 0 && AllPrintable(inputBuf[from..len])
      requires Connected() && screen.mode == Plain
      modifies this`output, this`screen
      ensures Connected() && Overwritten(old(screen), inputBuf[from..len], screen)
    {
      var end := from;
      while inputBuf[end] != 0
        invariant from <= end <= len
        decreases len - end
      {
        assert Printable(inputBuf[from..len][end - from]) || end == len;
        end := end + 1;
      }
      FeedText(screen, inputBuf[from..end]);
      Puts(inputBuf[from..end]);
    }

    method PutBackspaces(n: nat)
      requires Connected() && screen.mode == Plain && n <= screen.col
      modifies this`output, this`screen
      ensures Connected() && screen == old(screen).(col := old(screen).col - n)
    {
      FeedBackspaces(screen, n);
      RepeatChar(BS, n);
    }

    method PutSpaces(n: nat)
      requires Connected() && screen.mode == Plain
      modifies this`output, this`screen
      ensures Connected() && Overwritten(old(screen), Repeat(SPACE, n), screen)
    {
      FeedText(screen, Repeat(SPACE, n));
      RepeatChar(SPACE, n);
    }

    // ----- cursor -----

    method MoveCursorRight()
      requires Valid()
      modifies this`output, this`screen, this`inputPos
      ensures Valid() && ViewOf() == Right(old(ViewOf()))
    {
      if inputPos == inputLen {
        return;
      }
      FeedCursor(screen, 1, 'C');
      Puts(CursorSequence(1, 'C'));
      inputPos := inputPos + 1;
      assert inputBuf[..inputPos] + inputBuf[inputPos..inputLen] == inputBuf[..inputLen];
      assert old(Before() + After()) == inputBuf[..inputLen];
    }

    method MoveCursorEnd()
      requires Valid()
      modifies this`output, this`screen, this`inputPos
      ensures Valid() && ViewOf() == old(ViewOf()).(before := old(ViewOf()).Text(), after := [])
    {
      assert Before() + After() == inputBuf[..inputLen];
      if inputPos == inputLen {
        return;
      }
      FeedCursor(screen, inputLen - inputPos, 'C');
      Puts(CursorSequence(inputLen - inputPos, 'C'));
      inputPos := inputLen;
      assert inputBuf[..inputPos] + inputBuf[inputPos..inputLen] == inputBuf[..inputLen];
      assert AllPrintable(inputBuf[..inputLen]);
    }

    method MoveCursorLeft()
      requires Valid()
      modifies this`output, this`screen, this`inputPos
      ensures Valid() && ViewOf() == Left(old(ViewOf()))
    {
      if inputPos == 0 {
        return;
      }
      ghost var v := ViewOf();
      FeedCursor(screen, 1, 'D');
      Puts(CursorSequence(1, 'D'));
      CutOneBefore(inputBuf[..], inputPos, inputLen);
      inputPos := inputPos - 1;
      MovesKeepValid(v, inputBuf.Length);
    }

    method MoveCursorBegin()
      requires InBounds() && Connected() && screen.mode == Plain && screen.col == |PROMPT| + inputPos
      modifies this`output, this`screen, this`inputPos
      ensures Connected() && inputPos == 0 && screen == old(screen).(col := |PROMPT|)
    {
      if inputPos == 0 {
        return;
      }
      FeedCursor(screen, inputPos, 'D');
      Puts(CursorSequence(inputPos, 'D'));
      inputPos := 0;
    }

    // ----- history -----

    /** strzcpy into the input buffer. */
    method CopyLine(line: seq<int>)
      requires |line| < inputBuf.Length
      modifies inputBuf
      ensures inputBuf[..|line|] == line && inputBuf[|line|] == 0
    {
      var i := 0;
      while i < |line|
        invariant 0 <= i <= |line|
        invariant inputBuf[..i] == line[..i]
      {
        inputBuf[i] := line[i];
        i := i + 1;
      }
      inputBuf[i] := 0;
    }

    method SaveHistory()
      requires Valid()
      modifies history
      ensures Valid() && history[..] == old(history[..])[historyNext := Before() + After()]
    {
      assert Before() + After() == inputBuf[..inputLen];
      assert AllPrintable(Before() + After());
      history[historyNext] := inputBuf[..inputLen];
    }

    /** Load a saved line over the current one, and clear what is left of the old one on the screen. */
    method LoadHistory(idx: nat)
      requires Valid() && idx < history.Length
      modifies this`output, this`screen, this`inputPos, this`inputLen, inputBuf
      ensures Valid()
      ensures ViewOf() == old(ViewOf()).(before := history[idx], after := [])
    {
      var line := history[idx];
      ghost var text := Before() + After();
      CopyLine(line);
      MoveCursorBegin();
      ghost var s0 := screen;
      PutsBuffer(0, |line|);
      inputPos := |line|;
      ghost var s1 := screen;
      if inputLen > inputPos {
        PutSpaces(inputLen - inputPos);
        PutBackspaces(inputLen - inputPos);
      }
      inputLen := inputPos;
      assert Before() == line && After() == [] && line + [] == line;
      forall i: nat ensures Cell(screen.row, i) == Cell(PROMPT + line, i) {
        assert Cell(s0.row, i) == Cell(PROMPT + text, i);
      }
    }

    // ----- editing -----

    /** The text behind the cursor and its NUL move one down, over the character before the cursor. */
    method CloseGap()
      requires 0 < inputPos <= inputLen < inputBuf.Length && inputBuf[inputLen] == 0
      modifies inputBuf
      ensures inputBuf[..inputPos - 1] == old(inputBuf[..inputPos - 1])
      ensures inputBuf[inputPos - 1..inputLen - 1] == old(inputBuf[inputPos..inputLen]) && inputBuf[inputLen - 1] == 0
    {
      ghost var b := inputBuf[..];
      if inputPos != inputLen {
        MemMove(inputBuf, inputPos - 1, inputPos, inputLen - inputPos + 1);
        MovedSlices(b, inputPos - 1, inputPos, inputLen - inputPos);
      } else {
        inputBuf[inputLen - 1] := 0;
      }
    }

    /** The text behind the cursor and its NUL move one up, and c goes into the gap. */
    method OpenGap(c: int)
      requires inputPos <= inputLen < inputBuf.Length - 1 && inputBuf[inputLen] == 0
      modifies inputBuf
      ensures inputBuf[..inputPos + 1] == old(inputBuf[..inputPos]) + [c]
      ensures inputBuf[inputPos + 1..inputLen + 1] == old(inputBuf[inputPos..inputLen]) && inputBuf[inputLen + 1] == 0
    {
      ghost var b := inputBuf[..];
      if inputPos != inputLen {
        MemMove(inputBuf, inputPos + 1, inputPos, inputLen - inputPos + 1);
      }
      ghost var b1 := inputBuf[..];
      inputBuf[inputPos] := c;
      inputBuf[inputLen + 1] := 0;
      assert inputBuf[..] == b1[inputPos := c][inputLen + 1 := 0];
      GapFilled(b, inputPos, inputLen, c, b1, inputBuf[..]);
    }

    /** What a backspace sends: it reads the buffer before the text moves. */
    method EchoBackspace()
      requires Valid() && inputPos > 0
      modifies this`output, this`screen
      ensures Connected() && Shows(screen, Before()[..inputPos - 1] + After(), inputPos - 1)
    {
      ghost var s0 := screen;
      Putc(BS);
      if inputPos != inputLen {
        PutsBuffer(inputPos, inputLen);
      }
      ghost var s1 := screen;
      Putc(SPACE);
      PutBackspaces(inputLen - inputPos + 1);
      BackspaceOnScreen(s0, Before(), After(), s1, screen);
    }

    method HandleBackspace()
      requires Valid()
      modifies this`output, this`screen, this`inputPos, this`inputLen, inputBuf
      ensures Valid() && ViewOf() == Backspace(old(ViewOf()))
    {
      if inputPos == 0 {
        return;
      }
      ghost var v := ViewOf();
      EchoBackspace();
      CloseGap();
      inputLen := inputLen - 1;
      inputPos := inputPos - 1;
      assert Before() == v.before[..inputPos] && After() == v.after;
      MovesKeepValid(v, inputBuf.Length);
    }

    /** What a typed character sends. */
    method EchoTyped(c: int)
      requires Valid() && Printable(c)
      modifies this`output, this`screen
      ensures Connected() && Shows(screen, Before() + [c] + After(), inputPos + 1)
    {
      ghost var s0 := screen;
      Putc(c);
      ghost var s1 := screen;
      if inputPos != inputLen {
        PutsBuffer(inputPos, inputLen);
        s1 := screen;
        PutBackspaces(inputLen - inputPos);
      }
      TypingOnScreen(s0, Before(), After(), c, s1, screen);
    }

    method TypeChar(c: int)
      requires Valid()
      modifies this`output, this`screen, this`inputPos, this`inputLen, inputBuf
      ensures Valid() && ViewOf() == Type(old(ViewOf()), c, inputBuf.Length)
    {
      if !Printable(c) {
        return;
      }
      if inputLen >= inputBuf.Length - 1 {
        return;
      }
      ghost var v := ViewOf();
      EchoTyped(c);
      OpenGap(c);
      inputPos := inputPos + 1;
      inputLen := inputLen + 1;
      assert Before() == v.before + [c] && After() == v.after;
      TypingKeepsValid(v, c, inputBuf.Length);
    }

    method KillToEnd()
      requires Valid()
      modifies this`output, this`screen, this`inputLen, inputBuf
      ensures Valid() && ViewOf() == old(ViewOf()).(after := [])
    {
      if inputPos == inputLen {
        return;
      }
      ghost var before, after, s0 := Before(), After(), screen;
      PutSpaces(inputLen - inputPos);
      PutBackspaces(inputLen - inputPos);
      inputLen := inputPos;
      inputBuf[inputLen] := 0;
      assert Before() == before && After() == [];
      forall i: nat ensures Cell(screen.row, i) == Cell(PROMPT + (Before() + After()), i) {
        assert Cell(s0.row, i) == Cell(PROMPT + (before + after), i);
      }
    }

    /** Terminate the line, save it, run the command (whose output is given), and start a new line. */
    method HandleEnter(commandOutput: seq<int>)
      requires Valid()
      requires FeedAll(BlankRow(), commandOutput) == BlankRow()
      modifies this, inputBuf, history
      ensures Valid() && ViewOf() == Enter(old(ViewOf()))
    {
      Putc(LF);
      SaveEntered();
      HandleCommand(commandOutput);
      StartNewLine();
    }

    /** Run the text in the buffer up to its NUL. */
    method HandleCommand(commandOutput: seq<int>)
      requires TextValid() && Connected()
      modifies this`output, this`screen, this`commands
      ensures TextValid() && Connected() && screen == FeedAll(old(screen), commandOutput)
      ensures ViewOf() == old(ViewOf()).(commands := old(commands) + [old(Before() + After())])
    {
      assert Before() + After() == inputBuf[..inputLen];
      commands := commands + [inputBuf[..inputLen]];
      Puts(commandOutput);
    }

    /** Save the command in the history buffer, unless it is empty. */
    method SaveEntered()
      requires TextValid()
      modifies this`historyNext, this`historyPos, history
      ensures TextValid()
      ensures ViewOf().(before := [], after := [], commands := commands + [Before() + After()]) == Enter(old(ViewOf()))
    {
      ghost var v := ViewOf();
      HistoryKeepsValid(v, true, inputBuf.Length);
      assert v.Text() == inputBuf[..inputLen];
      if inputLen > 0 {
        history[historyNext] := inputBuf[..inputLen];
        historyNext := (historyNext + 1) % history.Length;
        historyPos := historyNext;
      }
    }

    /** Empty the line and reprint the prompt. */
    method StartNewLine()
      requires TextValid() && Connected() && screen == BlankRow()
      modifies this`output, this`screen, this`inputPos, this`inputLen, inputBuf
      ensures Valid() && ViewOf() == old(ViewOf()).(before := [], after := [])
    {
      inputPos := 0;
      inputLen := 0;
      inputBuf[0] := 0;
      FeedText(screen, PROMPT);
      Puts(PROMPT);
      assert Before() == [] && After() == [] && PROMPT + ([] + []) == PROMPT;
    }

    /** Reprint the current line on a cleared screen. */
    method Reprint()
      requires Valid()
      modifies this`output, this`screen
      ensures Valid() && ViewOf() == old(ViewOf())
    {
      Putc(FF);
      ghost var s0 := screen;
      FeedText(screen, PROMPT);
      Puts(PROMPT);
      ghost var s1 := screen;
      assert Before() + After() == inputBuf[..inputLen];
      assert inputBuf[0..inputLen] == inputBuf[..inputLen] && AllPrintable(inputBuf[..inputLen]);
      PutsBuffer(0, inputLen);
      PutBackspaces(inputLen - inputPos);
      forall i: nat ensures Cell(screen.row, i) == Cell(PROMPT + (Before() + After()), i) {
        assert Cell(s1.row, i) == Cell(PROMPT, i);
      }
    }

    /** History previous or next. */
    method RecallHistory(forward: bool)
      requires Valid()
      modifies this, inputBuf, history
      ensures Valid() && ViewOf() == Recall(old(ViewOf()), forward)
    {
      if historyPos == historyNext {
        SaveHistory();
      }
      historyPos := Neighbour(forward);
      LoadHistory(historyPos);
    }

    /** The history position one up or down, wrapping. */
    method Neighbour(forward: bool) returns (p: nat)
      requires historyPos < history.Length
      ensures p == if forward then (if historyPos + 1 >= history.Length then 0 else historyPos + 1)
                   else (if historyPos == 0 then history.Length - 1 else historyPos - 1)
    {
      var i: int := if forward then historyPos + 1 else historyPos - 1;
      if i < 0 {
        i := history.Length - 1;
      }
      if i >= history.Length {
        i := 0;
      }
      p := i;
    }

    /** The switch on the key, after newline translation and escape decoding. */
    method HandleKey(c: int, commandOutput: seq<int>)
      requires Valid()
      requires FeedAll(BlankRow(), commandOutput) == BlankRow()
      modifies this, inputBuf, history
      ensures Valid() && ViewOf() == Key(old(ViewOf()), c, inputBuf.Length)
    {
      if c == KEY_DEL {
        if inputPos == inputLen {
          return;
        }
        MoveCursorRight();
        HandleBackspace();
      } else if c == BS || c == RUBOUT {
        HandleBackspace();
      } else if c == LF {
        HandleEnter(commandOutput);
      } else if c == Ctrl('A') || c == KEY_HOME {
        MoveCursorHome();
      } else if c == Ctrl('B') || c == KEY_LEFT_ARROW {
        MoveCursorLeft();
      } else if c == Ctrl('E') || c == KEY_END {
        MoveCursorEnd();
      } else if c == Ctrl('F') || c == KEY_RIGHT_ARROW {
        MoveCursorRight();
      } else if c == Ctrl('K') {
        KillToEnd();
      } else if c == Ctrl('L') {
        Reprint();
      } else if c == Ctrl('P') || c == KEY_UP_ARROW {
        RecallHistory(false);
      } else if c == Ctrl('N') || c == KEY_DOWN_ARROW {
        RecallHistory(true);
      } else {
        TypeChar(c);
      }
    }

    method MoveCursorHome()
      requires Valid()
      modifies this`output, this`screen, this`inputPos
      ensures Valid() && ViewOf() == old(ViewOf()).(before := [], after := old(ViewOf()).Text())
    {
      ghost var v := ViewOf();
      MovesKeepValid(v, inputBuf.Length);
      assert v.Text() == inputBuf[..inputLen];
      MoveCursorBegin();
      assert Before() == [] && After() == inputBuf[..inputLen] && [] + After() == After();
    }

    /** Newline translation and the escape automaton: the key to handle, if there is one. */
    method Decode(received: int) returns (c: int, eaten: bool)
      modifies this`escState, this`lastRxWasCr
      ensures eaten == ((received == LF && old(lastRxWasCr)) || received == ESC)
      ensures lastRxWasCr == (received == CR)
      ensures var c1 := if received == CR then LF else received;
              if received == LF && old(lastRxWasCr) then escState == old(escState)
              else if received == ESC then escState == Start
              else if old(escState) == Outside then escState == Outside && c == c1
              else var (key, esc) := HandleEsc(old(escState), c1);
                   c == key && escState == if key != -1 then Outside else esc
    {
      c := received;
      if c == CR {
        lastRxWasCr := true;
        c := LF;
      } else if c == LF && lastRxWasCr {
        lastRxWasCr := false;
        return c, true;
      } else {
        lastRxWasCr := false;
      }
      if c == ESC {
        escState := Start;
        return c, true;
      } else if escState != Outside {
        var (key, esc) := HandleEsc(escState, c);
        c, escState := key, esc;
        if c != -1 {
          escState := Outside;
        }
      }
      eaten := false;
    }

    /** One received character: the buffer follows the abstract edit, and the terminal row follows the buffer. */
    method HandleChar(received: int, commandOutput: seq<int>)
      requires Valid()
      requires FeedAll(BlankRow(), commandOutput) == BlankRow()
      modifies this, inputBuf, history
      ensures Valid()
      ensures ViewOf() == Receive(old(ViewOf()), received, inputBuf.Length)
    {
      var c, eaten := Decode(received);
      assert ViewOf() == old(ViewOf()).(esc := escState, lastRxWasCr := received == CR);
      if !eaten {
        HandleKey(c, commandOutput);
      }
    }
  }

  /** The cut between two parts of a slice, and the one before it. */
  lemma CutOneBefore(b: seq<int>, pos: nat, len: nat)
    requires 0 < pos <= len <= |b|
    ensures b[..pos - 1] == b[..pos][..pos - 1] && b[pos - 1..len] == [b[pos - 1]] + b[pos..len]
    ensures b[..pos - 1] + b[pos - 1..len] == b[..pos] + b[pos..len]
  {
  }

  lemma GapMade(b: seq<int>, pos: nat, len: nat, b1: seq<int>)
    requires pos <= len && len + 1 < |b| && b1 == if pos != len then Moved(b, pos + 1, pos, len - pos + 1) else b
    ensures |b1| == |b| && b1[..pos] == b[..pos] && b1[pos + 1..len + 1] == b[pos..len]
  {
    if pos != len {
      MovedSlices(b, pos + 1, pos, len - pos);
      assert b1[..pos] == b1[..pos + 1][..pos];
    }
  }

  lemma GapFilled(b: seq<int>, pos: nat, len: nat, c: int, b1: seq<int>, r: seq<int>)
    requires pos <= len && len + 1 < |b| && b1 == if pos != len then Moved(b, pos + 1, pos, len - pos + 1) else b
    requires r == b1[pos := c][len + 1 := 0]
    ensures r[..pos + 1] == b[..pos] + [c] && r[pos + 1..len + 1] == b[pos..len] && r[len + 1] == 0
  {
    GapMade(b, pos, len, b1);
    FilledGap(b1, pos, len, c, b[pos..len]);
  }

  lemma FilledGap(b: seq<int>, pos: nat, len: nat, c: int, rest: seq<int>)
    requires pos <= len && len + 1 < |b| && b[pos + 1..len + 1] == rest
    ensures var r := b[pos := c][len + 1 := 0];
            r[..pos + 1] == b[..pos] + [c] && r[pos + 1..len + 1] == rest && r[len + 1] == 0
  {
  }

  /** Back, rewrite the rest, blank the last cell, and back again. */
  lemma BackspaceOnScreen(s0: Screen, before: seq<int>, after: seq<int>, s1: Screen, t: Screen)
    requires before != [] && Shows(s0, before + after, |before|)
    requires Overwritten(Feed(s0, BS), after, s1)
    requires t == Feed(s1, SPACE).(col := |PROMPT| + |before| - 1)
    ensures Shows(t, before[..|before| - 1] + after, |before| - 1)
  {
    var b := before[..|before| - 1];
    forall i: nat ensures Cell(t.row, i) == Cell(PROMPT + (b + after), i) {
      assert Cell(s0.row, i) == Cell(PROMPT + (before + after), i);
      assert Cell(t.row, i) == if i == s1.col then SPACE else Cell(s1.row, i);
    }
  }

  /** Print the character, rewrite the rest, and back to behind the character. */
  lemma TypingOnScreen(s0: Screen, before: seq<int>, after: seq<int>, c: int, s1: Screen, t: Screen)
    requires Printable(c) && Shows(s0, before + after, |before|)
    requires Overwritten(Feed(s0, c), after, s1)
    requires t == s1.(col := |PROMPT| + |before| + 1)
    ensures Shows(t, before + [c] + after, |before| + 1)
  {
    forall i: nat ensures Cell(t.row, i) == Cell(PROMPT + (before + [c] + after), i) {
      assert Cell(s0.row, i) == Cell(PROMPT + (before + after), i);
      assert Cell(Feed(s0, c).row, i) == if i == s0.col then c else Cell(s0.row, i);
    }
  }

  ghost function EmptyLines(lines: nat): seq<seq<int>> { seq(lines, _ => []) }
}
