/** What each received character does to the edited line (common/console.c), on text values. */
module LineEdit {
  import opened Terminal

  const KEY_UP_ARROW := 0x100
  const KEY_DOWN_ARROW := 0x101
  const KEY_RIGHT_ARROW := 0x102
  const KEY_LEFT_ARROW := 0x103
  const KEY_END := 0x104
  const KEY_HOME := 0x105
  const KEY_DEL := 0x106
  const RUBOUT := 0x7f

  /** The code of a character typed with Control. */
  function Ctrl(c: char): int { c as int - '@' as int }

  predicate IsAlpha(c: int) { 'a' as int <= c <= 'z' as int || 'A' as int <= c <= 'Z' as int }

  datatype EscState = Outside | Start | Bad | SawBracket | SawBracket1 | SawBracket3 | SawO

  /** The escape automaton: a key code, or -1 if the character was eaten, and the next state. */
  function HandleEsc(esc: EscState, c: int): (int, EscState) {
    if esc == Start && c == '[' as int then (-1, SawBracket)
    else if esc == Start && c == 'O' as int then (-1, SawO)
    else if esc == SawBracket && c == '1' as int then (-1, SawBracket1)
    else if esc == SawBracket && c == '3' as int then (-1, SawBracket3)
    else if esc == SawBracket && c == 'A' as int then (KEY_UP_ARROW, esc)
    else if esc == SawBracket && c == 'B' as int then (KEY_DOWN_ARROW, esc)
    else if esc == SawBracket && c == 'C' as int then (KEY_RIGHT_ARROW, esc)
    else if esc == SawBracket && c == 'D' as int then (KEY_LEFT_ARROW, esc)
    else if esc == SawO && c == 'F' as int then (KEY_END, esc)
    else if esc == SawBracket1 && c == '~' as int then (KEY_HOME, esc)
    else if esc == SawBracket3 && c == '~' as int then (KEY_DEL, esc)
    else (-1, if IsAlpha(c) || c == '~' as int then Outside else Bad)
  }

  /** The text before and after the cursor, the saved lines, the input automata, and the commands run so far. */
  datatype View = View(before: seq<int>, after: seq<int>, history: seq<seq<int>>, next: nat, pos: nat,
                       esc: EscState, lastRxWasCr: bool, commands: seq<seq<int>>)
  {
    function Text(): seq<int> { before + after }

    predicate Valid(size: nat) {
      && |before| + |after| < size
      && AllPrintable(before) && AllPrintable(after)
      && next < |history| && pos < |history|
      && forall k :: 0 <= k < |history| ==> |history[k]| < size && AllPrintable(history[k])
    }
  }

  function Backspace(v: View): View {
    if v.before == [] then v else v.(before := v.before[..|v.before| - 1])
  }

  function Right(v: View): View {
    if v.after == [] then v else v.(before := v.before + [v.after[0]], after := v.after[1..])
  }

  function Left(v: View): View {
    if v.before == [] then v
    else v.(before := v.before[..|v.before| - 1], after := [v.before[|v.before| - 1]] + v.after)
  }

  /** Recall a saved line; leaving the newest position first saves the line being edited. */
  function Recall(v: View, forward: bool): View
    requires v.next < |v.history| && v.pos < |v.history|
  {
    var h := if v.pos == v.next then v.history[v.next := v.Text()] else v.history;
    var p := if forward then (if v.pos + 1 >= |h| then 0 else v.pos + 1)
             else (if v.pos == 0 then |h| - 1 else v.pos - 1);
    v.(before := h[p], after := [], history := h, pos := p)
  }

  function Enter(v: View): View
    requires v.next < |v.history|
  {
    var v' := v.(before := [], after := [], commands := v.commands + [v.Text()]);
    if v.Text() == [] then v'
    else
      var n := (v.next + 1) % |v.history|;
      v'.(history := v.history[v.next := v.Text()], next := n, pos := n)
  }

  function Type(v: View, c: int, size: nat): View {
    if !Printable(c) || |v.before| + |v.after| + 1 >= size then v else v.(before := v.before + [c])
  }

  /** The effect of a key, after newline translation and escape decoding. */
  function Key(v: View, c: int, size: nat): View
    requires v.next < |v.history| && v.pos < |v.history|
  {
    if c == KEY_DEL then (if v.after == [] then v else Backspace(Right(v)))
    else if c == BS || c == RUBOUT then Backspace(v)
    else if c == LF then Enter(v)
    else if c == Ctrl('A') || c == KEY_HOME then v.(before := [], after := v.Text())
    else if c == Ctrl('B') || c == KEY_LEFT_ARROW then Left(v)
    else if c == Ctrl('E') || c == KEY_END then v.(before := v.Text(), after := [])
    else if c == Ctrl('F') || c == KEY_RIGHT_ARROW then Right(v)
    else if c == Ctrl('K') then v.(after := [])
    else if c == Ctrl('L') then v
    else if c == Ctrl('P') || c == KEY_UP_ARROW then Recall(v, false)
    else if c == Ctrl('N') || c == KEY_DOWN_ARROW then Recall(v, true)
    else Type(v, c, size)
  }

  /** The effect of one received character. */
  function Receive(v: View, c: int, size: nat): View
    requires v.next < |v.history| && v.pos < |v.history|
  {
    if c == LF && v.lastRxWasCr then v.(lastRxWasCr := false)
    else
      var v1 := v.(lastRxWasCr := c == CR);
      var c1 := if c == CR then LF else c;
      if c1 == ESC then v1.(esc := Start)
      else if v1.esc == Outside then Key(v1, c1, size)
      else
        var (key, esc) := HandleEsc(v1.esc, c1);
        Key(v1.(esc := if key != -1 then Outside else esc), key, size)
  }

  lemma MovesKeepValid(v: View, size: nat)
    requires v.Valid(size)
    ensures Backspace(v).Valid(size) && Right(v).Valid(size) && Left(v).Valid(size)
    ensures v.(before := [], after := v.Text()).Valid(size) && v.(before := v.Text(), after := []).Valid(size)
  {
    assert AllPrintable(v.Text());
  }

  lemma HistoryKeepsValid(v: View, forward: bool, size: nat)
    requires v.Valid(size)
    ensures Recall(v, forward).Valid(size) && Enter(v).Valid(size)
  {
    assert AllPrintable(v.Text());
  }

  lemma TypingKeepsValid(v: View, c: int, size: nat)
    requires v.Valid(size)
    ensures Type(v, c, size).Valid(size) && v.(after := []).Valid(size)
  {
  }

  /** What a key can do. */
  lemma KeyIsOneOf(v: View, c: int, size: nat)
    requires v.next < |v.history| && v.pos < |v.history|
    ensures var k := Key(v, c, size);
            || k == v || k == Backspace(v) || k == Backspace(Right(v)) || k == Left(v) || k == Right(v)
            || k == v.(before := [], after := v.Text()) || k == v.(before := v.Text(), after := [])
            || k == v.(after := []) || k == Type(v, c, size)
            || k == Enter(v) || k == Recall(v, true) || k == Recall(v, false)
  {
  }

  lemma KeyKeepsValid(v: View, c: int, size: nat)
    requires v.Valid(size)
    ensures Key(v, c, size).Valid(size)
  {
    KeyIsOneOf(v, c, size);
    MovesKeepValid(v, size);
    MovesKeepValid(Right(v), size);
    TypingKeepsValid(v, c, size);
    HistoryKeepsValid(v, true, size);
    HistoryKeepsValid(v, false, size);
  }

  /** A line never outgrows the buffer, and saved lines never do. */
  lemma ReceiveKeepsValid(v: View, c: int, size: nat)
    requires v.Valid(size)
    ensures Receive(v, c, size).Valid(size)
  {
    var v1 := v.(lastRxWasCr := c == CR);
    var (key, esc) := HandleEsc(v.esc, if c == CR then LF else c);
    KeyKeepsValid(v1, if c == CR then LF else c, size);
    KeyKeepsValid(v1.(esc := if key != -1 then Outside else esc), key, size);
  }

  // ----- what the keys are for -----

  /** Backspace takes back what was typed, wherever the cursor is. */
  lemma BackspaceUndoesTyping(v: View, c: int, size: nat)
    requires v.Valid(size) && Printable(c) && |v.Text()| + 1 < size
    ensures Key(v, c, size).Text() == v.before + [c] + v.after
    ensures Key(Key(v, c, size), BS, size) == v
  {
    assert (v.before + [c])[..|v.before|] == v.before;
  }

  lemma RightThenLeft(v: View)
    requires v.after != []
    ensures Left(Right(v)) == v && Right(v).Text() == v.Text()
  {
    assert (v.before + [v.after[0]])[..|v.before|] == v.before && [v.after[0]] + v.after[1..] == v.after;
    assert v.before + [v.after[0]] + v.after[1..] == v.Text();
  }

  lemma LeftThenRight(v: View)
    requires v.before != []
    ensures Right(Left(v)) == v && Left(v).Text() == v.Text()
  {
    var n := |v.before| - 1;
    assert v.before[..n] + [v.before[n]] == v.before && ([v.before[n]] + v.after)[1..] == v.after;
    assert v.before[..n] + ([v.before[n]] + v.after) == v.Text();
  }

  /** Left and right undo each other and move over the same text. */
  lemma CursorKeysAreInverse(v: View, size: nat)
    requires v.Valid(size)
    ensures v.after != [] ==> Key(Key(v, KEY_RIGHT_ARROW, size), KEY_LEFT_ARROW, size) == v
    ensures v.before != [] ==> Key(Key(v, KEY_LEFT_ARROW, size), KEY_RIGHT_ARROW, size) == v
    ensures Key(v, KEY_LEFT_ARROW, size).Text() == v.Text() == Key(v, KEY_RIGHT_ARROW, size).Text()
  {
    var r, l := Key(v, KEY_RIGHT_ARROW, size), Key(v, KEY_LEFT_ARROW, size);
    assert r == Right(v) && l == Left(v);
    if v.after != [] { RightThenLeft(v); }
    if v.before != [] { LeftThenRight(v); }
  }

  /** Delete removes the character under the cursor and nothing else. */
  lemma DeleteRemovesUnderCursor(v: View, size: nat)
    requires v.Valid(size) && v.after != []
    ensures Key(v, KEY_DEL, size) == v.(after := v.after[1..])
  {
    assert (v.before + [v.after[0]])[..|v.before|] == v.before;
  }

  lemma NextSlot(next: nat, n: nat)
    requires next < n
    ensures (next + 1) % n == if next + 1 < n then next + 1 else 0
  {
  }

  /** With the history at the slot behind the last one, the step back gives that one unless there is only one slot. */
  lemma UpRecallsLast(e: View, last: nat)
    requires e.pos == e.next < |e.history| && e.Text() == [] && last < |e.history| && e.history[last] != []
    requires e.next == if last + 1 < |e.history| then last + 1 else 0
    ensures Recall(e, false).before == e.history[last] <==> |e.history| >= 2
    ensures Recall(e, false).after == []
  {
  }

  /** The line just entered comes back with the up arrow exactly when there is room for two saved lines. */
  lemma UpRecallsEnteredLine(v: View, size: nat)
    requires v.Valid(size) && v.Text() != []
    ensures Key(Key(v, LF, size), KEY_UP_ARROW, size).before == v.Text() <==> |v.history| >= 2
    ensures Key(Key(v, LF, size), KEY_UP_ARROW, size).after == []
  {
    var e := Key(v, LF, size);
    assert e == Enter(v);
    NextSlot(v.next, |v.history|);
    UpRecallsLast(e, v.next);
    assert Key(e, KEY_UP_ARROW, size) == Recall(e, false);
  }

  function ReceiveAll(v: View, s: seq<int>, size: nat): View
    requires v.Valid(size)
    decreases s
  {
    if s == [] then v else
      ReceiveKeepsValid(v, s[0], size);
      ReceiveAll(Receive(v, s[0], size), s[1..], size)
  }

  lemma {:induction false} ReceiveThree(v: View, a: int, b: int, c: int, size: nat)
    requires v.Valid(size)
    ensures Receive(v, a, size).Valid(size) && Receive(Receive(v, a, size), b, size).Valid(size)
    ensures ReceiveAll(v, [a, b, c], size) == Receive(Receive(Receive(v, a, size), b, size), c, size)
  {
    ReceiveKeepsValid(v, a, size);
    var v1 := Receive(v, a, size);
    ReceiveKeepsValid(v1, b, size);
    var v2 := Receive(v1, b, size);
    ReceiveKeepsValid(v2, c, size);
    assert [c][1..] == [];
    assert ReceiveAll(v2, [c], size) == Receive(v2, c, size);
    assert [b, c][1..] == [c];
    assert ReceiveAll(v1, [b, c], size) == ReceiveAll(v2, [c], size);
    assert [a, b, c][1..] == [b, c];
  }

  lemma {:induction false} ReceiveFour(v: View, a: int, b: int, c: int, d: int, size: nat)
    requires v.Valid(size)
    ensures Receive(v, a, size).Valid(size)
    ensures ReceiveAll(v, [a, b, c, d], size) == ReceiveAll(Receive(v, a, size), [b, c, d], size)
  {
    ReceiveKeepsValid(v, a, size);
    assert [a, b, c, d][1..] == [b, c, d];
  }

  predicate Waiting(v: View) { v.esc == Outside && !v.lastRxWasCr }

  /** The bytes of the Home key, ESC [ 1 ~, put the cursor before the text. */
  lemma HomeKey(v: View, size: nat)
    requires v.Valid(size) && Waiting(v)
    ensures ReceiveAll(v, [0x1b, '[' as int, '1' as int, '~' as int], size) == v.(before := [], after := v.before + v.after)
  {
    ReceiveFour(v, 0x1b, '[' as int, '1' as int, '~' as int, size);
    var v1 := v.(esc := Start);
    assert Receive(v, 0x1b, size) == v1;
    ReceiveThree(v1, '[' as int, '1' as int, '~' as int, size);
    IgnoredKey(v1.(esc := SawBracket), size);
    IgnoredKey(v1.(esc := SawBracket1), size);
  }

  /** Those of the Delete key, ESC [ 3 ~, remove the character under the cursor. */
  lemma DeleteKey(v: View, size: nat)
    requires v.Valid(size) && Waiting(v)
    ensures ReceiveAll(v, [0x1b, '[' as int, '3' as int, '~' as int], size)
         == if v.after == [] then v else v.(after := v.after[1..])
  {
    ReceiveFour(v, 0x1b, '[' as int, '3' as int, '~' as int, size);
    var v1 := v.(esc := Start);
    assert Receive(v, 0x1b, size) == v1;
    ReceiveThree(v1, '[' as int, '3' as int, '~' as int, size);
    IgnoredKey(v1.(esc := SawBracket), size);
    IgnoredKey(v1.(esc := SawBracket3), size);
    if v.after != [] { DeleteRemovesUnderCursor(v, size); }
  }

  /** Those of the End key, ESC O F, put the cursor behind the text. */
  lemma EndKey(v: View, size: nat)
    requires v.Valid(size) && Waiting(v)
    ensures ReceiveAll(v, [0x1b, 'O' as int, 'F' as int], size) == v.(before := v.before + v.after, after := [])
  {
    var v1 := v.(esc := Start);
    ReceiveThree(v, 0x1b, 'O' as int, 'F' as int, size);
    assert Receive(v, 0x1b, size) == v1;
    IgnoredKey(v1.(esc := SawO), size);
  }

  /** A character that the escape automaton eats changes nothing else. */
  lemma IgnoredKey(v: View, size: nat)
    requires v.next < |v.history| && v.pos < |v.history|
    ensures Key(v, -1, size) == v
  {
  }

  /** The control characters by their codes: to the start and the end of the line, one character back and forward, and
      removing the text behind the cursor or the character before it. */
  lemma ControlCharacters(v: View, size: nat)
    requires v.Valid(size) && Waiting(v)
    ensures Receive(v, 0x01, size) == v.(before := [], after := v.before + v.after)
    ensures Receive(v, 0x05, size) == v.(before := v.before + v.after, after := [])
    ensures Receive(v, 0x0b, size) == v.(after := [])
    ensures Receive(v, 0x08, size) == Receive(v, 0x7f, size)
         == if v.before == [] then v else v.(before := v.before[..|v.before| - 1])
    ensures Receive(v, 0x0c, size) == v
  {
  }

  lemma MovingCharacters(v: View, size: nat)
    requires v.Valid(size) && Waiting(v)
    ensures Receive(v, 0x02, size).Text() == v.Text() == Receive(v, 0x06, size).Text()
    ensures |Receive(v, 0x02, size).before| == if v.before == [] then 0 else |v.before| - 1
    ensures |Receive(v, 0x06, size).before| == if v.after == [] then |v.before| else |v.before| + 1
  {
    CursorKeysAreInverse(v, size);
  }

  /** A printable character goes in at the cursor while there is room. */
  lemma PrintableCharacter(v: View, c: int, size: nat)
    requires v.Valid(size) && Waiting(v) && 0x20 <= c <= 0x7e
    ensures Receive(v, c, size) == if |v.before| + |v.after| + 1 < size then v.(before := v.before + [c]) else v
  {
  }

  /** A carriage return with a newline behind it, and either alone, enter the line once. */
  lemma EndOfLineEntersOnce(v: View, size: nat)
    requires v.Valid(size) && Waiting(v)
    ensures Receive(v, 0x0a, size) == Enter(v)
    ensures Receive(v, 0x0d, size) == Enter(v).(lastRxWasCr := true)
    ensures Receive(v, 0x0d, size).next < |v.history| == |Receive(v, 0x0d, size).history|
    ensures Receive(v, 0x0d, size).pos < |v.history| && Receive(Receive(v, 0x0d, size), 0x0a, size) == Enter(v)
  {
    HistoryKeepsValid(v, true, size);
    var e := v.(lastRxWasCr := true);
    assert Enter(e) == Enter(v).(lastRxWasCr := true);
    assert Receive(v, 0x0d, size) == Key(e, LF, size) == Enter(e);
  }

  /** Nothing but the end of a line runs a command, and that runs the text of the line. */
  lemma {:induction false} OnlyEnterRuns(v: View, c: int, size: nat)
    requires v.Valid(size)
    ensures Receive(v, c, size).commands
         == if ((c == 0x0a && !v.lastRxWasCr) || c == 0x0d) && v.esc == Outside then v.commands + [v.before + v.after]
            else v.commands
  {
  }

  /** Down after up brings back the line that was being edited, with the cursor at its end. */
  lemma DownUndoesUp(v: View, size: nat)
    requires v.Valid(size) && v.pos == v.next
    ensures var u := Recall(v, false);
            && u.pos < |u.history| && u.next < |u.history|
            && Recall(u, true).before == v.Text() && Recall(u, true).after == [] && Recall(u, true).pos == v.pos
  {
  }

  /** The three bytes a terminal sends for an arrow key act as the matching control character. */
  lemma ArrowSequence(v: View, dir: char, size: nat)
    requires v.Valid(size) && v.esc == Outside && !v.lastRxWasCr && dir in {'A', 'B', 'C', 'D'}
    ensures Receive(Receive(Receive(v, ESC, size), '[' as int, size), dir as int, size)
         == Receive(v, match dir case 'A' => Ctrl('P') case 'B' => Ctrl('N') case 'C' => Ctrl('F') case _ => Ctrl('B'), size)
  {
    var v1 := v.(esc := Start);
    assert Receive(v, ESC, size) == v1;
    assert Key(v1.(esc := SawBracket), -1, size) == v.(esc := SawBracket);
    assert Receive(v1, '[' as int, size) == v.(esc := SawBracket);
  }
}
