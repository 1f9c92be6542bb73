/** The row of a terminal, as far as the line editor's output uses it. Characters are their codes. */
module Terminal {
  import opened ModArith

  const BS := 8
  const LF := 10
  const FF := 12
  const CR := 13
  const ESC := 0x1b
  const SPACE := 32

  predicate Printable(c: int) { 32 <= c <= 126 }

  predicate AllPrintable(s: seq<int>) { forall k :: 0 <= k < |s| ==> Printable(s[k]) }

  /** Plain text, just after ESC, or after ESC [ with the number read so far. */
  datatype Mode = Plain | Escape | Bracket(n: nat)

  /** The current row (blank beyond its end) and the cursor column. */
  datatype Screen = Screen(row: seq<int>, col: nat, mode: Mode)

  function BlankRow(): Screen { Screen([], 0, Plain) }

  function Cell(row: seq<int>, i: nat): int { if i < |row| then row[i] else SPACE }

  function Write(row: seq<int>, col: nat, c: int): seq<int> {
    if col < |row| then row[col := c] else row + seq(col - |row|, _ => SPACE) + [c]
  }

  /** One byte of output. A newline or form feed continues on a blank row. */
  function Feed(t: Screen, c: int): Screen {
    match t.mode
    case Plain =>
      if c == BS then t.(col := if t.col > 0 then t.col - 1 else 0)
      else if c == LF || c == FF then BlankRow()
      else if c == ESC then t.(mode := Escape)
      else if Printable(c) then t.(row := Write(t.row, t.col, c), col := t.col + 1)
      else t
    case Escape => t.(mode := if c == '[' as int then Bracket(0) else Plain)
    case Bracket(n) =>
      if '0' as int <= c <= '9' as int then t.(mode := Bracket(10 * n + (c - '0' as int)))
      else if c == 'C' as int then t.(col := t.col + n, mode := Plain)
      else if c == 'D' as int then t.(col := if n <= t.col then t.col - n else 0, mode := Plain)
      else t.(mode := Plain)
  }

  function FeedAll(t: Screen, s: seq<int>): Screen {
    if s == [] then t else Feed(FeedAll(t, s[..|s| - 1]), s[|s| - 1])
  }

  lemma {:induction false} FeedConcat(t: Screen, s: seq<int>, u: seq<int>)
    ensures FeedAll(t, s + u) == FeedAll(FeedAll(t, s), u)
  {
    if u == [] {
      assert s + u == s;
    } else {
      var n := |s + u| - 1;
      assert (s + u)[..n] == s + u[..|u| - 1];
      FeedConcat(t, s, u[..|u| - 1]);
    }
  }

  /** b is a with its cells from column col on overwritten by text, cursor behind it. */
  ghost predicate Overwritten(a: Screen, text: seq<int>, b: Screen) {
    && b.mode == Plain && b.col == a.col + |text|
    && forall i: nat :: Cell(b.row, i) == if a.col <= i < a.col + |text| then text[i - a.col] else Cell(a.row, i)
  }

  lemma {:induction false} FeedText(t: Screen, text: seq<int>)
    requires t.mode == Plain && AllPrintable(text)
    ensures Overwritten(t, text, FeedAll(t, text))
  {
    if text != [] {
      var n := |text| - 1;
      FeedText(t, text[..n]);
      var u, v := FeedAll(t, text[..n]), FeedAll(t, text);
      forall i: nat
        ensures Cell(v.row, i) == if t.col <= i < t.col + |text| then text[i - t.col] else Cell(t.row, i)
      {
        assert Cell(v.row, i) == if i == u.col then text[n] else Cell(u.row, i);
      }
    }
  }

  /** n copies of a character. */
  function Repeat(c: int, n: nat): (s: seq<int>)
    ensures |s| == n && forall k :: 0 <= k < n ==> s[k] == c
  {
    if n == 0 then [] else Repeat(c, n - 1) + [c]
  }

  lemma {:induction false} FeedBackspaces(t: Screen, n: nat)
    requires t.mode == Plain && n <= t.col
    ensures FeedAll(t, Repeat(BS, n)) == t.(col := t.col - n)
  {
    if n > 0 {
      FeedBackspaces(t, n - 1);
      assert Repeat(BS, n)[..n - 1] == Repeat(BS, n - 1);
    }
  }

  /** %d of a non-negative number. */
  function Decimal(n: nat): (s: seq<int>)
    ensures |s| > 0
  {
    if n < 10 then ['0' as int + n] else Decimal(n / 10) + ['0' as int + n % 10]
  }

  lemma {:induction false} FeedDecimal(t: Screen, n: nat)
    requires t.mode == Bracket(0)
    ensures FeedAll(t, Decimal(n)) == t.(mode := Bracket(n))
  {
    var d := Decimal(n);
    if n < 10 {
      assert FeedAll(t, d[..0]) == t;
    } else {
      FeedDecimal(t, n / 10);
      assert d[..|d| - 1] == Decimal(n / 10);
    }
  }

  /** ESC [ n C or ESC [ n D. */
  function CursorSequence(n: nat, dir: char): seq<int> {
    [ESC, '[' as int] + Decimal(n) + [dir as int]
  }

  lemma FeedCursor(t: Screen, n: nat, dir: char)
    requires t.mode == Plain && (dir == 'C' || (dir == 'D' && n <= t.col))
    ensures FeedAll(t, CursorSequence(n, dir)) == t.(col := if dir == 'C' then t.col + n else t.col - n)
  {
    var head: seq<int> := [ESC, '[' as int];
    assert FeedAll(t, head) == t.(mode := Bracket(0)) by {
      assert head[..1] == [ESC] && FeedAll(t, [ESC]) == t.(mode := Escape) by { assert [ESC][..0] == []; }
    }
    FeedDecimal(t.(mode := Bracket(0)), n);
    FeedConcat(t, head, Decimal(n));
    FeedConcat(t, head + Decimal(n), [dir as int]);
    var u := FeedAll(t, head + Decimal(n));
    assert FeedAll(u, [dir as int]) == Feed(u, dir as int) by { assert [dir as int][..0] == []; }
  }
}
