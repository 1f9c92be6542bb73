/** Debouncing of one key, and what holds of it over every run of scans (common/keyboard_scan.c). */
module Debounce {
  import opened Words

  const KEYBOARD_COLS := 13
  const KEYBOARD_ROWS := 8
  const SCAN_TIME_COUNT := 32

  /** A matrix reading: for each column, which rows are down. */
  type Matrix = m: seq<seq<bool>> |
    |m| == KEYBOARD_COLS && forall c :: 0 <= c < KEYBOARD_COLS ==> |m[c]| == KEYBOARD_ROWS
    witness seq(KEYBOARD_COLS, _ => seq(KEYBOARD_ROWS, _ => false))

  /** Two columns share two pressed rows. */
  ghost predicate Ghosting(m: Matrix) {
    exists c, d :: 0 <= c < d < KEYBOARD_COLS && ShareTwoRows(m[c], m[d])
  }

  ghost predicate ShareTwoRows(x: seq<bool>, y: seq<bool>)
    requires |x| == |y| == KEYBOARD_ROWS
  {
    exists i, k :: 0 <= i < k < KEYBOARD_ROWS && x[i] && y[i] && x[k] && y[k]
  }

  // ----- one key -----

  datatype Config = Config(debounceDown: Word, debounceUp: Word) {
    function Window(down: bool): Word { if down then debounceDown else debounceUp }
  }

  /** The state kept for one key; edge is an index into the ring of scan times. */
  datatype Key = Key(debounced: bool, prev: bool, debouncing: bool, edge: nat)

  /** A raw edge restarts debouncing. */
  function MarkEdge(k: Key, reading: bool, slot: nat): Key {
    if reading == k.prev then k else k.(prev := reading, debouncing := true, edge := slot)
  }

  /** Time since the ring entry, in the 32-bit arithmetic of the firmware. */
  function Elapsed(now: Word, times: seq<Word>, slot: nat): Word
    requires slot < |times|
  {
    (now as int - times[slot] as int) % BASE
  }

  /** A key that has been debouncing long enough takes the new value. */
  function Settle(k: Key, reading: bool, now: Word, times: seq<Word>, cfg: Config): Key
    requires k.edge < |times|
  {
    if k.debouncing && Elapsed(now, times, k.edge) >= cfg.Window(reading)
    then k.(debouncing := false, debounced := reading)
    else k
  }

  // ----- runs of scans -----

  /** A scan: the clock when it started, the raw matrix it read, and whether that matrix is ignored. */
  datatype Scan = Scan(time: nat, matrix: Matrix, ghosting: bool)

  /** The ring slot that scan number j uses: the index starts at 0 and is advanced first. */
  function SlotOf(j: nat): nat { (j + 1) % SCAN_TIME_COUNT }

  /** The ring of scan times after a history. */
  ghost function Times(h: seq<Scan>): (t: seq<Word>)
    ensures |t| == SCAN_TIME_COUNT
  {
    if h == [] then seq(SCAN_TIME_COUNT, _ => 0)
    else Times(h[..|h| - 1])[SlotOf(|h| - 1) := h[|h| - 1].time % BASE]
  }

  /** The key at column c, row i after a history that started from the matrix read at boot. */
  ghost function Run(boot: Matrix, h: seq<Scan>, cfg: Config, c: nat, i: nat): (k: Key)
    requires c < KEYBOARD_COLS && i < KEYBOARD_ROWS
    ensures k.edge < SCAN_TIME_COUNT
  {
    if h == [] then Key(boot[c][i], boot[c][i], false, 0)
    else
      var k, s := Run(boot, h[..|h| - 1], cfg, c, i), h[|h| - 1];
      if s.ghosting then k
      else
        var reading := s.matrix[c][i];
        Settle(MarkEdge(k, reading, SlotOf(|h| - 1)), reading, s.time % BASE, Times(h), cfg)
  }

  ghost predicate Chronological(h: seq<Scan>) {
    forall a, b :: 0 <= a <= b < |h| ==> h[a].time <= h[b].time
  }

  /** Every scan from j on that is not ignored for ghosting read the value v. */
  ghost predicate ReadsSince(h: seq<Scan>, j: nat, c: nat, i: nat, v: bool)
    requires c < KEYBOARD_COLS && i < KEYBOARD_ROWS
  {
    forall m :: j <= m < |h| && !h[m].ghosting ==> h[m].matrix[c][i] == v
  }

  /** The value the key had in the last scan before j that was not ignored, or at boot. */
  ghost function ReadingBefore(boot: Matrix, h: seq<Scan>, j: nat, c: nat, i: nat): bool
    requires j <= |h| && c < KEYBOARD_COLS && i < KEYBOARD_ROWS
  {
    if j == 0 then boot[c][i]
    else if h[j - 1].ghosting then ReadingBefore(boot, h, j - 1, c, i)
    else h[j - 1].matrix[c][i]
  }

  /** Scan j saw the key change to v and no later scan saw anything else: the last raw edge. */
  ghost predicate LastEdge(boot: Matrix, h: seq<Scan>, j: nat, c: nat, i: nat, v: bool)
    requires c < KEYBOARD_COLS && i < KEYBOARD_ROWS
  {
    && j < |h| && !h[j].ghosting
    && ReadingBefore(boot, h, j, c, i) != v
    && h[j].matrix[c][i] == v
    && ReadsSince(h, j, c, i, v)
  }

  lemma {:induction false} ReadingOfPrefix(boot: Matrix, h: seq<Scan>, n: nat, j: nat, c: nat, i: nat)
    requires j <= n <= |h| && c < KEYBOARD_COLS && i < KEYBOARD_ROWS
    ensures ReadingBefore(boot, h[..n], j, c, i) == ReadingBefore(boot, h, j, c, i)
  {
    if j > 0 { ReadingOfPrefix(boot, h, n, j - 1, c, i); }
  }

  /**
   * The bookkeeping invariant: prev is the last reading; a key whose debounced value differs is
   * debouncing; and a debouncing key's edge index is the slot of its last raw edge.
   */
  ghost predicate KeyInvariant(boot: Matrix, h: seq<Scan>, k: Key, j: nat, c: nat, i: nat)
    requires c < KEYBOARD_COLS && i < KEYBOARD_ROWS
  {
    && k.prev == ReadingBefore(boot, h, |h|, c, i)
    && (k.debounced != k.prev ==> k.debouncing)
    && (k.debouncing ==> LastEdge(boot, h, j, c, i, k.prev) && k.edge == SlotOf(j))
  }

  lemma MarkKeepsInvariant(boot: Matrix, h: seq<Scan>, s: Scan, k: Key, j: nat, c: nat, i: nat) returns (j': nat)
    requires c < KEYBOARD_COLS && i < KEYBOARD_ROWS
    requires KeyInvariant(boot, h, k, j, c, i)
    ensures KeyInvariant(boot, h + [s], if s.ghosting then k else MarkEdge(k, s.matrix[c][i], SlotOf(|h|)), j', c, i)
  {
    var all := h + [s];
    assert all[..|h|] == h;
    ReadingOfPrefix(boot, all, |h|, |h|, c, i);
    if !s.ghosting && s.matrix[c][i] != k.prev {
      return |h|;
    }
    if k.debouncing {
      ReadingOfPrefix(boot, all, |h|, j, c, i);
      assert LastEdge(boot, all, j, c, i, k.prev);
    }
    return j;
  }

  /** The invariant holds after every run of scans. */
  lemma {:induction false} RunInvariant(boot: Matrix, h: seq<Scan>, cfg: Config, c: nat, i: nat) returns (j: nat)
    requires c < KEYBOARD_COLS && i < KEYBOARD_ROWS
    ensures KeyInvariant(boot, h, Run(boot, h, cfg, c, i), j, c, i)
  {
    if h == [] {
      return 0;
    }
    var n := |h| - 1;
    j := RunInvariant(boot, h[..n], cfg, c, i);
    assert h == h[..n] + [h[n]];
    j := MarkKeepsInvariant(boot, h[..n], h[n], Run(boot, h[..n], cfg, c, i), j, c, i);
  }

  /** The last scan up to number n that used the ring slot of scan j. */
  function LastInSlot(n: nat, j: nat): (m: nat)
    requires j <= n
    ensures j <= m <= n && n - m < SCAN_TIME_COUNT && (n - j < SCAN_TIME_COUNT ==> m == j)
  {
    j + (n - j) / SCAN_TIME_COUNT * SCAN_TIME_COUNT
  }

  /** A ring entry holds the time of the last scan that used it: the one that wrote it or a later one. */
  lemma {:induction false} RingEntryIsLastInSlot(h: seq<Scan>, j: nat)
    requires j < |h|
    ensures Times(h)[SlotOf(j)] == h[LastInSlot(|h| - 1, j)].time % BASE
  {
    var n := |h| - 1;
    SlotsCompared(j, n);
    if SlotOf(j) != SlotOf(n) {
      RingEntryIsLastInSlot(h[..n], j);
    }
  }

  lemma SlotsCompared(j: nat, n: nat)
    requires j <= n
    ensures SlotOf(j) == SlotOf(n) ==> LastInSlot(n, j) == n
    ensures SlotOf(j) != SlotOf(n) ==> j < n && LastInSlot(n, j) == LastInSlot(n - 1, j)
  {
  }

  /** The time from start to now as a 32-bit clock shows it: never too long, and exact before the clock wraps. */
  function Shown(now: nat, start: nat): (e: Word)
    ensures start <= now ==> e <= now - start
    ensures start <= now < start + BASE ==> e == now - start
  {
    (now - start) % BASE
  }

  lemma ElapsedIsDifference(now: nat, start: nat, times: seq<Word>, slot: nat)
    requires slot < |times| && times[slot] == start % BASE
    ensures Elapsed(now % BASE, times, slot) == Shown(now, start)
  {
  }

  /** While a scan finds a key debouncing, the edge it settles against is the last raw edge. */
  lemma EdgeOfScan(boot: Matrix, h: seq<Scan>, s: Scan, cfg: Config, c: nat, i: nat) returns (j: nat)
    requires c < KEYBOARD_COLS && i < KEYBOARD_ROWS && !s.ghosting
    requires MarkEdge(Run(boot, h, cfg, c, i), s.matrix[c][i], SlotOf(|h|)).debouncing
    ensures LastEdge(boot, h + [s], j, c, i, s.matrix[c][i])
    ensures MarkEdge(Run(boot, h, cfg, c, i), s.matrix[c][i], SlotOf(|h|)).edge == SlotOf(j)
  {
    j := RunInvariant(boot, h, cfg, c, i);
    j := MarkKeepsInvariant(boot, h, s, Run(boot, h, cfg, c, i), j, c, i);
    assert (h + [s])[..|h|] == h;
  }

  /** The time a scan compares with the window is the time since the slot was used last, in 32 bits. */
  lemma ElapsedSinceEdge(all: seq<Scan>, j: nat)
    requires j < |all|
    ensures var n := |all| - 1;
            Elapsed(all[n].time % BASE, Times(all), SlotOf(j)) == Shown(all[n].time, all[LastInSlot(n, j)].time)
  {
    RingEntryIsLastInSlot(all, j);
    ElapsedIsDifference(all[|all| - 1].time, all[LastInSlot(|all| - 1, j)].time, Times(all), SlotOf(j));
  }

  /** The scan, which is the n-th, finds that the window since the edge in scan j is over. */
  predicate WindowOver(h: seq<Scan>, n: nat, j: nat, window: Word)
    requires j <= n < |h|
  {
    !h[n].ghosting && Shown(h[n].time, h[LastInSlot(n, j)].time) >= window
  }

  /** A scan that flips a key has seen it at the new value since an edge, and found the window over. */
  lemma FlipMeansOver(boot: Matrix, h: seq<Scan>, s: Scan, cfg: Config, c: nat, i: nat) returns (j: nat)
    requires c < KEYBOARD_COLS && i < KEYBOARD_ROWS
    requires Run(boot, h + [s], cfg, c, i).debounced != Run(boot, h, cfg, c, i).debounced
    ensures LastEdge(boot, h + [s], j, c, i, Run(boot, h + [s], cfg, c, i).debounced)
    ensures WindowOver(h + [s], |h|, j, cfg.Window(Run(boot, h + [s], cfg, c, i).debounced))
  {
    assert (h + [s])[..|h|] == h;
    j := EdgeOfScan(boot, h, s, cfg, c, i);
    ElapsedSinceEdge(h + [s], j);
  }

  /**
   * Safety over every run: when a scan flips a key's debounced value, there was a raw edge to that
   * value, every scan since then that was not ignored read it, and the debounce window has really
   * elapsed. Neither overwriting the ring nor wrapping the 32-bit clock can make a flip come early.
   */
  lemma DebounceSafety(boot: Matrix, h: seq<Scan>, s: Scan, cfg: Config, c: nat, i: nat)
    requires c < KEYBOARD_COLS && i < KEYBOARD_ROWS && Chronological(h + [s])
    requires Run(boot, h + [s], cfg, c, i).debounced != Run(boot, h, cfg, c, i).debounced
    ensures var v := Run(boot, h + [s], cfg, c, i).debounced;
            && !s.ghosting
            && exists j: nat :: && LastEdge(boot, h + [s], j, c, i, v)
                                && (v ==> s.time - (h + [s])[j].time >= cfg.debounceDown)
                                && (!v ==> s.time - (h + [s])[j].time >= cfg.debounceUp)
  {
    var j := FlipMeansOver(boot, h, s, cfg, c, i);
    assert (h + [s])[LastInSlot(|h|, j)].time >= (h + [s])[j].time;
  }

  /**
   * Acceptance by one scan, for every history: a value that is not yet accepted is accepted precisely when the window
   * is over, as measured from the last use of the edge's ring slot.
   */
  lemma AcceptedExactlyWhenOver(boot: Matrix, h: seq<Scan>, s: Scan, cfg: Config, c: nat, i: nat, j: nat)
    requires c < KEYBOARD_COLS && i < KEYBOARD_ROWS
    requires !s.ghosting && LastEdge(boot, h + [s], j, c, i, s.matrix[c][i])
    requires Run(boot, h, cfg, c, i).debounced != s.matrix[c][i]
    ensures s.matrix[c][i] ==>
              (Run(boot, h + [s], cfg, c, i).debounced <==> WindowOver(h + [s], |h|, j, cfg.debounceDown))
    ensures !s.matrix[c][i] ==>
              (!Run(boot, h + [s], cfg, c, i).debounced <==> WindowOver(h + [s], |h|, j, cfg.debounceUp))
  {
    assert (h + [s])[..|h|] == h;
    var _ := RunInvariant(boot, h, cfg, c, i);
    var e := EdgeOfScan(boot, h, s, cfg, c, i);
    OneLastEdge(boot, h + [s], j, e, c, i, s.matrix[c][i]);
    ElapsedSinceEdge(h + [s], j);
  }

  /**
   * So acceptance is exact in real time while the edge is still in the ring and no clock wrap has gone by: the
   * debounced value becomes the reading precisely when the window has elapsed.
   */
  lemma AcceptedExactlyAfterWindow(boot: Matrix, h: seq<Scan>, s: Scan, cfg: Config, c: nat, i: nat, j: nat)
    requires c < KEYBOARD_COLS && i < KEYBOARD_ROWS && Chronological(h + [s])
    requires !s.ghosting && LastEdge(boot, h + [s], j, c, i, s.matrix[c][i])
    requires Run(boot, h, cfg, c, i).debounced != s.matrix[c][i]
    requires |h| - j < SCAN_TIME_COUNT && s.time - (h + [s])[j].time < BASE
    ensures s.matrix[c][i] ==>
              (Run(boot, h + [s], cfg, c, i).debounced <==> s.time - (h + [s])[j].time >= cfg.debounceDown)
    ensures !s.matrix[c][i] ==>
              (!Run(boot, h + [s], cfg, c, i).debounced <==> s.time - (h + [s])[j].time >= cfg.debounceUp)
  {
    AcceptedExactlyWhenOver(boot, h, s, cfg, c, i, j);
    assert (h + [s])[|h|] == s;
  }

  /** Some scan since scan j has found the window over. */
  ghost predicate FoundOver(h: seq<Scan>, j: nat, window: Word) {
    exists n :: j <= n < |h| && WindowOver(h, n, j, window)
  }

  lemma FoundOverByOneMore(h: seq<Scan>, s: Scan, j: nat, window: Word)
    requires j <= |h|
    ensures FoundOver(h + [s], j, window) <==> FoundOver(h, j, window) || WindowOver(h + [s], |h|, j, window)
  {
    forall n | j <= n < |h| ensures WindowOver(h, n, j, window) == WindowOver(h + [s], n, j, window) {}
  }

  /** A value once accepted stays while the key is held. */
  lemma AcceptedStays(boot: Matrix, h: seq<Scan>, s: Scan, cfg: Config, c: nat, i: nat)
    requires c < KEYBOARD_COLS && i < KEYBOARD_ROWS
    requires s.ghosting || s.matrix[c][i] == Run(boot, h, cfg, c, i).debounced
    ensures Run(boot, h + [s], cfg, c, i).debounced == Run(boot, h, cfg, c, i).debounced
  {
    assert (h + [s])[..|h|] == h;
  }

  /**
   * A key held steadily since an edge, over every history: its value is accepted precisely when some scan since then
   * has found the window over.
   */
  lemma {:induction false} HeldKeyAcceptedExactly(boot: Matrix, h: seq<Scan>, cfg: Config, c: nat, i: nat, j: nat,
                                                  v: bool)
    requires c < KEYBOARD_COLS && i < KEYBOARD_ROWS && LastEdge(boot, h, j, c, i, v)
    requires Run(boot, h[..j], cfg, c, i).debounced != v
    ensures v ==> (Run(boot, h, cfg, c, i).debounced <==> FoundOver(h, j, cfg.debounceDown))
    ensures !v ==> (!Run(boot, h, cfg, c, i).debounced <==> FoundOver(h, j, cfg.debounceUp))
  {
    var n := |h| - 1;
    var before, s := h[..n], h[n];
    assert h == before + [s];
    if j < n {
      ReadingOfPrefix(boot, h, n, j, c, i);
      assert before[..j] == h[..j];
      HeldKeyAcceptedExactly(boot, before, cfg, c, i, j, v);
    }
    FoundOverByOneMore(before, s, j, cfg.Window(v));
    if s.ghosting || Run(boot, before, cfg, c, i).debounced == v {
      AcceptedStays(boot, before, s, cfg, c, i);
    } else {
      AcceptedExactlyWhenOver(boot, before, s, cfg, c, i, j);
    }
  }

  /** Among 32 scans in a row there is always less than a window. */
  ghost predicate RingTooShort(h: seq<Scan>, cfg: Config) {
    forall a, b :: 0 <= a <= b < |h| && b - a < SCAN_TIME_COUNT ==>
      h[b].time - h[a].time < cfg.debounceDown && h[b].time - h[a].time < cfg.debounceUp
  }

  lemma LongWindowStep(boot: Matrix, h: seq<Scan>, s: Scan, cfg: Config, c: nat, i: nat)
    requires c < KEYBOARD_COLS && i < KEYBOARD_ROWS && Chronological(h + [s]) && RingTooShort(h + [s], cfg)
    ensures Run(boot, h + [s], cfg, c, i).debounced == Run(boot, h, cfg, c, i).debounced
  {
    if Run(boot, h + [s], cfg, c, i).debounced != Run(boot, h, cfg, c, i).debounced {
      var j := FlipMeansOver(boot, h, s, cfg, c, i);
      TooShort(h + [s], |h|, LastInSlot(|h|, j), cfg);
    }
  }

  lemma TooShort(h: seq<Scan>, b: nat, a: nat, cfg: Config)
    requires a <= b < |h| && b - a < SCAN_TIME_COUNT && Chronological(h) && RingTooShort(h, cfg)
    ensures Shown(h[b].time, h[a].time) < cfg.debounceDown && Shown(h[b].time, h[a].time) < cfg.debounceUp
  {
  }

  /** With a window longer than 31 scan intervals no key ever changes, because the ring forgets the edge. */
  lemma {:induction false} LongWindowNeverAccepts(boot: Matrix, h: seq<Scan>, cfg: Config, c: nat, i: nat)
    requires c < KEYBOARD_COLS && i < KEYBOARD_ROWS && Chronological(h) && RingTooShort(h, cfg)
    ensures Run(boot, h, cfg, c, i).debounced == boot[c][i]
  {
    if h != [] {
      var n := |h| - 1;
      assert h == h[..n] + [h[n]];
      LongWindowNeverAccepts(boot, h[..n], cfg, c, i);
      LongWindowStep(boot, h[..n], h[n], cfg, c, i);
    }
  }

  lemma OneLastEdge(boot: Matrix, h: seq<Scan>, a: nat, b: nat, c: nat, i: nat, v: bool)
    requires c < KEYBOARD_COLS && i < KEYBOARD_ROWS
    requires LastEdge(boot, h, a, c, i, v) && LastEdge(boot, h, b, c, i, v)
    ensures a == b
  {
    if a < b {
      ReadingStays(boot, h, a, b, c, i, v);
    } else if b < a {
      ReadingStays(boot, h, b, a, c, i, v);
    }
  }

  lemma {:induction false} ReadingStays(boot: Matrix, h: seq<Scan>, a: nat, b: nat, c: nat, i: nat, v: bool)
    requires c < KEYBOARD_COLS && i < KEYBOARD_ROWS
    requires a < b < |h| && LastEdge(boot, h, a, c, i, v)
    ensures ReadingBefore(boot, h, b, c, i) == v
  {
    if b - 1 > a { ReadingStays(boot, h, a, b - 1, c, i, v); }
  }
}
