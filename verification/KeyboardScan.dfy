/** Keyboard matrix scanning and debouncing (common/keyboard_scan.c). */
module KeyboardScan {
  import opened Debounce
  import opened ColumnBits
  import opened Words

  /** The keys a raw reading shows: bit i of byte c is the key at column c, row i. */
  function Column(x: bv8): (b: seq<bool>)
    ensures |b| == KEYBOARD_ROWS
  {
    seq(KEYBOARD_ROWS, i requires 0 <= i < KEYBOARD_ROWS => Bit(x, i))
  }

  function Unpack(state: seq<bv8>): Matrix
    requires |state| == KEYBOARD_COLS
  {
    seq(KEYBOARD_COLS, c requires 0 <= c < KEYBOARD_COLS => Column(state[c]))
  }

  lemma CommonBits(x: bv8, y: bv8)
    ensures TwoBits(x & y) <==> ShareTwoRows(Column(x), Column(y))
  {
    forall i | 0 <= i < KEYBOARD_ROWS
      ensures Bit(x & y, i) == (Column(x)[i] && Column(y)[i])
    {
      BitOfAnd(x, y, i);
    }
    if TwoBits(x & y) {
      var i, k :| 0 <= i < k < KEYBOARD_ROWS && Bit(x & y, i) && Bit(x & y, k);
      assert Column(x)[i] && Column(y)[i] && Column(x)[k] && Column(y)[k];
    }
  }

  method HasGhosting(state: seq<bv8>) returns (ghosting: bool)
    requires |state| == KEYBOARD_COLS
    ensures ghosting == Ghosting(Unpack(state))
  {
    ghost var m := Unpack(state);
    for c := 0 to KEYBOARD_COLS
      invariant forall a, b :: 0 <= a < c && a < b < KEYBOARD_COLS ==> !ShareTwoRows(m[a], m[b])
    {
      if state[c] != 0 {
        for d := c + 1 to KEYBOARD_COLS
          invariant forall b :: c < b < d ==> !ShareTwoRows(m[c], m[b])
        {
          var common := state[c] & state[d];
          MoreThanOneBit(common);
          CommonBits(state[c], state[d]);
          if common & (common - 1) != 0 {
            assert ShareTwoRows(m[c], m[d]);
            return true;
          }
        }
      } else {
        forall i | 0 <= i < KEYBOARD_ROWS ensures !m[c][i] { ZeroBits(i); }
      }
    }
    return false;
  }

  /** Key i of a column, from the column's bytes and edge indices. */
  ghost function KeyOf(state: bv8, prev: bv8, debouncing: bv8, edges: seq<nat>, i: nat): Key
    requires |edges| == KEYBOARD_ROWS && i < KEYBOARD_ROWS
  {
    Key(Bit(state, i), Bit(prev, i), Bit(debouncing, i), edges[i])
  }

  /** Check one column for changes between the previous scan and this one. */
  method MarkColumn(column: bv8, prev: bv8, debouncing: bv8, edges: seq<nat>, slot: nat, ghost state: bv8)
    returns (debouncing': bv8, edges': seq<nat>)
    requires |edges| == KEYBOARD_ROWS
    ensures |edges'| == KEYBOARD_ROWS
    ensures forall i :: 0 <= i < KEYBOARD_ROWS ==>
              KeyOf(state, column, debouncing', edges', i)
              == MarkEdge(KeyOf(state, prev, debouncing, edges, i), Bit(column, i), slot)
  {
    var diff := column ^ prev;
    ghost var changed := Column(diff);
    forall i | 0 <= i < KEYBOARD_ROWS
      ensures changed[i] == (Bit(column, i) != Bit(prev, i))
      ensures Bit(debouncing | diff, i) == (Bit(debouncing, i) || changed[i])
      ensures diff & Mask(i) != 0 <==> changed[i]
      ensures diff == 0 ==> !changed[i]
    {
      BitOfXor(column, prev, i);
      BitOfOr(debouncing, diff, i);
      BitIsMask(diff, i);
      ZeroBits(i);
    }
    if diff == 0 {
      return debouncing, edges;
    }
    edges' := edges;
    for i := 0 to KEYBOARD_ROWS
      invariant |edges'| == KEYBOARD_ROWS
      invariant forall k :: 0 <= k < KEYBOARD_ROWS ==> edges'[k] == if k < i && changed[k] then slot else edges[k]
    {
      if diff & Mask(i) != 0 {
        edges' := edges'[i := slot];
      }
    }
    debouncing' := debouncing | diff;
  }

  /** Check one column for keys which are done debouncing. */
  method SettleColumn(column: bv8, state: bv8, debouncing: bv8, edges: seq<nat>, tnow: Word, times: seq<Word>,
                      cfg: Config,
                      ghost prev: bv8)
    returns (state': bv8, debouncing': bv8)
    requires |edges| == KEYBOARD_ROWS && forall i :: 0 <= i < KEYBOARD_ROWS ==> edges[i] < |times|
    ensures forall i :: 0 <= i < KEYBOARD_ROWS ==>
              KeyOf(state', prev, debouncing', edges, i)
              == Settle(KeyOf(state, prev, debouncing, edges, i), Bit(column, i), tnow, times, cfg)
  {
    state', debouncing' := state, debouncing;
    if debouncing == 0 {
      forall i | 0 <= i < KEYBOARD_ROWS ensures !Bit(debouncing, i) { ZeroBits(i); }
      return;
    }
    for i := 0 to KEYBOARD_ROWS
      invariant forall k :: 0 <= k < i ==>
                  KeyOf(state', prev, debouncing', edges, k)
                  == Settle(KeyOf(state, prev, debouncing, edges, k), Bit(column, k), tnow, times, cfg)
      invariant forall k :: i <= k < KEYBOARD_ROWS ==>
                  KeyOf(state', prev, debouncing', edges, k) == KeyOf(state, prev, debouncing, edges, k)
    {
      assert Bit(debouncing, i) == Bit(debouncing', i) by {
        assert KeyOf(state', prev, debouncing', edges, i) == KeyOf(state, prev, debouncing, edges, i);
      }
      state', debouncing' := SettleBit(i, debouncing, column, state', debouncing', edges, tnow, times, cfg, prev);
    }
  }

  /** One row: if its key is done debouncing, clear the mark, and flip the state if it changed. */
  method SettleBit(i: nat, debc: bv8, column: bv8, state: bv8, debouncing: bv8, edges: seq<nat>,
                   tnow: Word, times: seq<Word>, cfg: Config, ghost prev: bv8)
    returns (state': bv8, debouncing': bv8)
    requires |edges| == KEYBOARD_ROWS && i < KEYBOARD_ROWS && edges[i] < |times|
    requires Bit(debc, i) == Bit(debouncing, i)
    ensures KeyOf(state', prev, debouncing', edges, i)
         == Settle(KeyOf(state, prev, debouncing, edges, i), Bit(column, i), tnow, times, cfg)
    ensures forall k :: 0 <= k < KEYBOARD_ROWS && k != i ==>
              KeyOf(state', prev, debouncing', edges, k) == KeyOf(state, prev, debouncing, edges, k)
  {
    state', debouncing' := state, debouncing;
    var isDebouncing := TestBit(debc, i);
    if !isDebouncing {
      return;
    }
    var down := TestBit(column, i);
    if Elapsed(tnow, times, edges[i]) < (if down then cfg.debounceDown else cfg.debounceUp) {
      return;
    }
    state', debouncing' := FinishKey(i, column, state, debouncing);
  }

  /** A mask test, as the code makes it. */
  method TestBit(x: bv8, i: nat) returns (isSet: bool)
    requires i < KEYBOARD_ROWS
    ensures isSet == Bit(x, i)
  {
    BitIsMask(x, i);
    isSet := x & Mask(i) != 0;
  }

  /** A key that is done debouncing: clear its mark, and flip its state if it changed. */
  method FinishKey(i: nat, column: bv8, state: bv8, debouncing: bv8) returns (state': bv8, debouncing': bv8)
    requires i < KEYBOARD_ROWS
    ensures forall k :: 0 <= k < KEYBOARD_ROWS ==> Bit(debouncing', k) == (k != i && Bit(debouncing, k))
    ensures forall k :: 0 <= k < KEYBOARD_ROWS ==> Bit(state', k) == Bit(if k == i then column else state, k)
  {
    var mask := Mask(i);
    var newMask := column & mask;
    ClearAndFlip(debouncing, state, mask, i);
    SameBit(state, column, i);
    state', debouncing' := state, debouncing & !mask;
    if state & mask != newMask {
      state' := state ^ mask;
    }
  }

  lemma ClearAndFlip(x: bv8, y: bv8, m: bv8, i: nat)
    requires i < KEYBOARD_ROWS && m == Mask(i)
    ensures forall k :: 0 <= k < KEYBOARD_ROWS ==> Bit(x & !m, k) == (k != i && Bit(x, k))
    ensures forall k :: 0 <= k < KEYBOARD_ROWS ==> Bit(y ^ m, k) == if k == i then !Bit(y, k) else Bit(y, k)
  {
    forall k | 0 <= k < KEYBOARD_ROWS
      ensures Bit(x & !m, k) == (k != i && Bit(x, k))
      ensures Bit(y ^ m, k) == if k == i then !Bit(y, k) else Bit(y, k)
    {
      BitCleared(x, i, k);
      BitFlipped(y, i, k);
    }
  }

  /** The scanner's static state; edge indices are kept a row of eight per column. */
  class Scanner {
    const cfg: Config
    const debouncedState: array<bv8>
    const prevState: array<bv8>
    const debouncing: array<bv8>
    const scanTime: array<Word>
    const scanEdgeIndex: array<seq<nat>>
    var scanTimeIndex: nat
    ghost const boot: Matrix
    ghost var history: seq<Scan>

    ghost predicate Shaped()
      reads this, scanEdgeIndex
    {
      && debouncedState.Length == prevState.Length == debouncing.Length == scanEdgeIndex.Length == KEYBOARD_COLS
      && scanTime.Length == SCAN_TIME_COUNT
      && (forall c :: 0 <= c < KEYBOARD_COLS ==> |scanEdgeIndex[c]| == KEYBOARD_ROWS)
      && debouncedState != prevState && debouncedState != debouncing && prevState != debouncing
      && scanEdgeIndex as object != debouncedState && scanEdgeIndex as object != prevState
      && scanEdgeIndex as object != debouncing && scanEdgeIndex as object != scanTime
    }

    ghost function KeyAt(c: nat, i: nat): Key
      requires Shaped() && c < KEYBOARD_COLS && i < KEYBOARD_ROWS
      reads this, debouncedState, prevState, debouncing, scanEdgeIndex
    {
      KeyOf(debouncedState[c], prevState[c], debouncing[c], scanEdgeIndex[c], i)
    }

    /** The arrays hold exactly the state that the run of scans so far leads to. */
    ghost predicate Valid()
      reads this, debouncedState, prevState, debouncing, scanTime, scanEdgeIndex
    {
      && Shaped()
      && Chronological(history)
      && scanTimeIndex == |history| % SCAN_TIME_COUNT
      && scanTime[..] == Times(history)
      && forall c, i :: 0 <= c < KEYBOARD_COLS && 0 <= i < KEYBOARD_ROWS ==>
           KeyAt(c, i) == Run(boot, history, cfg, c, i)
    }

    constructor Init(cfg: Config, matrix: seq<bv8>)
      requires |matrix| == KEYBOARD_COLS
      ensures Valid() && history == [] && boot == Unpack(matrix) && this.cfg == cfg
      ensures fresh(debouncedState) && fresh(prevState) && fresh(debouncing) && fresh(scanTime) && fresh(scanEdgeIndex)
    {
      this.cfg := cfg;
      boot := Unpack(matrix);
      history := [];
      scanTimeIndex := 0;
      debouncedState := new bv8[KEYBOARD_COLS](c requires 0 <= c < KEYBOARD_COLS => matrix[c]);
      prevState := new bv8[KEYBOARD_COLS](c requires 0 <= c < KEYBOARD_COLS => matrix[c]);
      debouncing := new bv8[KEYBOARD_COLS](_ => 0);
      scanTime := new Word[SCAN_TIME_COUNT](_ => 0);
      scanEdgeIndex := new seq<nat>[KEYBOARD_COLS](_ => [0, 0, 0, 0, 0, 0, 0, 0]);
      new;
      assert scanTime[..] == Times([]);
      forall c, i | 0 <= c < KEYBOARD_COLS && 0 <= i < KEYBOARD_ROWS
        ensures KeyAt(c, i) == Key(boot[c][i], boot[c][i], false, 0)
      {
        ZeroBits(i);
      }
    }

    /** One scan: save the time, read the matrix, mark new edges, settle keys that are done. */
    method CheckKeysChanged(now: nat, newState: seq<bv8>)
      requires |newState| == KEYBOARD_COLS
      requires Valid()
      requires history != [] ==> history[|history| - 1].time <= now
      modifies this, debouncedState, prevState, debouncing, scanTime, scanEdgeIndex
      ensures Valid()
      ensures history == old(history) + [Scan(now, Unpack(newState), Ghosting(Unpack(newState)))]
    {
      ghost var s := Scan(now, Unpack(newState), Ghosting(Unpack(newState)));
      ghost var was, all := history, history + [s];
      assert all[..|was|] == was && all[|was|] == s;
      var tnow: Word := now % BASE;
      SaveScanTime(tnow);
      assert scanTime[..] == Times(all);
      var ghosting := HasGhosting(newState);
      if !ghosting {
        assert forall c, i :: 0 <= c < KEYBOARD_COLS && 0 <= i < KEYBOARD_ROWS ==> KeyAt(c, i) == Run(boot, was, cfg, c, i);
        MarkEdges(newState);
        SettleKeys(newState, tnow);
      }
      history := all;
    }

    /** Save the current scan time. */
    method SaveScanTime(tnow: Word)
      requires scanTime.Length == SCAN_TIME_COUNT && scanTimeIndex == |history| % SCAN_TIME_COUNT
      modifies this`scanTimeIndex, scanTime
      ensures scanTimeIndex == (|history| + 1) % SCAN_TIME_COUNT == SlotOf(|history|)
      ensures scanTime[..] == old(scanTime[..])[scanTimeIndex := tnow]
    {
      scanTimeIndex := scanTimeIndex + 1;
      if scanTimeIndex >= SCAN_TIME_COUNT {
        scanTimeIndex := 0;
      }
      scanTime[scanTimeIndex] := tnow;
    }

    /** Check for changes between the previous scan and this one. */
    method MarkEdges(newState: seq<bv8>)
      requires |newState| == KEYBOARD_COLS && Shaped()
      modifies prevState, debouncing, scanEdgeIndex
      ensures Shaped()
      ensures forall c, i :: 0 <= c < KEYBOARD_COLS && 0 <= i < KEYBOARD_ROWS ==>
                KeyAt(c, i) == MarkEdge(old(KeyAt(c, i)), Bit(newState[c], i), scanTimeIndex)
    {
      for c := 0 to KEYBOARD_COLS
        invariant Shaped()
        invariant forall d, i :: 0 <= d < c && 0 <= i < KEYBOARD_ROWS ==>
                    KeyAt(d, i) == MarkEdge(old(KeyAt(d, i)), Bit(newState[d], i), scanTimeIndex)
        invariant forall d, i :: c <= d < KEYBOARD_COLS && 0 <= i < KEYBOARD_ROWS ==> KeyAt(d, i) == old(KeyAt(d, i))
      {
        debouncing[c], scanEdgeIndex[c] := MarkColumn(newState[c], prevState[c], debouncing[c], scanEdgeIndex[c],
                                                      scanTimeIndex, debouncedState[c]);
        prevState[c] := newState[c];
      }
    }

    /** Check for keys which are done debouncing. */
    method SettleKeys(newState: seq<bv8>, tnow: Word)
      requires |newState| == KEYBOARD_COLS && Shaped()
      requires forall c, i :: 0 <= c < KEYBOARD_COLS && 0 <= i < KEYBOARD_ROWS ==> KeyAt(c, i).edge < SCAN_TIME_COUNT
      modifies debouncedState, debouncing
      ensures Shaped()
      ensures forall c, i :: 0 <= c < KEYBOARD_COLS && 0 <= i < KEYBOARD_ROWS ==>
                KeyAt(c, i) == Settle(old(KeyAt(c, i)), Bit(newState[c], i), tnow, scanTime[..], cfg)
    {
      for c := 0 to KEYBOARD_COLS
        invariant forall d, i :: 0 <= d < c && 0 <= i < KEYBOARD_ROWS ==>
                    KeyAt(d, i) == Settle(old(KeyAt(d, i)), Bit(newState[d], i), tnow, scanTime[..], cfg)
        invariant forall d, i :: c <= d < KEYBOARD_COLS && 0 <= i < KEYBOARD_ROWS ==> KeyAt(d, i) == old(KeyAt(d, i))
      {
        forall i | 0 <= i < KEYBOARD_ROWS ensures scanEdgeIndex[c][i] < SCAN_TIME_COUNT {
          assert old(KeyAt(c, i)).edge == scanEdgeIndex[c][i];
        }
        debouncedState[c], debouncing[c] := SettleColumn(newState[c], debouncedState[c], debouncing[c], scanEdgeIndex[c],
                                                         tnow, scanTime[..], cfg, prevState[c]);
      }
    }
  }
}
