/** Hook dispatch in priority order (common/hooks.c). */
module Hooks {

  const HOOK_PRIO_FIRST := 1
  const HOOK_PRIO_LAST := 9999

  // ----- hook_notify -----

  /** A table of hooks, by priority; a routine is its index in the table. */
  type Table = seq<int>

  /** Every priority is one the search for the lowest remaining priority can come to. */
  predicate Reachable(prio: Table) {
    forall k :: 0 <= k < |prio| ==> HOOK_PRIO_FIRST <= prio[k] <= HOOK_PRIO_LAST + 1
  }

  /** Routine a comes before routine b: lower priority value first, table order among equals. */
  predicate Before(prio: Table, a: nat, b: nat)
    requires a < |prio| && b < |prio|
  {
    prio[a] < prio[b] || (prio[a] == prio[b] && a < b)
  }

  ghost predicate InOrder(prio: Table, calls: seq<nat>) {
    && (forall k :: 0 <= k < |calls| ==> calls[k] < |prio|)
    && forall j, k :: 0 <= j < k < |calls| ==> Before(prio, calls[j], calls[k])
  }

  /** calls is the stable sort of the table by priority, each routine once. */
  ghost predicate StableOrder(prio: Table, calls: seq<nat>) {
    && InOrder(prio, calls)
    && (forall r: nat {:trigger r in calls} :: r < |prio| ==> r in calls)
  }

  /** The lowest priority above last among the first n entries, and not above the end of the range. */
  function Lowest(prio: Table, last: int, n: nat): (p: int)
    requires n <= |prio|
    ensures p <= HOOK_PRIO_LAST + 1 && (last <= HOOK_PRIO_LAST ==> last < p)
    ensures forall k :: 0 <= k < n && last < prio[k] <= HOOK_PRIO_LAST ==> p <= prio[k]
    ensures p <= HOOK_PRIO_LAST ==> exists k :: 0 <= k < n && prio[k] == p > last
  {
    if n == 0 then HOOK_PRIO_LAST + 1
    else
      var p := Lowest(prio, last, n - 1);
      if prio[n - 1] < p && prio[n - 1] > last then prio[n - 1] else p
  }

  /** The routines with priority p among the first n, in table order. */
  function WithPriority(prio: Table, p: int, n: nat): (calls: seq<nat>)
    requires n <= |prio|
    ensures forall k :: 0 <= k < |calls| ==> calls[k] < n && prio[calls[k]] == p
    ensures forall j, k :: 0 <= j < k < |calls| ==> calls[j] < calls[k]
    ensures forall r: nat {:trigger r in calls} :: r < n && prio[r] == p ==> r in calls
  {
    if n == 0 then []
    else if prio[n - 1] == p then WithPriority(prio, p, n - 1) + [n - 1]
    else WithPriority(prio, p, n - 1)
  }

  /** The loop's variables: the routines called so far and the priority they were called for last. */
  datatype Progress = Progress(calls: seq<nat>, lastPrio: int)

  /** One round of the loop. */
  function Round(prio: Table, s: Progress): Progress {
    var p := Lowest(prio, s.lastPrio, |prio|);
    Progress(s.calls + WithPriority(prio, p, |prio|), p)
  }

  /** n rounds of the loop, whether or not it would have ended before. */
  function Rounds(prio: Table, n: nat): Progress {
    if n == 0 then Progress([], HOOK_PRIO_FIRST - 1) else Round(prio, Rounds(prio, n - 1))
  }

  /** The loop ends after exactly n rounds. */
  ghost predicate EndsAfter(prio: Table, n: nat) {
    |Rounds(prio, n).calls| >= |prio| && forall m: nat :: m < n ==> |Rounds(prio, m).calls| < |prio|
  }

  // ----- what holds after every number of rounds -----

  /**
   * The routines called are exactly those with a priority in range up to the last one, in order; only those at the end
   * of the range may have been called again.
   */
  ghost predicate Called(prio: Table, s: Progress) {
    && HOOK_PRIO_FIRST - 1 <= s.lastPrio <= HOOK_PRIO_LAST + 1
    && (forall k :: 0 <= k < |s.calls| ==>
          s.calls[k] < |prio| && HOOK_PRIO_FIRST <= prio[s.calls[k]] <= s.lastPrio)
    && (forall r: nat {:trigger r in s.calls} :: r < |prio| && HOOK_PRIO_FIRST <= prio[r] <= s.lastPrio ==> r in s.calls)
    && (forall j, k :: 0 <= j < k < |s.calls| ==>
          Before(prio, s.calls[j], s.calls[k]) || prio[s.calls[j]] == prio[s.calls[k]] == HOOK_PRIO_LAST + 1)
  }

  /** A round extends the order; the first round for the end of the range calls nothing again either. */
  lemma RoundKeepsCalled(prio: Table, s: Progress)
    requires Called(prio, s)
    ensures Called(prio, Round(prio, s))
    ensures s.lastPrio <= HOOK_PRIO_LAST ==> InOrder(prio, Round(prio, s).calls) && s.lastPrio < Round(prio, s).lastPrio
  {
    var p := Lowest(prio, s.lastPrio, |prio|);
    var more := WithPriority(prio, p, |prio|);
    forall r: nat | r < |prio| && HOOK_PRIO_FIRST <= prio[r] <= p ensures r in s.calls || r in more {
      if s.lastPrio < prio[r] { assert prio[r] == p; }
    }
    forall j, k | 0 <= j < k < |s.calls + more|
      ensures var a, b := (s.calls + more)[j], (s.calls + more)[k];
              || Before(prio, a, b)
              || (s.lastPrio == HOOK_PRIO_LAST + 1 && prio[a] == prio[b] == HOOK_PRIO_LAST + 1)
    {
      if j >= |s.calls| {
        assert more[j - |s.calls|] < more[k - |s.calls|];
      }
    }
  }

  lemma {:induction false} AlwaysCalled(prio: Table, n: nat)
    ensures Called(prio, Rounds(prio, n))
  {
    if n > 0 {
      AlwaysCalled(prio, n - 1);
      RoundKeepsCalled(prio, Rounds(prio, n - 1));
    }
  }

  // ----- counting calls -----

  ghost function Elements(calls: seq<nat>): set<nat> { set c | c in calls }

  /** A sequence has as many elements as its length exactly when none is repeated. */
  lemma {:induction false} CountElements(calls: seq<nat>)
    ensures |Elements(calls)| <= |calls|
    ensures |Elements(calls)| == |calls| <==> forall j, k :: 0 <= j < k < |calls| ==> calls[j] != calls[k]
  {
    if calls != [] {
      var n := |calls| - 1;
      CountElements(calls[..n]);
      assert Elements(calls) == Elements(calls[..n]) + {calls[n]};
      assert calls[n] in calls[..n] ==> exists j :: 0 <= j < n && calls[j] == calls[n];
      assert forall k :: 0 <= k < n ==> calls[..n][k] == calls[k] && calls[k] in calls[..n];
    }
  }

  lemma {:induction false} SubsetSize(a: set<nat>, b: set<nat>)
    requires a <= b
    ensures |a| <= |b| && (|a| == |b| ==> a == b)
  {
    if a != {} {
      var x :| x in a;
      SubsetSize(a - {x}, b - {x});
    }
  }

  /** The numbers below n. */
  ghost function UpTo(n: nat): (s: set<nat>)
    ensures |s| == n && forall r: nat :: r in s <==> r < n
  {
    if n == 0 then {} else UpTo(n - 1) + {n - 1}
  }

  /** Calls in order are at most as many as there are routines, and as many exactly when each is called. */
  lemma OrderedCalls(prio: Table, calls: seq<nat>)
    requires InOrder(prio, calls)
    ensures |calls| <= |prio|
    ensures |calls| == |prio| <==> forall r: nat :: r < |prio| ==> r in calls
  {
    CountElements(calls);
    SubsetSize(Elements(calls), UpTo(|prio|));
    if forall r: nat :: r < |prio| ==> r in calls {
      SubsetSize(UpTo(|prio|), Elements(calls));
    }
    if |calls| == |prio| {
      forall r: nat | r < |prio| ensures r in calls { assert r in UpTo(|prio|); }
    }
  }

  /** As many calls as routines, and one routine not called: another one was called twice. */
  lemma SomeCalledTwice(prio: Table, calls: seq<nat>, r: nat) returns (j: nat, k: nat)
    requires |calls| >= |prio| && r < |prio| && r !in calls
    requires forall i :: 0 <= i < |calls| ==> calls[i] < |prio|
    ensures j < k < |calls| && calls[j] == calls[k]
  {
    CountElements(calls);
    assert r in UpTo(|prio|) && r !in Elements(calls);
    SubsetSize(Elements(calls), UpTo(|prio|));
    j, k :| 0 <= j < k < |calls| && calls[j] == calls[k];
  }

  // ----- when the loop ends, and with what -----

  /** Each round goes up in priority until the end of the range. */
  lemma {:induction false} PriorityGrows(prio: Table, n: nat)
    ensures n <= Rounds(prio, n).lastPrio <= HOOK_PRIO_LAST + 1 || Rounds(prio, n).lastPrio == HOOK_PRIO_LAST + 1
  {
    if n > 0 {
      PriorityGrows(prio, n - 1);
      AlwaysCalled(prio, n - 1);
    }
  }

  /** At the end of the range, each round calls the routines there again. */
  lemma {:induction false} CallsGrow(prio: Table, m: nat, n: nat, r: nat)
    requires r < |prio| && prio[r] == Rounds(prio, m).lastPrio == HOOK_PRIO_LAST + 1
    ensures Rounds(prio, m + n).lastPrio == HOOK_PRIO_LAST + 1 && |Rounds(prio, m + n).calls| >= n
  {
    if n > 0 {
      CallsGrow(prio, m, n - 1, r);
      EndStays(prio, Rounds(prio, m + n - 1), r);
    }
  }

  lemma EndStays(prio: Table, s: Progress, r: nat)
    requires r < |prio| && prio[r] == s.lastPrio == HOOK_PRIO_LAST + 1
    ensures Round(prio, s).lastPrio == HOOK_PRIO_LAST + 1 && |Round(prio, s).calls| > |s.calls|
  {
    assert r in WithPriority(prio, HOOK_PRIO_LAST + 1, |prio|);
  }

  lemma {:induction false} InOrderBelowEnd(prio: Table, n: nat)
    requires n > 0 && Rounds(prio, n - 1).lastPrio <= HOOK_PRIO_LAST
    ensures InOrder(prio, Rounds(prio, n).calls)
  {
    AlwaysCalled(prio, n - 1);
    RoundKeepsCalled(prio, Rounds(prio, n - 1));
  }

  /** In a reachable table, the first round for the end of the range has called everything. */
  lemma {:induction false} AllCalledAtEnd(prio: Table, n: nat)
    requires Reachable(prio) && Rounds(prio, n).lastPrio == HOOK_PRIO_LAST + 1
    ensures |Rounds(prio, n).calls| >= |prio|
  {
    AlwaysCalled(prio, n - 1);
    if Rounds(prio, n - 1).lastPrio == HOOK_PRIO_LAST + 1 {
      AllCalledAtEnd(prio, n - 1);
    } else {
      InOrderBelowEnd(prio, n);
      AlwaysCalled(prio, n);
      OrderedCalls(prio, Rounds(prio, n).calls);
    }
  }

  lemma {:induction false} FirstEnd(prio: Table, n: nat) returns (m: nat)
    requires |Rounds(prio, n).calls| >= |prio|
    ensures m <= n && EndsAfter(prio, m)
    decreases n
  {
    if k: nat :| k < n && |Rounds(prio, k).calls| >= |prio| {
      m := FirstEnd(prio, k);
    } else {
      m := n;
    }
  }

  /** The loop ends exactly when every priority can be reached or there is a routine at the end of the range. */
  lemma {:induction false} EndsExactly(prio: Table)
    ensures (exists n :: EndsAfter(prio, n)) <==> Reachable(prio) || HOOK_PRIO_LAST + 1 in prio
  {
    if Reachable(prio) || HOOK_PRIO_LAST + 1 in prio {
      var n := EnoughRounds(prio, HOOK_PRIO_LAST + 1);
      var m := FirstEnd(prio, n);
      assert EndsAfter(prio, m);
    } else {
      forall n ensures !EndsAfter(prio, n) {
        NeverEnough(prio, n);
      }
    }
  }

  lemma {:induction false} EnoughRounds(prio: Table, end: nat) returns (n: nat)
    requires end == HOOK_PRIO_LAST + 1 && (Reachable(prio) || end in prio)
    ensures |Rounds(prio, n).calls| >= |prio|
  {
    PriorityGrows(prio, end);
    if r: nat :| r < |prio| && prio[r] == end {
      CallsGrow(prio, end, |prio|, r);
      n := end + |prio|;
    } else {
      AllCalledAtEnd(prio, end);
      n := end;
    }
  }

  /** With an unreachable routine and none at the end of the range, the calls are never as many as the routines. */
  lemma NeverEnough(prio: Table, n: nat)
    requires !Reachable(prio) && HOOK_PRIO_LAST + 1 !in prio
    ensures |Rounds(prio, n).calls| < |prio|
  {
    AlwaysCalled(prio, n);
    var calls := Rounds(prio, n).calls;
    var r: nat :| r < |prio| && !(HOOK_PRIO_FIRST <= prio[r] <= HOOK_PRIO_LAST + 1);
    assert r !in calls;
    if |calls| >= |prio| {
      var _, _ := SomeCalledTwice(prio, calls, r);
    }
  }

  lemma {:induction false} NoneThere(prio: Table, p: int, n: nat)
    requires p !in prio && n <= |prio|
    ensures WithPriority(prio, p, n) == []
  {
    if n > 0 { NoneThere(prio, p, n - 1); }
  }

  /** Then, once the end of the range is reached, no round calls anything any more. */
  lemma NoFurtherCall(prio: Table, n: nat)
    requires HOOK_PRIO_LAST + 1 !in prio && n >= HOOK_PRIO_LAST + 1
    ensures Rounds(prio, n + 1) == Rounds(prio, n)
  {
    PriorityGrows(prio, n);
    AlwaysCalled(prio, n);
    PriorityGrows(prio, n + 1);
    AlwaysCalled(prio, n + 1);
    NoneThere(prio, HOOK_PRIO_LAST + 1, |prio|);
  }

  lemma {:induction false} EndInOrder(prio: Table, n: nat)
    requires EndsAfter(prio, n) && Reachable(prio)
    ensures StableOrder(prio, Rounds(prio, n).calls) && |Rounds(prio, n).calls| == |prio|
  {
    if n > 0 {
      if Rounds(prio, n - 1).lastPrio == HOOK_PRIO_LAST + 1 { AllCalledAtEnd(prio, n - 1); }
      InOrderBelowEnd(prio, n);
      OrderedCalls(prio, Rounds(prio, n).calls);
    }
  }

  /** A loop that has ended has called each routine once in stable order exactly when every priority can be reached. */
  lemma StableExactly(prio: Table, n: nat)
    requires EndsAfter(prio, n)
    ensures StableOrder(prio, Rounds(prio, n).calls) <==> Reachable(prio)
    ensures Reachable(prio) ==> |Rounds(prio, n).calls| == |prio|
  {
    if Reachable(prio) {
      EndInOrder(prio, n);
    } else {
      var _, _, r := CalledTwiceAndNever(prio, n);
      assert r !in Rounds(prio, n).calls;
    }
  }

  /** Otherwise it has called a routine at the end of the range twice, and an unreachable one never. */
  lemma CalledTwiceAndNever(prio: Table, n: nat) returns (j: nat, k: nat, r: nat)
    requires EndsAfter(prio, n) && !Reachable(prio)
    ensures var calls := Rounds(prio, n).calls;
            && j < k < |calls| && calls[j] == calls[k] < |prio| && prio[calls[j]] == HOOK_PRIO_LAST + 1
            && r < |prio| && r !in calls
  {
    AlwaysCalled(prio, n);
    r :| r < |prio| && !(HOOK_PRIO_FIRST <= prio[r] <= HOOK_PRIO_LAST + 1);
    j, k := SomeCalledTwice(prio, Rounds(prio, n).calls, r);
  }

  /** The smallest such table: routine 0 is called twice and routine 1 not at all. */
  lemma {:induction false} CalledTwiceExample(prio: Table)
    requires prio == [HOOK_PRIO_LAST + 1, 0]
    ensures EndsAfter(prio, 2) && Rounds(prio, 2).calls == [0, 0]
  {
    OnlyTheEnd(prio, [], 0);
    OnlyTheEnd(prio, [0], HOOK_PRIO_LAST + 1);
    TwoRounds(prio, 0);
  }

  lemma {:induction false} TwoRounds(prio: Table, n: nat)
    ensures Rounds(prio, n + 1) == Round(prio, Rounds(prio, n))
    ensures Rounds(prio, n + 2) == Round(prio, Rounds(prio, n + 1))
  {
  }

  lemma {:induction false} OnlyTheEnd(prio: Table, calls: seq<nat>, last: int)
    requires prio == [HOOK_PRIO_LAST + 1, 0] && last >= 0
    ensures Round(prio, Progress(calls, last)) == Progress(calls + [0], HOOK_PRIO_LAST + 1)
  {
    assert Lowest(prio, last, 1) == Lowest(prio, last, 0) == HOOK_PRIO_LAST + 1;
    assert WithPriority(prio, HOOK_PRIO_LAST + 1, 1) == [0];
  }

  /** Call all the hooks in priority order. */
  method HookNotify(prio: Table) returns (calls: seq<nat>)
    requires Reachable(prio) || HOOK_PRIO_LAST + 1 in prio
    ensures exists n :: EndsAfter(prio, n) && calls == Rounds(prio, n).calls
    ensures StableOrder(prio, calls) <==> Reachable(prio)
    ensures Reachable(prio) ==> |calls| == |prio|
  {
    EndsExactly(prio);
    ghost var end: nat :| EndsAfter(prio, end);
    ghost var n: nat := 0;
    var lastPrio := HOOK_PRIO_FIRST - 1;
    calls := [];
    while |calls| < |prio|
      invariant n <= end && Progress(calls, lastPrio) == Rounds(prio, n)
      decreases end - n
    {
      lastPrio := LowestAbove(prio, lastPrio);
      calls := CallPriority(prio, calls, lastPrio);
      n := n + 1;
      assert Rounds(prio, n) == Round(prio, Rounds(prio, n - 1));
    }
    StableExactly(prio, end);
  }

  /** Find the lowest remaining priority. */
  method LowestAbove(prio: Table, last: int) returns (p: int)
    ensures p == Lowest(prio, last, |prio|)
    ensures forall k :: 0 <= k < |prio| && last < prio[k] <= HOOK_PRIO_LAST ==> p <= prio[k]
    ensures p <= HOOK_PRIO_LAST ==> exists k :: 0 <= k < |prio| && prio[k] == p > last
  {
    p := HOOK_PRIO_LAST + 1;
    for k := 0 to |prio|
      invariant p == Lowest(prio, last, k)
    {
      if prio[k] < p && prio[k] > last {
        p := prio[k];
      }
    }
  }

  /** Call all the hooks with that priority. */
  method CallPriority(prio: Table, before: seq<nat>, p: int) returns (calls: seq<nat>)
    ensures calls == before + WithPriority(prio, p, |prio|)
  {
    calls := before;
    for r := 0 to |prio|
      invariant calls == before + WithPriority(prio, p, r)
    {
      if prio[r] == p {
        calls := calls + [r];
      }
    }
  }

  /** The stable order is unique, so the calls are determined by the table alone. */
  lemma {:induction false} StableOrderIsUnique(prio: Table, a: seq<nat>, b: seq<nat>)
    requires StableOrder(prio, a) && StableOrder(prio, b)
    ensures a == b
  {
    OrderedCalls(prio, a);
    OrderedCalls(prio, b);
    forall k | 0 <= k < |a| ensures a[k] == b[k] {
      SamePrefix(prio, a, b, k + 1);
      assert a[..k + 1][k] == a[k] && b[..k + 1][k] == b[k];
    }
  }

  lemma {:induction false} SamePrefix(prio: Table, a: seq<nat>, b: seq<nat>, n: nat)
    requires StableOrder(prio, a) && StableOrder(prio, b) && n <= |a| == |b|
    ensures a[..n] == b[..n]
  {
    if n > 0 {
      var m := n - 1;
      SamePrefix(prio, a, b, m);
      assert forall j :: 0 <= j < m ==> a[..m][j] == b[..m][j];
      assert a[m] in b && b[m] in a;
      var i :| 0 <= i < |b| && b[i] == a[m];
      var j :| 0 <= j < |a| && a[j] == b[m];
      assert i >= m && j >= m;
      assert a[m] == b[m];
    }
  }
}
