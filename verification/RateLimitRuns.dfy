/** What the limiter promises over whole runs of calls, evictions included. */
module RateLimitRuns {
  import opened Order
  import opened RateLimit

  datatype Call = Call(key: Key, time: real)

  datatype Limits = Limits(capacity: real, credit: Credit)

  ghost predicate Chronological(calls: seq<Call>) {
    forall i, j | 0 <= i <= j < |calls| :: calls[i].time <= calls[j].time
  }

  /** The table after the first n calls, from an empty one. */
  function After(limits: Limits, calls: seq<Call>, n: nat): Table
    requires n <= |calls|
  {
    if n == 0 then Table([], map[])
    else Step(limits.capacity, limits.credit, After(limits, calls, n - 1), calls[n - 1].key, calls[n - 1].time).0
  }

  predicate Allowed(limits: Limits, calls: seq<Call>, n: nat)
    requires n < |calls|
  {
    Step(limits.capacity, limits.credit, After(limits, calls, n), calls[n].key, calls[n].time).1
  }

  /** How many calls of a key were allowed among calls i to j - 1. */
  function AllowedCount(limits: Limits, calls: seq<Call>, k: Key, i: nat, j: nat): nat
    requires i <= j <= |calls|
    decreases j
  {
    if i == j then 0
    else AllowedCount(limits, calls, k, i, j - 1) +
         if calls[j - 1].key == k && Allowed(limits, calls, j - 1) then 1 else 0
  }

  /** The other keys called after call i and before call n. */
  function Others(calls: seq<Call>, k: Key, i: nat, n: nat): set<Key>
    requires n <= |calls|
  {
    set m | i < m < n && calls[m].key != k :: calls[m].key
  }

  lemma {:induction false} AfterValid(limits: Limits, calls: seq<Call>, n: nat)
    requires n <= |calls|
    ensures ValidTable(After(limits, calls, n))
  {
    if n > 0 {
      AfterValid(limits, calls, n - 1);
      StepKeepsTable(limits.capacity, limits.credit, After(limits, calls, n - 1), calls[n - 1].key, calls[n - 1].time);
    }
  }

  // ---------------------------------------------------------------- eviction

  /** A key stands here in the order with only these keys behind it. */
  ghost predicate BehindAt(order: seq<Key>, p: nat, k: Key, others: set<Key>) {
    p < |order| && order[p] == k && forall m | p < m < |order| :: order[m] in others
  }

  ghost predicate Behind(order: seq<Key>, k: Key, others: set<Key>) {
    exists p :: BehindAt(order, p, k, others)
  }

  lemma {:induction false} DistinctFit(s: seq<Key>, all: set<Key>)
    requires NoDuplicates(s) && forall m | 0 <= m < |s| :: s[m] in all
    ensures |s| <= |all|
  {
    if s != [] {
      var last := s[|s| - 1];
      DistinctFit(s[..|s| - 1], all - {last});
    }
  }

  lemma DroppedAt(order: seq<Key>, i: nat, c: Key, p: nat, k: Key, others: set<Key>) returns (q: nat)
    requires i < |order| && i != p && BehindAt(order, p, k, others)
    ensures BehindAt(order[..i] + order[i + 1..] + [c], q, k, others + {c})
  {
    var wide := order[..i] + order[i + 1..] + [c];
    q := if i < p then p - 1 else p;
    assert wide[q] == k;
    forall m | q < m < |wide| ensures wide[m] in others + {c} {
      if m < |wide| - 1 {
        assert wide[m] == if m < i then order[m] else order[m + 1];
      }
    }
  }

  /** A call of another key moves the key towards eviction by at most that key. */
  lemma MovedBehind(order: seq<Key>, c: Key, p: nat, k: Key, others: set<Key>) returns (q: nat)
    requires BehindAt(order, p, k, others) && c != k
    ensures BehindAt(Recent(order, c), q, k, others + {c})
  {
    if c in order {
      q := DroppedAt(order, Position(order, c), c, p, k, others);
    } else {
      q := p;
    }
  }

  /** While fewer keys than the bound stand behind a key, it is not the one evicted. */
  lemma StepKeepsBehind(limits: Limits, t: Table, c: Key, now: real, k: Key, others: set<Key>)
    requires ValidTable(t) && Behind(t.order, k, others) && c != k
    requires |others + {c}| < MAX_TRACKED_KEYS
    ensures var after := Step(limits.capacity, limits.credit, t, c, now).0;
            Behind(after.order, k, others + {c}) &&
            k in t.cells && k in after.cells && after.cells[k] == t.cells[k]
  {
    ListsMeans(t.order, t.cells.Keys);
    DroppedOrder(t.order, c);
    var at :| BehindAt(t.order, at, k, others);
    var p := MovedBehind(t.order, c, at, k, others);
    var wide := Recent(t.order, c);
    if |wide| > MAX_TRACKED_KEYS {
      if p == 0 {
        DistinctFit(wide[1..], others + {c});
        assert false;
      }
      assert BehindAt(wide[1..], p - 1, k, others + {c});
      assert wide[0] != wide[p];
    }
  }

  ghost predicate Holds(t: Table, k: Key, others: set<Key>) {
    k in t.cells && Behind(t.order, k, others)
  }

  /** The key is tracked after n calls, with only keys called since call i behind it. */
  ghost predicate Tracking(limits: Limits, calls: seq<Call>, k: Key, i: nat, n: nat)
    requires n <= |calls|
  {
    Holds(After(limits, calls, n), k, Others(calls, k, i, n))
  }

  lemma CalledIsTracked(limits: Limits, calls: seq<Call>, i: nat, n: nat)
    requires n < |calls|
    ensures Tracking(limits, calls, calls[n].key, i, n + 1)
  {
    AfterValid(limits, calls, n);
    var before, after := After(limits, calls, n), After(limits, calls, n + 1);
    StepKeepsTable(limits.capacity, limits.credit, before, calls[n].key, calls[n].time);
    assert BehindAt(after.order, |after.order| - 1, calls[n].key, Others(calls, calls[n].key, i, n + 1));
  }

  lemma OtherStillTracked(limits: Limits, calls: seq<Call>, k: Key, i: nat, n: nat)
    requires i < n < |calls| && calls[n].key != k && Tracking(limits, calls, k, i, n)
    requires |Others(calls, k, i, n + 1)| < MAX_TRACKED_KEYS
    ensures Tracking(limits, calls, k, i, n + 1)
    ensures After(limits, calls, n + 1).cells[k] == After(limits, calls, n).cells[k]
  {
    AfterValid(limits, calls, n);
    OthersGrow(calls, k, i, n);
    StepKeepsBehind(limits, After(limits, calls, n), calls[n].key, calls[n].time, k, Others(calls, k, i, n));
  }

  /** A key survives until at least as many distinct other keys as the bound have been called since. */
  lemma {:induction false} KeySurvives(limits: Limits, calls: seq<Call>, k: Key, i: nat, n: nat)
    requires i < n <= |calls| && calls[i].key == k
    requires |Others(calls, k, i, n)| < MAX_TRACKED_KEYS
    ensures Tracking(limits, calls, k, i, n)
    decreases n
  {
    hide Tracking, Others, After;
    var m := n - 1;
    if calls[m].key == k {
      CalledIsTracked(limits, calls, i, m);
    } else {
      FewerOthers(calls, k, i, m);
      KeySurvives(limits, calls, k, i, m);
      OtherStillTracked(limits, calls, k, i, m);
    }
  }

  lemma OthersGrow(calls: seq<Call>, k: Key, i: nat, n: nat)
    requires i < n < |calls|
    ensures Others(calls, k, i, n + 1) ==
              Others(calls, k, i, n) + if calls[n].key != k then {calls[n].key} else {}
  {}

  lemma FewerOthers(calls: seq<Call>, k: Key, i: nat, n: nat)
    requires i < n < |calls|
    ensures |Others(calls, k, i, n)| <= |Others(calls, k, i, n + 1)|
  {
    var small, large := Others(calls, k, i, n), Others(calls, k, i, n + 1);
    assert large == small + (large - small);
  }

  // ---------------------------------------------------------------- what a cell holds

  /** A cell is never in debt, and its clock is that of an earlier call of its key. */
  ghost predicate Sane(calls: seq<Call>, n: nat, k: Key, cell: Cell)
    requires n <= |calls|
  {
    0.0 <= cell.tokens && exists m :: 0 <= m < n && calls[m].key == k && calls[m].time == cell.lastCheck
  }

  ghost predicate Monotone(credit: Credit) {
    forall s, t | s <= t :: credit(s) <= credit(t)
  }

  ghost predicate GoodLimits(limits: Limits) {
    0.0 <= limits.capacity && Monotone(limits.credit)
  }

  /** A call touches the cell of its own key only. */
  lemma StepCells(limits: Limits, t: Table, c: Key, now: real, k: Key)
    requires k in Step(limits.capacity, limits.credit, t, c, now).0.cells
    ensures var after := Step(limits.capacity, limits.credit, t, c, now).0;
            if k == c then
              after.cells[k] == Called(limits.capacity, limits.credit,
                                       if c in t.cells then t.cells[c] else Fresh(limits.capacity, now), now).0
            else k in t.cells && after.cells[k] == t.cells[k]
  {}

  lemma {:induction false} AfterSane(limits: Limits, calls: seq<Call>, n: nat, k: Key)
    requires GoodLimits(limits) && Chronological(calls) && n <= |calls|
    requires k in After(limits, calls, n).cells
    ensures Sane(calls, n, k, After(limits, calls, n).cells[k])
    decreases n
  {
    var m := n - 1;
    StepCells(limits, After(limits, calls, m), calls[m].key, calls[m].time, k);
    if k in After(limits, calls, m).cells {
      AfterSane(limits, calls, m, k);
    }
    StepSane(limits, calls, m, k);
  }

  lemma StepSane(limits: Limits, calls: seq<Call>, n: nat, k: Key)
    requires GoodLimits(limits) && Chronological(calls) && n < |calls|
    requires k in After(limits, calls, n + 1).cells
    requires k in After(limits, calls, n).cells ==> Sane(calls, n, k, After(limits, calls, n).cells[k])
    ensures Sane(calls, n + 1, k, After(limits, calls, n + 1).cells[k])
  {
    StepCells(limits, After(limits, calls, n), calls[n].key, calls[n].time, k);
  }

  /** What a call does to its own cell: a token is spent exactly when it is allowed. */
  lemma OwnCall(limits: Limits, calls: seq<Call>, m: nat)
    requires GoodLimits(limits) && Chronological(calls) && m < |calls|
    ensures var k, before, after := calls[m].key, After(limits, calls, m), After(limits, calls, m + 1);
            && k in after.cells && after.cells[k].lastCheck == calls[m].time
            && after.cells[k].tokens + (if Allowed(limits, calls, m) then 1.0 else 0.0) <= limits.capacity
            && (k in before.cells ==>
                  && before.cells[k].lastCheck <= calls[m].time
                  && after.cells[k].tokens + (if Allowed(limits, calls, m) then 1.0 else 0.0)
                     <= before.cells[k].tokens + limits.credit(calls[m].time)
                        - limits.credit(before.cells[k].lastCheck))
  {
    var k, before := calls[m].key, After(limits, calls, m);
    AfterValid(limits, calls, m);
    StepKeepsTable(limits.capacity, limits.credit, before, k, calls[m].time);
    StepCells(limits, before, k, calls[m].time, k);
    if k in before.cells {
      AfterSane(limits, calls, m, k);
    }
  }

  // ---------------------------------------------------------------- the two promises

  /** Held and spent tokens are within the capacity and what has flowed in since a start time. */
  predicate Within(limits: Limits, start: real, now: real, tokens: real, spent: nat) {
    start <= now && tokens + spent as real <= limits.capacity + limits.credit(now) - limits.credit(start)
  }

  lemma WithinStart(limits: Limits, start: real, tokens: real, spent: nat)
    requires tokens + spent as real <= limits.capacity
    ensures Within(limits, start, start, tokens, spent)
  {}

  lemma WithinLater(limits: Limits, start: real, last: real, now: real, tokens: real, spent: nat)
    requires Within(limits, start, last, tokens, spent) && last <= now && 0.0 <= tokens && Monotone(limits.credit)
    ensures spent as real <= limits.capacity + limits.credit(now) - limits.credit(start)
  {}

  /** The window invariant of a key that is not evicted. */
  ghost predicate Conserved(limits: Limits, calls: seq<Call>, k: Key, i: nat, n: nat)
    requires i < n <= |calls|
  {
    && k in After(limits, calls, n).cells
    && var cell := After(limits, calls, n).cells[k];
       Within(limits, calls[i].time, cell.lastCheck, cell.tokens, AllowedCount(limits, calls, k, i, n))
  }

  lemma ConservedStart(limits: Limits, calls: seq<Call>, i: nat)
    requires GoodLimits(limits) && Chronological(calls) && i < |calls|
    ensures Conserved(limits, calls, calls[i].key, i, i + 1)
  {
    OwnCall(limits, calls, i);
    var k := calls[i].key;
    assert AllowedCount(limits, calls, k, i, i) == 0;
    var cell := After(limits, calls, i + 1).cells[k];
    WithinStart(limits, calls[i].time, cell.tokens, AllowedCount(limits, calls, k, i, i + 1));
  }

  lemma ConservedOwn(limits: Limits, calls: seq<Call>, i: nat, n: nat)
    requires GoodLimits(limits) && Chronological(calls) && i < n < |calls|
    requires Conserved(limits, calls, calls[n].key, i, n)
    ensures Conserved(limits, calls, calls[n].key, i, n + 1)
  {
    OwnCall(limits, calls, n);
    var k := calls[n].key;
    var before, after := After(limits, calls, n).cells[k], After(limits, calls, n + 1).cells[k];
    var spent, more: nat := AllowedCount(limits, calls, k, i, n), if Allowed(limits, calls, n) then 1 else 0;
  }

  lemma ConservedOther(limits: Limits, calls: seq<Call>, k: Key, i: nat, n: nat)
    requires i < n < |calls| && calls[n].key != k && k in After(limits, calls, n + 1).cells
    requires Conserved(limits, calls, k, i, n)
    ensures Conserved(limits, calls, k, i, n + 1)
  {
    StepCells(limits, After(limits, calls, n), calls[n].key, calls[n].time, k);
  }

  /** The key is in the table after each of the calls i to n - 1: it is not evicted meanwhile. */
  ghost predicate NotEvicted(limits: Limits, calls: seq<Call>, k: Key, i: nat, n: nat)
    requires n <= |calls|
  {
    forall m | i < m <= n :: k in After(limits, calls, m).cells
  }

  lemma {:induction false} WindowConserves(limits: Limits, calls: seq<Call>, k: Key, i: nat, n: nat)
    requires GoodLimits(limits) && Chronological(calls)
    requires i < n <= |calls| && calls[i].key == k && NotEvicted(limits, calls, k, i, n)
    ensures Conserved(limits, calls, k, i, n)
    decreases n
  {
    hide Conserved, After, Chronological, GoodLimits;
    var m := n - 1;
    if m == i {
      ConservedStart(limits, calls, i);
    } else {
      WindowConserves(limits, calls, k, i, m);
      if calls[m].key == k {
        ConservedOwn(limits, calls, i, m);
      } else {
        ConservedOther(limits, calls, k, i, m);
      }
    }
  }

  lemma CreditBound(limits: Limits, calls: seq<Call>, k: Key, i: nat, j: nat)
    requires GoodLimits(limits) && Chronological(calls)
    requires i <= j < |calls| && calls[i].key == k && NotEvicted(limits, calls, k, i, j + 1)
    ensures AllowedCount(limits, calls, k, i, j + 1) as real
         <= limits.capacity + limits.credit(calls[j].time) - limits.credit(calls[i].time)
  {
    WindowConserves(limits, calls, k, i, j + 1);
    AfterSane(limits, calls, j + 1, k);
    var cell := After(limits, calls, j + 1).cells[k];
    WithinLater(limits, calls[i].time, cell.lastCheck, calls[j].time, cell.tokens,
                AllowedCount(limits, calls, k, i, j + 1));
  }

  /** At every call the key was last called so recently that fewer distinct other keys than the table tracks
      have been called since; nothing is said of how many others call altogether. */
  ghost predicate NeverCrowdedOut(calls: seq<Call>, k: Key, i: nat, n: nat)
    requires n <= |calls|
  {
    forall l, m | i <= l < m <= n && LastCall(calls, k, l, m) :: |Others(calls, k, l, m)| < MAX_TRACKED_KEYS
  }

  /** Call l is the last one of the key before call m. */
  ghost predicate LastCall(calls: seq<Call>, k: Key, l: nat, m: nat)
    requires m <= |calls|
  {
    l < m && calls[l].key == k && forall x | l < x < m :: calls[x].key != k
  }

  lemma {:induction false} LastCallExists(calls: seq<Call>, k: Key, i: nat, m: nat) returns (l: nat)
    requires i < m <= |calls| && calls[i].key == k
    ensures i <= l && LastCall(calls, k, l, m)
    decreases m
  {
    var x := m - 1;
    if calls[x].key == k {
      l := x;
    } else {
      l := LastCallExists(calls, k, i, x);
    }
  }

  /** A key that keeps calling is not evicted, however many other keys call altogether. */
  lemma KeepsCallingNotEvicted(limits: Limits, calls: seq<Call>, k: Key, i: nat, n: nat)
    requires i < n <= |calls| && calls[i].key == k && NeverCrowdedOut(calls, k, i, n)
    ensures NotEvicted(limits, calls, k, i, n)
  {
    forall m | i < m <= n ensures k in After(limits, calls, m).cells {
      var l := LastCallExists(calls, k, i, m);
      KeySurvives(limits, calls, k, l, m);
    }
  }

  /** A caller that lets one token accrue between its calls is never refused, evicted or not. */
  lemma CreditSuffices(limits: Limits, calls: seq<Call>, n: nat)
    requires GoodLimits(limits) && 1.0 <= limits.capacity && Chronological(calls) && n < |calls|
    requires forall m | 0 <= m < n && calls[m].key == calls[n].key ::
               1.0 <= limits.credit(calls[n].time) - limits.credit(calls[m].time)
    ensures Allowed(limits, calls, n)
  {
    var k, t := calls[n].key, After(limits, calls, n);
    if k in t.cells {
      AfterSane(limits, calls, n, k);
      var m :| 0 <= m < n && calls[m].key == k && calls[m].time == t.cells[k].lastCheck;
      assert 1.0 <= limits.credit(calls[n].time) - limits.credit(calls[m].time);
    }
  }

  // ---------------------------------------------------------------- refusing only when all is spent

  /** Since call `s` the bucket has lost nothing by overflowing: it holds the capacity and what has flowed in,
      less what was spent. */
  ghost predicate FullSince(limits: Limits, calls: seq<Call>, k: Key, s: nat, n: nat)
    requires s <= n <= |calls|
  {
    && s < n && calls[s].key == k && NotEvicted(limits, calls, k, s, n) && k in After(limits, calls, n).cells
    && var cell := After(limits, calls, n).cells[k];
       cell.tokens == limits.capacity + limits.credit(cell.lastCheck) - limits.credit(calls[s].time)
                      - AllowedCount(limits, calls, k, s, n) as real
  }

  /** What the called key's bucket holds when call `n` is weighed. */
  function Held(limits: Limits, calls: seq<Call>, n: nat): real
    requires n < |calls|
  {
    var k, t := calls[n].key, After(limits, calls, n);
    if k in t.cells then Topped(limits.capacity, limits.credit, t.cells[k], calls[n].time) else limits.capacity
  }

  /** A call spends a token of what the bucket holds exactly when it is allowed. */
  lemma CallSpends(limits: Limits, calls: seq<Call>, n: nat)
    requires n < |calls|
    ensures Allowed(limits, calls, n) <==> Held(limits, calls, n) >= 1.0
    ensures calls[n].key in After(limits, calls, n + 1).cells
    ensures var cell := After(limits, calls, n + 1).cells[calls[n].key];
            && cell.lastCheck == calls[n].time
            && cell.tokens == Held(limits, calls, n) - if Allowed(limits, calls, n) then 1.0 else 0.0
  {
    AfterValid(limits, calls, n);
    StepKeepsTable(limits.capacity, limits.credit, After(limits, calls, n), calls[n].key, calls[n].time);
    StepCells(limits, After(limits, calls, n), calls[n].key, calls[n].time, calls[n].key);
  }

  lemma CountNext(limits: Limits, calls: seq<Call>, s: nat, n: nat)
    requires s <= n < |calls|
    ensures AllowedCount(limits, calls, calls[n].key, s, n + 1)
            == AllowedCount(limits, calls, calls[n].key, s, n) + if Allowed(limits, calls, n) then 1 else 0
  {}

  /** A key's call when its bucket is full, or new. */
  lemma FullNow(limits: Limits, calls: seq<Call>, n: nat)
    requires n < |calls| && Held(limits, calls, n) == limits.capacity
    ensures FullSince(limits, calls, calls[n].key, n, n + 1)
  {
    CallSpends(limits, calls, n);
    CountNext(limits, calls, n, n);
    assert AllowedCount(limits, calls, calls[n].key, n, n) == 0;
    hide After, Held, Allowed, AllowedCount;
  }

  /** A key's call when its bucket does not overflow. */
  lemma FullStays(limits: Limits, calls: seq<Call>, s: nat, n: nat)
    requires s < n < |calls| && FullSince(limits, calls, calls[n].key, s, n)
    requires var cell, now := After(limits, calls, n).cells[calls[n].key], calls[n].time;
             Held(limits, calls, n) == cell.tokens + (limits.credit(now) - limits.credit(cell.lastCheck))
    ensures FullSince(limits, calls, calls[n].key, s, n + 1)
  {
    hide After, Held, Allowed, AllowedCount;
    CallSpends(limits, calls, n);
    CountNext(limits, calls, s, n);
  }

  lemma OtherCall(limits: Limits, calls: seq<Call>, k: Key, s: nat, n: nat)
    requires s <= n < |calls| && calls[n].key != k && k in After(limits, calls, n + 1).cells
    ensures k in After(limits, calls, n).cells
    ensures After(limits, calls, n + 1).cells[k] == After(limits, calls, n).cells[k]
    ensures AllowedCount(limits, calls, k, s, n + 1) == AllowedCount(limits, calls, k, s, n)
  {
    StepCells(limits, After(limits, calls, n), calls[n].key, calls[n].time, k);
  }

  lemma FullStaysForOthers(limits: Limits, calls: seq<Call>, k: Key, s: nat, n: nat)
    requires s < n < |calls| && FullSince(limits, calls, k, s, n)
    requires calls[n].key != k && k in After(limits, calls, n + 1).cells
    ensures FullSince(limits, calls, k, s, n + 1)
  {
    hide After, AllowedCount;
    OtherCall(limits, calls, k, s, n);
  }

  /** Some call of a tracked key was the last one to find its bucket full. */
  lemma {:induction false} LastFull(limits: Limits, calls: seq<Call>, k: Key, n: nat) returns (s: nat)
    requires n <= |calls| && k in After(limits, calls, n).cells
    ensures s < n && FullSince(limits, calls, k, s, n)
    decreases n
  {
    var m := n - 1;
    StepCells(limits, After(limits, calls, m), calls[m].key, calls[m].time, k);
    hide FullSince, After;
    if calls[m].key != k {
      s := LastFull(limits, calls, k, m);
      FullStaysForOthers(limits, calls, k, s, m);
    } else if Held(limits, calls, m) != limits.capacity {
      s := LastFull(limits, calls, k, m);
      FullStays(limits, calls, s, m);
    } else {
      s := m;
      FullNow(limits, calls, m);
    }
  }

  /** One more call fits the capacity and what has flowed in since call `s`. */
  predicate RoomSince(limits: Limits, calls: seq<Call>, s: nat, n: nat)
    requires s <= n < |calls|
  {
    AllowedCount(limits, calls, calls[n].key, s, n) as real + 1.0
    <= limits.capacity + limits.credit(calls[n].time) - limits.credit(calls[s].time)
  }

  /** There is room in every window of the key's calls over which it was not evicted. */
  ghost predicate RoomInEveryWindow(limits: Limits, calls: seq<Call>, n: nat)
    requires n < |calls|
  {
    forall s | 0 <= s <= n && calls[s].key == calls[n].key && NotEvicted(limits, calls, calls[n].key, s, n) ::
      RoomSince(limits, calls, s, n)
  }

  lemma AllowedHasRoom(limits: Limits, calls: seq<Call>, n: nat, s: nat)
    requires GoodLimits(limits) && Chronological(calls) && s <= n < |calls| && Allowed(limits, calls, n)
    requires calls[s].key == calls[n].key && NotEvicted(limits, calls, calls[n].key, s, n)
    ensures RoomSince(limits, calls, s, n)
  {
    hide After, AllowedCount, Allowed, GoodLimits, Chronological;
    CallSpends(limits, calls, n);
    CountNext(limits, calls, s, n);
    CreditBound(limits, calls, calls[n].key, s, n);
  }

  lemma RefusedHasNoRoom(limits: Limits, calls: seq<Call>, n: nat) returns (s: nat)
    requires n < |calls| && !Allowed(limits, calls, n)
    ensures s <= n && calls[s].key == calls[n].key && NotEvicted(limits, calls, calls[n].key, s, n)
    ensures !RoomSince(limits, calls, s, n)
  {
    s := n;
    CallSpends(limits, calls, n);
    if Held(limits, calls, n) != limits.capacity {
      s := LastFull(limits, calls, calls[n].key, n);
    }
  }

  /** The exact law: a call is allowed iff in every such window one more call is within the rate law. */
  lemma AllowedIffRoom(capacity: real, rate: real, calls: seq<Call>, n: nat)
    requires 0.0 <= capacity && 0.0 <= rate && Chronological(calls) && n < |calls|
    ensures Allowed(PerSecond(capacity, rate), calls, n)
            <==> RoomInEveryWindow(PerSecond(capacity, rate), calls, n)
  {
    AccrualMonotone(rate);
    var limits := PerSecond(capacity, rate);
    if Allowed(limits, calls, n) {
      forall s | 0 <= s <= n && calls[s].key == calls[n].key && NotEvicted(limits, calls, calls[n].key, s, n)
        ensures RoomSince(limits, calls, s, n)
      {
        AllowedHasRoom(limits, calls, n, s);
      }
    } else {
      var s := RefusedHasNoRoom(limits, calls, n);
    }
  }

  /** The room in terms of the rate. */
  lemma RoomAtRate(capacity: real, rate: real, calls: seq<Call>, s: nat, n: nat, elapsed: real)
    requires s <= n < |calls| && elapsed == calls[n].time - calls[s].time
    ensures RoomSince(PerSecond(capacity, rate), calls, s, n) <==>
            AllowedCount(PerSecond(capacity, rate), calls, calls[n].key, s, n) as real + 1.0
            <= capacity + rate * elapsed
  {
    hide AllowedCount;
    AccrualOver(rate, calls[s].time, calls[n].time);
    SameProduct(rate, calls[n].time - calls[s].time, elapsed);
  }

  lemma SameProduct(rate: real, a: real, b: real)
    requires a == b
    ensures rate * a == rate * b
  {}

  // ---------------------------------------------------------------- in terms of the refill rate

  function PerSecond(capacity: real, rate: real): Limits {
    Limits(capacity, Accrual(rate))
  }

  lemma AccrualOver(rate: real, s: real, t: real)
    ensures Accrual(rate)(t) - Accrual(rate)(s) == rate * (t - s)
  {}

  lemma RateForm(spent: real, capacity: real, rate: real, s: real, t: real, elapsed: real)
    requires spent <= capacity + Accrual(rate)(t) - Accrual(rate)(s) && elapsed == t - s
    ensures spent <= capacity + rate * elapsed
  {
    AccrualOver(rate, s, t);
  }

  lemma AccrualMonotone(rate: real)
    requires 0.0 <= rate
    ensures Monotone(Accrual(rate))
  {
    forall s: real, t: real | s <= t ensures Accrual(rate)(s) <= Accrual(rate)(t) {
      assert 0.0 <= rate * (t - s) == rate * t - rate * s;
    }
  }

  lemma AccruedBound(capacity: real, rate: real, calls: seq<Call>, k: Key, i: nat, j: nat) returns (spent: nat)
    requires 0.0 <= capacity && 0.0 <= rate && Chronological(calls)
    requires i <= j < |calls| && calls[i].key == k && NotEvicted(PerSecond(capacity, rate), calls, k, i, j + 1)
    ensures spent == AllowedCount(PerSecond(capacity, rate), calls, k, i, j + 1)
    ensures spent as real <= capacity + Accrual(rate)(calls[j].time) - Accrual(rate)(calls[i].time)
  {
    AccrualMonotone(rate);
    CreditBound(PerSecond(capacity, rate), calls, k, i, j);
    spent := AllowedCount(PerSecond(capacity, rate), calls, k, i, j + 1);
  }

  /** The rate law: from a call of a key on, while its bucket is not evicted, the allowed calls number at most
      the capacity and the refill of the elapsed time. */
  lemma WindowBound(capacity: real, rate: real, calls: seq<Call>, k: Key, i: nat, j: nat, elapsed: real)
    requires 0.0 <= capacity && 0.0 <= rate && Chronological(calls)
    requires i <= j < |calls| && calls[i].key == k && elapsed == calls[j].time - calls[i].time
    requires NotEvicted(PerSecond(capacity, rate), calls, k, i, j + 1)
    ensures AllowedCount(PerSecond(capacity, rate), calls, k, i, j + 1) as real <= capacity + rate * elapsed
  {
    var spent := AccruedBound(capacity, rate, calls, k, i, j);
    RateForm(spent as real, capacity, rate, calls[i].time, calls[j].time, elapsed);
  }

  /** The rate law for a key that keeps calling, read off the calls alone. */
  lemma SteadyCallerBound(capacity: real, rate: real, calls: seq<Call>, k: Key, i: nat, j: nat, elapsed: real)
    requires 0.0 <= capacity && 0.0 <= rate && Chronological(calls)
    requires i <= j < |calls| && calls[i].key == k && elapsed == calls[j].time - calls[i].time
    requires NeverCrowdedOut(calls, k, i, j + 1)
    ensures AllowedCount(PerSecond(capacity, rate), calls, k, i, j + 1) as real <= capacity + rate * elapsed
  {
    KeepsCallingNotEvicted(PerSecond(capacity, rate), calls, k, i, j + 1);
    WindowBound(capacity, rate, calls, k, i, j, elapsed);
  }

  /** Calls spaced far enough for one token to refill are never refused, evicted or not. */
  lemma SpacedNeverRefused(capacity: real, rate: real, calls: seq<Call>, n: nat)
    requires 1.0 <= capacity && 0.0 <= rate && Chronological(calls) && n < |calls|
    requires forall m | 0 <= m < n && calls[m].key == calls[n].key ::
               1.0 <= rate * (calls[n].time - calls[m].time)
    ensures Allowed(PerSecond(capacity, rate), calls, n)
  {
    AccrualMonotone(rate);
    var limits := PerSecond(capacity, rate);
    forall m | 0 <= m < n && calls[m].key == calls[n].key
      ensures 1.0 <= limits.credit(calls[n].time) - limits.credit(calls[m].time)
    {
      AccrualOver(rate, calls[m].time, calls[n].time);
    }
    CreditSuffices(limits, calls, n);
  }
}
