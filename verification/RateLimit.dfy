/** The bounded fixed-window limiter of ratelimit/ratelimit.go against a limiter that never evicts. */
module RateLimit {
  import opened Wrappers
  import opened Sets
  import opened Int64

  const MILLISECOND := 1_000_000
  const DEFAULT_WINDOW := 60_000 * MILLISECOND
  const MAX_WINDOW := 86_400_000 * MILLISECOND
  const DEFAULT_MAX_KEYS := 10_000
  const MAX_KEYS := 1_000_000
  const MAX_KEY_BYTES := 256

  /** Instants in nanoseconds. */
  type Time = int

  /** time.Time.Sub: a difference that saturates at the ends of int64. */
  function Sub(t: Time, u: Time): int {
    Clamp(t - u)
  }

  datatype Policy = Policy(limit: int, window: int)

  predicate ValidPolicy(p: Policy) {
    p.limit >= 1 && MILLISECOND <= p.window <= MAX_WINDOW
  }

  datatype Error = InvalidPolicy | InvalidKey | ContextDone | Capacity

  datatype Answer = Allowed | Limited | Refused(error: Error)

  datatype Entry = Entry(count: nat, started: Time)

  predicate Expired(p: Policy, e: Entry, now: Time) {
    Sub(now, e.started) >= p.window
  }

  lemma ExpiredIsAge(p: Policy, e: Entry, now: Time)
    requires ValidPolicy(p)
    ensures Expired(p, e, now) <==> now - e.started >= p.window
  {
  }

  // ---- the bounded limiter ----

  type Table = map<string, Entry>

  /** evictExpired. */
  function Evicted(p: Policy, table: Table, now: Time): Table {
    map k | k in table && !Expired(p, table[k], now) :: table[k]
  }

  /** The table that a call sees once it has made room for a new key. */
  function MadeRoom(p: Policy, maxKeys: nat, table: Table, key: string, now: Time): Table {
    if key !in table && |table| >= maxKeys then Evicted(p, table, now) else table
  }

  /** The lock-held part of Allow. */
  function Allow(p: Policy, maxKeys: nat, table: Table, key: string, now: Time): (Answer, Table) {
    if key !in table || Expired(p, table[key], now) then
      var room := MadeRoom(p, maxKeys, table, key, now);
      if key !in table && |room| >= maxKeys then (Refused(Capacity), room)
      else (Allowed, room[key := Entry(1, now)])
    else if table[key].count >= p.limit then (Limited, table)
    else (Allowed, table[key := Entry(table[key].count + 1, table[key].started)])
  }

  // ---- the unbounded limiter ----

  /** A fixed-window limiter that keeps every key for ever. */
  function Reference(p: Policy, table: Table, key: string, now: Time): (Answer, Table) {
    if key !in table || now - table[key].started >= p.window then (Allowed, table[key := Entry(1, now)])
    else if table[key].count >= p.limit then (Limited, table)
    else (Allowed, table[key := Entry(table[key].count + 1, table[key].started)])
  }

  // ---- histories ----

  datatype Call = Call(key: string, now: Time)

  /** The clock hypothesis: timestamps do not decrease in the order in which calls get the lock. */
  predicate Ordered(calls: seq<Call>) {
    forall i, j :: 0 <= i < j < |calls| ==> calls[i].now <= calls[j].now
  }

  function TableAfter(p: Policy, maxKeys: nat, calls: seq<Call>): Table {
    if calls == [] then map[]
    else
      var last := calls[|calls| - 1];
      Allow(p, maxKeys, TableAfter(p, maxKeys, calls[..|calls| - 1]), last.key, last.now).1
  }

  /** The answer to the last call of a history. */
  function LastAnswer(p: Policy, maxKeys: nat, calls: seq<Call>): Answer
    requires calls != []
  {
    var last := calls[|calls| - 1];
    Allow(p, maxKeys, TableAfter(p, maxKeys, calls[..|calls| - 1]), last.key, last.now).0
  }

  /** The history without the calls that were refused for capacity. */
  function Kept(p: Policy, maxKeys: nat, calls: seq<Call>): seq<Call> {
    if calls == [] then []
    else
      var earlier := Kept(p, maxKeys, calls[..|calls| - 1]);
      if LastAnswer(p, maxKeys, calls) == Refused(Capacity) then earlier else earlier + [calls[|calls| - 1]]
  }

  function ReferenceAfter(p: Policy, calls: seq<Call>): Table {
    if calls == [] then map[]
    else
      var last := calls[|calls| - 1];
      Reference(p, ReferenceAfter(p, calls[..|calls| - 1]), last.key, last.now).1
  }

  function ReferenceAnswer(p: Policy, calls: seq<Call>): Answer
    requires calls != []
  {
    var last := calls[|calls| - 1];
    Reference(p, ReferenceAfter(p, calls[..|calls| - 1]), last.key, last.now).0
  }

  // ---- eviction is unobservable ----

  /** The bounded table is part of the reference table, and what it lacks has expired. */
  ghost predicate Agree(p: Policy, table: Table, reference: Table, now: Time) {
    && (forall k :: k in table ==> k in reference && reference[k] == table[k])
    && (forall k :: k in reference && k !in table ==> now - reference[k].started >= p.window)
  }

  /** The keys whose window is still running. */
  function Running(p: Policy, table: Table, now: Time): set<string> {
    set k | k in table && now - table[k].started < p.window
  }

  lemma AgreeLater(p: Policy, table: Table, reference: Table, now: Time, later: Time)
    requires Agree(p, table, reference, now) && now <= later
    ensures Agree(p, table, reference, later)
  {
  }

  lemma AgreeEvicted(p: Policy, table: Table, reference: Table, now: Time)
    requires ValidPolicy(p) && Agree(p, table, reference, now)
    ensures Agree(p, Evicted(p, table, now), reference, now)
    ensures Evicted(p, table, now).Keys == Running(p, reference, now)
  {
  }

  lemma PutAgrees(p: Policy, table: Table, reference: Table, key: string, entry: Entry, now: Time)
    requires Agree(p, table, reference, now)
    ensures Agree(p, table[key := entry], reference[key := entry], now)
    ensures |table[key := entry]| == if key in table then |table| else |table| + 1
  {
    PutSize(table, key, entry);
  }

  lemma PutSize(table: Table, key: string, entry: Entry)
    ensures |table[key := entry]| == if key in table then |table| else |table| + 1
  {
    assert table[key := entry].Keys == table.Keys + {key};
  }

  /** A running window is the same in both tables. */
  lemma SameWindow(p: Policy, table: Table, reference: Table, key: string, now: Time)
    requires ValidPolicy(p) && Agree(p, table, reference, now)
    ensures key in table && !Expired(p, table[key], now) <==>
            key in reference && now - reference[key].started < p.window
    ensures key in table ==> key in reference && table[key] == reference[key]
  {
  }

  lemma RoomAgrees(p: Policy, maxKeys: nat, table: Table, reference: Table, key: string, now: Time)
    requires ValidPolicy(p) && |table| <= maxKeys && Agree(p, table, reference, now)
    ensures var room := MadeRoom(p, maxKeys, table, key, now);
            |room| <= maxKeys && Agree(p, room, reference, now) && (key in table ==> room == table)
  {
    hide Agree, Evicted;
    AgreeEvicted(p, table, reference, now);
    EvictedKeys(p, table, now);
    SubsetSize(Evicted(p, table, now).Keys, table.Keys);
  }

  lemma EvictedKeys(p: Policy, table: Table, now: Time)
    ensures Evicted(p, table, now).Keys <= table.Keys
  {
  }

  /** Room is missing exactly when running windows of other keys fill the table. */
  lemma CapacityExactly(p: Policy, maxKeys: nat, table: Table, reference: Table, key: string, now: Time)
    requires ValidPolicy(p) && maxKeys >= 1 && |table| <= maxKeys && Agree(p, table, reference, now)
    ensures key !in table && |MadeRoom(p, maxKeys, table, key, now)| >= maxKeys <==>
            key !in table && |Running(p, reference, now) - {key}| >= maxKeys
  {
    hide Agree, Evicted, Running;
    var running := Running(p, reference, now);
    AgreeEvicted(p, table, reference, now);
    EvictedKeys(p, table, now);
    SubsetSize(running, table.Keys);
    if key !in table {
      assert running - {key} == running;
    }
  }

  /** One call: the answers agree unless capacity refuses, the tables agree afterwards, the bound
      holds, and capacity refuses exactly when the key is absent and other running windows fill
      the table. */
  lemma AllowAgrees(p: Policy, maxKeys: nat, table: Table, reference: Table, key: string, now: Time)
    requires ValidPolicy(p) && maxKeys >= 1 && |table| <= maxKeys && Agree(p, table, reference, now)
    ensures var (answer, after) := Allow(p, maxKeys, table, key, now);
            var (expected, referenceAfter) := Reference(p, reference, key, now);
            && |after| <= maxKeys
            && (answer == Refused(Capacity) ==> Agree(p, after, reference, now))
            && (answer != Refused(Capacity) ==> answer == expected && Agree(p, after, referenceAfter, now))
            && (answer == Refused(Capacity) <==> key !in table && |Running(p, reference, now) - {key}| >= maxKeys)
  {
    hide Agree, MadeRoom, Running, Evicted, Expired, ValidPolicy;
    RoomAgrees(p, maxKeys, table, reference, key, now);
    CapacityExactly(p, maxKeys, table, reference, key, now);
    var room := MadeRoom(p, maxKeys, table, key, now);
    SameWindow(p, table, reference, key, now);
    PutAgrees(p, room, reference, key, Entry(1, now), now);
    if key in table {
      PutAgrees(p, table, reference, key, Entry(table[key].count + 1, table[key].started), now);
    }
  }

  lemma ReferenceMore(p: Policy, calls: seq<Call>, call: Call)
    ensures ReferenceAfter(p, calls + [call]) == Reference(p, ReferenceAfter(p, calls), call.key, call.now).1
    ensures ReferenceAnswer(p, calls + [call]) == Reference(p, ReferenceAfter(p, calls), call.key, call.now).0
  {
    assert (calls + [call])[..|calls|] == calls;
  }

  lemma {:induction false} HistoryAgrees(p: Policy, maxKeys: nat, calls: seq<Call>, now: Time)
    requires ValidPolicy(p) && maxKeys >= 1 && Ordered(calls)
    requires calls != [] ==> calls[|calls| - 1].now <= now
    ensures |TableAfter(p, maxKeys, calls)| <= maxKeys
    ensures Agree(p, TableAfter(p, maxKeys, calls), ReferenceAfter(p, Kept(p, maxKeys, calls)), now)
    decreases |calls|
  {
    hide Allow, Reference;
    if calls != [] {
      var earlier, last := calls[..|calls| - 1], calls[|calls| - 1];
      HistoryAgrees(p, maxKeys, earlier, last.now);
      var kept := Kept(p, maxKeys, earlier);
      AllowAgrees(p, maxKeys, TableAfter(p, maxKeys, earlier), ReferenceAfter(p, kept), last.key, last.now);
      ReferenceMore(p, kept, last);
      AgreeLater(p, TableAfter(p, maxKeys, calls), ReferenceAfter(p, Kept(p, maxKeys, calls)), last.now, now);
    }
  }

  lemma AllowIsBounded(p: Policy, maxKeys: nat, table: Table, key: string, now: Time)
    requires |table| <= maxKeys
    ensures |Allow(p, maxKeys, table, key, now).1| <= maxKeys
  {
    EvictedKeys(p, table, now);
    SubsetSize(Evicted(p, table, now).Keys, table.Keys);
    var room := MadeRoom(p, maxKeys, table, key, now);
    PutSize(room, key, Entry(1, now));
    if key in table {
      PutSize(table, key, Entry(table[key].count + 1, table[key].started));
    }
  }

  /** The table never exceeds its bound, whatever the timestamps are. */
  lemma {:induction false} TableIsBounded(p: Policy, maxKeys: nat, calls: seq<Call>)
    ensures |TableAfter(p, maxKeys, calls)| <= maxKeys
    decreases |calls|
  {
    hide Allow;
    if calls != [] {
      var earlier, last := calls[..|calls| - 1], calls[|calls| - 1];
      TableIsBounded(p, maxKeys, earlier);
      AllowIsBounded(p, maxKeys, TableAfter(p, maxKeys, earlier), last.key, last.now);
    }
  }

  /** Eviction is unobservable, for every history with ordered timestamps: the table is bounded; a
      call is refused for capacity iff its key is absent and that many other keys have a running
      window; and every other answer is that of the limiter that keeps all keys, run on the history
      without the refused calls. */
  lemma Unobservable(p: Policy, maxKeys: nat, calls: seq<Call>)
    requires ValidPolicy(p) && maxKeys >= 1 && Ordered(calls) && calls != []
    ensures var earlier, last := calls[..|calls| - 1], calls[|calls| - 1];
            var kept := Kept(p, maxKeys, earlier);
            && |TableAfter(p, maxKeys, calls)| <= maxKeys
            && (LastAnswer(p, maxKeys, calls) == Refused(Capacity) <==>
                && last.key !in TableAfter(p, maxKeys, earlier)
                && |Running(p, ReferenceAfter(p, kept), last.now) - {last.key}| >= maxKeys)
            && (LastAnswer(p, maxKeys, calls) != Refused(Capacity) ==>
                LastAnswer(p, maxKeys, calls) == ReferenceAnswer(p, kept + [last]))
  {
    hide Allow, Reference, Running;
    var earlier, last := calls[..|calls| - 1], calls[|calls| - 1];
    var kept := Kept(p, maxKeys, earlier);
    HistoryAgrees(p, maxKeys, earlier, last.now);
    AllowAgrees(p, maxKeys, TableAfter(p, maxKeys, earlier), ReferenceAfter(p, kept), last.key, last.now);
    assert (kept + [last])[..|kept|] == kept;
  }

  /** A key that is new to a table with room gets a window. */
  lemma NewWindow(p: Policy, maxKeys: nat, table: Table, key: string, now: Time)
    requires key !in table && |table| < maxKeys
    ensures Allow(p, maxKeys, table, key, now) == (Allowed, table[key := Entry(1, now)])
    ensures |table[key := Entry(1, now)]| == |table| + 1
  {
    PutSize(table, key, Entry(1, now));
  }

  /** A key that is new to a full table gets a window if some other window has expired. */
  lemma NewWindowInFull(p: Policy, maxKeys: nat, table: Table, key: string, now: Time)
    requires key !in table && |table| >= maxKeys && |Evicted(p, table, now)| < maxKeys
    ensures Allow(p, maxKeys, table, key, now) == (Allowed, Evicted(p, table, now)[key := Entry(1, now)])
  {
  }

  const A := "a"
  const B := "b"
  const C := "c"
  const D := "d"
  const E := "e"
  const F := "f"

  lemma KeysDiffer()
    ensures A != B && A != C && A != D && A != E && A != F && B != C && B != D && B != E && B != F
    ensures C != D && C != E && C != F && D != E && D != F && E != F
  {
    assert A[0] == 'a' && B[0] == 'b' && C[0] == 'c' && D[0] == 'd' && E[0] == 'e' && F[0] == 'f';
  }

  const STRICT := Policy(1, DEFAULT_WINDOW)

  const LATE: seq<Call> :=
    [Call(A, 0), Call(B, 0), Call(C, DEFAULT_WINDOW), Call(A, DEFAULT_WINDOW - 1)]

  /** Two keys fill the table, and a third evicts both. */
  lemma LateTables()
    ensures TableAfter(STRICT, 2, LATE[..3]) == map[C := Entry(1, DEFAULT_WINDOW)]
    ensures Kept(STRICT, 2, LATE[..3]) == LATE[..3]
  {
    hide TableAfter, Allow, Kept, LastAnswer, A, B, C;
    KeysDiffer();
    HistoryStart(STRICT, 2);
    var w := DEFAULT_WINDOW;
    var t1, t2: Table := map[A := Entry(1, 0)], map[A := Entry(1, 0), B := Entry(1, 0)];
    assert LATE[..1] == [] + [Call(A, 0)];
    HistoryMore(STRICT, 2, [], Call(A, 0));
    NewWindow(STRICT, 2, map[], A, 0);
    assert t2 == t1[B := Entry(1, 0)] && LATE[..2] == LATE[..1] + [Call(B, 0)];
    HistoryMore(STRICT, 2, LATE[..1], Call(B, 0));
    NewWindow(STRICT, 2, t1, B, 0);
    assert Evicted(STRICT, t2, w) == map[] && LATE[..3] == LATE[..2] + [Call(C, w)];
    HistoryMore(STRICT, 2, LATE[..2], Call(C, w));
    NewWindowInFull(STRICT, 2, t2, C, w);
  }

  /** The limiter that keeps all keys still has the first window of the first key. */
  lemma LateReference()
    ensures A in ReferenceAfter(STRICT, LATE[..3]) && ReferenceAfter(STRICT, LATE[..3])[A] == Entry(1, 0)
  {
    hide ReferenceAfter, ReferenceAnswer, A, B, C;
    KeysDiffer();
    HistoryStart(STRICT, 2);
    assert LATE[..1] == [] + [LATE[0]] && LATE[..2] == LATE[..1] + [LATE[1]] && LATE[..3] == LATE[..2] + [LATE[2]];
    ReferenceMore(STRICT, [], LATE[0]);
    ReferenceMore(STRICT, LATE[..1], LATE[1]);
    ReferenceMore(STRICT, LATE[..2], LATE[2]);
  }

  /** Without the clock hypothesis eviction can be seen: with one request per window of a minute and
      room for two keys, a late timestamp evicts a key whose window an earlier one still finds
      running. */
  lemma ClockNeeded() returns (p: Policy, calls: seq<Call>)
    ensures ValidPolicy(p) && calls != [] && !Ordered(calls)
    ensures LastAnswer(p, 2, calls) == Allowed
    ensures ReferenceAnswer(p, Kept(p, 2, calls[..|calls| - 1]) + [calls[|calls| - 1]]) == Limited
  {
    hide TableAfter, Allow, Kept, LastAnswer, ReferenceAfter, ReferenceAnswer, A, B, C;
    p, calls := STRICT, LATE;
    assert calls[2].now > calls[3].now;
    KeysDiffer();
    LateTables();
    LateReference();
    assert LATE == LATE[..3] + [LATE[3]];
    HistoryMore(STRICT, 2, LATE[..3], LATE[3]);
    NewWindow(STRICT, 2, TableAfter(STRICT, 2, LATE[..3]), A, DEFAULT_WINDOW - 1);
    ReferenceMore(STRICT, LATE[..3], LATE[3]);
  }

  lemma HistoryStart(p: Policy, maxKeys: nat)
    ensures TableAfter(p, maxKeys, []) == map[] && Kept(p, maxKeys, []) == [] && ReferenceAfter(p, []) == map[]
  {
  }

  lemma HistoryMore(p: Policy, maxKeys: nat, calls: seq<Call>, call: Call)
    ensures var (answer, table) := Allow(p, maxKeys, TableAfter(p, maxKeys, calls), call.key, call.now);
            && TableAfter(p, maxKeys, calls + [call]) == table
            && LastAnswer(p, maxKeys, calls + [call]) == answer
            && Kept(p, maxKeys, calls + [call])
               == if answer == Refused(Capacity) then Kept(p, maxKeys, calls) else Kept(p, maxKeys, calls) + [call]
  {
    hide Allow;
    assert (calls + [call])[..|calls|] == calls;
  }

  // ---- the sliding bound ----

  /** A weaker hypothesis on the clock: no timestamp is more than `lag` before that of an earlier
      call. */
  predicate Lagging(calls: seq<Call>, lag: int) {
    forall i, j :: 0 <= i < j < |calls| ==> calls[i].now - lag <= calls[j].now
  }

  /** The requests that the limiter granted to a key in [lo, hi). */
  function Granted(p: Policy, maxKeys: nat, calls: seq<Call>, key: string, lo: Time, hi: Time): nat {
    if calls == [] then 0
    else
      var last := calls[|calls| - 1];
      Granted(p, maxKeys, calls[..|calls| - 1], key, lo, hi)
      + if last.key == key && lo <= last.now < hi && LastAnswer(p, maxKeys, calls) == Allowed then 1 else 0
  }

  /** The call is granted and begins a window of the key. */
  predicate Opens(p: Policy, maxKeys: nat, table: Table, key: string, call: Call) {
    && call.key == key && (key !in table || Expired(p, table[key], call.now))
    && Allow(p, maxKeys, table, key, call.now).0 == Allowed
  }

  /** When the windows of a key began. */
  function Starts(p: Policy, maxKeys: nat, calls: seq<Call>, key: string): seq<Time> {
    if calls == [] then []
    else
      var earlier, last := calls[..|calls| - 1], calls[|calls| - 1];
      Starts(p, maxKeys, earlier, key)
      + if Opens(p, maxKeys, TableAfter(p, maxKeys, earlier), key, last) then [last.now] else []
  }

  function Last(starts: seq<Time>): Time
    requires starts != []
  {
    starts[|starts| - 1]
  }

  predicate Spaced(starts: seq<Time>, gap: int) {
    forall i :: 0 < i < |starts| ==> starts[i - 1] + gap <= starts[i]
  }

  /** How many windows began strictly between two instants. */
  function Inside(starts: seq<Time>, after: Time, before: Time): nat {
    if starts == [] then 0
    else Inside(starts[..|starts| - 1], after, before) + if after < Last(starts) < before then 1 else 0
  }

  lemma {:induction false} InsideReaches(starts: seq<Time>, gap: int, after: Time, before: Time)
    requires gap > 0 && Spaced(starts, gap) && Inside(starts, after, before) > 0
    ensures Last(starts) > after + (Inside(starts, after, before) - 1) * gap
  {
    var earlier := starts[..|starts| - 1];
    if Inside(earlier, after, before) > 0 {
      InsideReaches(earlier, gap, after, before);
      assert Last(starts) >= Last(earlier) + gap;
    }
  }

  /** Windows that begin a gap apart do not crowd. */
  lemma {:induction false} InsideBound(starts: seq<Time>, gap: int, after: Time, before: Time, k: nat)
    requires gap > 0 && Spaced(starts, gap) && before - after <= k * gap
    ensures Inside(starts, after, before) <= k
  {
    if starts != [] {
      InsideBound(starts[..|starts| - 1], gap, after, before, k);
      if after < Last(starts) < before {
        InsideReaches(starts, gap, after, before);
        TimesGrows(k, Inside(starts, after, before) - 1, gap);
      }
    }
  }

  lemma TimesGrows(a: nat, b: nat, c: nat)
    ensures a <= b ==> a * c <= b * c
  {
  }

  /** A call for another key leaves this key's window alone, or evicts it when it has expired. */
  lemma OtherCall(p: Policy, maxKeys: nat, table: Table, key: string, call: Call)
    requires ValidPolicy(p) && call.key != key
    ensures var after := Allow(p, maxKeys, table, call.key, call.now).1;
            && (key in after ==> key in table && after[key] == table[key])
            && (key in table && key !in after ==> table[key].started + p.window <= call.now)
  {
  }

  /** A call for this key begins a window, or counts in the one that is running, or changes nothing. */
  lemma OwnCall(p: Policy, maxKeys: nat, table: Table, key: string, call: Call)
    requires ValidPolicy(p) && call.key == key
    ensures var (answer, after) := Allow(p, maxKeys, table, key, call.now);
            if Opens(p, maxKeys, table, key, call) then key in after && after[key] == Entry(1, call.now)
            else if answer == Allowed then
              && key in table && call.now < table[key].started + p.window && table[key].count < p.limit
              && key in after && after[key] == Entry(table[key].count + 1, table[key].started)
            else (key in table <==> key in after) && (key in table ==> after[key] == table[key])
  {
  }

  /** What a history says about the windows of one key: they began at least window - lag apart, the
      entry in the table is the last of them, and without an entry a timestamp has passed its end. */
  ghost predicate Windows(p: Policy, calls: seq<Call>, table: Table, starts: seq<Time>, key: string, lag: int) {
    && Spaced(starts, p.window - lag)
    && (key in table ==> starts != [] && table[key].started == Last(starts) && table[key].count <= p.limit)
    && (starts != [] ==> Reached(calls, Last(starts)))
    && (starts != [] && key !in table ==> Reached(calls, Last(starts) + p.window))
  }

  /** The timestamp of some call is not before t. */
  ghost predicate Reached(calls: seq<Call>, t: Time) {
    exists i :: 0 <= i < |calls| && t <= calls[i].now
  }

  lemma ReachedMore(calls: seq<Call>, call: Call, t: Time)
    ensures Reached(calls + [call], t) <==> Reached(calls, t) || t <= call.now
  {
    var all := calls + [call];
    assert forall i :: 0 <= i < |calls| ==> all[i] == calls[i];
    assert all[|calls|] == call;
  }

  /** A timestamp lags little behind what was reached before it. */
  lemma LagBehind(calls: seq<Call>, call: Call, t: Time, lag: int)
    requires Lagging(calls + [call], lag) && Reached(calls, t)
    ensures t - lag <= call.now
  {
    var all := calls + [call];
    var i :| 0 <= i < |calls| && t <= calls[i].now;
    assert all[i] == calls[i] && all[|calls|] == call;
  }

  lemma WindowsStep(p: Policy, maxKeys: nat, calls: seq<Call>, call: Call, table: Table, starts: seq<Time>,
                    key: string, lag: nat)
    requires ValidPolicy(p) && Lagging(calls + [call], lag) && Windows(p, calls, table, starts, key, lag)
    ensures var after := Allow(p, maxKeys, table, call.key, call.now).1;
            Windows(p, calls + [call], after,
                    starts + if Opens(p, maxKeys, table, key, call) then [call.now] else [], key, lag)
  {
    hide Allow, Lagging, Reached;
    if starts != [] {
      ReachedMore(calls, call, Last(starts));
      ReachedMore(calls, call, Last(starts) + p.window);
    }
    ReachedMore(calls, call, call.now);
    if call.key != key {
      OtherCall(p, maxKeys, table, key, call);
      assert starts + [] == starts;
    } else {
      OwnCall(p, maxKeys, table, key, call);
      if Opens(p, maxKeys, table, key, call) {
        if starts != [] && key !in table {
          LagBehind(calls, call, Last(starts) + p.window, lag);
        }
        assert starts != [] ==> Last(starts) + (p.window - lag) <= call.now;
      } else {
        assert starts + [] == starts;
      }
    }
  }

  /** The windows of a key that began in between, all full but the one in the table. */
  function Filling(p: Policy, table: Table, starts: seq<Time>, key: string, after: Time, before: Time): int {
    if starts == [] || key !in table then Inside(starts, after, before) * p.limit
    else
      Inside(starts[..|starts| - 1], after, before) * p.limit
      + if after < Last(starts) < before then table[key].count else 0
  }

  lemma FillingIsBounded(p: Policy, calls: seq<Call>, table: Table, starts: seq<Time>, key: string, lag: int,
                         after: Time, before: Time)
    requires ValidPolicy(p) && Windows(p, calls, table, starts, key, lag)
    ensures Filling(p, table, starts, key, after, before) <= Inside(starts, after, before) * p.limit
  {
    hide Reached;
    if starts != [] {
      var earlier := Inside(starts[..|starts| - 1], after, before);
      assert (earlier + 1) * p.limit == earlier * p.limit + p.limit;
    }
  }

  /** A granted request fills a window that began not long before it. */
  lemma FillingStep(p: Policy, maxKeys: nat, calls: seq<Call>, call: Call, table: Table, starts: seq<Time>,
                    key: string, lag: nat, lo: Time, hi: Time)
    requires ValidPolicy(p) && Lagging(calls + [call], lag) && Windows(p, calls, table, starts, key, lag)
    ensures var (answer, after) := Allow(p, maxKeys, table, call.key, call.now);
            var opening := if Opens(p, maxKeys, table, key, call) then [call.now] else [];
            Filling(p, table, starts, key, lo - p.window, hi + lag)
            + (if call.key == key && lo <= call.now < hi && answer == Allowed then 1 else 0)
            <= Filling(p, after, starts + opening, key, lo - p.window, hi + lag)
  {
    hide Allow, Lagging, Reached, Inside, Spaced;
    FillingIsBounded(p, calls, table, starts, key, lag, lo - p.window, hi + lag);
    assert starts + [] == starts;
    if call.key != key {
      OtherCall(p, maxKeys, table, key, call);
    } else {
      OwnCall(p, maxKeys, table, key, call);
      assert (starts + [call.now])[..|starts|] == starts;
      if starts != [] {
        LagBehind(calls, call, Last(starts), lag);
      }
    }
  }

  /** After every history whose timestamps lag by at most `lag`, the windows are spaced and the requests
      granted in [lo, hi) fill windows that began between lo - window and hi + lag. */
  lemma {:induction false} GrantsFillWindows(p: Policy, maxKeys: nat, calls: seq<Call>, key: string, lag: nat,
                                             lo: Time, hi: Time)
    requires ValidPolicy(p) && Lagging(calls, lag)
    ensures var table, starts := TableAfter(p, maxKeys, calls), Starts(p, maxKeys, calls, key);
            && Windows(p, calls, table, starts, key, lag)
            && Granted(p, maxKeys, calls, key, lo, hi) <= Filling(p, table, starts, key, lo - p.window, hi + lag)
  {
    hide Allow, Opens, Windows, Filling;
    if calls == [] {
      NoWindows(p, key, lag, lo - p.window, hi + lag);
    } else {
      var earlier, last := calls[..|calls| - 1], calls[|calls| - 1];
      assert calls == earlier + [last];
      GrantsFillWindows(p, maxKeys, earlier, key, lag, lo, hi);
      var table, starts := TableAfter(p, maxKeys, earlier), Starts(p, maxKeys, earlier, key);
      WindowsStep(p, maxKeys, earlier, last, table, starts, key, lag);
      FillingStep(p, maxKeys, earlier, last, table, starts, key, lag, lo, hi);
    }
  }

  lemma NoWindows(p: Policy, key: string, lag: nat, after: Time, before: Time)
    ensures Windows(p, [], map[], [], key, lag) && Filling(p, map[], [], key, after, before) == 0
  {
  }

  /** The sliding bound for clocks that lag: if k gaps of window - lag cover the interval, one window and
      the lag, the interval holds at most k * limit granted requests. */
  lemma LaggedBound(p: Policy, maxKeys: nat, calls: seq<Call>, key: string, lo: Time, hi: Time, lag: nat, k: nat)
    requires ValidPolicy(p) && Lagging(calls, lag) && lo <= hi
    requires k * (p.window - lag) >= (hi - lo) + p.window + lag
    ensures Granted(p, maxKeys, calls, key, lo, hi) <= k * p.limit
  {
    hide Granted, Inside, Starts, TableAfter, Filling, Lagging;
    var table, starts := TableAfter(p, maxKeys, calls), Starts(p, maxKeys, calls, key);
    GrantsFillWindows(p, maxKeys, calls, key, lag, lo, hi);
    FillingIsBounded(p, calls, table, starts, key, lag, lo - p.window, hi + lag);
    assert p.window - lag > 0;
    InsideBound(starts, p.window - lag, lo - p.window, hi + lag, k);
    TimesGrows(Inside(starts, lo - p.window, hi + lag), k, p.limit);
  }

  /** For every key and every history with ordered timestamps, a half-open interval of n windows
      holds at most (n + 1) * limit granted requests, across window restarts and evictions. */
  lemma SlidingBound(p: Policy, maxKeys: nat, calls: seq<Call>, key: string, lo: Time, n: nat)
    requires ValidPolicy(p) && Ordered(calls)
    ensures Granted(p, maxKeys, calls, key, lo, lo + n * p.window) <= (n + 1) * p.limit
  {
    assert (n + 1) * (p.window - 0) == n * p.window + p.window;
    LaggedBound(p, maxKeys, calls, key, lo, lo + n * p.window, 0, n + 1);
  }

  // ---- a request is limited exactly when its window is full ----

  lemma OrderedIsLagging(calls: seq<Call>)
    ensures Ordered(calls) <==> Lagging(calls, 0)
  {
  }

  lemma WindowsOf(p: Policy, maxKeys: nat, calls: seq<Call>, key: string)
    requires ValidPolicy(p) && Ordered(calls)
    ensures Windows(p, calls, TableAfter(p, maxKeys, calls), Starts(p, maxKeys, calls, key), key, 0)
  {
    hide Windows, TableAfter, Starts, Filling;
    OrderedIsLagging(calls);
    GrantsFillWindows(p, maxKeys, calls, key, 0, 0, 0);
  }

  /** After the end of its last window a key was granted nothing. */
  lemma {:induction false} NothingLater(p: Policy, maxKeys: nat, calls: seq<Call>, key: string, lo: Time, hi: Time)
    requires ValidPolicy(p) && Ordered(calls)
    requires var starts := Starts(p, maxKeys, calls, key); starts != [] ==> Last(starts) + p.window <= lo
    ensures Granted(p, maxKeys, calls, key, lo, hi) == 0
    decreases |calls|
  {
    hide Allow, Reached, Spaced;
    if calls != [] {
      var earlier, last := calls[..|calls| - 1], calls[|calls| - 1];
      var table, starts := TableAfter(p, maxKeys, earlier), Starts(p, maxKeys, earlier, key);
      WindowsOf(p, maxKeys, earlier, key);
      assert calls == earlier + [last];
      if last.key == key {
        OwnCall(p, maxKeys, table, key, last);
      }
      if Opens(p, maxKeys, table, key, last) {
        OpensAfter(p, maxKeys, earlier, last, key);
      } else {
        assert starts + [] == starts;
      }
      NothingLater(p, maxKeys, earlier, key, lo, hi);
    }
  }

  /** A window begins after the end of the one before. */
  lemma OpensAfter(p: Policy, maxKeys: nat, calls: seq<Call>, call: Call, key: string)
    requires ValidPolicy(p) && Ordered(calls + [call])
    requires Opens(p, maxKeys, TableAfter(p, maxKeys, calls), key, call)
    ensures Ordered(calls)
    ensures var starts := Starts(p, maxKeys, calls, key); starts != [] ==> Last(starts) + p.window <= call.now
  {
    hide Allow, TableAfter, Starts, Spaced;
    OrderedEarlier(calls, call);
    WindowsOf(p, maxKeys, calls, key);
    var table, starts := TableAfter(p, maxKeys, calls), Starts(p, maxKeys, calls, key);
    if starts != [] && key !in table {
      OrderedIsLagging(calls + [call]);
      LagBehind(calls, call, Last(starts) + p.window, 0);
    }
  }

  lemma OrderedEarlier(calls: seq<Call>, call: Call)
    requires Ordered(calls + [call])
    ensures Ordered(calls)
    ensures forall i :: 0 <= i < |calls| ==> calls[i].now <= call.now
  {
    var all := calls + [call];
    assert forall i :: 0 <= i < |calls| ==> all[i] == calls[i];
    assert all[|calls|] == call;
  }

  /** The entry of a key counts the requests granted since its window began. */
  lemma {:induction false} CountIsGrants(p: Policy, maxKeys: nat, calls: seq<Call>, key: string, hi: Time)
    requires ValidPolicy(p) && Ordered(calls)
    requires forall i :: 0 <= i < |calls| ==> calls[i].now < hi
    ensures var table := TableAfter(p, maxKeys, calls);
            key in table ==> Granted(p, maxKeys, calls, key, table[key].started, hi) == table[key].count
    decreases |calls|
  {
    hide Allow;
    if calls != [] {
      var earlier, last := calls[..|calls| - 1], calls[|calls| - 1];
      var table := TableAfter(p, maxKeys, earlier);
      assert calls == earlier + [last];
      OrderedEarlier(earlier, last);
      CountIsGrants(p, maxKeys, earlier, key, hi);
      WindowsOf(p, maxKeys, earlier, key);
      if last.key != key {
        OtherCall(p, maxKeys, table, key, last);
      } else {
        OwnCall(p, maxKeys, table, key, last);
        if Opens(p, maxKeys, table, key, last) {
          OpensAfter(p, maxKeys, earlier, last, key);
          NothingLater(p, maxKeys, earlier, key, last.now, hi);
        } else if key in table {
          StartedBefore(p, earlier, table, key, Starts(p, maxKeys, earlier, key), last);
        }
      }
    }
  }

  lemma StartedBefore(p: Policy, calls: seq<Call>, table: Table, key: string, starts: seq<Time>, call: Call)
    requires Windows(p, calls, table, starts, key, 0) && key in table && Ordered(calls + [call])
    ensures table[key].started <= call.now
  {
    OrderedIsLagging(calls + [call]);
    LagBehind(calls, call, Last(starts), 0);
  }

  /** With ordered timestamps a request is limited exactly when the last window of its key is still
      running and as many requests as the policy allows were granted since it began. */
  lemma LimitedExactly(p: Policy, maxKeys: nat, calls: seq<Call>, call: Call)
    requires ValidPolicy(p) && Ordered(calls + [call])
    ensures var starts := Starts(p, maxKeys, calls, call.key);
            LastAnswer(p, maxKeys, calls + [call]) == Limited <==>
            && starts != [] && call.now < Last(starts) + p.window
            && Granted(p, maxKeys, calls, call.key, Last(starts), call.now + 1) == p.limit
  {
    hide Granted, Starts, TableAfter, Spaced, Reached;
    OrderedEarlier(calls, call);
    WindowsOf(p, maxKeys, calls, call.key);
    CountIsGrants(p, maxKeys, calls, call.key, call.now + 1);
    HistoryMore(p, maxKeys, calls, call);
    var table, starts := TableAfter(p, maxKeys, calls), Starts(p, maxKeys, calls, call.key);
    if starts != [] && call.key !in table {
      OrderedIsLagging(calls + [call]);
      LagBehind(calls, call, Last(starts) + p.window, 0);
    }
  }

  const THIRD := DEFAULT_WINDOW / 3

  /** Timestamps that lag by two thirds of a window. */
  const WAVES: seq<Call> :=
    [Call(A, 0), Call(B, 0), Call(C, 0), Call(D, 3 * THIRD),
     Call(A, THIRD), Call(E, THIRD), Call(F, 4 * THIRD), Call(A, 2 * THIRD)]

  lemma GrantedMore(p: Policy, maxKeys: nat, calls: seq<Call>, call: Call, key: string, lo: Time, hi: Time)
    ensures var (answer, table) := Allow(p, maxKeys, TableAfter(p, maxKeys, calls), call.key, call.now);
            && TableAfter(p, maxKeys, calls + [call]) == table
            && Granted(p, maxKeys, calls + [call], key, lo, hi)
               == Granted(p, maxKeys, calls, key, lo, hi)
                  + if call.key == key && lo <= call.now < hi && answer == Allowed then 1 else 0
  {
    hide Allow;
    HistoryMore(p, maxKeys, calls, call);
    assert (calls + [call])[..|calls|] == calls;
  }

  lemma FirstWaveFills()
    ensures TableAfter(STRICT, 3, WAVES[..3]) == map[A := Entry(1, 0), B := Entry(1, 0), C := Entry(1, 0)]
    ensures Granted(STRICT, 3, WAVES[..3], A, 0, DEFAULT_WINDOW) == 1
  {
    hide TableAfter, Granted, Allow, Evicted, A, B, C, D;
    KeysDiffer();
    var t1, t2: Table := map[A := Entry(1, 0)], map[A := Entry(1, 0), B := Entry(1, 0)];
    var t3: Table := map[A := Entry(1, 0), B := Entry(1, 0), C := Entry(1, 0)];
    assert WAVES[..0] == [] && WAVES[..1] == WAVES[..0] + [WAVES[0]] && WAVES[..2] == WAVES[..1] + [WAVES[1]];
    assert WAVES[..3] == WAVES[..2] + [WAVES[2]];
    NothingGranted();
    GrantedMore(STRICT, 3, WAVES[..0], WAVES[0], A, 0, DEFAULT_WINDOW);
    NewWindow(STRICT, 3, map[], A, 0);
    GrantedMore(STRICT, 3, WAVES[..1], WAVES[1], A, 0, DEFAULT_WINDOW);
    NewWindow(STRICT, 3, t1, B, 0);
    assert t2 == t1[B := Entry(1, 0)] && t3 == t2[C := Entry(1, 0)];
    GrantedMore(STRICT, 3, WAVES[..2], WAVES[2], A, 0, DEFAULT_WINDOW);
    NewWindow(STRICT, 3, t2, C, 0);
  }

  lemma EvictsAll(k: string, l: string, m: string, t: Time, now: Time)
    requires k != l && k != m && l != m
    requires DEFAULT_WINDOW <= now - t
    ensures var table: Table := map[k := Entry(1, t), l := Entry(1, t), m := Entry(1, t)];
            |table| == 3 && Evicted(STRICT, table, now) == map[]
  {
    var table: Table := map[k := Entry(1, t), l := Entry(1, t), m := Entry(1, t)];
    assert table.Keys == {k, l, m};
  }

  lemma FirstWave()
    ensures TableAfter(STRICT, 3, WAVES[..4]) == map[D := Entry(1, 3 * THIRD)]
    ensures Granted(STRICT, 3, WAVES[..4], A, 0, DEFAULT_WINDOW) == 1
  {
    hide TableAfter, Granted, Allow, Evicted, A, B, C, D;
    KeysDiffer();
    FirstWaveFills();
    var t3: Table := map[A := Entry(1, 0), B := Entry(1, 0), C := Entry(1, 0)];
    assert WAVES[..4] == WAVES[..3] + [WAVES[3]];
    EvictsAll(A, B, C, 0, 3 * THIRD);
    GrantedMore(STRICT, 3, WAVES[..3], WAVES[3], A, 0, DEFAULT_WINDOW);
    NewWindowInFull(STRICT, 3, t3, D, 3 * THIRD);
  }

  lemma NothingGranted()
    ensures TableAfter(STRICT, 3, []) == map[] && Granted(STRICT, 3, [], A, 0, DEFAULT_WINDOW) == 0
  {
  }

  lemma SecondWaveFills()
    ensures TableAfter(STRICT, 3, WAVES[..6])
            == map[D := Entry(1, 3 * THIRD), A := Entry(1, THIRD), E := Entry(1, THIRD)]
    ensures Granted(STRICT, 3, WAVES[..6], A, 0, DEFAULT_WINDOW) == 2
  {
    hide TableAfter, Granted, Allow, A, B, C, D, E, F;
    KeysDiffer();
    FirstWave();
    var t4: Table := map[D := Entry(1, 3 * THIRD)];
    var t5 := t4[A := Entry(1, THIRD)];
    assert WAVES[..5] == WAVES[..4] + [WAVES[4]] && WAVES[..6] == WAVES[..5] + [WAVES[5]];
    assert |t4| == 1;
    GrantedMore(STRICT, 3, WAVES[..4], WAVES[4], A, 0, DEFAULT_WINDOW);
    NewWindow(STRICT, 3, t4, A, THIRD);
    GrantedMore(STRICT, 3, WAVES[..5], WAVES[5], A, 0, DEFAULT_WINDOW);
    NewWindow(STRICT, 3, t5, E, THIRD);
  }

  lemma EvictsTwo(k: string, l: string, m: string, s: Time, t: Time, now: Time)
    requires k != l && k != m && l != m
    requires now - s < DEFAULT_WINDOW <= now - t
    ensures var table: Table := map[k := Entry(1, s), l := Entry(1, t), m := Entry(1, t)];
            |table| == 3 && Evicted(STRICT, table, now) == map[k := Entry(1, s)]
  {
    var table: Table := map[k := Entry(1, s), l := Entry(1, t), m := Entry(1, t)];
    assert table.Keys == {k, l, m};
  }

  lemma SecondWave()
    ensures TableAfter(STRICT, 3, WAVES[..7]) == map[D := Entry(1, 3 * THIRD), F := Entry(1, 4 * THIRD)]
    ensures Granted(STRICT, 3, WAVES[..7], A, 0, DEFAULT_WINDOW) == 2
  {
    hide TableAfter, Granted, Allow, Evicted, A, B, C, D, E, F;
    KeysDiffer();
    SecondWaveFills();
    var t4: Table := map[D := Entry(1, 3 * THIRD)];
    var t6: Table := map[D := Entry(1, 3 * THIRD), A := Entry(1, THIRD), E := Entry(1, THIRD)];
    assert WAVES[..7] == WAVES[..6] + [WAVES[6]];
    EvictsTwo(D, A, E, 3 * THIRD, THIRD, 4 * THIRD);
    GrantedMore(STRICT, 3, WAVES[..6], WAVES[6], A, 0, DEFAULT_WINDOW);
    NewWindowInFull(STRICT, 3, t6, F, 4 * THIRD);
  }

  /** The bound for ordered timestamps fails when they lag: one window of a minute holds three requests
      where ordered timestamps allow two. */
  lemma LagRaisesBound()
    ensures ValidPolicy(STRICT) && Lagging(WAVES, 2 * THIRD)
    ensures Granted(STRICT, 3, WAVES, A, 0, STRICT.window) == 3 > (1 + 1) * STRICT.limit
  {
    hide TableAfter, Granted, Allow, A, B, C, D, E, F;
    KeysDiffer();
    SecondWave();
    assert WAVES == WAVES[..7] + [WAVES[7]];
    GrantedMore(STRICT, 3, WAVES[..7], WAVES[7], A, 0, DEFAULT_WINDOW);
    var t7: Table := map[D := Entry(1, 3 * THIRD), F := Entry(1, 4 * THIRD)];
    assert t7 == map[D := Entry(1, 3 * THIRD)][F := Entry(1, 4 * THIRD)];
    NewWindow(STRICT, 3, t7, A, 2 * THIRD);
  }

  // ---- the limiter object ----

  /** How `Allow` is called: a nil context, a live one, or one that is done. */
  datatype Context = NilContext | Live | Done

  predicate ValidKey(key: string) {
    1 <= |key| <= MAX_KEY_BYTES
  }

  /** NewMemory's checks: a limiter is built exactly when its settings, zeros replaced by the defaults
      where there is one, are valid. */
  function Configure(policy: Policy, maxKeys: int): (r: Option<(Policy, nat)>)
    ensures var p := Policy(policy.limit, OrDefault(policy.window, DEFAULT_WINDOW));
            var keys := OrDefault(maxKeys, DEFAULT_MAX_KEYS);
            && (r.Some? <==> ValidPolicy(p) && 1 <= keys <= MAX_KEYS)
            && (r.Some? ==> r.value == (p, keys))
  {
    var p := if policy.window == 0 then policy.(window := DEFAULT_WINDOW) else policy;
    var keys := if maxKeys == 0 then DEFAULT_MAX_KEYS else maxKeys;
    if p.limit < 1 || p.window < MILLISECOND || p.window > MAX_WINDOW then None
    else if keys < 1 || keys > MAX_KEYS then None
    else Some((p, keys))
  }

  /** The limiter. `history` records the calls that got the lock, and the table is always the one that
      they lead to, so every theorem about histories holds of the object. */
  class Memory {
    const policy: Policy
    const maxKeys: nat
    var entries: Table
    ghost var history: seq<Call>

    ghost predicate Valid()
      reads this
    {
      ValidPolicy(policy) && maxKeys >= 1 && entries == TableAfter(policy, maxKeys, history)
    }

    constructor (config: (Policy, nat))
      requires ValidPolicy(config.0) && config.1 >= 1
      ensures Valid() && history == []
      ensures policy == config.0 && maxKeys == config.1 && entries == map[]
    {
      policy, maxKeys := config.0, config.1;
      entries, history := map[], [];
    }

    method EvictExpired(now: Time)
      modifies this`entries
      ensures entries == Evicted(policy, old(entries), now)
    {
      var keys := entries.Keys;
      while keys != {}
        invariant keys <= old(entries).Keys
        invariant forall k :: k in entries ==> k in old(entries) && entries[k] == old(entries)[k]
        invariant forall k :: k in old(entries) ==>
                    (k in entries <==> k in keys || !Expired(policy, old(entries)[k], now))
        decreases |keys|
      {
        var key :| key in keys;
        if Expired(policy, entries[key], now) {
          entries := entries - {key};
        }
        keys := keys - {key};
      }
    }

    /** Allow, with the time it read and the context it was given. */
    method Request(ctx: Context, key: string, now: Time) returns (answer: Answer)
      requires Valid()
      modifies this
      ensures Valid()
      ensures !ctx.NilContext? && ValidKey(key) && ctx.Live? ==>
                && history == old(history) + [Call(key, now)]
                && answer == LastAnswer(policy, maxKeys, history)
                && (answer, entries) == Allow(policy, maxKeys, old(entries), key, now)
      ensures !(!ctx.NilContext? && ValidKey(key) && ctx.Live?) ==>
                && entries == old(entries) && history == old(history)
                && answer == Refused(if ctx.NilContext? then InvalidPolicy
                                     else if !ValidKey(key) then InvalidKey
                                     else ContextDone)
    {
      hide TableAfter, LastAnswer, Expired;
      if ctx.NilContext? {
        return Refused(InvalidPolicy);
      }
      if !ValidKey(key) {
        return Refused(InvalidKey);
      }
      if ctx.Done? {
        return Refused(ContextDone);
      }
      HistoryMore(policy, maxKeys, history, Call(key, now));
      history := history + [Call(key, now)];
      var found := key in entries;
      if !found || Expired(policy, entries[key], now) {
        if !found && |entries| >= maxKeys {
          EvictExpired(now);
          if |entries| >= maxKeys {
            return Refused(Capacity);
          }
        }
        entries := entries[key := Entry(1, now)];
        return Allowed;
      }
      var current := entries[key];
      if current.count >= policy.limit {
        return Limited;
      }
      entries := entries[key := current.(count := current.count + 1)];
      return Allowed;
    }
  }
}
