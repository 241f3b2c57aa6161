/** Lock-out of a student id after repeated failed joins: the compressed counters against the run of calls. */
module AgentJoinLock {
  import opened Options

  const MAX_FAILURES: nat := 5
  const BASE_LOCKOUT_MS: int := 5 * 60_000
  const MAX_LOCKOUT_MS: int := 60 * 60_000
  const NOTIFY_THROTTLE_MS: int := 30_000

  datatype LockEntry = LockEntry(failureCount: nat, lockedUntil: Option<int>, lockStrikes: nat, lastNotifiedAt: int)

  datatype LockStatus = Locked(retryAfterMs: int) | Unlocked

  /** What the store holds under one key. */
  type Slot = Option<LockEntry>

  const NEW_ENTRY := LockEntry(0, None, 0, 0)

  function LowerChar(c: char): char { if 'A' <= c <= 'Z' then c - 'A' + 'a' else c }

  function Key(mssv: string): string {
    if mssv == "" then "" else [LowerChar(mssv[0])] + Key(mssv[1..])
  }

  function Pow2(k: nat): nat { if k == 0 then 1 else 2 * Pow2(k - 1) }

  function Duration(strikes: nat): int {
    var doubled := BASE_LOCKOUT_MS * Pow2(strikes);
    if doubled < MAX_LOCKOUT_MS then doubled else MAX_LOCKOUT_MS
  }

  /** The truth value of `lockedUntil`: neither null nor 0. */
  predicate IsSet(e: LockEntry) { e.lockedUntil.Some? && e.lockedUntil.value != 0 }

  predicate Live(e: LockEntry, now: int) { IsSet(e) && e.lockedUntil.value > now }

  function OrNew(slot: Slot): LockEntry { if slot.None? then NEW_ENTRY else slot.value }

  // ---------- one call on one slot ----------

  function Checked(slot: Slot, now: int): Slot {
    if slot.Some? && IsSet(slot.value) && !Live(slot.value, now)
    then Some(slot.value.(lockedUntil := None, failureCount := 0))
    else slot
  }

  function CheckStatus(slot: Slot, now: int): LockStatus {
    if slot.Some? && Live(slot.value, now) then Locked(slot.value.lockedUntil.value - now) else Unlocked
  }

  function Recorded(slot: Slot, now: int): Slot {
    var e := OrNew(slot);
    if Live(e, now) then Some(e)
    else if e.failureCount + 1 < MAX_FAILURES then Some(e.(failureCount := e.failureCount + 1))
    else
      var until := Some(now + Duration(e.lockStrikes));
      Some(e.(failureCount := 0, lockedUntil := until, lockStrikes := e.lockStrikes + 1))
  }

  function RecordStatus(slot: Slot, now: int): LockStatus {
    var e := OrNew(slot);
    if Live(e, now) then Locked(e.lockedUntil.value - now)
    else if e.failureCount + 1 < MAX_FAILURES then Unlocked
    else Locked(Duration(e.lockStrikes))
  }

  predicate NotifyGranted(slot: Slot, now: int) { now - OrNew(slot).lastNotifiedAt >= NOTIFY_THROTTLE_MS }

  function Notified(slot: Slot, now: int): Slot {
    if NotifyGranted(slot, now) then Some(OrNew(slot).(lastNotifiedAt := now)) else Some(OrNew(slot))
  }

  // ---------- the store ----------

  type Entries = map<string, LockEntry>

  function Get(entries: Entries, key: string): Slot { if key in entries then Some(entries[key]) else None }

  function Put(entries: Entries, key: string, slot: Slot): Entries {
    if slot.None? then entries - {key} else entries[key := slot.value]
  }

  class AgentJoinLockStore {
    var entries: Entries

    constructor ()
      ensures entries == map[]
    {
      entries := map[];
    }

    method CheckLock(mssv: string, now: int) returns (status: LockStatus)
      modifies this
      ensures status == CheckStatus(Get(old(entries), Key(mssv)), now)
      ensures entries == Put(old(entries), Key(mssv), Checked(Get(old(entries), Key(mssv)), now))
    {
      var key := Key(mssv);
      if key !in entries || !IsSet(entries[key]) {
        return Unlocked;
      }
      var remaining := entries[key].lockedUntil.value - now;
      if remaining <= 0 {
        entries := entries[key := entries[key].(lockedUntil := None)];
        entries := entries[key := entries[key].(failureCount := 0)];
        return Unlocked;
      }
      return Locked(remaining);
    }

    method RecordFailure(mssv: string, now: int) returns (status: LockStatus)
      modifies this
      ensures status == RecordStatus(Get(old(entries), Key(mssv)), now)
      ensures entries == Put(old(entries), Key(mssv), Recorded(Get(old(entries), Key(mssv)), now))
    {
      var key := Key(mssv);
      var entry := if key in entries then entries[key] else NEW_ENTRY;
      if IsSet(entry) && entry.lockedUntil.value > now {
        entries := entries[key := entry];
        return Locked(entry.lockedUntil.value - now);
      }
      entry := entry.(failureCount := entry.failureCount + 1);
      if entry.failureCount < MAX_FAILURES {
        entries := entries[key := entry];
        return Unlocked;
      }
      var durationMs := Duration(entry.lockStrikes);
      entry := entry.(lockedUntil := Some(now + durationMs));
      entry := entry.(lockStrikes := entry.lockStrikes + 1);
      entry := entry.(failureCount := 0);
      entries := entries[key := entry];
      return Locked(durationMs);
    }

    method Clear(mssv: string)
      modifies this
      ensures entries == Put(old(entries), Key(mssv), None)
    {
      entries := entries - {Key(mssv)};
    }

    method ShouldNotify(mssv: string, now: int) returns (granted: bool)
      modifies this
      ensures granted == NotifyGranted(Get(old(entries), Key(mssv)), now)
      ensures entries == Put(old(entries), Key(mssv), Notified(Get(old(entries), Key(mssv)), now))
    {
      var key := Key(mssv);
      var entry := if key in entries then entries[key] else NEW_ENTRY;
      if now - entry.lastNotifiedAt < NOTIFY_THROTTLE_MS {
        entries := entries[key := entry];
        return false;
      }
      entry := entry.(lastNotifiedAt := now);
      entries := entries[key := entry];
      return true;
    }
  }

  // ---------- runs ----------

  datatype Kind = Check | Record | Clear | Notify

  datatype Event = Event(kind: Kind, now: int)

  datatype Call = Call(mssv: string, event: Event)

  function SlotStep(slot: Slot, e: Event): Slot {
    match e.kind
    case Check => Checked(slot, e.now)
    case Record => Recorded(slot, e.now)
    case Clear => None
    case Notify => Notified(slot, e.now)
  }

  /** The state the store's methods leave after a run of calls. */
  function StoreRun(calls: seq<Call>): Entries {
    if calls == [] then map[]
    else
      var entries, c := StoreRun(calls[..|calls| - 1]), calls[|calls| - 1];
      Put(entries, Key(c.mssv), SlotStep(Get(entries, Key(c.mssv)), c.event))
  }

  function Run(slot: Slot, es: seq<Event>): Slot {
    if es == [] then slot else SlotStep(Run(slot, es[..|es| - 1]), es[|es| - 1])
  }

  /** The calls that concern one key, in order. */
  function EventsOf(calls: seq<Call>, key: string): seq<Event> {
    if calls == [] then []
    else
      var rest, c := EventsOf(calls[..|calls| - 1], key), calls[|calls| - 1];
      if Key(c.mssv) == key then rest + [c.event] else rest
  }

  lemma RunSnoc(slot: Slot, es: seq<Event>, e: Event)
    ensures Run(slot, es + [e]) == SlotStep(Run(slot, es), e)
  {
    assert (es + [e])[..|es|] == es;
  }

  /** Students do not disturb each other: what is held under a key depends on that key's own calls only. */
  lemma {:induction false} KeysAreIndependent(calls: seq<Call>, key: string)
    ensures Get(StoreRun(calls), key) == Run(None, EventsOf(calls, key))
  {
    if calls != [] {
      var n := |calls| - 1;
      KeysAreIndependent(calls[..n], key);
      RunSnoc(None, EventsOf(calls[..n], key), calls[n].event);
    }
  }

  /** The same letter, or its other case. */
  predicate SameLetter(c: char, d: char) {
    || c == d
    || ('A' <= c <= 'Z' && d as int == c as int + 32)
    || ('A' <= d <= 'Z' && c as int == d as int + 32)
  }

  /** Two ids share a slot if and only if they differ in nothing but the case of letters. */
  lemma {:induction false} SameKeyExactly(a: string, b: string)
    ensures |Key(a)| == |a|
    ensures Key(a) == Key(b) <==> |a| == |b| && forall i :: 0 <= i < |a| ==> SameLetter(a[i], b[i])
  {
    KeySize(a);
    KeySize(b);
    if |a| == |b| && a != "" {
      SameKeyExactly(a[1..], b[1..]);
      LowerIsSame(a[0], b[0]);
      assert Key(a)[0] == LowerChar(a[0]) && Key(a)[1..] == Key(a[1..]);
      assert Key(b)[0] == LowerChar(b[0]) && Key(b)[1..] == Key(b[1..]);
      assert forall i :: 0 <= i < |a| - 1 ==> a[1..][i] == a[i + 1] && b[1..][i] == b[i + 1];
      assert forall i :: 0 < i < |a| ==> a[i] == a[1..][i - 1] && b[i] == b[1..][i - 1];
    }
  }

  lemma {:induction false} KeySize(a: string)
    ensures |Key(a)| == |a|
  {
    if a != "" { KeySize(a[1..]); }
  }

  lemma LowerIsSame(c: char, d: char)
    ensures LowerChar(c) == LowerChar(d) <==> SameLetter(c, d)
  {
  }

  // ---------- accounting ----------

  /** Since the last clear: failures counted, counted failures a check threw away, locks fired. */
  datatype Book = Book(counted: nat, lost: nat, locks: nat)

  function BookStep(b: Book, slot: Slot, e: Event): Book {
    match e.kind
    case Clear => Book(0, 0, 0)
    case Notify => b
    case Record =>
      if Live(OrNew(slot), e.now) then b
      else b.(counted := b.counted + 1, locks := b.locks + if RecordStatus(slot, e.now).Locked? then 1 else 0)
    case Check =>
      if slot.Some? && IsSet(slot.value) && !Live(slot.value, e.now)
      then b.(lost := b.lost + slot.value.failureCount)
      else b
  }

  function BookOf(es: seq<Event>): Book {
    if es == [] then Book(0, 0, 0)
    else BookStep(BookOf(es[..|es| - 1]), Run(None, es[..|es| - 1]), es[|es| - 1])
  }

  ghost predicate Balanced(slot: Slot, b: Book) {
    var e := OrNew(slot);
    && e.failureCount < MAX_FAILURES
    && e.lockStrikes == b.locks
    && MAX_FAILURES * e.lockStrikes + e.failureCount + b.lost == b.counted
  }

  /** Every counted failure is in a strike, in the running count, or was thrown away with an expired lock. */
  lemma {:induction false} Accounting(es: seq<Event>)
    ensures Balanced(Run(None, es), BookOf(es))
  {
    if es != [] { Accounting(es[..|es| - 1]); }
  }

  lemma BookSnoc(es: seq<Event>, e: Event)
    ensures Run(None, es + [e]) == SlotStep(Run(None, es), e)
    ensures BookOf(es + [e]) == BookStep(BookOf(es), Run(None, es), e)
  {
    assert (es + [e])[..|es|] == es;
  }

  /** Call `i` is a check that clears an expired lock and with it a running count. */
  ghost predicate Forgets(es: seq<Event>, i: int) {
    && 0 <= i < |es| && es[i].kind == Check
    && var slot := Run(None, es[..i]);
       slot.Some? && IsSet(slot.value) && !Live(slot.value, es[i].now) && slot.value.failureCount > 0
  }

  /** Some check since the last clear forgets failures. */
  ghost predicate SomeForgotten(es: seq<Event>) {
    exists i :: Forgets(es, i) && forall k :: i < k < |es| ==> es[k].kind != Clear
  }

  lemma ForgottenSnoc(es: seq<Event>)
    requires es != []
    ensures var n := |es| - 1;
            SomeForgotten(es) <==> es[n].kind != Clear && (Forgets(es, n) || SomeForgotten(es[..n]))
  {
    var n := |es| - 1;
    forall i | 0 <= i < n ensures es[..n][..i] == es[..i] {}
    if SomeForgotten(es[..n]) && es[n].kind != Clear {
      var i :| Forgets(es[..n], i) && forall k :: i < k < n ==> es[..n][k].kind != Clear;
      assert Forgets(es, i);
    }
    if SomeForgotten(es) {
      var i :| Forgets(es, i) && forall k :: i < k < |es| ==> es[k].kind != Clear;
      if i < n { assert Forgets(es[..n], i); }
    }
  }

  /** Failures are lost exactly when a check since the last clear met an expired lock with a running count. */
  lemma {:induction false} LostExactly(es: seq<Event>)
    ensures BookOf(es).lost > 0 <==> SomeForgotten(es)
  {
    if es != [] {
      LostExactly(es[..|es| - 1]);
      ForgottenSnoc(es);
    }
  }

  /** The two counters say how many failures were counted since the last clear exactly when no check forgot any. */
  lemma CountersExactly(es: seq<Event>)
    ensures var e := OrNew(Run(None, es));
            BookOf(es).counted == 5 * e.lockStrikes + e.failureCount <==> !SomeForgotten(es)
  {
    Accounting(es);
    LostExactly(es);
  }

  lemma {:induction false} FirstFailures(n: nat) returns (es: seq<Event>)
    requires n < MAX_FAILURES
    ensures Run(None, es) == if n == 0 then None else Some(LockEntry(n, None, 0, 0))
    ensures BookOf(es) == Book(n, 0, 0)
  {
    es := [];
    if n > 0 {
      var fewer := FirstFailures(n - 1);
      es := fewer + [Event(Record, 0)];
      BookSnoc(fewer, Event(Record, 0));
    }
  }

  /** It does happen: a failure recorded after the lock ran out is forgotten by the next check. */
  lemma FailuresCanBeLost()
    ensures exists es :: BookOf(es) == Book(6, 1, 1) && Run(None, es) == Some(LockEntry(0, None, 1, 0))
  {
    var late := BASE_LOCKOUT_MS;
    var four := FirstFailures(4);
    BookSnoc(four, Event(Record, 0));
    var five := four + [Event(Record, 0)];
    assert Run(None, five) == Some(LockEntry(0, Some(late), 1, 0)) by { assert Pow2(0) == 1; }
    BookSnoc(five, Event(Record, late));
    BookSnoc(five + [Event(Record, late)], Event(Check, late));
  }

  ghost predicate ClockMonotone(es: seq<Event>) {
    forall i, j :: 0 <= i < j < |es| ==> es[i].now <= es[j].now
  }

  /** Call `i` is a check that let the attempt through. */
  ghost predicate PassedCheck(es: seq<Event>, i: int) {
    0 <= i < |es| && es[i].kind == Check && CheckStatus(Run(None, es[..i]), es[i].now).Unlocked?
  }

  /** The attempt behind the failure at `r` passed its check less than the shortest lock-out before. */
  ghost predicate PromptFailure(es: seq<Event>, r: int)
    requires 0 <= r < |es|
  {
    exists i :: PassedCheck(es, i) && i < r && es[r].now < es[i].now + 300_000
  }

  /** The gateway's order: every attempt checks first and ends within five minutes. Attempts may interleave. */
  ghost predicate ChecksFirst(es: seq<Event>) {
    forall r :: 0 <= r < |es| && es[r].kind == Record ==> PromptFailure(es, r)
  }

  lemma {:induction false} DurationBounds(strikes: nat)
    ensures BASE_LOCKOUT_MS <= Duration(strikes) <= MAX_LOCKOUT_MS
    ensures Pow2(strikes) >= 1
  {
    if strikes > 0 { DurationBounds(strikes - 1); }
  }

  /** A lock still on record after a passed check was set after that check, so it lasts five minutes beyond it. */
  lemma {:induction false} LocksAfterCheckAreYoung(es: seq<Event>, i: nat)
    requires ClockMonotone(es) && PassedCheck(es, i)
    ensures var s := Run(None, es);
            s.Some? && IsSet(s.value) ==> s.value.lockedUntil.value >= es[i].now + BASE_LOCKOUT_MS
  {
    var n := |es| - 1;
    if i < n {
      assert es[..n][..i] == es[..i];
      LocksAfterCheckAreYoung(es[..n], i);
      DurationBounds(OrNew(Run(None, es[..n])).lockStrikes);
      assert es[i].now <= es[n].now;
    }
  }

  /** A lock on record never sits beside a running count. */
  ghost predicate CountIsFresh(slot: Slot) {
    slot.Some? && IsSet(slot.value) ==> slot.value.failureCount == 0
  }

  lemma {:induction false} CountStaysFresh(es: seq<Event>)
    requires ClockMonotone(es) && ChecksFirst(es)
    ensures CountIsFresh(Run(None, es))
  {
    if es != [] {
      var n := |es| - 1;
      var before := es[..n];
      ChecksFirstBefore(es, n);
      CountStaysFresh(before);
      if es[n].kind == Record {
        assert PromptFailure(es, n);
        var i :| PassedCheck(es, i) && i < n && es[n].now < es[i].now + 300_000;
        assert before[..i] == es[..i];
        LocksAfterCheckAreYoung(before, i);
      }
    }
  }

  lemma ChecksFirstBefore(es: seq<Event>, n: nat)
    requires ChecksFirst(es) && n <= |es|
    ensures ChecksFirst(es[..n])
  {
    var before := es[..n];
    forall r | 0 <= r < n && before[r].kind == Record ensures PromptFailure(before, r) {
      assert PromptFailure(es, r);
      var i :| PassedCheck(es, i) && i < r && es[r].now < es[i].now + 300_000;
      assert before[..i] == es[..i];
      assert PassedCheck(before, i);
    }
  }

  /** Under the gateway's order no check ever forgets a failure. */
  lemma NothingIsLost(es: seq<Event>)
    requires ClockMonotone(es) && ChecksFirst(es)
    ensures BookOf(es).lost == 0 && CountIsFresh(Run(None, es))
    ensures forall i :: !Forgets(es, i)
  {
    forall i ensures !Forgets(es, i) {
      if 0 <= i < |es| {
        ChecksFirstBefore(es, i);
        CountStaysFresh(es[..i]);
      }
    }
    CountStaysFresh(es);
    LostExactly(es);
  }

  /** Under the gateway's order the two counters say exactly how many failures were counted since the last clear. */
  lemma CountersAreExact(es: seq<Event>)
    requires ClockMonotone(es) && ChecksFirst(es)
    ensures var e := OrNew(Run(None, es));
            BookOf(es).counted == 5 * e.lockStrikes + e.failureCount && e.failureCount < 5
  {
    Accounting(es);
    NothingIsLost(es);
    CountersExactly(es);
  }

  // ---------- how long a lock lasts ----------

  /** Five minutes doubling per strike, capped at an hour. */
  lemma LockLengths(strikes: nat)
    ensures Duration(strikes) == 60_000 * if strikes < 4 then [5, 10, 20, 40][strikes] else 60
  {
    assert Pow2(1) == 2 && Pow2(2) == 4 && Pow2(3) == 8 && Pow2(4) == 16;
    if strikes > 4 { Pow2Grows(4, strikes); }
  }

  lemma {:induction false} Pow2Grows(a: nat, b: nat)
    requires a <= b
    ensures Pow2(a) <= Pow2(b)
  {
    if a < b { Pow2Grows(a, b - 1); }
  }

  /** Attempts, checks and notifications before the lock runs out; no successful join. */
  ghost predicate WhileLocked(es: seq<Event>, until: int) {
    forall i :: 0 <= i < |es| ==> es[i].kind != Clear && es[i].now < until
  }

  /** Nothing done while a lock holds extends it, shortens it, counts or strikes. */
  lemma {:induction false} LockStandsStill(e: LockEntry, es: seq<Event>)
    requires IsSet(e) && WhileLocked(es, e.lockedUntil.value)
    ensures var s := Run(Some(e), es); s.Some? && s.value.(lastNotifiedAt := e.lastNotifiedAt) == e
  {
    if es != [] { LockStandsStill(e, es[..|es| - 1]); }
  }

  /**
   * The failure that fires a lock at `now` after `k` locks since the last clear closes the id for exactly
   * `Duration(k)`: until then every check and every failure is answered with the time that remains, whatever
   * happened in between; from then on the check passes and leaves a clean count.
   */
  lemma LockLastsExactly(es: seq<Event>, now: int, during: seq<Event>, later: int)
    requires !Live(OrNew(Run(None, es)), now) && RecordStatus(Run(None, es), now).Locked?
    requires now + Duration(BookOf(es).locks) != 0
    requires WhileLocked(during, now + Duration(BookOf(es).locks))
    ensures RecordStatus(Run(None, es), now) == Locked(Duration(BookOf(es).locks))
    ensures var s, until := Run(Recorded(Run(None, es), now), during), now + Duration(BookOf(es).locks);
            var cleared := OrNew(Checked(s, later));
            && CheckStatus(s, later) == (if later < until then Locked(until - later) else Unlocked)
            && (later < until ==> RecordStatus(s, later) == Locked(until - later))
            && (later >= until ==> cleared.lockedUntil.None? && cleared.failureCount == 0)
  {
    Accounting(es);
    LockStandsStill(Recorded(Run(None, es), now).value, during);
  }

  // ---------- notifications ----------

  /** Call `j` of the run is a notification that goes out. */
  ghost predicate Granted(es: seq<Event>, j: int) {
    0 <= j < |es| && es[j].kind == Notify && NotifyGranted(Run(None, es[..j]), es[j].now)
  }

  lemma {:induction false} GrantIsRemembered(es: seq<Event>, i: nat)
    requires Granted(es, i) && forall k :: i < k < |es| ==> es[k].kind != Clear
    ensures var s := Run(None, es); s.Some? && s.value.lastNotifiedAt >= es[i].now
  {
    var n := |es| - 1;
    if i < n {
      assert es[..n][..i] == es[..i];
      GrantIsRemembered(es[..n], i);
    }
  }

  /** Two notifications about one student go out less than thirty seconds apart only across a successful join. */
  lemma ThrottleHolds(es: seq<Event>, i: nat, j: nat)
    requires i < j && Granted(es, i) && Granted(es, j) && es[j].now - es[i].now < 30_000
    ensures exists k :: i < k < j && es[k].kind == Clear
  {
    if forall k :: i < k < j ==> es[k].kind != Clear {
      assert es[..j][..i] == es[..i];
      GrantIsRemembered(es[..j], i);
    }
  }

  /** A student nobody was notified about yet is notified about once the clock has run thirty seconds. */
  lemma {:induction false} FirstNotification(es: seq<Event>, now: int)
    requires forall k :: 0 <= k < |es| ==> !Granted(es, k)
    ensures OrNew(Run(None, es)).lastNotifiedAt == 0
    ensures NotifyGranted(Run(None, es), now) <==> now >= 30_000
  {
    if es != [] {
      var n := |es| - 1;
      forall k | 0 <= k < n ensures !Granted(es[..n], k) {
        assert es[..n][..k] == es[..k];
        assert !Granted(es, k);
      }
      FirstNotification(es[..n], now);
      assert !Granted(es, n);
    }
  }

  /** Some join succeeded after call `i`. */
  ghost predicate ClearedSince(es: seq<Event>, i: int) { exists k :: 0 <= k && i < k < |es| && es[k].kind == Clear }

  lemma {:induction false} LastNotified(es: seq<Event>, i: nat)
    requires Granted(es, i) && forall k :: i < k < |es| ==> !Granted(es, k)
    ensures OrNew(Run(None, es)).lastNotifiedAt == if ClearedSince(es, i) then 0 else es[i].now
  {
    var n := |es| - 1;
    if i < n {
      assert es[..n][..i] == es[..i];
      forall k | i < k < n ensures !Granted(es[..n], k) {
        assert es[..n][..k] == es[..k];
        assert !Granted(es, k);
      }
      LastNotified(es[..n], i);
      assert !Granted(es, n);
      if ClearedSince(es[..n], i) {
        var k :| 0 <= k && i < k < n && es[..n][k].kind == Clear;
        assert es[k].kind == Clear;
      }
      if es[n].kind != Clear && ClearedSince(es, i) {
        var k :| 0 <= k && i < k < |es| && es[k].kind == Clear;
        assert es[..n][k].kind == Clear;
      }
    }
  }

  /**
   * Exactly when the next notification after one that went out goes out too: thirty seconds later, or, once a
   * join has succeeded in between, at once (the clock reading more than thirty seconds past its origin).
   */
  lemma NextNotification(es: seq<Event>, i: nat, now: int)
    requires Granted(es, i) && forall k :: i < k < |es| ==> !Granted(es, k)
    ensures NotifyGranted(Run(None, es), now) <==>
            now - (if ClearedSince(es, i) then 0 else es[i].now) >= 30_000
  {
    LastNotified(es, i);
  }

  /** The join in between does matter: clearing also forgets when the last notification went out. */
  lemma ClearForgetsTheNotification(es: seq<Event>, now: int, later: int)
    requires later >= 30_000
    ensures NotifyGranted(Run(None, es + [Event(Notify, now), Event(Clear, now)]), later)
  {
    var n := Event(Notify, now);
    assert es + [n, Event(Clear, now)] == es + [n] + [Event(Clear, now)];
    RunSnoc(None, es + [n], Event(Clear, now));
  }
}
