/**
 The in-memory login throttle: a bounded map of failure counts that expire, with an
 arbitrary entry evicted when it is full. It is proved against the history of failures,
 which knows nothing of expiry sweeps or of the map.
 */
module Throttle {
  import opened Numerals

  const MAX_FAILURE_KEYS := 10000

  type Key = string

  /** `time` is the monotone clock; `lockout` is the configured duration. */
  datatype Event =
    | Failure(key: Key, time: nat)
    | Cleared(key: Key)
    | Evicted(key: Key)

  type History = seq<Event>

  datatype Streak = NoStreak | Streak(count: nat, last: nat)

  /**
   The current streak of a key: its failures since the last clear, eviction, or pause between
   two failures of at least one lockout.
   */
  function CurrentStreak(h: History, key: Key, lockout: nat): Streak {
    if h == [] then NoStreak
    else
      var e := h[|h| - 1];
      var before := CurrentStreak(h[..|h| - 1], key, lockout);
      NextStreak(before, e, key, lockout)
  }

  function NextStreak(before: Streak, e: Event, key: Key, lockout: nat): Streak {
    if e.key != key then before
    else match e
      case Failure(_, t) =>
        if before.Streak? && t < before.last + lockout then Streak(before.count + 1, t) else Streak(1, t)
      case _ => NoStreak
  }

  lemma {:induction false} StreakAfter(h: History, e: Event, key: Key, lockout: nat)
    ensures CurrentStreak(h + [e], key, lockout) == NextStreak(CurrentStreak(h, key, lockout), e, key, lockout)
  {
  }

  /** Locked: the streak has reached the maximum and its last failure is less than one lockout old. */
  predicate Locked(h: History, key: Key, lockout: nat, max: nat, now: nat) {
    var s := CurrentStreak(h, key, lockout);
    s.Streak? && s.count >= max && now < s.last + lockout
  }

  // ---------------------------------------------------------------- the history, counted directly

  /** The failures of a key in a history, as their times. */
  function FailureTimes(h: History, key: Key): seq<nat> {
    if h == [] then []
    else
      var e := h[|h| - 1];
      FailureTimes(h[..|h| - 1], key) + (if e.key == key && e.Failure? then [e.time] else [])
  }

  predicate NeverReset(h: History, key: Key) {
    forall i | 0 <= i < |h| && h[i].key == key :: h[i].Failure?
  }

  predicate NoPause(times: seq<nat>, lockout: nat) {
    forall i | 0 < i < |times| :: times[i] < times[i - 1] + lockout
  }

  /** The streak is exactly the longest unbroken run of failures that ends the history. */
  lemma {:induction false} StreakCountsFailures(h: History, key: Key, lockout: nat)
    ensures CurrentStreak(h, key, lockout).NoStreak? ==>
            exists i :: QuietFrom(h, i, key)
    ensures CurrentStreak(h, key, lockout).Streak? ==> exists i :: StreakFrom(h, i, key, lockout)
  {
    if h == [] {
      assert QuietFrom(h, 0, key);
    } else {
      var n := |h| - 1;
      var e, before := h[n], CurrentStreak(h[..n], key, lockout);
      StreakCountsFailures(h[..n], key, lockout);
      if e.key == key && !e.Failure? {
        assert QuietFrom(h, n + 1, key);
      } else if before.Streak? && e.key == key && e.time >= before.last + lockout {
        TimesSnoc(h, n, key);
        assert StreakFrom(h, n, key, lockout);
      } else if before.NoStreak? {
        var i :| QuietFrom(h[..n], i, key);
        QuietExtends(h, i, key, lockout);
      } else {
        var i :| StreakFrom(h[..n], i, key, lockout);
        StreakExtends(h, i, key, lockout);
      }
    }
  }

  lemma {:induction false} QuietExtends(h: History, i: int, key: Key, lockout: nat)
    requires |h| > 0 && QuietFrom(h[..|h| - 1], i, key)
    requires h[|h| - 1].key == key ==> h[|h| - 1].Failure?
    requires CurrentStreak(h[..|h| - 1], key, lockout).NoStreak?
    ensures if h[|h| - 1].key == key then StreakFrom(h, i, key, lockout) else QuietFrom(h, i, key)
  {
    TimesSnoc(h, i, key);
    assert i == 0 || h[..|h| - 1][i - 1] == h[i - 1];
    if h[|h| - 1].key == key {
      assert FailureTimes(h[i..], key) == [h[|h| - 1].time];
    }
  }

  lemma {:induction false} StreakExtends(h: History, i: int, key: Key, lockout: nat)
    requires |h| > 0 && StreakFrom(h[..|h| - 1], i, key, lockout)
    requires h[|h| - 1].key == key ==>
               h[|h| - 1].Failure? && h[|h| - 1].time < CurrentStreak(h[..|h| - 1], key, lockout).last + lockout
    ensures StreakFrom(h, i, key, lockout)
  {
    TimesSnoc(h, i, key);
  }

  /** From position i on, the key has neither failed nor been reset, and i is a reset or the beginning. */
  ghost predicate QuietFrom(h: History, i: int, key: Key) {
    && 0 <= i <= |h|
    && NeverReset(h[i..], key)
    && FailureTimes(h[i..], key) == []
    && (i == 0 || IsReset(h[i - 1], key))
  }

  predicate IsReset(e: Event, key: Key) {
    e.key == key && !e.Failure?
  }

  /** The streak starts at position i: nothing before it belongs to it, nothing after interrupts it. */
  ghost predicate StreakFrom(h: History, i: int, key: Key, lockout: nat) {
    && 0 <= i <= |h|
    && NeverReset(h[i..], key)
    && var times := FailureTimes(h[i..], key);
       var s := CurrentStreak(h, key, lockout);
       && |times| > 0 && NoPause(times, lockout)
       && s == Streak(|times|, times[|times| - 1])
       && (i == 0 || IsReset(h[i - 1], key)
           || (var earlier := CurrentStreak(h[..i], key, lockout);
               earlier.Streak? && times[0] >= earlier.last + lockout))
  }

  lemma {:induction false} TimesSnoc(h: History, i: nat, key: Key)
    requires i < |h|
    ensures h[i..][..|h| - 1 - i] == h[..|h| - 1][i..]
    ensures h[..|h| - 1][..i] == h[..i]
    ensures NeverReset(h[i..], key) <==>
            NeverReset(h[..|h| - 1][i..], key) && (h[|h| - 1].key == key ==> h[|h| - 1].Failure?)
    ensures FailureTimes(h[i..], key) ==
            FailureTimes(h[..|h| - 1][i..], key)
            + (if h[|h| - 1].key == key && h[|h| - 1].Failure? then [h[|h| - 1].time] else [])
  {
  }

  // ---------------------------------------------------------------- keys

  function LowerChar(c: char): char {
    if 'A' <= c <= 'Z' then (c as int + 32) as char else c
  }

  function Lower(s: string): (r: string)
    ensures |r| == |s| && forall i | 0 <= i < |s| :: r[i] == LowerChar(s[i])
  {
    seq(|s|, i requires 0 <= i < |s| => LowerChar(s[i]))
  }

  const CAPITALS := "ABCDEFGHIJKLMNOPQRSTUVWXYZ"
  const SMALL := "abcdefghijklmnopqrstuvwxyz"

  /** Exactly the 26 capital letters change, each to its small letter. */
  lemma {:induction false} LowerIsAscii(c: char)
    ensures forall k | 0 <= k < 26 :: LowerChar("ABCDEFGHIJKLMNOPQRSTUVWXYZ"[k]) == "abcdefghijklmnopqrstuvwxyz"[k]
    ensures c !in "ABCDEFGHIJKLMNOPQRSTUVWXYZ" ==> LowerChar(c) == c
  {
    assert 'A' <= c <= 'Z' ==> CAPITALS[c as int - 65] == c;
    forall k | 0 <= k < 26
      ensures CAPITALS[k] as int == 65 + k && SMALL[k] as int == 97 + k
    {
    }
  }

  function ThrottleKey(login: string, ip: string): (key: Key)
    ensures |key| > 0 && key[0] == 'l'
  {
    "login\n" + Lower(login) + "\n" + ip
  }

  function IpThrottleKey(ip: string): (key: Key)
    ensures |key| > 0 && key[0] == 'i'
  {
    "ip\n" + ip
  }

  /** Login keys coincide only for the same address and the same login up to ASCII case. */
  lemma {:induction false} ThrottleKeysDistinct(login1: string, ip1: string, login2: string, ip2: string)
    requires '\n' !in ip1 && '\n' !in ip2
    ensures ThrottleKey(login1, ip1) == ThrottleKey(login2, ip2) <==> Lower(login1) == Lower(login2) && ip1 == ip2
    ensures ThrottleKey(login1, ip1) != IpThrottleKey(ip2)
    ensures IpThrottleKey(ip1) == IpThrottleKey(ip2) ==> ip1 == ip2
  {
    var a, b := "login\n" + Lower(login1), "login\n" + Lower(login2);
    assert ThrottleKey(login1, ip1) == a + ['\n'] + ip1;
    assert ThrottleKey(login2, ip2) == b + ['\n'] + ip2;
    if ThrottleKey(login1, ip1) == ThrottleKey(login2, ip2) {
      SplitAtLast(a, ip1, b, ip2, '\n');
      assert Lower(login1) == a[6..] && Lower(login2) == b[6..];
    }
    assert ThrottleKey(login1, ip1)[0] == 'l' && IpThrottleKey(ip2)[0] == 'i';
    assert ip1 == IpThrottleKey(ip1)[3..] && ip2 == IpThrottleKey(ip2)[3..];
  }

  // ---------------------------------------------------------------- the map

  function Smaller(a: nat, b: nat): (m: nat)
    ensures m <= a && m <= b && (m == a || m == b)
  {
    if a < b then a else b
  }

  /** `saturating_mul(5)` on u32. */
  function FiveTimes(max: nat): nat {
    if 5 * max < 0x1_0000_0000 then 5 * max else 0xFFFF_FFFF
  }

  datatype Entry = Entry(count: nat, expires: nat)

  function Unexpired(entries: map<Key, Entry>, now: nat): map<Key, Entry> {
    map key | key in entries && entries[key].expires > now :: entries[key]
  }

  /**
   The map and the history agree on every key: an entry is the key's streak, and a streak
   without an entry has expired.
   */
  ghost predicate Agrees(entries: map<Key, Entry>, h: History, lockout: nat, clock: nat) {
    forall key {:trigger AgreesOn(entries, h, key, lockout, clock)} :: AgreesOn(entries, h, key, lockout, clock)
  }

  ghost predicate AgreesOn(entries: map<Key, Entry>, h: History, key: Key, lockout: nat, clock: nat) {
    var streak := CurrentStreak(h, key, lockout);
    if key in entries then
      && lockout <= entries[key].expires <= clock + lockout
      && streak == Streak(entries[key].count, entries[key].expires - lockout)
    else streak.Streak? ==> streak.last + lockout <= clock
  }

  lemma {:induction false} SweepAgrees(entries: map<Key, Entry>, h: History, lockout: nat, clock: nat, now: nat)
    requires Agrees(entries, h, lockout, clock) && clock <= now
    ensures Agrees(Unexpired(entries, now), h, lockout, now)
  {
    forall key
      ensures AgreesOn(Unexpired(entries, now), h, key, lockout, now)
    {
      assert AgreesOn(entries, h, key, lockout, clock);
    }
  }

  lemma {:induction false} CountAgrees(entries: map<Key, Entry>, h: History, lockout: nat, now: nat, key: Key)
    requires Agrees(entries, h, lockout, now)
    requires forall k | k in entries :: entries[k].expires > now
    ensures Agrees(entries[key := Entry(if key in entries then entries[key].count + 1 else 1, now + lockout)],
                   h + [Failure(key, now)], lockout, now)
  {
    var after := entries[key := Entry(if key in entries then entries[key].count + 1 else 1, now + lockout)];
    forall k
      ensures AgreesOn(after, h + [Failure(key, now)], k, lockout, now)
    {
      assert AgreesOn(entries, h, k, lockout, now);
      StreakAfter(h, Failure(key, now), k, lockout);
    }
  }

  lemma {:induction false} ForgetAgrees(entries: map<Key, Entry>, h: History, lockout: nat, clock: nat, key: Key,
                                        why: Event)
    requires Agrees(entries, h, lockout, clock) && IsReset(why, key)
    ensures Agrees(entries - {key}, h + [why], lockout, clock)
  {
    forall k
      ensures AgreesOn(entries - {key}, h + [why], k, lockout, clock)
    {
      assert AgreesOn(entries, h, k, lockout, clock);
      StreakAfter(h, why, k, lockout);
    }
  }

  /** No login key of the table has counted past the limit (a limit of zero still admits one failure). */
  ghost predicate WithinLimit(entries: map<Key, Entry>, max: nat) {
    forall key | key in entries && IsLoginKey(key) :: entries[key].count <= if max == 0 then 1 else max
  }

  ghost predicate IsLoginKey(key: Key) {
    exists login, ip :: key == ThrottleKey(login, ip)
  }

  /** The entry a full map gave up for a new key; HashMap order makes it arbitrary. */
  datatype Victim = Nobody | Victim(key: Key)

  function Recorded(h: History, evicted: Victim, key: Key, now: nat): History {
    (if evicted.Victim? then h + [Evicted(evicted.key)] else h) + [Failure(key, now)]
  }

  /** The map after a failure is recorded: swept, with one entry given up when it is full, and counted. */
  function RecordIn(entries: map<Key, Entry>, key: Key, now: nat, lockout: nat, evicted: Victim): map<Key, Entry> {
    var kept := Unexpired(entries, now);
    (if evicted.Victim? then kept - {evicted.key} else kept)
      [key := Entry(if key in kept then kept[key].count + 1 else 1, now + lockout)]
  }

  predicate IsFull(entries: map<Key, Entry>, now: nat, key: Key) {
    |Unexpired(entries, now)| >= MAX_FAILURE_KEYS && key !in Unexpired(entries, now)
  }

  /** What is given up for a new key: one of the entries when the map is full, and nothing otherwise. */
  predicate GivesUp(entries: map<Key, Entry>, now: nat, key: Key, evicted: Victim) {
    && (evicted.Victim? <==> IsFull(entries, now, key))
    && (evicted.Victim? ==> evicted.key in Unexpired(entries, now))
  }

  class FailureMap {
    const lockout: nat
    var entries: map<Key, Entry>
    ghost var history: History
    ghost var clock: nat

    constructor (lockout: nat)
      ensures Valid() && history == [] && clock == 0 && this.lockout == lockout && entries == map[]
    {
      this.lockout := lockout;
      entries := map[];
      history := [];
      clock := 0;
    }

    ghost predicate Valid()
      reads this
    {
      |entries| <= MAX_FAILURE_KEYS && Agrees(entries, history, lockout, clock)
    }

    /** Every call first drops what has expired. */
    method Retain(now: nat)
      requires Valid() && clock <= now
      modifies this`entries, this`clock
      ensures Valid() && clock == now
      ensures entries == Unexpired(old(entries), now)
      ensures forall passed: map<nat, Key>, max: nat ::
                Logins(entries, passed) == Do(Logins(old(entries), passed), Turn(now), lockout, max)
    {
      SweepAgrees(entries, history, lockout, clock, now);
      entries := Unexpired(entries, now);
      clock := now;
      SubsetSize(entries.Keys, old(entries).Keys);
    }

    method CheckLockout(key: Key, max: nat, now: nat) returns (locked: bool)
      requires Valid() && clock <= now
      modifies this`entries, this`clock
      ensures Valid() && clock == now
      ensures locked == Locked(history, key, lockout, max, now)
      ensures entries == Unexpired(old(entries), now)
      ensures locked <==> key in entries && entries[key].count >= max
      ensures forall passed: map<nat, Key>, h: nat | h !in passed ::
                var s := Logins(old(entries), passed);
                && (Possible(s, Pass(h, key, now), max) <==> !locked)
                && (!locked ==> Logins(entries, passed[h := key]) == Do(s, Pass(h, key, now), lockout, max))
    {
      Retain(now);
      assert AgreesOn(entries, history, key, lockout, now);
      locked := key in entries && entries[key].count >= max && entries[key].expires > now;
    }

    method RecordFailure(key: Key, now: nat) returns (evicted: Victim)
      requires Valid() && clock <= now
      modifies this`entries, this`clock, this`history
      ensures Valid() && clock == now
      ensures history == Recorded(old(history), evicted, key, now)
      ensures evicted.Victim? <==> |Unexpired(old(entries), now)| >= 10_000 && key !in Unexpired(old(entries), now)
      ensures |entries| <= 10_000
      ensures evicted.Victim? ==> evicted.key in Unexpired(old(entries), now)
      ensures entries == RecordIn(old(entries), key, now, lockout, evicted)
      ensures forall passed: map<nat, Key>, h: nat, max: nat | h in passed && passed[h] == key ::
                var s := Logins(old(entries), passed);
                Possible(s, Record(h, now, evicted), max)
                && Logins(entries, passed - {h}) == Do(s, Record(h, now, evicted), lockout, max)
      ensures forall passed: map<nat, Key>, max: nat ::
                var s := Logins(old(entries), passed);
                Possible(s, RecordAddress(key, now, evicted), max)
                && Logins(entries, passed) == Do(s, RecordAddress(key, now, evicted), lockout, max)
    {
      Retain(now);
      evicted := Nobody;
      if |entries| >= MAX_FAILURE_KEYS && key !in entries {
        assert entries.Keys != {};
        var victim :| victim in entries.Keys;
        Forget(victim, Evicted(victim));
        evicted := Victim(victim);
      }
      Count(key, now);
    }

    /** The entry update of a recorded failure, after the sweep and the eviction. */
    method Count(key: Key, now: nat)
      requires Valid() && clock == now
      requires forall k | k in entries :: entries[k].expires > now
      requires key in entries || |entries| < MAX_FAILURE_KEYS
      modifies this`entries, this`history
      ensures Valid() && history == old(history) + [Failure(key, now)]
      ensures entries == old(entries)[key := Entry(if key in old(entries) then old(entries)[key].count + 1 else 1,
                                                   now + lockout)]
    {
      CountAgrees(entries, history, lockout, now, key);
      var count := if key in entries then entries[key].count else 0;
      entries := entries[key := Entry(count + 1, now + lockout)];
      history := history + [Failure(key, now)];
      assert entries.Keys == old(entries).Keys + {key};
    }

    method ClearFailures(key: Key)
      requires Valid()
      modifies this`entries, this`history
      ensures Valid() && history == old(history) + [Cleared(key)]
      ensures entries == old(entries) - {key}
      ensures forall passed: map<nat, Key>, h: nat, max: nat | h in passed && passed[h] == key ::
                Logins(entries, passed - {h}) == Do(Logins(old(entries), passed), Clear(h), lockout, max)
    {
      Forget(key, Cleared(key));
    }

    /** Removal of a key from the map, recorded as the reset it is. */
    method Forget(key: Key, ghost why: Event)
      requires Valid() && IsReset(why, key)
      modifies this`entries, this`history
      ensures Valid() && history == old(history) + [why]
      ensures entries == old(entries) - {key}
      ensures key in old(entries) ==> |entries| == |old(entries)| - 1
    {
      ForgetAgrees(entries, history, lockout, clock, key, why);
      entries := entries - {key};
      history := history + [why];
      assert entries.Keys == old(entries).Keys - {key};
    }

    /** A failure is counted for the login key, which was below its limit, and for the address key. */
    method FailedLogin(key: Key, ipKey: Key, max: nat, now: nat) returns (first: Victim, second: Victim)
      requires Valid() && clock <= now && WithinLimit(entries, max) && !IsLoginKey(ipKey)
      requires key in entries ==> entries[key].count < max
      modifies this`entries, this`clock, this`history
      ensures Valid() && clock == now && WithinLimit(entries, max)
      ensures history == Recorded(Recorded(old(history), first, key, now), second, ipKey, now)
    {
      first := RecordFailure(key, now);
      assert WithinLimit(entries, max);
      second := RecordFailure(ipKey, now);
    }

    /** One login attempt, run to completion: both checks, then the outcome of the password. */
    method Login(login: string, ip: string, max: nat, verified: bool, checkedAt: nat, recordedAt: nat)
      returns (limited: bool, first: Victim, second: Victim)
      requires Valid() && '\n' !in ip && clock <= checkedAt <= recordedAt && WithinLimit(entries, max)
      modifies this`entries, this`clock, this`history
      ensures Valid() && WithinLimit(entries, max)
      ensures limited <==>
              Locked(old(history), ThrottleKey(login, ip), lockout, max, checkedAt)
              || Locked(old(history), IpThrottleKey(ip), lockout, Smaller(max * 5, 4_294_967_295), checkedAt)
      ensures limited ==> history == old(history)
      ensures !limited && !verified ==>
                history == Recorded(Recorded(old(history), first, ThrottleKey(login, ip), recordedAt),
                                    second, IpThrottleKey(ip), recordedAt)
      ensures !limited && verified ==>
                history == old(history) + [Cleared(ThrottleKey(login, ip)), Cleared(IpThrottleKey(ip))]
    {
      var key, ipKey := ThrottleKey(login, ip), IpThrottleKey(ip);
      var a := CheckLockout(key, max, checkedAt);
      first, second := Nobody, Nobody;
      if a { return true, first, second; }
      var b := CheckLockout(ipKey, FiveTimes(max), checkedAt);
      if b { return true, first, second; }
      limited := false;
      if verified {
        ClearFailures(key);
        ClearFailures(ipKey);
      } else {
        assert !IsLoginKey(ipKey);
        first, second := FailedLogin(key, ipKey, max, recordedAt);
      }
    }
  }

  // ---------------------------------------------------------------- logins at the same time

  /** The map, and the login key of each login that has passed the check and not yet ended. */
  datatype Logins = Logins(entries: map<Key, Entry>, passed: map<nat, Key>)

  /** One acquisition of the map's lock each; `RecordAddress` stands for every other key that is counted. */
  datatype Act =
    | Pass(h: nat, key: Key, now: nat)
    | Turn(now: nat)
    | Record(h: nat, now: nat, evicted: Victim)
    | RecordAddress(key: Key, now: nat, evicted: Victim)
    | Clear(h: nat)
    | Leave(h: nat)

  predicate Possible(s: Logins, a: Act, max: nat) {
    match a
    case Pass(h, key, now) =>
      var kept := Unexpired(s.entries, now);
      h !in s.passed && !(key in kept && kept[key].count >= max)
    case Turn(_) => true
    case Record(h, now, evicted) => h in s.passed && GivesUp(s.entries, now, s.passed[h], evicted)
    case RecordAddress(key, now, evicted) => GivesUp(s.entries, now, key, evicted)
    case Clear(h) => h in s.passed
    case Leave(h) => h in s.passed
  }

  function Do(s: Logins, a: Act, lockout: nat, max: nat): Logins
    requires Possible(s, a, max)
  {
    match a
    case Pass(h, key, now) => Logins(Unexpired(s.entries, now), s.passed[h := key])
    case Turn(now) => s.(entries := Unexpired(s.entries, now))
    case Record(h, now, evicted) =>
      Logins(RecordIn(s.entries, s.passed[h], now, lockout, evicted), s.passed - {h})
    case RecordAddress(key, now, evicted) => s.(entries := RecordIn(s.entries, key, now, lockout, evicted))
    case Clear(h) => Logins(s.entries - {s.passed[h]}, s.passed - {h})
    case Leave(h) => s.(passed := s.passed - {h})
  }

  function InFlight(s: Logins, key: Key): set<nat> {
    set h | h in s.passed && s.passed[h] == key
  }

  function CountOf(s: Logins, key: Key): nat {
    if key in s.entries then s.entries[key].count else 0
  }

  function Limit(max: nat): nat {
    if max == 0 then 1 else max
  }

  ghost predicate IsRun(acts: seq<Act>, states: seq<Logins>, lockout: nat, max: nat) {
    && |states| == |acts| + 1
    && forall i | 0 <= i < |acts| ::
         Possible(states[i], acts[i], max) && states[i + 1] == Do(states[i], acts[i], lockout, max)
  }

  /** The count and the logins that may still add to it stay within the limit and all but one of the logins. */
  lemma {:induction false} StepKeepsCount(s: Logins, a: Act, lockout: nat, max: nat, key: Key, n: nat)
    requires Possible(s, a, max) && CountOf(s, key) + |InFlight(s, key)| + 1 <= Limit(max) + n
    requires |InFlight(Do(s, a, lockout, max), key)| <= n && (a.RecordAddress? ==> a.key != key)
    ensures CountOf(Do(s, a, lockout, max), key) + |InFlight(Do(s, a, lockout, max), key)| + 1 <= Limit(max) + n
  {
    FlightsAfter(s, a, lockout, max, key);
    CountAfter(s, a, lockout, max, key);
  }

  lemma {:induction false} FlightsAfter(s: Logins, a: Act, lockout: nat, max: nat, key: Key)
    requires Possible(s, a, max)
    ensures InFlight(Do(s, a, lockout, max), key) ==
            match a
            case Pass(h, other, _) => if other == key then InFlight(s, key) + {h} else InFlight(s, key)
            case Record(h, _, _) => InFlight(s, key) - {h}
            case Clear(h) => InFlight(s, key) - {h}
            case Leave(h) => InFlight(s, key) - {h}
            case _ => InFlight(s, key)
  {
  }

  /** A count goes up by one when a failure is recorded for its key, and otherwise stays or is lost. */
  lemma {:induction false} CountAfter(s: Logins, a: Act, lockout: nat, max: nat, key: Key)
    requires Possible(s, a, max) && (a.RecordAddress? ==> a.key != key)
    ensures CountOf(Do(s, a, lockout, max), key) <=
            CountOf(s, key) + if a.Record? && s.passed[a.h] == key then 1 else 0
    ensures a.Pass? && a.key == key ==> CountOf(Do(s, a, lockout, max), key) < Limit(max)
  {
  }

  /**
   However logins interleave, with at most n of them in flight for a login key at any time, the key's
   count never exceeds the limit by more than n - 1.
   */
  lemma {:induction false} ConcurrentLoginsBounded(acts: seq<Act>, states: seq<Logins>, lockout: nat, max: nat,
                                                   key: Key, n: nat, k: nat)
    requires IsRun(acts, states, lockout, max) && states[0] == Logins(map[], map[]) && k <= |acts|
    requires n >= 1 && forall i | 0 <= i <= |acts| :: |InFlight(states[i], key)| <= n
    requires forall i | 0 <= i < |acts| && acts[i].RecordAddress? :: acts[i].key != key
    ensures CountOf(states[k], key) + |InFlight(states[k], key)| <= Limit(max) + n - 1
  {
    if k == 0 {
      assert InFlight(states[0], key) == {};
    } else {
      ConcurrentLoginsBounded(acts, states, lockout, max, key, n, k - 1);
      assert states[k] == Do(states[k - 1], acts[k - 1], lockout, max) && |InFlight(states[k], key)| <= n;
      StepKeepsCount(states[k - 1], acts[k - 1], lockout, max, key, n);
    }
  }

  /** However logins interleave, the map never holds more than 10,000 keys, and gives one up only when it does. */
  lemma {:induction false} MapStaysSmall(acts: seq<Act>, states: seq<Logins>, lockout: nat, max: nat, k: nat)
    requires IsRun(acts, states, lockout, max) && |states[0].entries| <= 10_000 && k <= |acts|
    ensures |states[k].entries| <= 10_000
    ensures k < |acts| && (acts[k].Record? || acts[k].RecordAddress?) && acts[k].evicted.Victim? ==>
              |states[k].entries| == 10_000
  {
    if k > 0 {
      MapStaysSmall(acts, states, lockout, max, k - 1);
      StepKeepsSmall(states[k - 1], acts[k - 1], lockout, max);
    }
    if k < |acts| && (acts[k].Record? || acts[k].RecordAddress?) {
      SweepShrinks(states[k].entries, acts[k].now);
    }
  }

  lemma {:induction false} SweepShrinks(entries: map<Key, Entry>, now: nat)
    ensures |Unexpired(entries, now)| <= |entries|
  {
    SubsetSize(Unexpired(entries, now).Keys, entries.Keys);
  }

  lemma {:induction false} StepKeepsSmall(s: Logins, a: Act, lockout: nat, max: nat)
    requires Possible(s, a, max) && |s.entries| <= 10_000
    ensures |Do(s, a, lockout, max).entries| <= 10_000
  {
    match a
    case Pass(_, _, now) => SweepShrinks(s.entries, now);
    case Turn(now) => SweepShrinks(s.entries, now);
    case Record(h, now, evicted) => RecordKeepsSmall(s.entries, s.passed[h], now, lockout, evicted);
    case RecordAddress(key, now, evicted) => RecordKeepsSmall(s.entries, key, now, lockout, evicted);
    case Clear(h) => SubsetSize((s.entries - {s.passed[h]}).Keys, s.entries.Keys);
    case Leave(_) =>
  }

  lemma {:induction false} RecordKeepsSmall(entries: map<Key, Entry>, key: Key, now: nat, lockout: nat,
                                            evicted: Victim)
    requires GivesUp(entries, now, key, evicted) && |entries| <= 10_000
    ensures |RecordIn(entries, key, now, lockout, evicted)| <= 10_000
  {
    var kept := Unexpired(entries, now);
    SweepShrinks(entries, now);
    if evicted.Victim? {
      OneOutOneIn(kept.Keys, evicted.key, key);
      KeysOf(kept, evicted.key, key, RecordIn(entries, key, now, lockout, evicted)[key]);
    } else {
      OneIn(kept.Keys, key);
      KeysWith(kept, key, RecordIn(entries, key, now, lockout, evicted)[key]);
    }
  }

  lemma {:induction false} KeysWith<K, V>(m: map<K, V>, y: K, v: V)
    ensures m[y := v].Keys == m.Keys + {y}
  {
  }

  lemma {:induction false} KeysOf<K, V>(m: map<K, V>, x: K, y: K, v: V)
    ensures (m - {x})[y := v].Keys == m.Keys - {x} + {y}
  {
    assert (m - {x}).Keys == m.Keys - {x};
    KeysWith(m - {x}, y, v);
  }

  lemma {:induction false} OneIn<T>(a: set<T>, y: T)
    ensures |a + {y}| == if y in a then |a| else |a| + 1
  {
    if y in a {
      assert a + {y} == a;
    }
  }

  lemma {:induction false} OneOutOneIn<T>(a: set<T>, x: T, y: T)
    requires x in a
    ensures |a - {x} + {y}| <= |a|
  {
    OneIn(a - {x}, y);
  }

  // The bound is reached: logins that have all passed fail one after the other.

  /** Requests h, ..., h + n - 1 are in flight for the key, and nothing else is. */
  ghost predicate Waiting(s: Logins, key: Key, h: nat, n: nat) {
    (forall g :: g in s.passed <==> h <= g < h + n) && (forall g | g in s.passed :: s.passed[g] == key)
  }

  lemma {:induction false} AllPass(s: Logins, key: Key, now: nat, lockout: nat, max: nat, n: nat)
    returns (acts: seq<Act>, states: seq<Logins>)
    requires s.passed == map[] && CountOf(s, key) < Limit(max) && (max == 0 ==> key !in s.entries)
    requires forall k | k in s.entries :: s.entries[k].expires > now
    ensures IsRun(acts, states, lockout, max) && states[0] == s && |acts| == n
    ensures states[n].entries == s.entries && Waiting(states[n], key, 0, n)
  {
    if n == 0 {
      acts, states := [], [s];
    } else {
      acts, states := AllPass(s, key, now, lockout, max, n - 1);
      var last := states[n - 1];
      assert Unexpired(last.entries, now) == last.entries;
      var next := Do(last, Pass(n - 1, key, now), lockout, max);
      acts, states := acts + [Pass(n - 1, key, now)], states + [next];
    }
  }

  lemma {:induction false} AllFail(s: Logins, key: Key, now: nat, lockout: nat, max: nat, h: nat, n: nat)
    returns (acts: seq<Act>, states: seq<Logins>)
    requires Waiting(s, key, h, n) && lockout > 0 && s.entries.Keys <= {key}
    requires forall k | k in s.entries :: s.entries[k].expires > now
    ensures IsRun(acts, states, lockout, max) && states[0] == s && |acts| == n
    ensures CountOf(states[n], key) == CountOf(s, key) + n && states[n].passed == map[]
    ensures states[n].entries.Keys <= {key}
    ensures forall k | k in states[n].entries :: states[n].entries[k].expires > now
    decreases n
  {
    if n == 0 {
      acts, states := [], [s];
    } else {
      OneFails(s, key, now, lockout, max, h, n);
      var next := Do(s, Record(h, now, Nobody), lockout, max);
      var more, rest := AllFail(next, key, now, lockout, max, h + 1, n - 1);
      acts, states := [Record(h, now, Nobody)] + more, [s] + rest;
      RunBefore(s, Record(h, now, Nobody), more, rest, lockout, max);
    }
  }

  lemma {:induction false} OneFails(s: Logins, key: Key, now: nat, lockout: nat, max: nat, h: nat, n: nat)
    requires Waiting(s, key, h, n) && n > 0 && lockout > 0 && s.entries.Keys <= {key}
    requires forall k | k in s.entries :: s.entries[k].expires > now
    ensures Possible(s, Record(h, now, Nobody), max)
    ensures var next := Do(s, Record(h, now, Nobody), lockout, max);
            && Waiting(next, key, h + 1, n - 1) && CountOf(next, key) == CountOf(s, key) + 1
            && next.entries.Keys <= {key} && forall k | k in next.entries :: next.entries[k].expires > now
  {
    assert Unexpired(s.entries, now) == s.entries;
    SubsetSize(s.entries.Keys, {key});
  }

  lemma {:induction false} RunBefore(s: Logins, a: Act, more: seq<Act>, rest: seq<Logins>, lockout: nat, max: nat)
    requires Possible(s, a, max) && IsRun(more, rest, lockout, max) && rest[0] == Do(s, a, lockout, max)
    ensures IsRun([a] + more, [s] + rest, lockout, max)
  {
    var acts, states := [a] + more, [s] + rest;
    forall i | 0 <= i < |acts|
      ensures Possible(states[i], acts[i], max) && states[i + 1] == Do(states[i], acts[i], lockout, max)
    {
      assert i > 0 ==> states[i] == rest[i - 1] && acts[i] == more[i - 1];
    }
  }

  lemma {:induction false} RunsJoin(a1: seq<Act>, s1: seq<Logins>, a2: seq<Act>, s2: seq<Logins>,
                                    lockout: nat, max: nat)
    requires IsRun(a1, s1, lockout, max) && IsRun(a2, s2, lockout, max) && s1[|a1|] == s2[0]
    ensures IsRun(a1 + a2, s1 + s2[1..], lockout, max) && (s1 + s2[1..])[|a1| + |a2|] == s2[|a2|]
  {
    var a, s := a1 + a2, s1 + s2[1..];
    forall i | 0 <= i < |a|
      ensures Possible(s[i], a[i], max) && s[i + 1] == Do(s[i], a[i], lockout, max)
    {
      if i >= |a1| {
        assert a[i] == a2[i - |a1|] && s[i] == s2[i - |a1|] && s[i + 1] == s2[i - |a1| + 1];
      }
    }
  }

  /** n logins at a time that all pass and then all fail, from a key with that many failures to spare. */
  lemma {:induction false} PassAndFail(s: Logins, key: Key, lockout: nat, max: nat, n: nat)
    returns (acts: seq<Act>, states: seq<Logins>)
    requires s.passed == map[] && lockout > 0 && s.entries.Keys <= {key} && CountOf(s, key) < Limit(max)
    requires (max == 0 ==> key !in s.entries) && forall k | k in s.entries :: s.entries[k].expires > 0
    ensures IsRun(acts, states, lockout, max) && states[0] == s && states[|acts|].passed == map[]
    ensures CountOf(states[|acts|], key) == CountOf(s, key) + n && states[|acts|].entries.Keys <= {key}
    ensures forall k | k in states[|acts|].entries :: states[|acts|].entries[k].expires > 0
  {
    var a1, s1 := AllPass(s, key, 0, lockout, max, n);
    var a2, s2 := AllFail(s1[n], key, 0, lockout, max, 0, n);
    RunsJoin(a1, s1, a2, s2, lockout, max);
    acts, states := a1 + a2, s1 + s2[1..];
  }

  /** So the bound cannot be lowered: one login after the other up to the limit less one, then n at once. */
  lemma {:induction false} BoundIsReached(key: Key, lockout: nat, max: nat, n: nat)
    returns (acts: seq<Act>, states: seq<Logins>)
    requires lockout > 0
    ensures IsRun(acts, states, lockout, max) && states[0] == Logins(map[], map[])
    ensures CountOf(states[|acts|], key) + 1 == Limit(max) + n
  {
    var a1, s1 := Approach(key, lockout, max, Limit(max) - 1);
    var s := s1[|a1|];
    var a2, s2 := PassAndFail(s, key, lockout, max, n);
    RunsJoin(a1, s1, a2, s2, lockout, max);
    acts, states := a1 + a2, s1 + s2[1..];
  }

  lemma {:induction false} Approach(key: Key, lockout: nat, max: nat, c: nat)
    returns (acts: seq<Act>, states: seq<Logins>)
    requires lockout > 0 && c < Limit(max)
    ensures IsRun(acts, states, lockout, max) && states[0] == Logins(map[], map[]) && states[|acts|].passed == map[]
    ensures CountOf(states[|acts|], key) == c && states[|acts|].entries.Keys <= {key}
    ensures forall k | k in states[|acts|].entries :: states[|acts|].entries[k].expires > 0
    ensures c == 0 ==> states[|acts|].entries == map[]
  {
    if c == 0 {
      acts, states := [], [Logins(map[], map[])];
    } else {
      var a1, s1 := Approach(key, lockout, max, c - 1);
      var a2, s2 := PassAndFail(s1[|a1|], key, lockout, max, 1);
      RunsJoin(a1, s1, a2, s2, lockout, max);
      acts, states := a1 + a2, s1 + s2[1..];
    }
  }

  lemma {:induction false} SubsetSize<T>(a: set<T>, b: set<T>)
    requires a <= b
    ensures |a| <= |b|
  {
    if a != {} {
      var x :| x in a;
      SubsetSize(a - {x}, b - {x});
    }
  }
}
