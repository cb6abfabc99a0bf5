/** The transaction layer of dep/apps/er-coap-07/er-coap-07-transactions.c with the pool, list and event timers it uses:
    retransmission with exponential back-off, over whole runs. */
module Transactions {

  const COAP_MAX_OPEN_TRANSACTIONS: nat := 4
  const COAP_MAX_RETRANSMIT: nat := 4

  /** What has happened to a transaction: its initial interval and the times at which it was transmitted. Kept for
      stating properties; nothing depends on it. */
  datatype History = History(first: nat, sends: seq<nat>)

  /** One block of the pool. waiting: the event timer is running, not expired or stopped. */
  datatype Transaction = Transaction(used: bool, mid: nat, con: bool, counter: nat, interval: nat, start: nat,
                                     waiting: bool, history: History)

  const UNUSED := Transaction(false, 0, false, 0, 0, 0, false, History(0, []))

  /** timedOut: the histories of the transactions given up. */
  datatype State = State(pool: seq<Transaction>, list: seq<nat>, timedOut: seq<History>)

  const START := State([UNUSED, UNUSED, UNUSED, UNUSED], [], [])

  // ----- the operations, as functions

  /** list_remove. */
  function Remove(list: seq<nat>, k: nat): seq<nat> {
    if list == [] then [] else if list[0] == k then list[1..] else [list[0]] + Remove(list[1..], k)
  }

  /** memb_alloc: the first unused block. */
  function FirstUnused(pool: seq<Transaction>): (k: nat)
    ensures k <= |pool| && (k < |pool| ==> !pool[k].used) && forall i :: 0 <= i < k ==> pool[i].used
  {
    if pool == [] || !pool[0].used then 0 else 1 + FirstUnused(pool[1..])
  }

  predicate Blocks(s: State) { |s.pool| == COAP_MAX_OPEN_TRANSACTIONS }

  function AfterNew(s: State, mid: nat, con: bool): (State, nat)
    requires Blocks(s)
  {
    var k := FirstUnused(s.pool);
    if k == |s.pool| then (s, k)
    else
      var t := s.pool[k].(used := true, mid := mid, con := con, counter := 0, history := History(0, []));
      (s.(pool := s.pool[k := t], list := Remove(s.list, k) + [k]), k)
  }

  function AfterClear(s: State, k: nat): State
    requires k < |s.pool|
  {
    s.(pool := s.pool[k := s.pool[k].(used := false, waiting := false)], list := Remove(s.list, k))
  }

  /** The initial interval: 2 s plus a random part of at most 1 s. */
  function FirstInterval(second: nat, random: nat): nat
    requires second > 0
  {
    2 * second + random % (second + 1)
  }

  function AfterSend(s: State, k: nat, now: nat, second: nat, random: nat): State
    requires k < |s.pool| && second > 0
  {
    var t := s.pool[k];
    var sends := t.history.sends + [now];
    if !t.con then AfterClear(s, k)
    else if t.counter < COAP_MAX_RETRANSMIT then
      var interval := if t.counter == 0 then FirstInterval(second, random) else 2 * t.interval;
      var first := if t.counter == 0 then interval else t.history.first;
      s.(pool := s.pool[k := t.(interval := interval, start := now, waiting := true, history := History(first, sends))])
    else AfterClear(s, k).(timedOut := s.timedOut + [History(t.history.first, sends)])
  }

  function Incremented(s: State, k: nat): State
    requires k < |s.pool|
  {
    s.(pool := s.pool[k := s.pool[k].(counter := s.pool[k].counter + 1)])
  }

  /** The loop of coap_check_transactions from position j of the list. A transaction that is given up loses its
      successor in the list, so that the loop ends there. */
  function CheckFrom(s: State, j: nat, now: nat, second: nat): State
    requires Blocks(s) && second > 0 && forall i :: 0 <= i < |s.list| ==> s.list[i] < |s.pool|
    decreases |s.list| - j
  {
    if j >= |s.list| then s
    else
      var k := s.list[j];
      if s.pool[k].waiting then CheckFrom(s, j + 1, now, second)
      else
        var t := AfterSend(Incremented(s, k), k, now, second, 0);
        if t.pool[k].used then CheckFrom(t, j + 1, now, second) else t
  }

  /** The timer process posts its events: timers that have run out are marked as expired. */
  function AfterExpiry(s: State, now: nat): State {
    s.(pool := seq(|s.pool|, k requires 0 <= k < |s.pool| =>
                     if s.pool[k].waiting && s.pool[k].start + s.pool[k].interval <= now then
                       s.pool[k].(waiting := false) else s.pool[k]))
  }

  // ----- the module with its pool and list

  class Layer {
    const second: nat
    var pool: seq<Transaction>
    var list: seq<nat>
    ghost var timedOut: seq<History>

    ghost function Abstract(): State
      reads this
    {
      State(pool, list, timedOut)
    }

    ghost predicate Valid()
      reads this
    {
      second > 0 && Blocks(Abstract()) && forall i :: 0 <= i < |list| ==> list[i] < |pool|
    }

    constructor (second: nat)
      requires second > 0
      ensures Valid() && Abstract() == START && this.second == second
    {
      this.second := second;
      pool, list, timedOut := [UNUSED, UNUSED, UNUSED, UNUSED], [], [];
    }

    method ListRemove(k: nat)
      requires Valid()
      modifies `list
      ensures Valid() && list == Remove(old(list), k)
    {
      hide Remove;
      RemoveElement(list, k);
      var i := 0;
      while i < |list| && list[i] != k
        invariant i <= |list| && list == old(list) && k !in list[..i]
      {
        i := i + 1;
      }
      RemoveAt(list, k, i);
      if i < |list| {
        list := list[..i] + list[i + 1..];
      }
    }

    /** coap_new_transaction; the index of the block, or the size of the pool if none is free. */
    method NewTransaction(mid: nat, con: bool) returns (k: nat)
      requires Valid()
      modifies this
      ensures Valid() && (Abstract(), k) == AfterNew(old(Abstract()), mid, con)
    {
      k := 0;
      assert pool[0..] == pool;
      while k < |pool| && pool[k].used
        invariant k <= |pool| && FirstUnused(pool) == k + FirstUnused(pool[k..])
      {
        assert pool[k..][1..] == pool[k + 1..];
        k := k + 1;
      }
      if k < |pool| {
        pool := pool[k := pool[k].(used := true, mid := mid, con := con, counter := 0, history := History(0, []))];
        ListRemove(k);
        list := list + [k];
      }
    }

    /** coap_clear_transaction. */
    method ClearTransaction(k: nat)
      requires Valid() && k < |pool|
      modifies this
      ensures Valid() && Abstract() == AfterClear(old(Abstract()), k)
    {
      pool := pool[k := pool[k].(waiting := false)];
      ListRemove(k);
      pool := pool[k := pool[k].(used := false)];
    }

    /** coap_send_transaction. */
    method SendTransaction(k: nat, now: nat, random: nat)
      requires Valid() && k < |pool|
      modifies this
      ensures Valid() && Abstract() == AfterSend(old(Abstract()), k, now, second, random)
    {
      var t := pool[k];
      var sends := t.history.sends + [now];
      if t.con {
        if t.counter < COAP_MAX_RETRANSMIT {
          var interval := if t.counter == 0 then FirstInterval(second, random) else 2 * t.interval;
          var first := if t.counter == 0 then interval else t.history.first;
          pool := pool[k := t.(interval := interval, start := now, waiting := true, history := History(first, sends))];
        } else {
          ClearTransaction(k);
          timedOut := timedOut + [History(t.history.first, sends)];
        }
      } else {
        ClearTransaction(k);
      }
    }

    /** coap_check_transactions. */
    method CheckTransactions(now: nat)
      requires Valid()
      modifies this
      ensures Valid() && Abstract() == CheckFrom(old(Abstract()), 0, now, second)
    {
      hide AfterSend;
      var j := 0;
      while j < |list|
        invariant Valid() && CheckFrom(Abstract(), j, now, second) == CheckFrom(old(Abstract()), 0, now, second)
        decreases |list| - j
      {
        var k := list[j];
        if !pool[k].waiting {
          ghost var s := Incremented(Abstract(), k);
          pool := pool[k := pool[k].(counter := pool[k].counter + 1)];
          SendKeepsList(s, k, now, second, 0);
          SendTransaction(k, now, 0);
          if !pool[k].used {
            return;
          }
        }
        j := j + 1;
      }
    }

    /** coap_get_transaction_by_mid: the first transaction of the list with the message id. */
    method GetByMid(mid: nat) returns (k: nat)
      requires Valid()
      ensures k <= |pool| && (k < |pool| ==> IsFirstWith(Abstract(), mid, k))
      ensures k == |pool| <==> forall i :: 0 <= i < |list| ==> pool[list[i]].mid != mid
    {
      var j := 0;
      while j < |list|
        invariant j <= |list| && forall i :: 0 <= i < j ==> pool[list[i]].mid != mid
      {
        if pool[list[j]].mid == mid {
          return list[j];
        }
        j := j + 1;
      }
      k := |pool|;
    }
  }

  /** k is the first block of the list with this message id. */
  predicate IsFirstWith(s: State, mid: nat, k: nat) {
    exists j :: 0 <= j < |s.list| && s.list[j] == k < |s.pool| && s.pool[k].mid == mid
                && forall i :: 0 <= i < j ==> s.list[i] < |s.pool| && s.pool[s.list[i]].mid != mid
  }

  lemma {:induction false} RemoveElement(list: seq<nat>, k: nat)
    ensures forall i :: 0 <= i < |Remove(list, k)| ==> Remove(list, k)[i] in list
    ensures k !in list ==> Remove(list, k) == list
    decreases |list|
  {
    if list != [] && list[0] != k {
      RemoveElement(list[1..], k);
    }
  }

  /** Removing the first occurrence. */
  lemma {:induction false} RemoveAt(list: seq<nat>, k: nat, i: nat)
    requires i <= |list| && k !in list[..i] && (i < |list| ==> list[i] == k)
    ensures Remove(list, k) == if i < |list| then list[..i] + list[i + 1..] else list
    decreases i
  {
    if i > 0 {
      assert list[0] == list[..i][0];
      assert list[1..][..i - 1] == list[..i][1..];
      RemoveAt(list[1..], k, i - 1);
      assert list == [list[0]] + list[1..];
    }
  }

  lemma SendKeepsList(s: State, k: nat, now: nat, second: nat, random: nat)
    requires k < |s.pool| && second > 0
    ensures var t := AfterSend(s, k, now, second, random);
            |t.pool| == |s.pool| && (t.pool[k].used ==> t.list == s.list)
  {
  }

  // ----- what every run keeps

  /** The interval after the i-th transmission. */
  function Interval(first: nat, i: nat): nat { if i == 0 then first else 2 * Interval(first, i - 1) }

  /** The time of the i-th transmission when every timer is served as it runs out. */
  function SendTime(start: nat, first: nat, i: nat): nat {
    if i == 0 then start else SendTime(start, first, i - 1) + Interval(first, i - 1)
  }

  predicate Unsent(t: Transaction) { t.history.sends == [] }

  /** The initial interval is between two and three seconds. */
  predicate InitialInterval(first: nat, second: nat) { 2 * second <= first <= 3 * second }

  /** An allocated transaction that has been sent: it is confirmable, its counter is below the limit, its interval has
      been doubled once for each retransmission, and its transmissions are at least the intervals apart. */
  ghost predicate Kept(t: Transaction, now: nat, second: nat) {
    var sends := t.history.sends;
    && t.con && t.counter < COAP_MAX_RETRANSMIT && |sends| == t.counter + 1
    && InitialInterval(t.history.first, second) && t.interval == Interval(t.history.first, t.counter)
    && t.start == sends[t.counter] <= now
    && (!t.waiting ==> t.start + t.interval <= now)
    && Apart(t.history)
  }

  ghost predicate Apart(h: History) {
    forall i :: 0 <= i < |h.sends| - 1 ==> h.sends[i] + Interval(h.first, i) <= h.sends[i + 1]
  }

  ghost predicate BlockSound(t: Transaction, now: nat, second: nat) {
    if !t.used then !t.waiting
    else if Unsent(t) then t.counter == 0 && !t.waiting
    else Kept(t, now, second)
  }

  /** Given up after exactly five transmissions. */
  ghost predicate GivenUp(h: History, second: nat) { |h.sends| == 5 && InitialInterval(h.first, second) && Apart(h) }

  ghost predicate NoDuplicates(list: seq<nat>) { forall i, j :: 0 <= i < j < |list| ==> list[i] != list[j] }

  /** Allocated transactions and the list coincide. */
  ghost predicate Listed(s: State) {
    && Blocks(s) && NoDuplicates(s.list)
    && (forall i :: 0 <= i < |s.list| ==> s.list[i] < |s.pool|)
    && (forall k :: 0 <= k < |s.pool| ==> (s.pool[k].used <==> k in s.list))
  }

  ghost predicate Sound(s: State, now: nat, second: nat) {
    && second > 0 && Listed(s)
    && (forall k :: 0 <= k < |s.pool| ==> BlockSound(s.pool[k], now, second))
    && (forall i :: 0 <= i < |s.timedOut| ==> GivenUp(s.timedOut[i], second))
  }

  lemma {:induction false} RemoveFacts(list: seq<nat>, k: nat)
    requires NoDuplicates(list)
    ensures NoDuplicates(Remove(list, k)) && k !in Remove(list, k)
    ensures forall x :: x != k ==> (x in Remove(list, k) <==> x in list)
    decreases |list|
  {
    hide NoDuplicates;
    if list != [] {
      var first, rest := list[0], list[1..];
      assert list == [first] + rest;
      DuplicatesCons(first, rest);
      if first != k {
        RemoveFacts(rest, k);
        DuplicatesCons(first, Remove(rest, k));
      }
    }
  }

  lemma DuplicatesCons(first: nat, rest: seq<nat>)
    ensures NoDuplicates([first] + rest) <==> first !in rest && NoDuplicates(rest)
    ensures forall x :: x in [first] + rest <==> x == first || x in rest
  {
    var list := [first] + rest;
    forall i | 0 <= i < |rest| ensures list[i + 1] == rest[i] {
    }
    if first in rest {
      var i :| 0 <= i < |rest| && rest[i] == first;
      assert list[0] == list[i + 1];
    }
    if NoDuplicates(list) {
      forall i, j | 0 <= i < j < |rest| ensures rest[i] != rest[j] {
        assert list[i + 1] != list[j + 1];
      }
    }
  }

  lemma NewKeepsSound(s: State, mid: nat, con: bool, now: nat, second: nat)
    requires Sound(s, now, second)
    ensures Sound(AfterNew(s, mid, con).0, now, second)
  {
    var (t, k) := AfterNew(s, mid, con);
    RemoveFacts(s.list, k);
    RemoveElement(s.list, k);
    hide Apart, InitialInterval, GivenUp;
  }

  /** A transaction just allocated is found under its message id exactly when no other one in use has that id; a block
      is found unless all are in use. */
  lemma NewIsFoundIff(s: State, mid: nat, con: bool)
    requires Listed(s)
    ensures var (t, k) := AfterNew(s, mid, con);
            && (k == |s.pool| <==> forall i :: 0 <= i < |s.pool| ==> s.pool[i].used)
            && (k < |s.pool| ==>
                  && !s.pool[k].used && t.pool[k].used && t.pool[k].con == con && Unsent(t.pool[k])
                  && t.pool[k].counter == 0 && t.list == s.list + [k]
                  && (IsFirstWith(t, mid, k) <==> forall i :: 0 <= i < |s.list| ==> s.pool[s.list[i]].mid != mid))
  {
    var (t, k) := AfterNew(s, mid, con);
    RemoveElement(s.list, k);
    if k < |s.pool| {
      assert t.list[|s.list|] == k;
      forall i | 0 <= i < |s.list| ensures t.list[i] == s.list[i] != k && t.pool[t.list[i]] == s.pool[s.list[i]] {
      }
      assert forall j :: 0 <= j < |t.list| && t.list[j] == k ==> j == |s.list|;
    }
  }

  lemma ClearKeepsSound(s: State, k: nat, now: nat, second: nat)
    requires Sound(s, now, second) && k < |s.pool|
    ensures Sound(AfterClear(s, k), now, second)
  {
    RemoveFacts(s.list, k);
    RemoveElement(s.list, k);
    hide Kept, GivenUp;
  }

  /** Time passes while timers are running. */
  lemma TimeKeepsSound(s: State, now: nat, later: nat, second: nat)
    requires Sound(s, now, second) && now <= later
    ensures Sound(s, later, second) && Sound(AfterExpiry(s, later), later, second)
  {
    hide Apart, InitialInterval, GivenUp, Interval;
  }

  /** A transaction that may be transmitted: new, or counted up after its timer has expired. */
  ghost predicate Due(t: Transaction, now: nat, second: nat) {
    && t.used && !t.waiting
    && if Unsent(t) then t.counter == 0
       else t.counter > 0 && Kept(t.(counter := t.counter - 1), now, second)
  }

  /** Everything but transaction k is sound. */
  ghost predicate SoundExcept(s: State, k: nat, now: nat, second: nat) {
    && second > 0 && Listed(s)
    && (forall i :: 0 <= i < |s.pool| && i != k ==> BlockSound(s.pool[i], now, second))
    && (forall i :: 0 <= i < |s.timedOut| ==> GivenUp(s.timedOut[i], second))
  }

  lemma FirstIntervalBounds(second: nat, random: nat)
    requires second > 0
    ensures InitialInterval(FirstInterval(second, random), second)
  {
  }

  /** The history after one more transmission. */
  lemma OneMoreSend(t: Transaction, now: nat, second: nat)
    requires Due(t, now, second) && !Unsent(t)
    ensures var h := History(t.history.first, t.history.sends + [now]);
            && Apart(h) && InitialInterval(h.first, second) && |h.sends| == t.counter + 1 <= 5
            && 2 * t.interval == Interval(h.first, t.counter)
  {
  }

  lemma FirstSend(t: Transaction, now: nat, second: nat, random: nat)
    requires Due(t, now, second) && Unsent(t) && second > 0
    ensures var h := History(FirstInterval(second, random), t.history.sends + [now]);
            Apart(h) && Interval(h.first, 0) == h.first
  {
    hide FirstInterval;
  }

  lemma SendKeepsSound(s: State, k: nat, now: nat, second: nat, random: nat)
    requires k < |s.pool| && SoundExcept(s, k, now, second) && Due(s.pool[k], now, second)
    ensures Sound(AfterSend(s, k, now, second, random), now, second)
  {
    hide FirstInterval, InitialInterval, Remove, Interval, Apart;
    var t := s.pool[k];
    FirstIntervalBounds(second, random);
    RemoveFacts(s.list, k);
    RemoveElement(s.list, k);
    if !Unsent(t) {
      OneMoreSend(t, now, second);
    } else {
      FirstSend(t, now, second, random);
    }
    if t.con && t.counter < COAP_MAX_RETRANSMIT {
      var u := AfterSend(s, k, now, second, random);
      assert Kept(u.pool[k], now, second);
    }
  }

  /** From position j of the list on, the check loop comes to a confirmable transaction that has not been sent. It ends
      before at a transaction that is given up, or at one that is not confirmable. */
  predicate MeetsUnsent(s: State, j: nat)
    requires forall i :: 0 <= i < |s.list| ==> s.list[i] < |s.pool|
    decreases |s.list| - j
  {
    && j < |s.list|
    && var t := s.pool[s.list[j]];
       || (Unsent(t) && t.con)
       || ((t.waiting || (t.con && t.counter + 1 < COAP_MAX_RETRANSMIT)) && MeetsUnsent(s, j + 1))
  }

  lemma NextDue(s: State, k: nat, now: nat, second: nat)
    requires Sound(s, now, second) && k in s.list && k < |s.pool| && !s.pool[k].waiting && !Unsent(s.pool[k])
    ensures SoundExcept(Incremented(s, k), k, now, second) && Due(Incremented(s, k).pool[k], now, second)
  {
    hide Apart, InitialInterval, GivenUp, Interval;
    var t := Incremented(s, k).pool[k];
    assert BlockSound(s.pool[k], now, second);
    assert t.(counter := t.counter - 1) == s.pool[k];
  }

  /** What the loop will meet does not depend on blocks that it has passed. */
  lemma {:induction false} MeetsSame(s: State, t: State, j: nat, k: nat)
    requires |t.pool| == |s.pool| && t.list == s.list && forall i :: 0 <= i < |s.list| ==> s.list[i] < |s.pool|
    requires forall i :: 0 <= i < |s.pool| && i != k ==> t.pool[i] == s.pool[i]
    requires forall i :: j <= i < |s.list| ==> s.list[i] != k
    ensures MeetsUnsent(t, j) == MeetsUnsent(s, j)
    decreases |s.list| - j
  {
    if j < |s.list| {
      MeetsSame(s, t, j + 1, k);
    }
  }

  lemma ClearedSound(s: State, k: nat, now: nat, second: nat)
    requires SoundExcept(s, k, now, second) && k < |s.pool|
    ensures Sound(AfterClear(s, k), now, second)
  {
    RemoveFacts(s.list, k);
    RemoveElement(s.list, k);
    hide Kept, GivenUp;
  }

  /** A transaction that is resent before it was sent has been counted once more than it has been transmitted. */
  lemma UnsentResent(s: State, k: nat, now: nat, second: nat)
    requires Sound(s, now, second) && k < |s.pool| && s.pool[k].used && Unsent(s.pool[k]) && s.pool[k].con
    ensures var t := AfterSend(Incremented(s, k), k, now, second, 0);
            && Blocks(t) && t.list == s.list && t.pool[k].waiting && t.pool[k].used
            && !BlockSound(t.pool[k], now, second)
  {
    assert BlockSound(s.pool[k], now, second);
    hide Apart, InitialInterval, Interval;
  }

  lemma CheckStep(s: State, j: nat, now: nat, second: nat)
    requires Sound(s, now, second) && j < |s.list|
    requires var t := s.pool[s.list[j]]; !t.waiting && !(Unsent(t) && t.con)
    ensures var k := s.list[j];
            var t := AfterSend(Incremented(s, k), k, now, second, 0);
            && Sound(t, now, second) && |t.pool| == |s.pool|
            && (t.pool[k].used <==> s.pool[k].con && s.pool[k].counter + 1 < COAP_MAX_RETRANSMIT)
            && (t.pool[k].used ==> t.list == s.list && (MeetsUnsent(t, j + 1) <==> MeetsUnsent(s, j + 1)))
  {
    hide Kept, GivenUp, MeetsUnsent, Remove;
    var k := s.list[j];
    var t := AfterSend(Incremented(s, k), k, now, second, 0);
    if Unsent(s.pool[k]) {
      ClearedSound(Incremented(s, k), k, now, second);
    } else {
      NextDue(s, k, now, second);
      SendKeepsSound(Incremented(s, k), k, now, second, 0);
    }
    if t.pool[k].used {
      MeetsSame(s, t, j + 1, k);
    }
  }

  /** A check keeps everything exactly when its loop does not come to a confirmable transaction that is still unsent. */
  lemma {:induction false} CheckKeepsSoundIff(s: State, j: nat, now: nat, second: nat)
    requires Sound(s, now, second)
    ensures Sound(CheckFrom(s, j, now, second), now, second) <==> !MeetsUnsent(s, j)
    decreases |s.list| - j
  {
    hide BlockSound, GivenUp, AfterSend, NoDuplicates;
    if j < |s.list| {
      var k := s.list[j];
      var t := AfterSend(Incremented(s, k), k, now, second, 0);
      if s.pool[k].waiting {
        SentIfWaiting(s, k, now, second);
        CheckKeepsSoundIff(s, j + 1, now, second);
      } else if Unsent(s.pool[k]) && s.pool[k].con {
        UnsentResent(s, k, now, second);
        CheckKeepsOthers(t, j + 1, k, now, second);
      } else {
        CheckStep(s, j, now, second);
        if t.pool[k].used {
          CheckKeepsSoundIff(t, j + 1, now, second);
        }
      }
    }
  }

  lemma SentIfWaiting(s: State, k: nat, now: nat, second: nat)
    requires Sound(s, now, second) && k < |s.pool| && s.pool[k].waiting
    ensures !Unsent(s.pool[k])
  {
    assert BlockSound(s.pool[k], now, second);
  }

  // ----- what a check does to every transaction

  /** The loop ends at this transaction: its timer is not running, and it is not confirmable or has been sent as often
      as the limit allows. */
  predicate EndsLoop(t: Transaction) { !t.waiting && (!t.con || t.counter >= 3) }

  /** The position at which the loop ends. */
  function LoopEnd(s: State, j: nat): (e: nat)
    requires forall i :: 0 <= i < |s.list| ==> s.list[i] < |s.pool|
    ensures j <= |s.list| ==> j <= e <= |s.list|
    ensures forall i :: j <= i < e ==> i < |s.list| && !EndsLoop(s.pool[s.list[i]])
    ensures j <= e < |s.list| ==> EndsLoop(s.pool[s.list[e]])
    decreases |s.list| - j
  {
    if j >= |s.list| || EndsLoop(s.pool[s.list[j]]) then j else LoopEnd(s, j + 1)
  }

  /** One more transmission, at now, with a doubled interval. */
  predicate Resent(before: Transaction, after: Transaction, now: nat) {
    after == before.(counter := before.counter + 1, interval := 2 * before.interval, start := now, waiting := true,
                     history := History(before.history.first, before.history.sends + [now]))
  }

  /** Transaction i of the list after a check: left alone while its timer is running, otherwise sent again. */
  predicate Served(s: State, t: State, i: nat, now: nat)
    requires i < |s.list| && s.list[i] < |s.pool| == |t.pool|
  {
    var before, after := s.pool[s.list[i]], t.pool[s.list[i]];
    if before.waiting then after == before else Resent(before, after, now)
  }

  /** The transaction the loop ends at is taken off the list, and given up if it is confirmable. */
  predicate Ended(s: State, t: State, e: nat, now: nat)
    requires e < |s.list| && s.list[e] < |s.pool| == |t.pool|
  {
    var k := s.list[e];
    var h := s.pool[k].history;
    && t.pool[k] == s.pool[k].(used := false, waiting := false, counter := s.pool[k].counter + 1)
    && t.list == s.list[..e] + s.list[e + 1..]
    && t.timedOut == s.timedOut + if s.pool[k].con then [History(h.first, h.sends + [now])] else []
  }

  ghost predicate ServedFrom(s: State, t: State, j: nat, e: nat, now: nat)
    requires forall i :: 0 <= i < |s.list| ==> s.list[i] < |s.pool|
    requires |t.pool| == |s.pool| && e <= |s.list|
  {
    && (forall i :: j <= i < e ==> Served(s, t, i, now))
    && (if e < |s.list| then Ended(s, t, e, now) else t.list == s.list && t.timedOut == s.timedOut)
    && (forall k :: 0 <= k < |s.pool| && (forall i :: j <= i <= e && i < |s.list| ==> s.list[i] != k) ==>
          t.pool[k] == s.pool[k])
  }

  lemma ResendStep(s: State, j: nat, now: nat, second: nat)
    requires Sound(s, now, second) && j < |s.list|
    requires var t := s.pool[s.list[j]]; !t.waiting && !EndsLoop(t) && !Unsent(t)
    ensures var k := s.list[j];
            var t := AfterSend(Incremented(s, k), k, now, second, 0);
            && t == s.(pool := s.pool[k := t.pool[k]]) && Resent(s.pool[k], t.pool[k], now)
  {
    hide Apart, InitialInterval, Interval;
    assert BlockSound(s.pool[s.list[j]], now, second);
  }

  lemma EndStep(s: State, j: nat, now: nat, second: nat)
    requires Sound(s, now, second) && j < |s.list| && EndsLoop(s.pool[s.list[j]])
    requires var t := s.pool[s.list[j]]; !(Unsent(t) && t.con)
    ensures var k := s.list[j];
            var t := AfterSend(Incremented(s, k), k, now, second, 0);
            && |t.pool| == |s.pool| && !t.pool[k].used && Ended(s, t, j, now)
            && (forall i :: 0 <= i < |s.pool| && i != k ==> t.pool[i] == s.pool[i])
  {
    hide Apart, InitialInterval, Interval, Remove;
    var k := s.list[j];
    assert BlockSound(s.pool[k], now, second);
    forall i | 0 <= i < j ensures s.list[i] != k {
    }
    RemoveAt(s.list, k, j);
  }

  /** Up to the transaction it ends at, a check sends every transaction whose timer is not running once more and leaves
      all others alone. */
  lemma {:induction false} CheckServes(s: State, j: nat, now: nat, second: nat)
    requires Sound(s, now, second) && !MeetsUnsent(s, j) && j <= |s.list|
    ensures var t := CheckFrom(s, j, now, second);
            |t.pool| == |s.pool| && ServedFrom(s, t, j, LoopEnd(s, j), now)
    decreases |s.list| - j
  {
    hide BlockSound, GivenUp, AfterSend, Resent, Ended, Unsent, ServedFrom, NoDuplicates, EndsLoop;
    if j < |s.list| {
      var k := s.list[j];
      var t := AfterSend(Incremented(s, k), k, now, second, 0);
      if EndsLoop(s.pool[k]) {
        NotWaiting(s.pool[k]);
        EndStep(s, j, now, second);
        EndedFrom(s, t, j, now);
      } else if s.pool[k].waiting {
        SentIfWaiting(s, k, now, second);
        CheckServes(s, j + 1, now, second);
        WaitingBefore(s, CheckFrom(s, j + 1, now, second), j, LoopEnd(s, j), now);
      } else {
        GoesOn(s.pool[k]);
        ResendStep(s, j, now, second);
        CheckStep(s, j, now, second);
        CheckServes(t, j + 1, now, second);
        Distinct(s, j);
        SameLoopEnd(s, t, j + 1, k);
        ServedBefore(s, t, CheckFrom(t, j + 1, now, second), j, LoopEnd(s, j), now);
      }
    } else {
      NothingServed(s, j, now);
    }
  }

  lemma NotWaiting(t: Transaction)
    requires EndsLoop(t)
    ensures !t.waiting && (t.con ==> t.counter >= 3)
  {
  }

  lemma GoesOn(t: Transaction)
    requires !EndsLoop(t) && !t.waiting
    ensures t.con && t.counter < 3
  {
  }

  lemma Distinct(s: State, j: nat)
    requires Listed(s) && j < |s.list|
    ensures forall i :: j + 1 <= i < |s.list| ==> s.list[i] != s.list[j]
  {
  }

  lemma NothingServed(s: State, j: nat, now: nat)
    requires Listed(s) && j == |s.list|
    ensures ServedFrom(s, s, j, j, now)
  {
  }

  lemma EndedFrom(s: State, t: State, j: nat, now: nat)
    requires Listed(s) && j < |s.list| && |t.pool| == |s.pool| && Ended(s, t, j, now)
    requires forall i :: 0 <= i < |s.pool| && i != s.list[j] ==> t.pool[i] == s.pool[i]
    ensures ServedFrom(s, t, j, j, now)
  {
    hide Ended;
  }

  lemma WaitingBefore(s: State, u: State, j: nat, e: nat, now: nat)
    requires Listed(s) && j < e <= |s.list| && |u.pool| == |s.pool| && s.pool[s.list[j]].waiting
    requires ServedFrom(s, u, j + 1, e, now)
    ensures ServedFrom(s, u, j, e, now)
  {
    hide Ended, Resent;
  }

  lemma {:induction false} SameLoopEnd(s: State, t: State, j: nat, k: nat)
    requires |t.pool| == |s.pool| && t.list == s.list && forall i :: 0 <= i < |s.list| ==> s.list[i] < |s.pool|
    requires forall i :: 0 <= i < |s.pool| && i != k ==> t.pool[i] == s.pool[i]
    requires forall i :: j <= i < |s.list| ==> s.list[i] != k
    ensures LoopEnd(t, j) == LoopEnd(s, j)
    decreases |s.list| - j
  {
    if j < |s.list| {
      SameLoopEnd(s, t, j + 1, k);
    }
  }

  lemma ServedBefore(s: State, t: State, u: State, j: nat, e: nat, now: nat)
    requires Listed(s) && j < e <= |s.list| && |u.pool| == |s.pool|
    requires var k := s.list[j]; |t.pool| == |s.pool| && t == s.(pool := s.pool[k := t.pool[k]])
    requires !s.pool[s.list[j]].waiting && Resent(s.pool[s.list[j]], t.pool[s.list[j]], now)
    requires ServedFrom(t, u, j + 1, e, now)
    ensures ServedFrom(s, u, j, e, now)
  {
    hide Resent;
    var k := s.list[j];
    forall i | j <= i < e ensures Served(s, u, i, now) {
      if i > j {
        assert Served(t, u, i, now);
      }
    }
  }

  // ----- serving all timers

  /** n checks, one after the other. */
  function Checks(s: State, n: nat, now: nat, second: nat): State
    requires Blocks(s) && second > 0 && forall i :: 0 <= i < |s.list| ==> s.list[i] < |s.pool|
    decreases n
  {
    if n == 0 then s
    else
      CheckKeepsBlocks(s, 0, now, second);
      Checks(CheckFrom(s, 0, now, second), n - 1, now, second)
  }

  lemma {:induction false} CheckKeepsBlocks(s: State, j: nat, now: nat, second: nat)
    requires Blocks(s) && second > 0 && forall i :: 0 <= i < |s.list| ==> s.list[i] < |s.pool|
    ensures var t := CheckFrom(s, j, now, second);
            Blocks(t) && forall i :: 0 <= i < |t.list| ==> t.list[i] < |t.pool|
    decreases |s.list| - j
  {
    if j < |s.list| {
      var k := s.list[j];
      RemoveElement(s.list, k);
      if s.pool[k].waiting {
        CheckKeepsBlocks(s, j + 1, now, second);
      } else {
        var t := AfterSend(Incremented(s, k), k, now, second, 0);
        if t.pool[k].used {
          CheckKeepsBlocks(t, j + 1, now, second);
        }
      }
    }
  }

  /** Every confirmable transaction in the list has been sent. */
  predicate AllSent(s: State)
    requires forall i :: 0 <= i < |s.list| ==> s.list[i] < |s.pool|
  {
    forall i :: 0 <= i < |s.list| ==> s.pool[s.list[i]].con ==> !Unsent(s.pool[s.list[i]])
  }

  predicate AllWaiting(s: State)
    requires forall i :: 0 <= i < |s.list| ==> s.list[i] < |s.pool|
  {
    forall i :: 0 <= i < |s.list| ==> s.pool[s.list[i]].waiting
  }

  lemma {:induction false} SentMeetsNone(s: State, j: nat)
    requires (forall i :: 0 <= i < |s.list| ==> s.list[i] < |s.pool|) && AllSent(s)
    ensures !MeetsUnsent(s, j)
    decreases |s.list| - j
  {
    if j < |s.list| {
      SentMeetsNone(s, j + 1);
    }
  }

  /** After a check all timers of listed transactions are running, or one transaction fewer is listed. */
  lemma CheckProgress(s: State, now: nat, second: nat)
    requires Sound(s, now, second) && AllSent(s)
    ensures var t := CheckFrom(s, 0, now, second);
            && Sound(t, now, second) && AllSent(t) && |t.list| <= |s.list| && (AllWaiting(t) || |t.list| < |s.list|)
  {
    hide BlockSound, GivenUp, Unsent;
    SentMeetsNone(s, 0);
    CheckKeepsSoundIff(s, 0, now, second);
    CheckServes(s, 0, now, second);
    var t, e := CheckFrom(s, 0, now, second), LoopEnd(s, 0);
    SentAfterCheck(s, t, e, now);
    if e == |s.list| {
      forall i | 0 <= i < |t.list| ensures t.pool[t.list[i]].waiting {
        assert Served(s, t, i, now);
      }
    }
  }

  lemma OneServed(s: State, t: State, j: nat, e: nat, now: nat)
    requires Listed(s) && j < |s.list| && j != e <= |s.list| && |t.pool| == |s.pool| && ServedFrom(s, t, 0, e, now)
    ensures var k := s.list[j]; t.pool[k] == s.pool[k] || Resent(s.pool[k], t.pool[k], now)
  {
    hide Resent, Ended;
    if j < e {
      assert Served(s, t, j, now);
    }
  }

  lemma SentAfterCheck(s: State, t: State, e: nat, now: nat)
    requires Listed(s) && Listed(t) && AllSent(s) && e <= |s.list|
    requires |t.pool| == |s.pool| && ServedFrom(s, t, 0, e, now)
    ensures AllSent(t)
  {
    hide Resent, Unsent, ServedFrom;
    ServedEnd(s, t, e, now);
    forall i | 0 <= i < |t.list| ensures t.pool[t.list[i]].con ==> !Unsent(t.pool[t.list[i]]) {
      var j := if i < e then i else if e < |s.list| then i + 1 else i;
      assert t.list[i] == s.list[j];
      OneServed(s, t, j, e, now);
      StillSent(s.pool[s.list[j]], t.pool[s.list[j]], now);
    }
  }

  lemma ServedEnd(s: State, t: State, e: nat, now: nat)
    requires Listed(s) && e <= |s.list| && |t.pool| == |s.pool| && ServedFrom(s, t, 0, e, now)
    ensures if e < |s.list| then Ended(s, t, e, now) else t.list == s.list
  {
    hide Ended, Served;
  }

  lemma StillSent(before: Transaction, after: Transaction, now: nat)
    requires after == before || Resent(before, after, now)
    requires before.con ==> !Unsent(before)
    ensures after.con ==> !Unsent(after)
  {
  }

  /** As many checks as transactions are listed leave no timer unserved: every listed transaction waits for its next
      transmission. */
  lemma {:induction false} ChecksServeAll(s: State, n: nat, now: nat, second: nat)
    requires Sound(s, now, second) && AllSent(s) && (|s.list| <= n || AllWaiting(s))
    ensures var t := Checks(s, n, now, second);
            Sound(t, now, second) && (forall i :: 0 <= i < |t.list| ==> t.list[i] < |t.pool|) && AllWaiting(t)
    decreases n
  {
    hide BlockSound, GivenUp, Unsent, CheckFrom;
    if n > 0 {
      CheckProgress(s, now, second);
      if AllWaiting(s) {
        WaitingUnchanged(s, 0, now, second);
      }
      ChecksServeAll(CheckFrom(s, 0, now, second), n - 1, now, second);
    }
  }

  lemma {:induction false} WaitingUnchanged(s: State, j: nat, now: nat, second: nat)
    requires Blocks(s) && second > 0 && (forall i :: 0 <= i < |s.list| ==> s.list[i] < |s.pool|) && AllWaiting(s)
    ensures CheckFrom(s, j, now, second) == s
    decreases |s.list| - j
  {
    if j < |s.list| {
      WaitingUnchanged(s, j + 1, now, second);
    }
  }

  // ----- runs

  /** cleared: the histories of the transactions that the callers have cleared. */
  datatype World = World(state: State, now: nat, cleared: seq<History>)

  datatype Event =
    | New(mid: nat, con: bool)
    | Send(k: nat, random: nat)
    | Clear(k: nat)
    | Check
    | Expire
    | Tick(ticks: nat)

  /** What the callers do: only a new transaction is sent, only an allocated one is cleared, and no timer event is
      served that comes to a confirmable transaction which is still to be sent. */
  ghost predicate Enabled(w: World, e: Event) {
    && Listed(w.state)
    && match e
       case Send(k, _) => k in w.state.list && Unsent(w.state.pool[k])
       case Clear(k) => k in w.state.list
       case Check => !MeetsUnsent(w.state, 0)
       case _ => true
  }

  ghost function After(w: World, e: Event, second: nat): World
    requires Enabled(w, e) && second > 0
  {
    match e
    case New(mid, con) => w.(state := AfterNew(w.state, mid, con).0)
    case Send(k, random) => w.(state := AfterSend(w.state, k, w.now, second, random))
    case Clear(k) => w.(state := AfterClear(w.state, k), cleared := w.cleared + [w.state.pool[k].history])
    case Check => w.(state := CheckFrom(w.state, 0, w.now, second))
    case Expire => w.(state := AfterExpiry(w.state, w.now))
    case Tick(ticks) => w.(now := w.now + ticks)
  }

  lemma StepKeepsSound(w: World, e: Event, second: nat)
    requires Sound(w.state, w.now, second) && Enabled(w, e)
    ensures var v := After(w, e, second); Sound(v.state, v.now, second)
  {
    hide BlockSound, GivenUp, AfterSend, AfterNew, AfterClear, AfterExpiry, CheckFrom, NoDuplicates;
    match e
    case New(mid, con) => NewKeepsSound(w.state, mid, con, w.now, second);
    case Send(k, random) =>
      NewDue(w.state, k, w.now, second);
      SendKeepsSound(w.state, k, w.now, second, random);
    case Clear(k) => ClearKeepsSound(w.state, k, w.now, second);
    case Check => CheckKeepsSoundIff(w.state, 0, w.now, second);
    case Expire => TimeKeepsSound(w.state, w.now, w.now, second);
    case Tick(ticks) => TimeKeepsSound(w.state, w.now, w.now + ticks, second);
  }

  lemma NewDue(s: State, k: nat, now: nat, second: nat)
    requires Sound(s, now, second) && k in s.list && k < |s.pool| && Unsent(s.pool[k])
    ensures SoundExcept(s, k, now, second) && Due(s.pool[k], now, second)
  {
    assert BlockSound(s.pool[k], now, second);
    hide Kept, GivenUp;
  }

  /** The events lead from one state to another; where prompt is set, time never passes over a timer that has run
      out. */
  ghost predicate Run(w: World, events: seq<Event>, second: nat, prompt: bool, end: World)
    decreases |events|
  {
    if events == [] then end == w
    else
      && second > 0 && Enabled(w, events[0]) && (prompt ==> Prompt(w, events[0]))
      && Run(After(w, events[0], second), events[1..], second, prompt, end)
  }

  ghost predicate Prompt(w: World, e: Event) {
    e.Tick? ==>
      forall k :: 0 <= k < |w.state.pool| ==>
        var t := w.state.pool[k];
        t.used && !Unsent(t) ==> t.waiting && w.now + e.ticks <= t.start + t.interval
  }

  lemma {:induction false} RunKeepsSound(w: World, events: seq<Event>, second: nat, prompt: bool, end: World)
    requires Sound(w.state, w.now, second) && Run(w, events, second, prompt, end)
    ensures Sound(end.state, end.now, second)
    decreases |events|
  {
    hide Sound, Enabled, After, Prompt;
    if events != [] {
      SoundSecond(w.state, w.now, second);
      StepKeepsSound(w, events[0], second);
      RunKeepsSound(After(w, events[0], second), events[1..], second, prompt, end);
    }
  }

  lemma SoundSecond(s: State, now: nat, second: nat)
    requires Sound(s, now, second)
    ensures second > 0
  {
  }

  lemma StartSound(second: nat)
    requires second > 0
    ensures Sound(START, 0, second)
  {
  }

  /** In every reachable state the pool and the list hold the same transactions; each one that has been sent is
      confirmable, below the limit, with an interval of I * 2^counter for an I between two and three seconds, and has
      been transmitted counter + 1 times, at least the intervals apart; those given up have been transmitted five
      times. */
  lemma RetransmissionInvariant(events: seq<Event>, second: nat, end: World, k: nat)
    requires second > 0 && Run(World(START, 0, []), events, second, false, end) && k < |end.state.pool|
    ensures end.state.pool[k].used <==> k in end.state.list
    ensures var t := end.state.pool[k];
            t.used && !Unsent(t) ==>
              && t.con && t.counter < COAP_MAX_RETRANSMIT && |t.history.sends| == t.counter + 1 <= 4
              && 2 * second <= t.history.first <= 3 * second && t.interval == Interval(t.history.first, t.counter)
              && Apart(t.history)
    ensures forall i :: 0 <= i < |end.state.timedOut| ==>
              |end.state.timedOut[i].sends| == 5 && Apart(end.state.timedOut[i])
  {
    StartSound(second);
    RunKeepsSound(World(START, 0, []), events, second, false, end);
    hide Run, Apart, Interval;
    assert BlockSound(end.state.pool[k], end.now, second);
  }

  // ----- timers served on expiry

  ghost predicate Scheduled(h: History, n: nat) {
    |h.sends| == n && forall i :: 0 <= i < n ==> h.sends[i] == SendTime(h.sends[0], h.first, i)
  }

  ghost predicate OnTime(t: Transaction, now: nat) {
    t.used && !Unsent(t) ==>
      && Scheduled(t.history, t.counter + 1) && now <= t.start + t.interval
      && (!t.waiting ==> now == t.start + t.interval)
  }

  ghost predicate Punctual(s: State, now: nat) {
    && (forall k :: 0 <= k < |s.pool| ==> OnTime(s.pool[k], now))
    && (forall i :: 0 <= i < |s.timedOut| ==> Scheduled(s.timedOut[i], 5))
  }

  lemma ScheduleGrows(t: Transaction, now: nat, second: nat)
    requires Kept(t, now, second) && OnTime(t, now) && !t.waiting && t.used
    ensures Scheduled(History(t.history.first, t.history.sends + [now]), t.counter + 2)
  {
    var sends := t.history.sends + [now];
    assert now == SendTime(sends[0], t.history.first, t.counter + 1);
    forall i | 0 <= i < t.counter + 2 ensures sends[i] == SendTime(sends[0], t.history.first, i) {
      assert i <= t.counter ==> sends[i] == t.history.sends[i];
    }
  }

  lemma NewPunctual(s: State, k: nat, now: nat, second: nat, random: nat)
    requires Punctual(s, now) && k < |s.pool| && Due(s.pool[k], now, second) && second > 0 && Unsent(s.pool[k])
    ensures Punctual(AfterSend(s, k, now, second, random), now)
  {
    hide FirstInterval;
  }

  lemma ResendPunctual(s: State, k: nat, now: nat, second: nat)
    requires Sound(s, now, second) && Punctual(s, now) && k < |s.pool| && s.pool[k].used && !s.pool[k].waiting
             && !Unsent(s.pool[k])
    ensures Punctual(AfterSend(Incremented(s, k), k, now, second, 0), now)
  {
    assert BlockSound(s.pool[k], now, second) && OnTime(s.pool[k], now);
    ScheduleGrows(s.pool[k], now, second);
    hide Scheduled, Apart, FirstInterval;
  }

  lemma ClearedPunctual(s: State, k: nat, now: nat)
    requires Punctual(s, now) && k < |s.pool|
    ensures Punctual(AfterClear(Incremented(s, k), k), now)
  {
    hide Scheduled;
  }

  lemma {:induction false} CheckPunctual(s: State, j: nat, now: nat, second: nat)
    requires Sound(s, now, second) && !MeetsUnsent(s, j) && Punctual(s, now)
    ensures Punctual(CheckFrom(s, j, now, second), now)
    decreases |s.list| - j
  {
    hide BlockSound, GivenUp, AfterSend, AfterClear, NoDuplicates, OnTime, Scheduled;
    if j < |s.list| {
      var k := s.list[j];
      if s.pool[k].waiting {
        SentIfWaiting(s, k, now, second);
        CheckPunctual(s, j + 1, now, second);
      } else {
        CheckStep(s, j, now, second);
        var t := AfterSend(Incremented(s, k), k, now, second, 0);
        if Unsent(s.pool[k]) {
          ClearedPunctual(s, k, now);
          NotConfirmable(s, k, now, second);
        } else {
          ResendPunctual(s, k, now, second);
        }
        if t.pool[k].used {
          CheckPunctual(t, j + 1, now, second);
        }
      }
    }
  }

  lemma NotConfirmable(s: State, k: nat, now: nat, second: nat)
    requires k < |s.pool| && !s.pool[k].con && second > 0
    ensures AfterSend(Incremented(s, k), k, now, second, 0) == AfterClear(Incremented(s, k), k)
  {
    hide Remove;
  }

  lemma StepPunctual(w: World, e: Event, second: nat)
    requires Sound(w.state, w.now, second) && Punctual(w.state, w.now) && Enabled(w, e) && Prompt(w, e)
    ensures var v := After(w, e, second); Punctual(v.state, v.now)
  {
    hide BlockSound, GivenUp, AfterSend, CheckFrom, NoDuplicates, Scheduled;
    match e
    case New(mid, con) =>
    case Send(k, random) =>
      NewDue(w.state, k, w.now, second);
      NewPunctual(w.state, k, w.now, second, random);
    case Clear(k) =>
    case Check => CheckPunctual(w.state, 0, w.now, second);
    case Expire =>
    case Tick(ticks) =>
  }

  lemma {:induction false} RunPunctual(w: World, events: seq<Event>, second: nat, end: World)
    requires Sound(w.state, w.now, second) && Punctual(w.state, w.now) && Run(w, events, second, true, end)
    ensures Punctual(end.state, end.now)
    decreases |events|
  {
    hide Sound, Enabled, After, Prompt, Punctual;
    if events != [] {
      SoundSecond(w.state, w.now, second);
      StepKeepsSound(w, events[0], second);
      StepPunctual(w, events[0], second);
      RunPunctual(After(w, events[0], second), events[1..], second, end);
    }
  }

  /** With timers served as they run out, a transaction is transmitted 0, I, 3 I, 7 I and 15 I after it was first sent,
      and given up with the fifth transmission, without waiting for an answer to it. */
  lemma ReleaseTime(events: seq<Event>, second: nat, end: World, i: nat)
    requires second > 0 && Run(World(START, 0, []), events, second, true, end) && i < |end.state.timedOut|
    ensures var h := end.state.timedOut[i];
            |h.sends| == 5
            && var t0 := h.sends[0];
               h.sends == [t0, t0 + h.first, t0 + 3 * h.first, t0 + 7 * h.first, t0 + 15 * h.first]
  {
    StartSound(second);
    RunPunctual(World(START, 0, []), events, second, end);
    var h := end.state.timedOut[i];
    assert Scheduled(h, 5);
    Schedule(h.sends[0], h.first);
  }

  // ----- expired timers

  /** Exactly the timers whose interval is over stop running; nothing else changes. */
  lemma ExpiryIff(s: State, now: nat, k: nat)
    requires k < |s.pool|
    ensures var t := AfterExpiry(s, now);
            && |t.pool| == |s.pool| && t.list == s.list && t.timedOut == s.timedOut
            && t.pool[k] == s.pool[k].(waiting := t.pool[k].waiting)
            && (t.pool[k].waiting <==> s.pool[k].waiting && now < s.pool[k].start + s.pool[k].interval)
  {
  }

  /** The initial interval takes exactly the values from two to three seconds. */
  lemma FirstIntervalIff(second: nat, first: nat)
    requires second > 0
    ensures InitialInterval(first, second) <==> exists random :: FirstInterval(second, random) == first
  {
    if InitialInterval(first, second) {
      assert FirstInterval(second, first - 2 * second) == first;
    }
    forall random ensures InitialInterval(FirstInterval(second, random), second) {
      FirstIntervalBounds(second, random);
    }
  }

  /** The transaction with this history is still to be served, has been sent once more at now, or has been given up with
      that. */
  ghost predicate ServedAt(s: State, k: nat, h: History, now: nat) {
    var sent := History(h.first, h.sends + [now]);
    || (k < |s.pool| && s.pool[k].used && s.pool[k].history == if s.pool[k].waiting then sent else h)
    || sent in s.timedOut
  }

  lemma CheckServesAt(s: State, k: nat, h: History, now: nat, second: nat)
    requires Sound(s, now, second) && AllSent(s) && ServedAt(s, k, h, now) && h.sends != []
    ensures ServedAt(CheckFrom(s, 0, now, second), k, h, now)
  {
    SentMeetsNone(s, 0);
    CheckServes(s, 0, now, second);
    hide BlockSound, GivenUp, CheckFrom, MeetsUnsent, NoDuplicates, EndsLoop;
    var t, e := CheckFrom(s, 0, now, second), LoopEnd(s, 0);
    TimedOutGrows(s, t, e, now);
    if History(h.first, h.sends + [now]) !in s.timedOut {
      var j :| 0 <= j < |s.list| && s.list[j] == k;
      if j == e {
        SentIsConfirmable(s, k, now, second);
        EndedServes(s, t, e, h, now);
      } else {
        OtherServes(s, t, j, e, h, now);
      }
    }
  }

  lemma SentIsConfirmable(s: State, k: nat, now: nat, second: nat)
    requires Sound(s, now, second) && k < |s.pool| && s.pool[k].used && !Unsent(s.pool[k])
    ensures s.pool[k].con
  {
    assert BlockSound(s.pool[k], now, second);
  }

  lemma TimedOutGrows(s: State, t: State, e: nat, now: nat)
    requires Listed(s) && e <= |s.list| && |t.pool| == |s.pool| && ServedFrom(s, t, 0, e, now)
    ensures s.timedOut <= t.timedOut
    ensures forall h :: h in s.timedOut ==> h in t.timedOut
  {
    hide Served;
  }

  lemma EndedServes(s: State, t: State, e: nat, h: History, now: nat)
    requires Listed(s) && AllSent(s) && e < |s.list| && |t.pool| == |s.pool| && ServedFrom(s, t, 0, e, now)
    requires e == LoopEnd(s, 0) && ServedAt(s, s.list[e], h, now)
    requires s.pool[s.list[e]].used && (s.pool[s.list[e]].con || History(h.first, h.sends + [now]) in s.timedOut)
    ensures ServedAt(t, s.list[e], h, now)
  {
    assert Ended(s, t, e, now);
    TimedOutGrows(s, t, e, now);
    hide Served, NoDuplicates;
    var sent := History(h.first, h.sends + [now]);
    if sent !in s.timedOut {
      assert t.timedOut[|s.timedOut|] == sent;
    }
  }

  lemma OtherServes(s: State, t: State, j: nat, e: nat, h: History, now: nat)
    requires Listed(s) && j < |s.list| && j != e <= |s.list| && |t.pool| == |s.pool| && ServedFrom(s, t, 0, e, now)
    requires ServedAt(s, s.list[j], h, now)
    ensures ServedAt(t, s.list[j], h, now)
  {
    TimedOutGrows(s, t, e, now);
    hide NoDuplicates, Ended;
    if j < e {
      assert Served(s, t, j, now);
    }
  }

  lemma {:induction false} ChecksServeAt(s: State, n: nat, k: nat, h: History, now: nat, second: nat)
    requires Sound(s, now, second) && AllSent(s) && ServedAt(s, k, h, now) && h.sends != []
    ensures ServedAt(Checks(s, n, now, second), k, h, now)
    decreases n
  {
    hide BlockSound, GivenUp, CheckFrom, ServedAt, AllSent;
    if n > 0 {
      CheckServesAt(s, k, h, now, second);
      CheckProgress(s, now, second);
      ChecksServeAt(CheckFrom(s, 0, now, second), n - 1, k, h, now, second);
    }
  }

  /** A transaction whose timer has run out is sent once more when the timers are served: the expired timers are marked,
      and as many checks follow as transactions are listed. It then waits again, or has been given up with that
      transmission. */
  lemma DueIsServed(s: State, k: nat, now: nat, second: nat)
    requires Sound(s, now, second) && AllSent(s) && k < |s.pool| && s.pool[k].used && s.pool[k].con
    requires s.pool[k].start + s.pool[k].interval <= now
    ensures var expired := AfterExpiry(s, now);
            && Sound(expired, now, second)
            && var t := Checks(expired, |s.list|, now, second);
               var sent := History(s.pool[k].history.first, s.pool[k].history.sends + [now]);
               || sent in t.timedOut
               || (k < |t.pool| && t.pool[k].used && t.pool[k].waiting && t.pool[k].history == sent)
  {
    TimeKeepsSound(s, now, now, second);
    var expired, h := AfterExpiry(s, now), s.pool[k].history;
    ExpiryIff(s, now, k);
    ExpiredIsSent(s, now);
    ListedIsSent(s, k);
    hide AfterExpiry, BlockSound, GivenUp, AllSent, Unsent, NoDuplicates;
    ChecksServeAll(expired, |s.list|, now, second);
    ChecksServeAt(expired, |s.list|, k, h, now, second);
  }

  lemma ExpiredIsSent(s: State, now: nat)
    requires Listed(s) && AllSent(s)
    ensures Listed(AfterExpiry(s, now)) && AllSent(AfterExpiry(s, now))
  {
  }

  lemma ListedIsSent(s: State, k: nat)
    requires Listed(s) && AllSent(s) && k < |s.pool| && s.pool[k].used && s.pool[k].con
    ensures s.pool[k].history.sends != []
  {
    var j :| 0 <= j < |s.list| && s.list[j] == k;
  }

  // ----- no transaction is lost

  /** h is the history of the transaction first sent at t0 with this initial interval. */
  predicate Of(h: History, t0: nat, first: nat) { h.first == first && h.sends != [] && h.sends[0] == t0 }

  ghost predicate Somewhere(histories: seq<History>, t0: nat, first: nat) {
    exists i :: 0 <= i < |histories| && Of(histories[i], t0, first)
  }

  ghost predicate Alive(s: State, k: nat, t0: nat, first: nat) {
    k < |s.pool| && s.pool[k].used && Of(s.pool[k].history, t0, first)
  }

  /** The transaction is still in its block, has been given up, or has been cleared by a caller. */
  ghost predicate Accounted(w: World, k: nat, t0: nat, first: nat) {
    || Alive(w.state, k, t0, first) || Somewhere(w.state.timedOut, t0, first) || Somewhere(w.cleared, t0, first)
  }

  lemma SomewhereGrows(a: seq<History>, h: History, t0: nat, first: nat)
    ensures Somewhere(a, t0, first) ==> Somewhere(a + [h], t0, first)
    ensures Of(h, t0, first) ==> Somewhere(a + [h], t0, first)
  {
    var b := a + [h];
    assert b[|a|] == h;
    if Somewhere(a, t0, first) {
      var i :| 0 <= i < |a| && Of(a[i], t0, first);
      assert b[i] == a[i];
    }
  }

  lemma CheckAccounts(w: World, k: nat, t0: nat, first: nat, second: nat)
    requires Sound(w.state, w.now, second) && Enabled(w, Check) && Accounted(w, k, t0, first)
    ensures Accounted(After(w, Check, second), k, t0, first)
  {
    hide BlockSound, GivenUp, CheckFrom, MeetsUnsent, Apart, Interval, Resent, Of, Served, NoDuplicates, Somewhere;
    var s := w.state;
    CheckServes(s, 0, w.now, second);
    var t, e := CheckFrom(s, 0, w.now, second), LoopEnd(s, 0);
    if Alive(s, k, t0, first) {
      var j :| 0 <= j < |s.list| && s.list[j] == k;
      if j == e {
        EndedAccounts(s, t, e, w.now, second, t0, first);
      } else {
        OneServed(s, t, j, e, w.now);
        StillOf(s.pool[k], t.pool[k], w.now, t0, first);
      }
    } else if Somewhere(s.timedOut, t0, first) && e < |s.list| {
      var h := s.pool[s.list[e]].history;
      SomewhereGrows(s.timedOut, History(h.first, h.sends + [w.now]), t0, first);
      assert s.timedOut + [] == s.timedOut;
    }
  }

  lemma StillOf(before: Transaction, after: Transaction, now: nat, t0: nat, first: nat)
    requires after == before || Resent(before, after, now)
    requires before.used && Of(before.history, t0, first)
    ensures after.used && Of(after.history, t0, first)
  {
  }

  lemma EndedAccounts(s: State, t: State, e: nat, now: nat, second: nat, t0: nat, first: nat)
    requires Sound(s, now, second) && e < |s.list| && |t.pool| == |s.pool| && Ended(s, t, e, now)
    requires Alive(s, s.list[e], t0, first)
    ensures Somewhere(t.timedOut, t0, first)
  {
    var k := s.list[e];
    assert BlockSound(s.pool[k], now, second);
    hide Apart, Interval, InitialInterval;
    var h := s.pool[k].history;
    SomewhereGrows(s.timedOut, History(h.first, h.sends + [now]), t0, first);
  }

  lemma StepAccounts(w: World, e: Event, k: nat, t0: nat, first: nat, second: nat)
    requires Sound(w.state, w.now, second) && Enabled(w, e) && Accounted(w, k, t0, first)
    ensures Accounted(After(w, e, second), k, t0, first)
  {
    hide BlockSound, GivenUp, CheckFrom, Somewhere, FirstInterval, Remove;
    match e
    case Clear(j) => SomewhereGrows(w.cleared, w.state.pool[j].history, t0, first);
    case Check => CheckAccounts(w, k, t0, first, second);
    case Send(j, random) => SendAccounts(w, j, random, k, t0, first, second);
    case _ =>
  }

  lemma SendAccounts(w: World, j: nat, random: nat, k: nat, t0: nat, first: nat, second: nat)
    requires Sound(w.state, w.now, second) && Enabled(w, Send(j, random)) && Accounted(w, k, t0, first)
    ensures Accounted(After(w, Send(j, random), second), k, t0, first)
  {
    hide GivenUp, Somewhere, FirstInterval, Remove, Kept;
    assert BlockSound(w.state.pool[j], w.now, second);
  }

  lemma {:induction false} RunAccounts(w: World, events: seq<Event>, k: nat, t0: nat, first: nat, second: nat,
                                       prompt: bool, end: World)
    requires Sound(w.state, w.now, second) && Run(w, events, second, prompt, end) && Accounted(w, k, t0, first)
    ensures Accounted(end, k, t0, first)
    decreases |events|
  {
    hide Sound, Enabled, After, Prompt, Accounted;
    if events != [] {
      SoundSecond(w.state, w.now, second);
      StepKeepsSound(w, events[0], second);
      StepAccounts(w, events[0], k, t0, first, second);
      RunAccounts(After(w, events[0], second), events[1..], k, t0, first, second, prompt, end);
    }
  }

  lemma Schedule(t0: nat, first: nat)
    ensures SendTime(t0, first, 1) == t0 + first && SendTime(t0, first, 2) == t0 + 3 * first
    ensures SendTime(t0, first, 3) == t0 + 7 * first && SendTime(t0, first, 4) == t0 + 15 * first
  {
    assert Interval(first, 1) == 2 * first;
    assert Interval(first, 2) == 4 * first;
    assert Interval(first, 3) == 8 * first;
    assert SendTime(t0, first, 2) == SendTime(t0, first, 1) + Interval(first, 1);
    assert SendTime(t0, first, 3) == SendTime(t0, first, 2) + Interval(first, 2);
  }

  lemma SendTimesGrow(t0: nat, first: nat, i: nat)
    requires i <= 4
    ensures SendTime(t0, first, i) <= SendTime(t0, first, 4)
  {
    SendTimeStep(t0, first, 0);
    SendTimeStep(t0, first, 1);
    SendTimeStep(t0, first, 2);
    SendTimeStep(t0, first, 3);
    hide SendTime;
  }

  lemma SendTimeStep(t0: nat, first: nat, i: nat)
    ensures SendTime(t0, first, i) <= SendTime(t0, first, i + 1) == SendTime(t0, first, i) + Interval(first, i)
  {
  }

  lemma AliveOnTime(s: State, k: nat, now: nat, t0: nat, first: nat, second: nat)
    requires Sound(s, now, second) && Punctual(s, now) && Alive(s, k, t0, first)
    ensures var t := s.pool[k];
            && t.counter < 4 && |t.history.sends| == t.counter + 1
            && (forall i :: 0 <= i <= t.counter ==> t.history.sends[i] == SendTime(t0, first, i))
            && now <= SendTime(t0, first, t.counter + 1) <= SendTime(t0, first, 4)
  {
    hide Apart, InitialInterval, Interval, SendTime;
    var t := s.pool[k];
    assert BlockSound(t, now, second) && OnTime(t, now);
    SendTimeStep(t0, first, t.counter);
    SendTimesGrow(t0, first, t.counter + 1);
  }

  /** With timers served as they run out, a transaction first sent at t0 with initial interval I is, after any number of
      further events, still in its block with exactly the transmissions that are due of t0, t0 + I, t0 + 3 I, t0 + 7 I
      and t0 + 15 I, or it has been given up after all five, or a caller has cleared it. Past t0 + 15 I only the last
      two are left. */
  lemma EveryTransactionIsServed(events: seq<Event>, mid: World, more: seq<Event>, end: World, k: nat, second: nat)
    requires second > 0 && Run(World(START, 0, []), events, second, true, mid)
    requires k < |mid.state.pool| && mid.state.pool[k].used && !Unsent(mid.state.pool[k])
    requires Run(mid, more, second, true, end)
    ensures var h := mid.state.pool[k].history;
            var t0, first := h.sends[0], h.first;
            var due := [t0, t0 + first, t0 + 3 * first, t0 + 7 * first, t0 + 15 * first];
            || (exists i :: 0 <= i < |end.state.timedOut| && end.state.timedOut[i] == History(first, due))
            || (exists i :: 0 <= i < |end.cleared| && Of(end.cleared[i], t0, first))
            || (&& Alive(end.state, k, t0, first) && end.now <= t0 + 15 * first
                && var sends := end.state.pool[k].history.sends;
                   0 < |sends| < 5 && sends == due[..|sends|] && end.now <= due[|sends|])
  {
    hide Run, Punctual, Sound, Accounted, Alive, Unsent;
    StartSound(second);
    StartPunctual();
    RunKeepsSound(World(START, 0, []), events, second, true, mid);
    RunPunctual(World(START, 0, []), events, second, mid);
    RunKeepsSound(mid, more, second, true, end);
    RunPunctual(mid, more, second, end);
    FirstSent(mid, k);
    var h := mid.state.pool[k].history;
    RunAccounts(mid, more, k, h.sends[0], h.first, second, true, end);
    AccountedOnTime(end, k, h.sends[0], h.first, second);
  }

  lemma StartPunctual()
    ensures Punctual(START, 0)
  {
  }

  lemma FirstSent(w: World, k: nat)
    requires k < |w.state.pool| && w.state.pool[k].used && !Unsent(w.state.pool[k])
    ensures w.state.pool[k].history.sends != []
    ensures Accounted(w, k, w.state.pool[k].history.sends[0], w.state.pool[k].history.first)
  {
  }

  lemma AccountedOnTime(w: World, k: nat, t0: nat, first: nat, second: nat)
    requires Sound(w.state, w.now, second) && Punctual(w.state, w.now) && Accounted(w, k, t0, first)
    ensures var due := [t0, t0 + first, t0 + 3 * first, t0 + 7 * first, t0 + 15 * first];
            || (exists i :: 0 <= i < |w.state.timedOut| && w.state.timedOut[i] == History(first, due))
            || (exists i :: 0 <= i < |w.cleared| && Of(w.cleared[i], t0, first))
            || (&& Alive(w.state, k, t0, first) && w.now <= t0 + 15 * first
                && var sends := w.state.pool[k].history.sends;
                   0 < |sends| < 5 && sends == due[..|sends|] && w.now <= due[|sends|])
  {
    hide Sound, SendTime, OnTime;
    Schedule(t0, first);
    SentAtOnce(t0, first);
    if Alive(w.state, k, t0, first) {
      AliveOnTime(w.state, k, w.now, t0, first, second);
    } else if Somewhere(w.state.timedOut, t0, first) {
      var i :| 0 <= i < |w.state.timedOut| && Of(w.state.timedOut[i], t0, first);
      assert Scheduled(w.state.timedOut[i], 5);
      var due := [t0, t0 + first, t0 + 3 * first, t0 + 7 * first, t0 + 15 * first];
      assert w.state.timedOut[i].sends == due;
    }
  }

  lemma SentAtOnce(t0: nat, first: nat)
    ensures SendTime(t0, first, 0) == t0
  {
  }

  /** A timer event served between allocation and first transmission counts and sends the transaction as if its timer
      had expired: no initial interval is drawn, and the stale interval of the block is doubled. */
  lemma CheckBeforeSend(s: State, now: nat, second: nat)
    requires Sound(s, now, second) && s.list != [] && Unsent(s.pool[s.list[0]]) && s.pool[s.list[0]].con
    ensures var k := s.list[0];
            var t := CheckFrom(s, 0, now, second);
            && k < |t.pool| && t.pool[k].counter == 1 && t.pool[k].history.sends == [now]
            && t.pool[k].interval == 2 * s.pool[k].interval
  {
    hide Remove, GivenUp;
    var k := s.list[0];
    assert BlockSound(s.pool[k], now, second);
    var u := AfterSend(Incremented(s, k), k, now, second, 0);
    assert u.pool[k].counter == 1 && u.pool[k].waiting && u.list == s.list;
    CheckKeepsOthers(u, 1, k, now, second);
  }

  lemma {:induction false} CheckKeepsOthers(s: State, j: nat, k: nat, now: nat, second: nat)
    requires Blocks(s) && second > 0 && (forall i :: 0 <= i < |s.list| ==> s.list[i] < |s.pool|) && k < |s.pool|
    requires s.pool[k].waiting
    ensures var t := CheckFrom(s, j, now, second); k < |t.pool| && t.pool[k] == s.pool[k]
    decreases |s.list| - j
  {
    if j < |s.list| {
      var m := s.list[j];
      if s.pool[m].waiting {
        CheckKeepsOthers(s, j + 1, k, now, second);
      } else {
        var t := AfterSend(Incremented(s, m), m, now, second, 0);
        SendKeepsList(Incremented(s, m), m, now, second, 0);
        if t.pool[m].used {
          CheckKeepsOthers(t, j + 1, k, now, second);
        }
      }
    }
  }
}
