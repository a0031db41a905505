/** The server's 0-RTT ticket store: issue, the minute sweep, lookup, and replay detection. */
module EncryptionTickets {
  import opened Bytes
  import opened Options

  type Ticket = bytes
  type Key = bytes

  const NO_TICKET: Ticket := Zeros(16)

  /** The minute in which a ticket issued at `at` may be swept: its longest lifetime has then passed. */
  function Minute(at: nat, maxSeconds: nat): nat {
    (at + maxSeconds) / 60 + 2
  }

  lemma MinuteMonotone(a: nat, b: nat, maxSeconds: nat)
    requires a <= b
    ensures Minute(a, maxSeconds) <= Minute(b, maxSeconds)
    ensures Minute(b, maxSeconds) > b / 60
  {
  }

  /** A ticket whose minute has come has outlived the longest lifetime. */
  lemma SweptIsExpired(at: nat, maxSeconds: nat, now: nat)
    requires Minute(at, maxSeconds) <= now / 60
    ensures at + maxSeconds < now
  {
  }

  /** What is left of the tickets once everything up to and including `last` is gone. */
  function Behind(tickets: seq<Ticket>, last: Ticket): seq<Ticket> {
    if tickets == [] then []
    else if tickets[0] == last then tickets[1..]
    else Behind(tickets[1..], last)
  }

  lemma {:induction false} BehindIs(tickets: seq<Ticket>, last: Ticket) returns (rest: seq<Ticket>, b: nat)
    ensures rest == Behind(tickets, last) && b + |rest| == |tickets| && rest == tickets[b..]
    ensures last in tickets ==> b > 0 && tickets[b - 1] == last
    decreases |tickets|
  {
    rest, b := Behind(tickets, last), |tickets|;
    if tickets != [] {
      var _, b' := BehindIs(tickets[1..], last);
      b := if tickets[0] == last then 1 else b' + 1;
    }
  }

  /** Tickets in issue order, without repetition, with the issue times never going back. */
  ghost predicate InOrder(tickets: seq<Ticket>, issuedAt: map<Ticket, nat>) {
    && (forall i :: 0 <= i < |tickets| ==> tickets[i] in issuedAt)
    && (forall i, j :: 0 <= i < j < |tickets| ==> tickets[i] != tickets[j] && issuedAt[tickets[i]] <= issuedAt[tickets[j]])
  }

  lemma InOrderDistinct(tickets: seq<Ticket>, issuedAt: map<Ticket, nat>)
    requires InOrder(tickets, issuedAt)
    ensures Distinct(tickets) && forall t :: t in tickets ==> t in issuedAt
  {
  }

  ghost predicate IssuedBy(issuedAt: map<Ticket, nat>, now: nat) {
    forall t :: t in issuedAt ==> issuedAt[t] <= now
  }

  lemma IssuedByLater(issuedAt: map<Ticket, nat>, now: nat, later: nat)
    requires IssuedBy(issuedAt, now) && now <= later
    ensures IssuedBy(issuedAt, later)
  {
  }

  function Forget(lasts: map<int, Ticket>, minute: int): map<int, Ticket> {
    lasts - {minute, minute - 1}
  }

  /** `last` is the last live ticket of minute `k`. */
  ghost predicate LastOf(last: Ticket, k: int, tickets: seq<Ticket>, issuedAt: map<Ticket, nat>, maxSeconds: nat)
    requires InOrder(tickets, issuedAt)
  {
    exists i :: 0 <= i < |tickets| && LastAt(i, last, k, tickets, issuedAt, maxSeconds)
  }

  ghost predicate LastAt(i: nat, last: Ticket, k: int, tickets: seq<Ticket>, issuedAt: map<Ticket, nat>, maxSeconds: nat)
    requires InOrder(tickets, issuedAt) && i < |tickets|
  {
    && tickets[i] == last != NO_TICKET && Minute(issuedAt[last], maxSeconds) == k
    && (forall j :: i < j < |tickets| ==> Minute(issuedAt[tickets[j]], maxSeconds) > k)
  }

  /** Every entry of Lasts that a sweep can still find names the last live ticket of its minute. */
  ghost predicate LastsNamed(lasts: map<int, Ticket>, tickets: seq<Ticket>, issuedAt: map<Ticket, nat>, minute: nat, maxSeconds: nat)
    requires InOrder(tickets, issuedAt)
  {
    forall k :: k in lasts && k >= minute ==> LastOf(lasts[k], k, tickets, issuedAt, maxSeconds)
  }

  /** Everything a sweep drops has its minute behind it. */
  lemma DroppedBefore(tickets: seq<Ticket>, issuedAt: map<Ticket, nat>, last: Ticket, maxSeconds: nat, i: nat)
    requires InOrder(tickets, issuedAt) && last in tickets && i < |tickets| - |Behind(tickets, last)|
    ensures Minute(issuedAt[tickets[i]], maxSeconds) <= Minute(issuedAt[last], maxSeconds)
  {
    var _, b := BehindIs(tickets, last);
    if i < b - 1 {
      MinuteMonotone(issuedAt[tickets[i]], issuedAt[last], maxSeconds);
    }
  }

  lemma BehindInOrder(tickets: seq<Ticket>, issuedAt: map<Ticket, nat>, last: Ticket)
    requires InOrder(tickets, issuedAt)
    ensures InOrder(Behind(tickets, last), issuedAt)
  {
    var rest, b := BehindIs(tickets, last);
    assert forall i :: 0 <= i < |rest| ==> rest[i] == tickets[b + i];
  }

  /** The last ticket of a later minute survives the sweep of an earlier one. */
  lemma LastKept(tickets: seq<Ticket>, issuedAt: map<Ticket, nat>, last: Ticket, minute: nat, maxSeconds: nat, other: Ticket, k: int)
    requires InOrder(tickets, issuedAt) && InOrder(Behind(tickets, last), issuedAt) && last in tickets && k > minute
    requires Minute(issuedAt[last], maxSeconds) == minute && LastOf(other, k, tickets, issuedAt, maxSeconds)
    ensures LastOf(other, k, Behind(tickets, last), issuedAt, maxSeconds)
  {
    hide Minute, InOrder, Behind;
    var i :| 0 <= i < |tickets| && LastAt(i, other, k, tickets, issuedAt, maxSeconds);
    var rest, b := BehindIs(tickets, last);
    if i < b {
      DroppedBefore(tickets, issuedAt, last, maxSeconds, i);
    }
    forall j | i - b < j < |rest| ensures rest[j] in issuedAt && Minute(issuedAt[rest[j]], maxSeconds) > k {
      assert rest[j] == tickets[b + j];
      InOrderDistinct(tickets, issuedAt);
    }
    assert LastAt(i - b, other, k, rest, issuedAt, maxSeconds);
  }

  /** After a sweep at `minute` the later entries of Lasts still name live tickets. */
  lemma LastsKept(lasts: map<int, Ticket>, tickets: seq<Ticket>, issuedAt: map<Ticket, nat>, minute: nat, maxSeconds: nat, left: map<int, Ticket>)
    requires InOrder(tickets, issuedAt) && LastsNamed(lasts, tickets, issuedAt, minute, maxSeconds) && minute in lasts
    requires minute !in left && forall k :: k in left ==> k in lasts && left[k] == lasts[k]
    ensures lasts[minute] in tickets && lasts[minute] != NO_TICKET && Minute(issuedAt[lasts[minute]], maxSeconds) == minute
    ensures InOrder(Behind(tickets, lasts[minute]), issuedAt)
    ensures LastsNamed(left, Behind(tickets, lasts[minute]), issuedAt, minute, maxSeconds)
  {
    var last := lasts[minute];
    assert LastOf(last, minute, tickets, issuedAt, maxSeconds);
    BehindInOrder(tickets, issuedAt, last);
    hide Minute, Behind;
    forall k | k in left && k >= minute ensures LastOf(left[k], k, Behind(tickets, last), issuedAt, maxSeconds) {
      LastKept(tickets, issuedAt, last, minute, maxSeconds, left[k], k);
    }
  }

  /** A fresh ticket becomes the last one of its minute and leaves the earlier minutes alone. */
  lemma IssueLasts(lasts: map<int, Ticket>, tickets: seq<Ticket>, issuedAt: map<Ticket, nat>, minute: nat, maxSeconds: nat, ticket: Ticket, now: nat)
    requires InOrder(tickets, issuedAt) && LastsNamed(lasts, tickets, issuedAt, minute, maxSeconds) && minute <= now / 60
    requires IssuedBy(issuedAt, now) && ticket !in issuedAt && ticket != NO_TICKET
    ensures InOrder(tickets + [ticket], issuedAt[ticket := now])
    ensures LastsNamed(lasts[Minute(now, maxSeconds) := ticket], tickets + [ticket], issuedAt[ticket := now], now / 60, maxSeconds)
  {
    hide Minute;
    var key, lasts', tickets', issuedAt' := Minute(now, maxSeconds), lasts[Minute(now, maxSeconds) := ticket], tickets + [ticket], issuedAt[ticket := now];
    assert tickets'[|tickets|] == ticket;
    assert forall i :: 0 <= i < |tickets| ==> tickets'[i] == tickets[i] && tickets[i] in issuedAt;
    forall k | k in lasts' && k >= now / 60 ensures LastOf(lasts'[k], k, tickets', issuedAt', maxSeconds) {
      if k == key {
        assert LastAt(|tickets|, ticket, k, tickets', issuedAt', maxSeconds);
      } else {
        assert LastOf(lasts[k], k, tickets, issuedAt, maxSeconds);
        var i :| 0 <= i < |tickets| && LastAt(i, lasts[k], k, tickets, issuedAt, maxSeconds);
        MinuteMonotone(issuedAt[lasts[k]], now, maxSeconds);
        assert LastAt(i, lasts[k], k, tickets', issuedAt', maxSeconds);
      }
    }
  }

  /** The sessions left when those of the tickets up to and including `last` are deleted. */
  function Deleted(sessions: map<Ticket, bytes>, tickets: seq<Ticket>, last: Ticket): map<Ticket, bytes> {
    if tickets == [] then sessions
    else if tickets[0] == last then sessions - {tickets[0]}
    else Deleted(sessions - {tickets[0]}, tickets[1..], last)
  }

  ghost predicate Distinct(tickets: seq<Ticket>) {
    forall i, j :: 0 <= i < j < |tickets| ==> tickets[i] != tickets[j]
  }

  /** The keys are exactly the tickets. */
  ghost predicate KeyedBy(sessions: map<Ticket, bytes>, tickets: seq<Ticket>) {
    forall t :: t in sessions <==> t in tickets
  }

  lemma KeyedByTail(sessions: map<Ticket, bytes>, tickets: seq<Ticket>)
    requires tickets != [] && Distinct(tickets) && KeyedBy(sessions, tickets)
    ensures Distinct(tickets[1..]) && KeyedBy(sessions - {tickets[0]}, tickets[1..])
  {
    assert tickets == [tickets[0]] + tickets[1..];
  }

  /** Exactly the sessions of the tickets behind `last` are left, unchanged. */
  lemma {:induction false} DeletedKeys(sessions: map<Ticket, bytes>, tickets: seq<Ticket>, last: Ticket)
    requires Distinct(tickets) && KeyedBy(sessions, tickets) && last in tickets
    ensures KeyedBy(Deleted(sessions, tickets, last), Behind(tickets, last))
    ensures forall t :: t in Deleted(sessions, tickets, last) ==> t in sessions && Deleted(sessions, tickets, last)[t] == sessions[t]
    decreases |tickets|
  {
    KeyedByTail(sessions, tickets);
    if tickets[0] != last {
      hide KeyedBy, Distinct;
      DeletedKeys(sessions - {tickets[0]}, tickets[1..], last);
    }
  }

  /** Each ticket a sweep drops has outlived the longest lifetime. */
  lemma DroppedExpired(tickets: seq<Ticket>, issuedAt: map<Ticket, nat>, last: Ticket, maxSeconds: nat, now: nat)
    requires InOrder(tickets, issuedAt) && last in tickets && Minute(issuedAt[last], maxSeconds) == now / 60
    ensures forall t :: t in tickets && t !in Behind(tickets, last) ==> issuedAt[t] + maxSeconds < now
  {
    forall t | t in tickets && t !in Behind(tickets, last) ensures issuedAt[t] + maxSeconds < now {
      var i :| 0 <= i < |tickets| && tickets[i] == t;
      var _, _ := BehindIs(tickets, last);
      DroppedBefore(tickets, issuedAt, last, maxSeconds, i);
      SweptIsExpired(issuedAt[t], maxSeconds, now);
    }
  }

  /** What a sweep at `now` finds, and what it leaves. */
  lemma LastsSwept(lasts: map<int, Ticket>, tickets: seq<Ticket>, issuedAt: map<Ticket, nat>, minute: nat, maxSeconds: nat, now: nat)
    requires InOrder(tickets, issuedAt) && LastsNamed(lasts, tickets, issuedAt, minute, maxSeconds) && minute <= now / 60
    ensures now / 60 !in lasts ==> LastsNamed(Forget(lasts, now / 60), tickets, issuedAt, now / 60, maxSeconds)
    ensures now / 60 in lasts ==>
              var last := lasts[now / 60];
              var rest := Behind(tickets, last);
              && last in tickets && last != NO_TICKET && InOrder(rest, issuedAt)
              && LastsNamed(Forget(lasts, now / 60), rest, issuedAt, now / 60, maxSeconds)
              && forall t :: t in tickets && t !in rest ==> t in issuedAt && issuedAt[t] + maxSeconds < now
  {
    hide Minute, Behind, LastOf, InOrder;
    InOrderDistinct(tickets, issuedAt);
    if now / 60 in lasts {
      LastsKept(lasts, tickets, issuedAt, now / 60, maxSeconds, Forget(lasts, now / 60));
      DroppedExpired(tickets, issuedAt, lasts[now / 60], maxSeconds, now);
    }
  }

  /** Every session is kept as it was, unless it has outlived the longest lifetime; none appears. */
  ghost predicate OnlyExpiredDropped(before: map<Ticket, bytes>, after: map<Ticket, bytes>, issuedAt: map<Ticket, nat>, maxSeconds: nat, now: nat) {
    && (forall t :: t in after ==> t in before && after[t] == before[t])
    && (forall t :: t in before && t !in after ==> t in issuedAt && issuedAt[t] + maxSeconds < now)
  }

  lemma DroppedSessions(before: map<Ticket, bytes>, tickets: seq<Ticket>, after: map<Ticket, bytes>, rest: seq<Ticket>, issuedAt: map<Ticket, nat>, maxSeconds: nat, now: nat)
    requires KeyedBy(before, tickets) && KeyedBy(after, rest)
    requires forall t :: t in after ==> t in before && after[t] == before[t]
    requires forall t :: t in tickets && t !in rest ==> t in issuedAt && issuedAt[t] + maxSeconds < now
    ensures OnlyExpiredDropped(before, after, issuedAt, maxSeconds, now)
  {
  }

  /** Over the whole run: a session lives at least as long as the longest lifetime, with the key it was issued with. */
  ghost predicate Kept(sessions: map<Ticket, bytes>, issued: map<Ticket, bytes>, issuedAt: map<Ticket, nat>, maxSeconds: nat, clock: nat) {
    && issued.Keys == issuedAt.Keys
    && (forall t :: t in sessions ==> t in issued && sessions[t] == issued[t])
    && (forall t :: t in issuedAt && clock <= issuedAt[t] + maxSeconds ==> t in sessions)
  }

  lemma IssueKept(sessions: map<Ticket, bytes>, issued: map<Ticket, bytes>, issuedAt: map<Ticket, nat>, maxSeconds: nat, clock: nat, now: nat, ticket: Ticket, pfsKey: bytes)
    requires Kept(sessions, issued, issuedAt, maxSeconds, clock) && clock <= now && ticket !in issuedAt
    ensures Kept(sessions[ticket := pfsKey], issued[ticket := pfsKey], issuedAt[ticket := now], maxSeconds, now)
  {
  }

  lemma SweepKept(before: map<Ticket, bytes>, after: map<Ticket, bytes>, issued: map<Ticket, bytes>, issuedAt: map<Ticket, nat>, maxSeconds: nat, clock: nat, now: nat)
    requires Kept(before, issued, issuedAt, maxSeconds, clock) && clock <= now
    requires OnlyExpiredDropped(before, after, issuedAt, maxSeconds, now)
    ensures Kept(after, issued, issuedAt, maxSeconds, now)
  {
  }

  /** A ticket carries its lifetime in front of fourteen random bytes. */
  function Stamped(seconds: nat, random: bytes): Ticket
    requires |random| == 16
  {
    [Hi(seconds % 65536), Lo(seconds % 65536)] + random[2..]
  }

  /** No pair twice, because every accepted key, and no other, is remembered in its session object. */
  ghost predicate Remembered(nfsKeys: map<Ticket, set<Key>>, issuedAt: map<Ticket, nat>, accepted: seq<(Ticket, Key)>) {
    && nfsKeys.Keys == issuedAt.Keys
    && (forall i :: 0 <= i < |accepted| ==> accepted[i].0 in nfsKeys && accepted[i].1 in nfsKeys[accepted[i].0])
    && (forall t, k :: t in nfsKeys && k in nfsKeys[t] ==> (t, k) in accepted)
    && (forall i, j :: 0 <= i < j < |accepted| ==> accepted[i] != accepted[j])
  }

  lemma IssueRemembered(nfsKeys: map<Ticket, set<Key>>, issuedAt: map<Ticket, nat>, accepted: seq<(Ticket, Key)>, ticket: Ticket, now: nat)
    requires Remembered(nfsKeys, issuedAt, accepted) && ticket !in issuedAt
    ensures Remembered(nfsKeys[ticket := {}], issuedAt[ticket := now], accepted)
  {
  }

  lemma IssueKeyedBy(sessions: map<Ticket, bytes>, tickets: seq<Ticket>, ticket: Ticket, pfsKey: bytes)
    requires KeyedBy(sessions, tickets)
    ensures KeyedBy(sessions[ticket := pfsKey], tickets + [ticket])
  {
  }

  lemma IssueIssuedBy(issuedAt: map<Ticket, nat>, clock: nat, ticket: Ticket, now: nat)
    requires IssuedBy(issuedAt, clock) && clock <= now
    ensures IssuedBy(issuedAt[ticket := now], now)
  {
  }

  lemma Admitted(nfsKeys: map<Ticket, set<Key>>, issuedAt: map<Ticket, nat>, accepted: seq<(Ticket, Key)>, ticket: Ticket, nfsKey: Key)
    requires Remembered(nfsKeys, issuedAt, accepted) && ticket in nfsKeys
    ensures (ticket, nfsKey) in accepted <==> nfsKey in nfsKeys[ticket]
    ensures (ticket, nfsKey) !in accepted ==>
              Remembered(nfsKeys[ticket := nfsKeys[ticket] + {nfsKey}], issuedAt, accepted + [(ticket, nfsKey)])
  {
  }

  class TicketStore {
    const secondsFrom: nat
    const secondsTo: nat
    var lasts: map<int, Ticket>
    var tickets: seq<Ticket>
    /** Sessions, by ticket: the forward-secret key. */
    var sessions: map<Ticket, bytes>
    /** The NfsKeys of every session object ever made; a handshake may hold one that was already swept. */
    var nfsKeys: map<Ticket, set<Key>>
    /** When each ticket was issued and with which key, the latest time seen, and the pairs accepted so far, in order. */
    ghost var issuedAt: map<Ticket, nat>
    ghost var issued: map<Ticket, bytes>
    ghost var clock: nat
    ghost var accepted: seq<(Ticket, Key)>

    function MaxSeconds(): nat {
      if secondsFrom < secondsTo then secondsTo else secondsFrom
    }

    ghost predicate Valid()
      reads this
    {
      && KeyedBy(sessions, tickets)
      && InOrder(tickets, issuedAt)
      && IssuedBy(issuedAt, clock)
      && LastsNamed(lasts, tickets, issuedAt, clock / 60, MaxSeconds())
      && Remembered(nfsKeys, issuedAt, accepted)
      && Kept(sessions, issued, issuedAt, MaxSeconds(), clock)
    }

    constructor (secondsFrom: nat, secondsTo: nat)
      ensures Valid() && tickets == [] && accepted == [] && this.secondsFrom == secondsFrom && this.secondsTo == secondsTo
    {
      this.secondsFrom, this.secondsTo := secondsFrom, secondsTo;
      lasts, tickets, sessions, nfsKeys := map[], [], map[], map[];
      issuedAt, issued, clock, accepted := map[], map[], 0, [];
    }

    /** The lifetime drawn for a ticket never exceeds the longest one. */
    method DrawSeconds() returns (seconds: nat)
      ensures seconds <= MaxSeconds()
      ensures secondsFrom == 0 && secondsTo == 0 ==> seconds == 0
    {
      if secondsTo == 0 {
        var r :| 50 <= r < 100;
        seconds := secondsFrom * r / 100;
        assert secondsFrom * r <= secondsFrom * 100;
      } else if secondsFrom == secondsTo {
        seconds := secondsFrom;
      } else {
        var lo := if secondsFrom < secondsTo then secondsFrom else secondsTo;
        seconds :| lo <= seconds < MaxSeconds();
      }
    }

    /** A fresh ticket, recorded under the minute in which it may be swept. */
    method Issue(now: nat, ticket: Ticket, pfsKey: bytes)
      requires Valid() && clock <= now && ticket != NO_TICKET && ticket !in issuedAt
      modifies this
      ensures Valid() && clock == now && accepted == old(accepted)
      ensures sessions == old(sessions)[ticket := pfsKey] && tickets == old(tickets) + [ticket]
      ensures issued == old(issued)[ticket := pfsKey]
      ensures issuedAt == old(issuedAt)[ticket := now] && nfsKeys == old(nfsKeys)[ticket := {}]
    {
      hide InOrder, LastsNamed, Minute, Kept, Remembered, KeyedBy, IssuedBy, Zeros;
      IssueRemembered(nfsKeys, issuedAt, accepted, ticket, now);
      IssueKeyedBy(sessions, tickets, ticket, pfsKey);
      IssueIssuedBy(issuedAt, clock, ticket, now);
      IssuedByLater(issuedAt, clock, now);
      IssueLasts(lasts, tickets, issuedAt, clock / 60, MaxSeconds(), ticket, now);
      IssueKept(sessions, issued, issuedAt, MaxSeconds(), clock, now, ticket, pfsKey);
      lasts := lasts[Minute(now, MaxSeconds()) := ticket];
      tickets := tickets + [ticket];
      sessions := sessions[ticket := pfsKey];
      nfsKeys := nfsKeys[ticket := {}];
      issuedAt := issuedAt[ticket := now];
      issued := issued[ticket := pfsKey];
      clock := now;
    }

    /** The end of a 1-RTT handshake: draw a lifetime, stamp the ticket, store it if it lives at all. */
    method MakeTicket(now: nat, random: bytes, pfsKey: bytes) returns (ticket: Ticket, seconds: nat)
      requires Valid() && clock <= now && |random| == 16 && random[2..] != NO_TICKET[2..]
      requires forall t :: t in issuedAt ==> |t| == 16 && t[2..] != random[2..]
      modifies this
      ensures Valid() && accepted == old(accepted) && seconds <= MaxSeconds() && ticket == Stamped(seconds, random)
      ensures seconds == 0 ==> sessions == old(sessions) && issuedAt == old(issuedAt) && tickets == old(tickets)
      ensures seconds > 0 ==> && clock == now && sessions == old(sessions)[ticket := pfsKey]
                              && issuedAt == old(issuedAt)[ticket := now] && tickets == old(tickets) + [ticket]
    {
      seconds := DrawSeconds();
      ticket := Stamped(seconds, random);
      assert ticket[2..] == random[2..];
      if seconds > 0 {
        Issue(now, ticket, pfsKey);
      }
    }

    /** The loop of the sweep: sessions go one by one until the ticket named by Lasts. */
    method Drop(last: Ticket)
      requires Distinct(tickets) && KeyedBy(sessions, tickets) && last in tickets
      modifies this`sessions, this`tickets
      ensures tickets == Behind(old(tickets), last) && KeyedBy(sessions, tickets)
      ensures forall t :: t in sessions ==> t in old(sessions) && sessions[t] == old(sessions)[t]
    {
      DeletedKeys(sessions, tickets, last);
      hide KeyedBy, Distinct;
      ghost var all := tickets;
      var j := 0;
      while j < |tickets|
        invariant 0 <= j < |all| && tickets == all && last in all[j..]
        invariant Behind(all, last) == Behind(all[j..], last)
        invariant Deleted(old(sessions), all, last) == Deleted(sessions, all[j..], last)
      {
        var ticket := tickets[j];
        assert all[j..][0] == ticket && all[j..][1..] == all[j + 1..];
        sessions := sessions - {ticket};
        if ticket == last {
          tickets := tickets[j + 1..];
          break;
        }
        j := j + 1;
      }
    }

    /**
     * The minute sweep. The entry it finds names a live ticket, so the loop stops there; what it drops is exactly the
     * tickets up to that one, and each of them has outlived the longest lifetime.
     */
    method Sweep(now: nat)
      requires Valid() && clock <= now
      modifies this
      ensures Valid() && clock == now && accepted == old(accepted) && issuedAt == old(issuedAt) && issued == old(issued) && nfsKeys == old(nfsKeys)
      ensures now / 60 in old(lasts) ==> old(lasts)[now / 60] in old(tickets)
      ensures tickets == if now / 60 in old(lasts) then Behind(old(tickets), old(lasts)[now / 60]) else old(tickets)
      ensures OnlyExpiredDropped(old(sessions), sessions, issuedAt, MaxSeconds(), now)
    {
      var minute := now / 60;
      hide Minute, Behind, LastOf, InOrder, LastsNamed, Remembered, Distinct, KeyedBy, OnlyExpiredDropped, Zeros, Forget, IssuedBy, Kept;
      InOrderDistinct(tickets, issuedAt);
      IssuedByLater(issuedAt, clock, now);
      LastsSwept(lasts, tickets, issuedAt, clock / 60, MaxSeconds(), now);
      var last := if minute in lasts then lasts[minute] else NO_TICKET;
      lasts := Forget(lasts, minute);
      if last != NO_TICKET {
        Drop(last);
        DroppedSessions(old(sessions), old(tickets), sessions, tickets, issuedAt, MaxSeconds(), now);
      } else {
        DroppedSessions(sessions, tickets, sessions, tickets, issuedAt, MaxSeconds(), now);
      }
      SweepKept(old(sessions), sessions, issued, issuedAt, MaxSeconds(), clock, now);
      clock := now;
    }

    /** The lookup of a ticket: found throughout its lifetime, never found if never issued, and always with its own key. */
    method Find(ticket: Ticket) returns (pfsKey: Option<bytes>)
      requires Valid()
      ensures ticket in issuedAt && clock <= issuedAt[ticket] + MaxSeconds() ==> pfsKey.Some?
      ensures pfsKey.Some? ==> ticket in issued && pfsKey.value == issued[ticket] && ticket in nfsKeys
      ensures pfsKey.Some? <==> ticket in sessions
    {
      pfsKey := if ticket in sessions then Some(sessions[ticket]) else None;
    }

    /** LoadOrStore on the session object found before, possibly after sweeps: a pair is accepted at most once, ever. */
    method Admit(ticket: Ticket, nfsKey: Key) returns (ok: bool)
      requires Valid() && ticket in nfsKeys
      modifies this`nfsKeys, this`accepted
      ensures Valid()
      ensures ok <==> (ticket, nfsKey) !in old(accepted)
      ensures accepted == if ok then old(accepted) + [(ticket, nfsKey)] else old(accepted)
    {
      Admitted(nfsKeys, issuedAt, accepted, ticket, nfsKey);
      hide *;
      ok := nfsKey !in nfsKeys[ticket];
      if ok {
        nfsKeys := nfsKeys[ticket := nfsKeys[ticket] + {nfsKey}];
        accepted := accepted + [(ticket, nfsKey)];
      }
    }
  }
}
