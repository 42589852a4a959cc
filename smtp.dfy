/**
 * The send-with-failover loop: ask the balancer for a relay, attempt delivery through it,
 * and on failure record the attempt and ask again, until one delivery succeeds, the
 * balancer has no relay to offer, as many attempts as there are relays have failed, or
 * the safety counter reaches 1000.
 *
 * The mail transport (connect, STARTTLS, authenticate, send, disconnect) is an oracle:
 * a function that says whether the attempt with a given number, through a given relay,
 * delivers the given message.
 */
module Smtp {
  import opened Wrappers
  import opened LoadBalancer

  /** The hard bound on loop iterations, independent of the number of relays. */
  const MaxIterations: int := 1000

  /** A display name and an address. */
  datatype Mailbox = Mailbox(name: string, address: string)

  /** The outbound message as built by the string overload of Send. */
  datatype Message = Message(from: Mailbox, to: Mailbox, subject: string, htmlBody: string, textBody: string)

  /** Whether the transport delivers `message` on attempt number `attempt` through relay `relay`. */
  type Transport = (Message, nat, nat) -> bool

  /** The HTML part used when the caller gives none: the plain body as a level-2 heading. */
  function DefaultHtml(body: string): (html: string)
    ensures |html| == |body| + 9
    ensures html[..4] == "<h2>" && html[4..|html| - 5] == body && html[|html| - 5..] == "</h2>"
  {
    "<h2>" + body + "</h2>"
  }

  /** Build the message: the caller's HTML part if given, else the body as a heading; the text part is always the body. */
  function Compose(from: string, fromName: string, to: string, subject: string, body: string, htmlBody: Option<string>): (m: Message)
    ensures m.textBody == body
    ensures htmlBody.Some? ==> m.htmlBody == htmlBody.value
    ensures htmlBody.None? ==>
      && |m.htmlBody| == |body| + 9
      && m.htmlBody[..4] == "<h2>" && m.htmlBody[4..|m.htmlBody| - 5] == body && m.htmlBody[|m.htmlBody| - 5..] == "</h2>"
    ensures m.from == Mailbox(fromName, from) && m.to == Mailbox("recipient", to) && m.subject == subject
  {
    Message(Mailbox(fromName, from), Mailbox("recipient", to), subject, htmlBody.GetOr(DefaultHtml(body)), body)
  }

  /**
   * How a call of Send ends: whether it delivered, the balancer state afterwards, the relays
   * that transport attempts went to (in order), and how many times the balancer was asked.
   */
  datatype Outcome = Outcome(sent: bool, quota: Quota, attempted: seq<nat>, calls: nat)

  /** The smaller of two integers. */
  function Min(a: int, b: int): int {
    if a <= b then a else b
  }

  /**
   * The failover loop, from the point where the attempts in `attempted` have all failed
   * and the balancer asked `calls` times is in state `q`.
   */
  function Attempts(limits: seq<int>, q: Quota, message: Message, transport: Transport, attempted: seq<nat>, calls: nat): (out: Outcome)
    requires WellFormed(limits, q)
    ensures WellFormed(limits, out.quota)
    ensures |attempted| <= |out.attempted| && calls <= out.calls
    ensures out.sent ==> |attempted| < |out.attempted|
    ensures forall i :: 0 <= i < |out.attempted| ==> out.attempted[i] < |limits| || (i < |attempted| && out.attempted[i] == attempted[i])
    decreases |limits| - |attempted|
  {
    if !(|attempted| < |limits| && |attempted| < MaxIterations) then Outcome(false, q, attempted, calls)
    else
      var s := Select(limits, q);
      if s.index == -1 then Outcome(false, s.after, attempted, calls + 1)
      else if transport(message, |attempted|, s.index) then Outcome(true, s.after, attempted + [s.index], calls + 1)
      else Attempts(limits, s.after, message, transport, attempted + [s.index], calls + 1)
  }

  /** A whole call of Send from balancer state `q`. */
  function SendOutcome(limits: seq<int>, q: Quota, message: Message, transport: Transport): (out: Outcome)
    requires WellFormed(limits, q)
    ensures out.calls <= Min(|limits|, MaxIterations)
    ensures out.sent <==> exists i :: 0 <= i < |out.attempted| && transport(message, i, out.attempted[i])
    ensures Sum(out.quota.counts) == Sum(q.counts) + |out.attempted|
    ensures Bounded(limits, q.counts) ==> Bounded(limits, out.quota.counts)
    ensures WellFormed(limits, out.quota)
    ensures forall j: nat :: j < |limits| ==> out.quota.counts[j] == q.counts[j] + multiset(out.attempted)[j]
    ensures !out.sent ==>
      |out.attempted| == Min(|limits|, MaxIterations) || forall j :: 0 <= j < |limits| ==> !Eligible(limits, out.quota.counts, j)
  {
    AttemptsBounded(limits, q, message, transport, [], 0);
    AttemptsGiveUpOnlyWhenDone(limits, q, message, transport, [], 0);
    AttemptsChargeAttemptedRelays(limits, q, message, transport, [], 0);
    AttemptsSentIffDelivered(limits, q, message, transport, [], 0);
    AttemptsConsumeQuota(limits, q, message, transport, [], 0);
    AttemptsPreserveBounded(limits, q, message, transport, [], 0);
    Attempts(limits, q, message, transport, [], 0)
  }

  /**
   * The loop asks the balancer at most min(relays, 1000) times, makes at most that many
   * attempts, and asks once per attempt plus at most once more (the call that returns -1).
   */
  lemma {:induction false} AttemptsBounded(limits: seq<int>, q: Quota, message: Message, transport: Transport, attempted: seq<nat>, calls: nat)
    requires WellFormed(limits, q)
    requires |attempted| == calls <= Min(|limits|, MaxIterations)
    ensures var out := Attempts(limits, q, message, transport, attempted, calls);
      && |out.attempted| <= out.calls <= Min(|limits|, MaxIterations)
      && out.calls <= |out.attempted| + 1
      && |attempted| <= |out.attempted|
      && out.attempted[..|attempted|] == attempted
    decreases |limits| - |attempted|
  {
    if |attempted| < |limits| && |attempted| < MaxIterations {
      var s := Select(limits, q);
      if s.index != -1 && !transport(message, |attempted|, s.index) {
        AttemptsBounded(limits, s.after, message, transport, attempted + [s.index], calls + 1);
        var next := attempted + [s.index];
        var out := Attempts(limits, s.after, message, transport, next, calls + 1);
        assert out.attempted[..|attempted|] == out.attempted[..|next|][..|attempted|];
        assert next[..|attempted|] == attempted;
      }
    }
  }

  /**
   * Send reports success exactly when some transport attempt delivered; that attempt is the
   * last one, every earlier one failed, and after it the balancer is not asked again.
   */
  lemma {:induction false} AttemptsSentIffDelivered(limits: seq<int>, q: Quota, message: Message, transport: Transport, attempted: seq<nat>, calls: nat)
    requires WellFormed(limits, q)
    requires forall i :: 0 <= i < |attempted| ==> !transport(message, i, attempted[i])
    ensures var out := Attempts(limits, q, message, transport, attempted, calls);
      && (out.sent <==> exists i :: 0 <= i < |out.attempted| && transport(message, i, out.attempted[i]))
      && (forall i :: 0 <= i < |out.attempted| - 1 ==> !transport(message, i, out.attempted[i]))
      && (out.sent ==> out.calls - calls == |out.attempted| - |attempted|)
    decreases |limits| - |attempted|
  {
    if |attempted| < |limits| && |attempted| < MaxIterations {
      var s := Select(limits, q);
      if s.index != -1 {
        var next := attempted + [s.index];
        if transport(message, |attempted|, s.index) {
          assert transport(message, |attempted|, next[|attempted|]);
        } else {
          AttemptsSentIffDelivered(limits, s.after, message, transport, next, calls + 1);
        }
      }
    }
  }

  /**
   * Every transport attempt, failed or not, consumed one unit of quota: the total count grows
   * by exactly the number of attempts (failed attempts are not refunded).
   */
  lemma {:induction false} AttemptsConsumeQuota(limits: seq<int>, q: Quota, message: Message, transport: Transport, attempted: seq<nat>, calls: nat)
    requires WellFormed(limits, q)
    ensures var out := Attempts(limits, q, message, transport, attempted, calls);
      Sum(out.quota.counts) == Sum(q.counts) + |out.attempted| - |attempted|
    decreases |limits| - |attempted|
  {
    if |attempted| < |limits| && |attempted| < MaxIterations {
      var s := Select(limits, q);
      SelectAddsOne(limits, q);
      if s.index != -1 && !transport(message, |attempted|, s.index) {
        AttemptsConsumeQuota(limits, s.after, message, transport, attempted + [s.index], calls + 1);
      }
    }
  }

  /**
   * Each attempt goes through the relay the balancer counted it against: every relay's
   * counter grows by exactly the number of attempts made through it.
   */
  lemma {:induction false} AttemptsChargeAttemptedRelays(limits: seq<int>, q: Quota, message: Message, transport: Transport, attempted: seq<nat>, calls: nat)
    requires WellFormed(limits, q)
    ensures var out := Attempts(limits, q, message, transport, attempted, calls);
      forall j: nat :: j < |limits| ==> out.quota.counts[j] == q.counts[j] + multiset(out.attempted)[j] - multiset(attempted)[j]
    decreases |limits| - |attempted|
  {
    if |attempted| < |limits| && |attempted| < MaxIterations {
      var s := Select(limits, q);
      SelectFirstEligible(limits, q);
      if s.index != -1 {
        var k: nat := s.index;
        assert multiset(attempted + [k]) == multiset(attempted) + multiset{k};
        if !transport(message, |attempted|, s.index) {
          AttemptsChargeAttemptedRelays(limits, s.after, message, transport, attempted + [k], calls + 1);
        }
      }
    }
  }

  /** Send never pushes a relay's counter past its limit. */
  lemma {:induction false} AttemptsPreserveBounded(limits: seq<int>, q: Quota, message: Message, transport: Transport, attempted: seq<nat>, calls: nat)
    requires WellFormed(limits, q)
    ensures Bounded(limits, q.counts) ==> Bounded(limits, Attempts(limits, q, message, transport, attempted, calls).quota.counts)
    decreases |limits| - |attempted|
  {
    if Bounded(limits, q.counts) && |attempted| < |limits| && |attempted| < MaxIterations {
      var s := Select(limits, q);
      SelectPreservesBounded(limits, q);
      if s.index != -1 && !transport(message, |attempted|, s.index) {
        AttemptsPreserveBounded(limits, s.after, message, transport, attempted + [s.index], calls + 1);
      }
    }
  }

  /**
   * Failover: after a failed attempt the loop asks the balancer again, so a send that did not
   * deliver stopped only because min(relays, 1000) attempts had failed or because every relay
   * was at its limit (the balancer answered -1).
   */
  lemma {:induction false} AttemptsGiveUpOnlyWhenDone(limits: seq<int>, q: Quota, message: Message, transport: Transport, attempted: seq<nat>, calls: nat)
    requires WellFormed(limits, q)
    requires |attempted| <= Min(|limits|, MaxIterations)
    ensures var out := Attempts(limits, q, message, transport, attempted, calls);
      !out.sent ==>
        |out.attempted| == Min(|limits|, MaxIterations) || forall j :: 0 <= j < |limits| ==> !Eligible(limits, out.quota.counts, j)
    decreases |limits| - |attempted|
  {
    if |attempted| < |limits| && |attempted| < MaxIterations {
      var s := Select(limits, q);
      SelectNoneIffExhausted(limits, q);
      if s.index != -1 && !transport(message, |attempted|, s.index) {
        AttemptsGiveUpOnlyWhenDone(limits, s.after, message, transport, attempted + [s.index], calls + 1);
      }
    }
  }

  /** With every relay at its limit, Send fails without a transport attempt and changes nothing. */
  lemma ExhaustedSendsNothing(limits: seq<int>, q: Quota, message: Message, transport: Transport)
    requires WellFormed(limits, q)
    requires forall j :: 0 <= j < |limits| ==> q.counts[j] >= limits[j]
    ensures var out := SendOutcome(limits, q, message, transport);
      !out.sent && out.quota == q && out.attempted == []
  {
    SelectNoneIffExhausted(limits, q);
  }

  /**
   * The balancer is not told which relays failed, so Send may try the same relay twice:
   * with limits 5 and 0 and a transport that always fails, both attempts go to relay 0.
   */
  lemma SameRelayRetried(message: Message)
    ensures var out := SendOutcome([5, 0], Quota([0, 0], -1), message, (m, a, r) => false);
      !out.sent && out.attempted == [0, 0] && out.quota.counts == [2, 0]
  {
    var limits := [5, 0];
    var t: Transport := (m, a, r) => false;
    var q0 := Quota([0, 0], -1);
    assert ScanFrom(limits, q0.counts, 0, 0) == 0;
    var q1 := Quota([1, 0], 0);
    assert Select(limits, q0) == Selection(0, q1);
    assert ScanFrom(limits, q1.counts, 1, 1) == 0;
    assert ScanFrom(limits, q1.counts, 1, 0) == 0;
    var q2 := Quota([2, 0], 0);
    assert Select(limits, q1) == Selection(0, q2);
    assert Attempts(limits, q2, message, t, [0, 0], 2) == Outcome(false, q2, [0, 0], 2);
    assert Attempts(limits, q1, message, t, [0], 1) == Outcome(false, q2, [0, 0], 2);
    assert Attempts(limits, q0, message, t, [], 0) == Outcome(false, q2, [0, 0], 2);
  }

  /**
   * The failover scenario: two relays with room, the first fails and the second delivers.
   * Send succeeds and quota is counted on both relays.
   */
  lemma FailoverCountsBoth(message: Message)
    ensures var out := SendOutcome([3, 3], Quota([0, 0], -1), message, (m, a, r) => r == 1);
      out.sent && out.attempted == [0, 1] && out.quota.counts == [1, 1]
  {
  }

  /**
   * Send a message: the failover loop. Returns whether some relay delivered it; the balancer
   * ends in the state the specification SendOutcome gives.
   */
  method Send(balancer: Balancer, message: Message, transport: Transport) returns (sent: bool)
    requires balancer.Valid()
    modifies balancer, balancer.counts
    ensures balancer.Valid()
    ensures var out := SendOutcome(balancer.limits, old(balancer.State()), message, transport);
      sent == out.sent && balancer.State() == out.quota
  {
    var relayCount := |balancer.limits|;
    var safeCounter := 0;
    var usedRelays: seq<nat> := [];
    while |usedRelays| < relayCount
      invariant balancer.Valid()
      invariant safeCounter == |usedRelays| <= relayCount
      invariant Attempts(balancer.limits, balancer.State(), message, transport, usedRelays, safeCounter).quota
        == SendOutcome(balancer.limits, old(balancer.State()), message, transport).quota
      invariant Attempts(balancer.limits, balancer.State(), message, transport, usedRelays, safeCounter).sent
        == SendOutcome(balancer.limits, old(balancer.State()), message, transport).sent
      decreases relayCount - |usedRelays|
    {
      var withinBound := safeCounter < MaxIterations;
      safeCounter := safeCounter + 1;
      if !withinBound {
        break;
      }
      var node := balancer.SelectAndCount();
      if node == -1 {
        break;
      }
      if transport(message, |usedRelays|, node) {
        return true;
      }
      usedRelays := usedRelays + [node];
    }
    return false;
  }

  /** The string overload: compose the message, then send it with failover. */
  method SendFields(balancer: Balancer, from: string, fromName: string, to: string, subject: string, body: string,
                    htmlBody: Option<string>, transport: Transport) returns (sent: bool)
    requires balancer.Valid()
    modifies balancer, balancer.counts
    ensures balancer.Valid()
    ensures var out := SendOutcome(balancer.limits, old(balancer.State()), Compose(from, fromName, to, subject, body, htmlBody), transport);
      sent == out.sent && balancer.State() == out.quota
  {
    var message := Compose(from, fromName, to, subject, body, htmlBody);
    sent := Send(balancer, message, transport);
  }
}
