/**
 * The relay load balancer: one request counter per SMTP relay, each capped by the relay's
 * daily limit, a rotation cursor that spreads selections round-robin, a leaky-bucket decay
 * that releases a slice of each relay's quota every hour, and two reporting sums.
 *
 * The pure part (Quota, Select, Decayed, the sums) specifies the behaviour; the class
 * Balancer holds the state the service updates in place and is proved against it.
 */
module LoadBalancer {

  /** How many times per counting interval every counter is decreased. */
  const SlicesPerInterval: int := 24

  /** The mutable part of the balancer: the request counters and the rotation cursor. */
  datatype Quota = Quota(counts: seq<int>, cursor: int)

  /** One call of SelectAndCount: the relay chosen (-1 if none) and the state afterwards. */
  datatype Selection = Selection(index: int, after: Quota)

  /** A counter per relay and a cursor that is -1 (nothing selected yet) or a relay index. */
  predicate WellFormed(limits: seq<int>, q: Quota) {
    |q.counts| == |limits| && -1 <= q.cursor < |limits|
  }

  /** No counter is negative. */
  predicate NonNegative(counts: seq<int>) {
    forall j :: 0 <= j < |counts| ==> 0 <= counts[j]
  }

  /** Every counter lies between 0 and its relay's limit. */
  predicate Bounded(limits: seq<int>, counts: seq<int>) {
    |counts| == |limits| && forall j :: 0 <= j < |counts| ==> 0 <= counts[j] <= limits[j]
  }

  /** A relay may still serve a request when its count is below its limit. */
  predicate Eligible(limits: seq<int>, counts: seq<int>, j: int)
    requires |counts| == |limits| && 0 <= j < |limits|
  {
    counts[j] < limits[j]
  }

  /** The index reached by running `x` past the end of `n` relays once. */
  function Wrap(x: int, n: int): int {
    if x < n then x else x - n
  }

  /** At which step a scan of `n` relays that starts at `start` and wraps at the end examines relay `j`. */
  function Position(j: int, start: int, n: int): int {
    if j >= start then j - start else j - start + n
  }

  lemma PositionOfWrap(start: int, k: int, n: int)
    requires 0 <= start <= n && 0 <= k < n
    ensures 0 <= Wrap(start + k, n) < n && Position(Wrap(start + k, n), start, n) == k
  {
  }

  lemma WrapOfPosition(j: int, start: int, n: int)
    requires 0 <= start <= n && 0 <= j < n
    ensures 0 <= Position(j, start, n) < n && Wrap(start + Position(j, start, n), n) == j
  {
  }

  /**
   * The scan of SelectAndCount from its `k`-th step on: the first eligible relay, or -1
   * once every relay has been examined.
   */
  function ScanFrom(limits: seq<int>, counts: seq<int>, start: int, k: int): (r: int)
    requires |counts| == |limits| && 0 <= start <= |limits| && 0 <= k <= |limits|
    ensures -1 <= r < |limits|
    decreases |limits| - k
  {
    if k == |limits| then -1
    else
      var i := Wrap(start + k, |limits|);
      if Eligible(limits, counts, i) then i else ScanFrom(limits, counts, start, k + 1)
  }

  /** The relay SelectAndCount picks: the scan starts one past the cursor. */
  function Choose(limits: seq<int>, q: Quota): int
    requires WellFormed(limits, q)
  {
    ScanFrom(limits, q.counts, q.cursor + 1, 0)
  }

  /** What one call of SelectAndCount returns and leaves behind. */
  function Select(limits: seq<int>, q: Quota): (s: Selection)
    requires WellFormed(limits, q)
    ensures -1 <= s.index < |limits| && WellFormed(limits, s.after)
  {
    var i := Choose(limits, q);
    if i == -1 then Selection(-1, q)
    else Selection(i, Quota(q.counts[i := q.counts[i] + 1], i))
  }

  /** The scan returns the eligible relay it meets first from step `k` on, or -1 if it meets none. */
  lemma {:induction false} ScanFromFindsFirst(limits: seq<int>, counts: seq<int>, start: int, k: int)
    requires |counts| == |limits| && 0 <= start <= |limits| && 0 <= k <= |limits|
    ensures var r := ScanFrom(limits, counts, start, k);
      && (r == -1 ==> forall j :: 0 <= j < |limits| && k <= Position(j, start, |limits|) ==> !Eligible(limits, counts, j))
      && (r != -1 ==>
            && k <= Position(r, start, |limits|)
            && Eligible(limits, counts, r)
            && forall j :: 0 <= j < |limits| && k <= Position(j, start, |limits|) < Position(r, start, |limits|)
                 ==> !Eligible(limits, counts, j))
    decreases |limits| - k
  {
    var n := |limits|;
    if k < n {
      var i := Wrap(start + k, n);
      PositionOfWrap(start, k, n);
      forall j | 0 <= j < n
        ensures 0 <= Position(j, start, n) < n
        ensures Position(j, start, n) == k ==> j == i
      {
        WrapOfPosition(j, start, n);
      }
      if !Eligible(limits, counts, i) {
        ScanFromFindsFirst(limits, counts, start, k + 1);
      }
    } else {
      forall j | 0 <= j < n ensures Position(j, start, n) < n {
        WrapOfPosition(j, start, n);
      }
    }
  }

  /** SelectAndCount returns -1 exactly when no relay is below its limit. */
  lemma SelectNoneIffExhausted(limits: seq<int>, q: Quota)
    requires WellFormed(limits, q)
    ensures Select(limits, q).index == -1 <==> forall j :: 0 <= j < |limits| ==> !Eligible(limits, q.counts, j)
    ensures Select(limits, q).index == -1 ==> Select(limits, q).after == q
  {
    var s := q.cursor + 1;
    ScanFromFindsFirst(limits, q.counts, s, 0);
    forall j | 0 <= j < |limits| ensures 0 <= Position(j, s, |limits|) {
      WrapOfPosition(j, s, |limits|);
    }
  }

  /**
   * A relay that SelectAndCount returns was below its limit, and every relay the scan meets
   * before it (in cyclic order from one past the cursor) was not; afterwards exactly its
   * counter has grown by one and the cursor rests on it.
   */
  lemma SelectFirstEligible(limits: seq<int>, q: Quota)
    requires WellFormed(limits, q)
    ensures var s := Select(limits, q);
      s.index >= 0 ==>
        && Eligible(limits, q.counts, s.index)
        && (forall j :: 0 <= j < |limits| && Position(j, q.cursor + 1, |limits|) < Position(s.index, q.cursor + 1, |limits|)
              ==> !Eligible(limits, q.counts, j))
        && s.after.cursor == s.index
        && |s.after.counts| == |limits|
        && s.after.counts[s.index] == q.counts[s.index] + 1
        && (forall j :: 0 <= j < |limits| && j != s.index ==> s.after.counts[j] == q.counts[j])
  {
    ScanFromFindsFirst(limits, q.counts, q.cursor + 1, 0);
  }

  /** With the cursor at its initial -1 the scan starts at relay 0: the lowest eligible index wins. */
  lemma FirstSelectionScansFromZero(limits: seq<int>, counts: seq<int>)
    requires |counts| == |limits|
    ensures var s := Select(limits, Quota(counts, -1));
      s.index >= 0 ==> Eligible(limits, counts, s.index) && forall j :: 0 <= j < s.index ==> !Eligible(limits, counts, j)
  {
    ScanFromFindsFirst(limits, counts, 0, 0);
  }

  /** Selection never pushes a counter past its limit and never makes one negative. */
  lemma SelectPreservesBounded(limits: seq<int>, q: Quota)
    requires WellFormed(limits, q) && Bounded(limits, q.counts)
    ensures Bounded(limits, Select(limits, q).after.counts)
  {
    SelectFirstEligible(limits, q);
  }

  /**
   * Round robin: two relays with limit 2 from a fresh balancer are selected 0, 1, 0, 1; the
   * fifth call finds both at their limit and returns -1.
   */
  lemma RoundRobinTwoRelays()
    ensures var s1 := Select([2, 2], Quota([0, 0], -1));
      var s2 := Select([2, 2], s1.after);
      var s3 := Select([2, 2], s2.after);
      var s4 := Select([2, 2], s3.after);
      var s5 := Select([2, 2], s4.after);
      [s1.index, s2.index, s3.index, s4.index, s5.index] == [0, 1, 0, 1, -1] && s5.after == Quota([2, 2], 1)
  {
  }

  /** The sum of the counters. */
  function Sum(s: seq<int>): int {
    if s == [] then 0 else s[0] + Sum(s[1..])
  }

  lemma {:induction false} SumIncrement(s: seq<int>, i: int)
    requires 0 <= i < |s|
    ensures Sum(s[i := s[i] + 1]) == Sum(s) + 1
  {
    if i > 0 {
      assert s[i := s[i] + 1][1..] == s[1..][i - 1 := s[i] + 1];
      SumIncrement(s[1..], i - 1);
    }
  }

  lemma {:induction false} SumNonNegative(s: seq<int>)
    requires NonNegative(s)
    ensures Sum(s) >= 0
  {
    if s != [] {
      SumNonNegative(s[1..]);
    }
  }

  /** Each call that selects a relay adds exactly one to the total count; a call returning -1 adds nothing. */
  lemma SelectAddsOne(limits: seq<int>, q: Quota)
    requires WellFormed(limits, q)
    ensures var s := Select(limits, q);
      Sum(s.after.counts) == Sum(q.counts) + (if s.index >= 0 then 1 else 0)
  {
    var s := Select(limits, q);
    if s.index >= 0 {
      SumIncrement(q.counts, s.index);
    }
  }

  /** The amount taken off a counter per decay pass: the limit divided by 24, truncated toward zero as in C#. */
  function Slice(limit: int): (r: int)
    ensures limit >= 0 ==> 0 <= r && r * SlicesPerInterval <= limit < (r + 1) * SlicesPerInterval
    ensures limit < 0 ==> r <= 0 && (r - 1) * SlicesPerInterval < limit <= r * SlicesPerInterval
  {
    if limit >= 0 then limit / SlicesPerInterval else -((-limit) / SlicesPerInterval)
  }

  /** One decay step for one relay: subtract the slice, then clamp at 0. */
  function Decayed(limit: int, count: int): (c: int)
    ensures c >= 0
    ensures limit >= 0 && count >= 0 ==> c <= count
  {
    var c := count - Slice(limit);
    if c < 0 then 0 else c
  }

  /** One pass of the background task over every relay. */
  function DecayAll(limits: seq<int>, counts: seq<int>): (r: seq<int>)
    requires |counts| == |limits|
    ensures |r| == |counts| && forall j :: 0 <= j < |r| ==> r[j] == Decayed(limits[j], counts[j])
    ensures NonNegative(r)
    ensures Bounded(limits, counts) ==> Bounded(limits, r)
  {
    seq(|counts|, j requires 0 <= j < |counts| => Decayed(limits[j], counts[j]))
  }

  /** A relay whose limit is below 24 has a slice of 0: decay leaves its counter as it is. */
  lemma SmallLimitNeverDecays(limit: int, count: int)
    requires -SlicesPerInterval < limit < SlicesPerInterval && count >= 0
    ensures Decayed(limit, count) == count
  {
  }

  /** The counter after `k` decay passes with no selection in between. */
  function DecayTimes(limit: int, count: int, k: nat): int {
    if k == 0 then count else Decayed(limit, DecayTimes(limit, count, k - 1))
  }

  /** `k` passes take `k` slices off, clamped at 0. */
  lemma {:induction false} DecayTimesClosedForm(limit: int, count: int, k: nat)
    requires limit >= 0 && count >= 0
    ensures DecayTimes(limit, count, k) == if count - k * Slice(limit) < 0 then 0 else count - k * Slice(limit)
  {
    if k > 0 {
      DecayTimesClosedForm(limit, count, k - 1);
      assert k * Slice(limit) == (k - 1) * Slice(limit) + Slice(limit);
    }
  }

  /** A day of decay (24 passes) empties a relay whose limit is a multiple of 24, from any count within the limit. */
  lemma DayOfDecayEmpties(limit: int, count: int)
    requires limit >= 0 && limit % SlicesPerInterval == 0 && 0 <= count <= limit
    ensures DecayTimes(limit, count, SlicesPerInterval) == 0
  {
    DecayTimesClosedForm(limit, count, SlicesPerInterval);
  }

  /** The reported daily total: the sum of each limit minus one. */
  function TotalGap(limits: seq<int>): (r: int)
    ensures r == Sum(limits) - |limits|
  {
    if limits == [] then 0 else limits[0] - 1 + TotalGap(limits[1..])
  }

  /** The reported immediate capacity: the sum of each limit minus its count minus one. */
  function Headroom(limits: seq<int>, counts: seq<int>): (r: int)
    requires |counts| == |limits|
    ensures r == TotalGap(limits) - Sum(counts)
  {
    if limits == [] then 0 else limits[0] - counts[0] - 1 + Headroom(limits[1..], counts[1..])
  }

  /** With no negative counter, capacity available now never exceeds the daily total. */
  lemma HeadroomAtMostTotal(limits: seq<int>, counts: seq<int>)
    requires |counts| == |limits| && NonNegative(counts)
    ensures Headroom(limits, counts) <= TotalGap(limits)
  {
    SumNonNegative(counts);
  }

  /**
   * The balancer service. `limits` are the relays' daily limits in configuration order,
   * `counts` their request counters and `cursor` the relay selected last (-1 before the
   * first selection).
   */
  class Balancer {
    const limits: seq<int>
    const counts: array<int>
    var cursor: int

    /** One counter per relay, the cursor -1 or a relay index, and no negative counter. */
    ghost predicate Valid()
      reads this, counts
    {
      WellFormed(limits, State()) && NonNegative(counts[..])
    }

    /** The balancer's state as a value. */
    ghost function State(): Quota
      reads this, counts
    {
      Quota(counts[..], cursor)
    }

    /** All counters start at 0 and nothing has been selected yet. */
    constructor (requestLimits: seq<int>)
      ensures Valid() && fresh(counts)
      ensures limits == requestLimits
      ensures State() == Quota(seq(|requestLimits|, _ => 0), -1)
    {
      limits := requestLimits;
      counts := new int[|requestLimits|](_ => 0);
      cursor := -1;
    }

    /** Reported daily total over all relays. */
    function TotalLimitPerDay(): (t: int)
      reads this
      ensures t == Sum(limits) - |limits|
    {
      TotalGap(limits)
    }

    /** Reported capacity available now: the daily total less the counted requests. */
    function CanSendImmediately(): (c: int)
      reads this, counts
      requires Valid()
      ensures c == TotalLimitPerDay() - Sum(counts[..])
      ensures c <= TotalLimitPerDay()
    {
      HeadroomAtMostTotal(limits, counts[..]);
      Headroom(limits, counts[..])
    }

    /**
     * Pick the next relay round-robin, starting one past the cursor and wrapping at the end,
     * count a request against it and move the cursor to it; -1 when every relay is at its limit.
     */
    method SelectAndCount() returns (r: int)
      requires Valid()
      modifies this, counts
      ensures Valid()
      ensures -1 <= r < |limits|
      ensures Select(limits, old(State())) == Selection(r, State())
    {
      ghost var q := State();
      var n := counts.Length;
      var i := cursor + 1;
      var totalPassed := 0;
      while totalPassed < n
        invariant 0 <= totalPassed <= n
        invariant i == if cursor + 1 + totalPassed <= n then cursor + 1 + totalPassed else cursor + 1 + totalPassed - n
        invariant ScanFrom(limits, q.counts, cursor + 1, totalPassed) == Choose(limits, q)
      {
        if i == n {
          i := 0;
        }
        if counts[i] < limits[i] {
          counts[i] := counts[i] + 1;
          cursor := i;
          return i;
        }
        i := i + 1;
        totalPassed := totalPassed + 1;
      }
      return -1;
    }

    /** One pass of the background task: take each relay's slice off its counter, clamping at 0. */
    method DecayPass()
      requires Valid()
      modifies counts
      ensures Valid()
      ensures counts[..] == DecayAll(limits, old(counts[..]))
    {
      var i := 0;
      while i < counts.Length
        invariant 0 <= i <= counts.Length
        invariant forall j :: 0 <= j < i ==> counts[j] == Decayed(limits[j], old(counts[j]))
        invariant forall j :: i <= j < counts.Length ==> counts[j] == old(counts[j])
      {
        var sliceQuantity := Slice(limits[i]);
        counts[i] := counts[i] - sliceQuantity;
        if counts[i] < 0 {
          counts[i] := 0;
        }
        i := i + 1;
      }
    }
  }
}
