// The replay guard of src/shutdown_auth.rs: a clock-skew window, retention pruning and
// eviction of the oldest nonce at capacity. The HMAC and base64 checks are one uninterpreted
// function of the request; everything the guard itself decides is modelled.
module ReplayProtection {
  import opened Common
  import opened Text

  const MAX_CLOCK_SKEW: nat := 60
  const MAX_U64: nat := 0xFFFF_FFFF_FFFF_FFFF

  datatype Headers = Headers(timestamp: string, nonce: string, signature: string)

  datatype Request = Request(key: string, httpMethod: string, path: string, headers: Headers)

  /** What decoding the key and the signature and checking the HMAC can report. */
  datatype SignatureCheck = Authentic | Undecodable | Mismatch

  datatype Verdict = Accepted | Malformed | TimestampOutsideWindow | InvalidSignature | Replay

  /** A request together with the clock reading it is verified at. */
  datatype Presentation = Presentation(request: Request, now: nat)

  /** `parse::<u64>`: decimal digits, an optional leading plus sign, no overflow. */
  function ParseU64(s: string): Option<nat> {
    var digits := if |s| > 0 && s[0] == '+' then s[1..] else s;
    if |digits| == 0 || !AllDigits(digits) then None
    else
      var value := DecimalValue(digits);
      if value <= MAX_U64 then Some(value) else None
  }

  /** The decimal form of a number is parsed to it, with a plus sign or without, unless it does not fit in 64 bits. */
  lemma DecimalsAreParsed(n: nat)
    ensures n <= 0xFFFF_FFFF_FFFF_FFFF ==> ParseU64(Decimal(n)) == ParseU64("+" + Decimal(n)) == Some(n)
    ensures n > 0xFFFF_FFFF_FFFF_FFFF ==> ParseU64(Decimal(n)) == ParseU64("+" + Decimal(n)) == None
  {
    DecimalRoundTrip(n);
    assert '0' <= Decimal(n)[0] <= '9';
    assert ("+" + Decimal(n))[1..] == Decimal(n);
  }

  /** Nothing but digits, after at most one plus sign, is parsed. */
  lemma OtherTextIsNotParsed(s: string, i: nat)
    requires i < |s| && !('0' <= s[i] <= '9') && (s[i] == '+' ==> i > 0)
    ensures ParseU64(s).None? && ParseU64("").None? && ParseU64("+").None?
  {
    if s[0] == '+' {
      assert s[1..][i - 1] == s[i];
    }
  }

  function Distance(a: nat, b: nat): nat {
    if a >= b then a - b else b - a
  }

  function SaturatingSub(a: nat, b: nat): nat {
    if a >= b then a - b else 0
  }

  predicate InClockWindow(headers: Headers, now: nat) {
    match ParseU64(headers.timestamp)
    case None => false
    case Some(timestamp) => Distance(now, timestamp) <= MAX_CLOCK_SKEW
  }

  ghost function Pruned(seen: map<string, nat>, now: nat, retention: nat): map<string, nat> {
    map nonce | nonce in seen && SaturatingSub(now, seen[nonce]) <= retention :: seen[nonce]
  }

  ghost predicate IsOldest(seen: map<string, nat>, nonce: string) {
    nonce in seen && forall other :: other in seen ==> seen[nonce] <= seen[other]
  }

  /** `after` is `before`, less one oldest entry exactly when `before` is full. */
  ghost predicate MakesRoom(before: map<string, nat>, after: map<string, nat>, capacity: nat) {
    if |before| < capacity || before == map[] then after == before
    else exists nonce :: IsOldest(before, nonce) && after == before - {nonce}
  }

  datatype Guard = Guard(seen: map<string, nat>, retention: nat, capacity: nat)

  /** The verdict on one presentation: the checks in the order the guard makes them. */
  ghost predicate Judged(check: Request -> SignatureCheck, g: Guard, p: Presentation, v: Verdict) {
    var nonce := p.request.headers.nonce;
    match ParseU64(p.request.headers.timestamp)
    case None => v == Malformed
    case Some(timestamp) =>
      if Distance(p.now, timestamp) > MAX_CLOCK_SKEW then v == TimestampOutsideWindow
      else if nonce in Pruned(g.seen, p.now, g.retention) then v == Replay
      else match check(p.request)
        case Undecodable => v == Malformed
        case Mismatch => v == InvalidSignature
        case Authentic => v == Accepted
  }

  /** One call of the guard, as a relation: the verdict and the nonces remembered afterwards. */
  ghost predicate Step(check: Request -> SignatureCheck, g: Guard, p: Presentation, v: Verdict, g': Guard) {
    && Judged(check, g, p, v)
    && g'.retention == g.retention
    && g'.capacity == g.capacity
    && (if !InClockWindow(p.request.headers, p.now) then g'.seen == g.seen
        else if v != Accepted then g'.seen == Pruned(g.seen, p.now, g.retention)
        else exists room ::
               && MakesRoom(Pruned(g.seen, p.now, g.retention), room, g.capacity)
               && g'.seen == room[p.request.headers.nonce := p.now])
  }

  class ReplayGuard {
    var seen: map<string, nat>
    const retention: nat
    const capacity: nat
    const check: Request -> SignatureCheck

    constructor (retention: nat, capacity: nat, check: Request -> SignatureCheck)
      ensures Valid() && seen == map[] && this.retention == retention && this.check == check
      ensures this.capacity == if capacity >= 1 then capacity else 1
    {
      seen := map[];
      this.retention := retention;
      this.capacity := if capacity >= 1 then capacity else 1;
      this.check := check;
    }

    ghost predicate Valid()
      reads this
    {
      1 <= capacity && |seen| <= capacity
    }

    ghost function State(): Guard
      reads this
    {
      Guard(seen, retention, capacity)
    }

    method Verify(request: Request, now: nat) returns (v: Verdict)
      requires Valid()
      modifies this`seen
      ensures Valid()
      ensures Step(check, old(State()), Presentation(request, now), v, State())
      // What each verdict means.
      ensures var timestamp, nonce := ParseU64(request.headers.timestamp), request.headers.nonce;
              var inWindow := timestamp.Some? && -60 <= now - timestamp.value <= 60;
              var remembered := nonce in old(seen) && now - old(seen)[nonce] <= retention;
              && (v == Accepted <==> inWindow && !remembered && check(request) == Authentic)
              && (v == InvalidSignature <==> inWindow && !remembered && check(request) == Mismatch)
              && (v == Replay <==> inWindow && remembered)
              && (v == TimestampOutsideWindow <==> timestamp.Some? && !inWindow)
              && (v == Malformed <==>
                  timestamp.None? || (inWindow && !remembered && check(request) == Undecodable))
      // An accepted nonce is remembered; no other call adds one.
      ensures v == Accepted ==> request.headers.nonce in seen && seen[request.headers.nonce] == now
      ensures forall nonce :: nonce in seen && !(v == Accepted && nonce == request.headers.nonce) ==>
                nonce in old(seen) && seen[nonce] == old(seen)[nonce]
    {
      var headers := request.headers;
      var timestamp := ParseU64(headers.timestamp);
      if timestamp.None? {
        return Malformed;
      }
      if Distance(now, timestamp.value) > MAX_CLOCK_SKEW {
        return TimestampOutsideWindow;
      }
      Prune(now);
      if headers.nonce in seen {
        return Replay;
      }
      match check(request)
      case Undecodable =>
        return Malformed;
      case Mismatch =>
        return InvalidSignature;
      case Authentic =>
        Remember(headers.nonce, now);
        return Accepted;
    }

    method Remember(nonce: string, now: nat)
      requires Valid()
      modifies this`seen
      ensures Valid()
      ensures exists room :: MakesRoom(old(seen), room, capacity) && seen == room[nonce := now]
      ensures nonce in seen && seen[nonce] == now
      ensures forall other :: other in seen && other != nonce ==> other in old(seen) && seen[other] == old(seen)[other]
    {
      if |seen| >= capacity {
        RemoveOldest();
      }
      assert MakesRoom(old(seen), seen, capacity);
      seen := seen[nonce := now];
    }

    method Prune(now: nat)
      modifies this`seen
      ensures seen == Pruned(old(seen), now, retention)
      ensures |seen| <= |old(seen)|
    {
      seen := map nonce | nonce in seen && SaturatingSub(now, seen[nonce]) <= retention :: seen[nonce];
      SubsetIsNoLarger(seen.Keys, old(seen).Keys);
    }

    method RemoveOldest()
      modifies this`seen
      ensures old(seen) == map[] ==> seen == map[]
      ensures old(seen) != map[] ==>
                && |seen| == |old(seen)| - 1
                && exists nonce :: IsOldest(old(seen), nonce) && seen == old(seen) - {nonce}
    {
      if seen == map[] {
        return;
      }
      var oldest :| oldest in seen;
      var unseen := seen.Keys - {oldest};
      while unseen != {}
        invariant unseen <= seen.Keys && oldest in seen
        invariant forall nonce :: nonce in seen.Keys - unseen ==> seen[oldest] <= seen[nonce]
      {
        var nonce :| nonce in unseen;
        if seen[nonce] < seen[oldest] {
          oldest := nonce;
        }
        unseen := unseen - {nonce};
      }
      assert IsOldest(seen, oldest);
      assert (seen - {oldest}).Keys == seen.Keys - {oldest};
      seen := seen - {oldest};
    }
  }

  // ---------- Whole runs ----------

  /** A run of one guard: its states, what was presented to it, and its verdicts. */
  datatype Run = Run(states: seq<Guard>, inputs: seq<Presentation>, verdicts: seq<Verdict>)

  ghost predicate IsRun(check: Request -> SignatureCheck, r: Run) {
    && |r.states| == |r.inputs| + 1
    && |r.verdicts| == |r.inputs|
    && r.states[0].seen == map[]
    && r.states[0].capacity >= 1
    && forall i :: 0 <= i < |r.inputs| ==> Step(check, r.states[i], r.inputs[i], r.verdicts[i], r.states[i + 1])
  }

  ghost predicate ClockNeverGoesBack(r: Run) {
    forall i, j :: 0 <= i <= j < |r.inputs| ==> r.inputs[i].now <= r.inputs[j].now
  }

  ghost predicate AcceptedAt(r: Run, i: int) {
    0 <= i < |r.inputs| && i < |r.verdicts| && r.verdicts[i] == Accepted
  }

  /** The acceptances in the window of the given length that starts at `first`. */
  ghost function AcceptancesIn(r: Run, first: nat, length: nat): set<int> {
    set i | 0 <= i < |r.inputs| && AcceptedAt(r, i) && first <= r.inputs[i].now <= first + length
  }

  /** At most `capacity` acceptances in any window as long as the retention. */
  ghost predicate LoadWithinCapacity(r: Run, retention: nat, capacity: nat) {
    forall first: nat :: |AcceptancesIn(r, first, retention)| <= capacity
  }

  ghost predicate Admissible(check: Request -> SignatureCheck, r: Run, retention: nat, capacity: nat) {
    && IsRun(check, r)
    && r.states[0].retention == retention
    && r.states[0].capacity == capacity
    && ClockNeverGoesBack(r)
    && LoadWithinCapacity(r, retention, capacity)
  }

  /** The clock reading of the last prune among the first `n` calls. */
  ghost function LastPrune(r: Run, n: nat): Option<nat>
    requires n <= |r.inputs|
  {
    if n == 0 then None
    else if InClockWindow(r.inputs[n - 1].request.headers, r.inputs[n - 1].now) then Some(r.inputs[n - 1].now)
    else LastPrune(r, n - 1)
  }

  /** Nonce `nonce` was accepted at time `at` by one of the first `n` calls. */
  ghost predicate AcceptedBefore(r: Run, n: nat, nonce: string, at: nat) {
    exists i :: AcceptedAt(r, i) && i < n && r.inputs[i].request.headers.nonce == nonce && r.inputs[i].now == at
  }

  ghost predicate Remembers(seen: map<string, nat>, nonce: string, at: nat) {
    nonce in seen && seen[nonce] == at
  }

  ghost predicate StillDue(r: Run, n: nat, retention: nat, nonce: string, at: nat)
    requires n <= |r.inputs|
  {
    AcceptedBefore(r, n, nonce, at) && LastPrune(r, n).Some? && LastPrune(r, n).value - at <= retention
  }

  /** `seen` is exactly the accepted nonces still within retention at the last prune. */
  ghost predicate RemembersExactly(r: Run, n: nat, retention: nat)
    requires n <= |r.inputs| < |r.states|
  {
    forall nonce: string, at: nat :: Remembers(r.states[n].seen, nonce, at) <==> StillDue(r, n, retention, nonce, at)
  }

  lemma {:induction false} SettingsAreFixed(check: Request -> SignatureCheck, r: Run, n: nat)
    requires IsRun(check, r) && n <= |r.inputs|
    ensures r.states[n].retention == r.states[0].retention
    ensures r.states[n].capacity == r.states[0].capacity
  {
    if n > 0 {
      SettingsAreFixed(check, r, n - 1);
      assert Step(check, r.states[n - 1], r.inputs[n - 1], r.verdicts[n - 1], r.states[n]);
    }
  }

  /** Accepted with a good signature, near its own timestamp, and not remembered at the time. */
  ghost predicate Genuine(check: Request -> SignatureCheck, r: Run, i: int)
    requires 0 <= i < |r.inputs| < |r.states|
  {
    var Presentation(request, now) := r.inputs[i];
    var seen, nonce := r.states[i].seen, request.headers.nonce;
    && check(request) == Authentic
    && ParseU64(request.headers.timestamp).Some?
    && -60 <= now - ParseU64(request.headers.timestamp).value <= 60
    && !(nonce in seen && now - seen[nonce] <= r.states[0].retention)
  }

  /** The nonce was accepted by one of the first `n` calls, which was genuine, at the time it is remembered for. */
  ghost predicate GenuinelyRemembered(check: Request -> SignatureCheck, r: Run, n: nat, nonce: string)
    requires n <= |r.inputs| < |r.states| && nonce in r.states[n].seen
  {
    exists i :: AcceptedAt(r, i) && i < n && Genuine(check, r, i)
      && r.inputs[i].request.headers.nonce == nonce && r.inputs[i].now == r.states[n].seen[nonce]
  }

  /** In every run, what is accepted is genuine, and only the nonce of what was accepted is ever remembered. */
  lemma {:induction false} AcceptancesAreGenuine(check: Request -> SignatureCheck, r: Run, n: nat)
    requires IsRun(check, r) && n <= |r.inputs|
    ensures forall i :: AcceptedAt(r, i) && i < n ==> Genuine(check, r, i)
    ensures forall nonce :: nonce in r.states[n].seen ==> GenuinelyRemembered(check, r, n, nonce)
  {
    forall i | AcceptedAt(r, i) && i < n
      ensures Genuine(check, r, i)
    {
      AcceptedIsGenuine(check, r, i);
    }
    if n > 0 {
      AcceptancesAreGenuine(check, r, n - 1);
      forall nonce | nonce in r.states[n].seen
        ensures GenuinelyRemembered(check, r, n, nonce)
      {
        NextRemembers(check, r, n, nonce);
      }
    }
  }

  lemma AcceptedIsGenuine(check: Request -> SignatureCheck, r: Run, i: int)
    requires IsRun(check, r) && AcceptedAt(r, i)
    ensures Genuine(check, r, i)
  {
    SettingsAreFixed(check, r, i);
    assert Step(check, r.states[i], r.inputs[i], r.verdicts[i], r.states[i + 1]);
  }

  lemma NextRemembers(check: Request -> SignatureCheck, r: Run, n: nat, nonce: string)
    requires IsRun(check, r) && 0 < n <= |r.inputs| && nonce in r.states[n].seen
    requires nonce in r.states[n - 1].seen ==> GenuinelyRemembered(check, r, n - 1, nonce)
    ensures GenuinelyRemembered(check, r, n, nonce)
  {
    StepRemembers(check, r.states[n - 1], r.inputs[n - 1], r.verdicts[n - 1], r.states[n], nonce);
    if r.verdicts[n - 1] == Accepted && nonce == r.inputs[n - 1].request.headers.nonce {
      assert AcceptedAt(r, n - 1);
      AcceptedIsGenuine(check, r, n - 1);
    } else {
      var i :| AcceptedAt(r, i) && i < n - 1 && Genuine(check, r, i)
          && r.inputs[i].request.headers.nonce == nonce && r.inputs[i].now == r.states[n - 1].seen[nonce];
      assert AcceptedAt(r, i) && i < n;
    }
  }

  lemma StepRemembers(check: Request -> SignatureCheck, g: Guard, p: Presentation, v: Verdict, g': Guard, nonce: string)
    requires Step(check, g, p, v, g') && nonce in g'.seen
    ensures if v == Accepted && nonce == p.request.headers.nonce then g'.seen[nonce] == p.now
            else nonce in g.seen && g'.seen[nonce] == g.seen[nonce]
  {
  }

  lemma {:induction false} LastPruneIsPast(check: Request -> SignatureCheck, r: Run, n: nat, i: int)
    requires IsRun(check, r) && ClockNeverGoesBack(r) && n <= |r.inputs|
    ensures LastPrune(r, n).Some? ==> n > 0 && LastPrune(r, n).value <= r.inputs[n - 1].now
    ensures AcceptedAt(r, i) && i < n ==> LastPrune(r, n).Some? && r.inputs[i].now <= LastPrune(r, n).value
  {
    if n > 0 {
      LastPruneIsPast(check, r, n - 1, i);
      if AcceptedAt(r, i) && i == n - 1 {
        assert Step(check, r.states[i], r.inputs[i], r.verdicts[i], r.states[i + 1]);
      }
    }
  }

  /** Under the load bound the guard is never full when it accepts, so nothing is evicted. */
  lemma NothingIsEvicted(check: Request -> SignatureCheck, r: Run, retention: nat, capacity: nat, n: nat)
    requires Admissible(check, r, retention, capacity)
    requires AcceptedAt(r, n)
    requires RemembersExactly(r, n, retention)
    ensures |Pruned(r.states[n].seen, r.inputs[n].now, retention)| < capacity
  {
    var now := r.inputs[n].now;
    var kept := Pruned(r.states[n].seen, now, retention);
    var first := SaturatingSub(now, retention);
    var recent := AcceptancesIn(r, first, retention);
    var earlier := recent - {n};
    var nonceOf := (i: int) => if 0 <= i < |r.inputs| then r.inputs[i].request.headers.nonce else "";
    forall nonce | nonce in kept
      ensures nonce in Image(nonceOf, earlier)
    {
      var at := r.states[n].seen[nonce];
      assert Remembers(r.states[n].seen, nonce, at);
      assert StillDue(r, n, retention, nonce, at);
      var i :| AcceptedAt(r, i) && i < n && r.inputs[i].request.headers.nonce == nonce && r.inputs[i].now == at;
      assert r.inputs[i].now <= now;
      assert i in earlier && nonceOf(i) == nonce;
    }
    SubsetIsNoLarger(kept.Keys, Image(nonceOf, earlier));
    ImageIsNoLarger(nonceOf, earlier);
    assert n in recent;
  }

  lemma {:induction false} SeenIsExact(check: Request -> SignatureCheck, r: Run, retention: nat, capacity: nat, n: nat)
    requires Admissible(check, r, retention, capacity)
    requires n <= |r.inputs|
    ensures RemembersExactly(r, n, retention)
  {
    if n > 0 {
      SeenIsExact(check, r, retention, capacity, n - 1);
      SettingsAreFixed(check, r, n - 1);
      SeenStaysExact(check, r, retention, capacity, n - 1);
    }
  }

  lemma SeenStaysExact(check: Request -> SignatureCheck, r: Run, retention: nat, capacity: nat, k: nat)
    requires Admissible(check, r, retention, capacity)
    requires k < |r.inputs|
    requires r.states[k].retention == retention && r.states[k].capacity == capacity
    requires RemembersExactly(r, k, retention)
    ensures RemembersExactly(r, k + 1, retention)
  {
    var p := r.inputs[k];
    var before := r.states[k].seen;
    var after := r.states[k + 1].seen;
    assert Step(check, r.states[k], p, r.verdicts[k], r.states[k + 1]);
    if AcceptedAt(r, k) {
      NothingIsEvicted(check, r, retention, capacity, k);
      assert after == Pruned(before, p.now, retention)[p.request.headers.nonce := p.now];
    }
    forall nonce: string, at: nat
      ensures Remembers(after, nonce, at) <==> StillDue(r, k + 1, retention, nonce, at)
    {
      assert Remembers(before, nonce, at) <==> StillDue(r, k, retention, nonce, at);
      AcceptedBeforeUnfolds(r, k, nonce, at);
      LastPruneIsPast(check, r, k, -1);
      if AcceptedBefore(r, k, nonce, at) {
        var i :| AcceptedAt(r, i) && i < k && r.inputs[i].request.headers.nonce == nonce && r.inputs[i].now == at;
        LastPruneIsPast(check, r, k, i);
        assert LastPrune(r, k).Some?;
      }
    }
  }

  lemma AcceptedBeforeUnfolds(r: Run, k: nat, nonce: string, at: nat)
    requires k < |r.inputs|
    ensures AcceptedBefore(r, k + 1, nonce, at) <==>
            || AcceptedBefore(r, k, nonce, at)
            || (AcceptedAt(r, k) && r.inputs[k].request.headers.nonce == nonce && r.inputs[k].now == at)
  {
    if AcceptedBefore(r, k + 1, nonce, at) {
      var i :| AcceptedAt(r, i) && i < k + 1 && r.inputs[i].request.headers.nonce == nonce && r.inputs[i].now == at;
      if i < k {
        assert AcceptedBefore(r, k, nonce, at);
      }
    }
  }

  /** Without any assumption on load or clock, the guard never remembers more than its capacity. */
  lemma {:induction false} NeverAboveCapacity(check: Request -> SignatureCheck, r: Run, n: nat)
    requires IsRun(check, r) && n <= |r.inputs|
    ensures |r.states[n].seen| <= r.states[0].capacity
  {
    if n > 0 {
      NeverAboveCapacity(check, r, n - 1);
      SettingsAreFixed(check, r, n - 1);
      assert Step(check, r.states[n - 1], r.inputs[n - 1], r.verdicts[n - 1], r.states[n]);
      StepKeepsCapacity(check, r.states[n - 1], r.inputs[n - 1], r.verdicts[n - 1], r.states[n]);
    }
  }

  lemma StepKeepsCapacity(check: Request -> SignatureCheck, g: Guard, p: Presentation, v: Verdict, g': Guard)
    requires Step(check, g, p, v, g') && g.capacity >= 1 && |g.seen| <= g.capacity
    ensures |g'.seen| <= g.capacity
  {
    var kept := Pruned(g.seen, p.now, g.retention);
    SubsetIsNoLarger(kept.Keys, g.seen.Keys);
    if InClockWindow(p.request.headers, p.now) && v == Accepted {
      var room :| MakesRoom(kept, room, g.capacity) && g'.seen == room[p.request.headers.nonce := p.now];
      RoomIsMade(kept, room, g.capacity);
      assert g'.seen.Keys == room.Keys + {p.request.headers.nonce};
    }
  }

  lemma RoomIsMade(before: map<string, nat>, after: map<string, nat>, capacity: nat)
    requires MakesRoom(before, after, capacity) && 1 <= capacity && |before| <= capacity
    ensures |after| < capacity
  {
    if before != map[] && |before| >= capacity {
      var oldest :| IsOldest(before, oldest) && after == before - {oldest};
      assert after.Keys == before.Keys - {oldest};
    }
  }

  /** A nonce is called a replay only when a call within the retention really accepted it, evictions or not. */
  lemma {:induction false} OnlyReplaysAreCalledReplays(check: Request -> SignatureCheck, r: Run, n: nat)
    requires IsRun(check, r) && n <= |r.inputs|
    ensures forall nonce :: nonce in r.states[n].seen ==> AcceptedBefore(r, n, nonce, r.states[n].seen[nonce])
    ensures n < |r.inputs| && r.verdicts[n] == Replay ==>
              exists i :: && AcceptedAt(r, i) && i < n
                          && r.inputs[i].request.headers.nonce == r.inputs[n].request.headers.nonce
                          && r.inputs[n].now <= r.inputs[i].now + r.states[0].retention
  {
    SettingsAreFixed(check, r, n);
    if n > 0 {
      OnlyReplaysAreCalledReplays(check, r, n - 1);
      forall nonce | nonce in r.states[n].seen
        ensures AcceptedBefore(r, n, nonce, r.states[n].seen[nonce])
      {
        SeenWasAccepted(check, r, n - 1, nonce);
      }
    }
    if n < |r.inputs| {
      assert Step(check, r.states[n], r.inputs[n], r.verdicts[n], r.states[n + 1]);
    }
  }

  lemma SeenWasAccepted(check: Request -> SignatureCheck, r: Run, k: nat, nonce: string)
    requires IsRun(check, r) && k < |r.inputs| && nonce in r.states[k + 1].seen
    requires forall other :: other in r.states[k].seen ==> AcceptedBefore(r, k, other, r.states[k].seen[other])
    ensures AcceptedBefore(r, k + 1, nonce, r.states[k + 1].seen[nonce])
  {
    assert Step(check, r.states[k], r.inputs[k], r.verdicts[k], r.states[k + 1]);
    AcceptedBeforeUnfolds(r, k, nonce, r.states[k + 1].seen[nonce]);
  }

  /** Every later presentation of accepted headers is refused, whatever key, method and path come with it. */
  ghost predicate RejectsReplays(r: Run) {
    forall i, j | AcceptedAt(r, i) && i < j < |r.inputs| && j < |r.verdicts|
      && r.inputs[j].request.headers == r.inputs[i].request.headers ::
      r.verdicts[j] == Replay || r.verdicts[j] == TimestampOutsideWindow
  }

  lemma ReplaysAreRejected(check: Request -> SignatureCheck, r: Run, retention: nat, capacity: nat)
    requires Admissible(check, r, retention, capacity)
    requires retention >= 2 * MAX_CLOCK_SKEW
    ensures RejectsReplays(r)
  {
    forall i, j | AcceptedAt(r, i) && i < j < |r.inputs| && r.inputs[j].request.headers == r.inputs[i].request.headers
      ensures r.verdicts[j] == Replay || r.verdicts[j] == TimestampOutsideWindow
    {
      SeenIsExact(check, r, retention, capacity, j);
      SettingsAreFixed(check, r, j);
      LastPruneIsPast(check, r, j, i);
      assert Step(check, r.states[i], r.inputs[i], r.verdicts[i], r.states[i + 1]);
      assert Step(check, r.states[j], r.inputs[j], r.verdicts[j], r.states[j + 1]);
      if InClockWindow(r.inputs[j].request.headers, r.inputs[j].now) {
        assert r.inputs[j].now - r.inputs[i].now <= 2 * MAX_CLOCK_SKEW;
        assert AcceptedBefore(r, j, r.inputs[i].request.headers.nonce, r.inputs[i].now);
        assert StillDue(r, j, retention, r.inputs[i].request.headers.nonce, r.inputs[i].now);
      }
    }
  }

  /** The guard meets its promise with these settings: every admissible run rejects replays. */
  ghost predicate SafeSettings(retention: nat, capacity: nat) {
    forall check: Request -> SignatureCheck, r: Run :: Admissible(check, r, retention, capacity) ==> RejectsReplays(r)
  }

  /** A retention of twice the accepted clock skew is exactly what the promise needs. */
  lemma RetentionMustBeTwiceTheSkew(retention: nat, capacity: nat)
    requires capacity >= 1
    ensures SafeSettings(retention, capacity) <==> retention >= 2 * MAX_CLOCK_SKEW
  {
    if retention >= 2 * MAX_CLOCK_SKEW {
      forall check: Request -> SignatureCheck, r: Run | Admissible(check, r, retention, capacity)
        ensures RejectsReplays(r)
      {
        ReplaysAreRejected(check, r, retention, capacity);
      }
    } else {
      ShortRetentionAdmitsReplay(retention, capacity);
    }
  }

  /** A post-dated request, presented at time 0 and again at time 120. */
  ghost function PostDated(now: nat): Presentation {
    Presentation(Request("k", "POST", "/machines/turn-off", Headers("60", "n", "s")), now)
  }

  ghost function ReplayRun(retention: nat, capacity: nat): Run {
    Run([Guard(map[], retention, capacity),
         Guard(map["n" := 0], retention, capacity), Guard(map["n" := 120], retention, capacity)],
        [PostDated(0), PostDated(120)],
        [Accepted, Accepted])
  }

  lemma PostDatedIsInWindow(now: nat)
    requires now <= 120
    ensures ParseU64("60") == Some(60) && InClockWindow(PostDated(now).request.headers, now)
  {
    assert DecimalValue("6") == 6;
    assert "60"[..1] == "6";
  }

  lemma PostDatedIsAccepted(check: Request -> SignatureCheck, seen: map<string, nat>, now: nat, retention: nat,
                            capacity: nat)
    requires now <= 120 && capacity >= 1 && check(PostDated(now).request) == Authentic
    requires Pruned(seen, now, retention) == map[]
    ensures Step(check, Guard(seen, retention, capacity), PostDated(now), Accepted,
                 Guard(map["n" := now], retention, capacity))
  {
    PostDatedIsInWindow(now);
    assert MakesRoom(map[], map[], capacity) && map["n" := now] == map[]["n" := now];
  }

  lemma SpacedAcceptancesFitAnyCapacity(retention: nat, capacity: nat)
    requires capacity >= 1 && retention < 120
    ensures LoadWithinCapacity(ReplayRun(retention, capacity), retention, capacity)
  {
    var r := ReplayRun(retention, capacity);
    forall first: nat
      ensures |AcceptancesIn(r, first, retention)| <= capacity
    {
      var only := if first == 0 then {0} else {1};
      assert AcceptancesIn(r, first, retention) <= only;
      SubsetIsNoLarger(AcceptancesIn(r, first, retention), only);
    }
  }

  /** Accepted at time 0, pruned, and accepted again at time 120. */
  lemma ShortRetentionAdmitsReplay(retention: nat, capacity: nat)
    requires capacity >= 1 && retention < 2 * MAX_CLOCK_SKEW
    ensures !SafeSettings(retention, capacity)
  {
    var check := (request: Request) => Authentic;
    var r := ReplayRun(retention, capacity);
    assert Pruned(map["n" := 0], 120, retention) == map[];
    PostDatedIsAccepted(check, map[], 0, retention, capacity);
    PostDatedIsAccepted(check, map["n" := 0], 120, retention, capacity);
    SpacedAcceptancesFitAnyCapacity(retention, capacity);
    assert Admissible(check, r, retention, capacity);
    assert AcceptedAt(r, 0) && r.inputs[1].request.headers == r.inputs[0].request.headers && r.verdicts[1] == Accepted;
    assert !RejectsReplays(r);
  }

  /** The settings the service uses. */
  lemma DefaultSettingsAreSafe()
    ensures SafeSettings(120, 4096)
  {
    RetentionMustBeTwiceTheSkew(120, 4096);
  }
}
