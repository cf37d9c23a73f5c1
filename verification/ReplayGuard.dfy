/**
 Bounded in-memory replay protection: a nonce accepted once is held for five
 minutes. Times are UNIX seconds in 64-bit signed integers.
 */
module ReplayGuard {

  const I64_MIN: int := -0x8000_0000_0000_0000
  const I64_MAX: int := 0x7FFF_FFFF_FFFF_FFFF

  type Time = t: int | -0x8000_0000_0000_0000 <= t <= 0x7FFF_FFFF_FFFF_FFFF

  const RETENTION: int := 300

  /** When a nonce accepted at `at` stops being held; the addition saturates. */
  function Expiry(at: Time): Time {
    if at + RETENTION <= I64_MAX then at + RETENTION else I64_MAX
  }

  datatype Guard = Guard(accepted: map<string, Time>, capacity: nat) {

    ghost predicate Valid() {
      capacity > 0 && |accepted| <= capacity
    }

    function Evict(now: Time): Guard {
      this.(accepted := map nonce | nonce in accepted && Expiry(accepted[nonce]) > now :: accepted[nonce])
    }

    function Admits(nonce: string, now: Time): bool {
      nonce !in Evict(now).accepted && |Evict(now).accepted| < capacity
    }

    function Check(nonce: string, now: Time): (bool, Guard) {
      var live := Evict(now);
      if Admits(nonce, now) then (true, live.(accepted := live.accepted[nonce := now])) else (false, live)
    }
  }

  /** The guard object. */
  class InMemoryReplayGuard {
    var accepted: map<string, Time>
    const capacity: nat

    ghost function Value(): Guard
      reads this
    {
      Guard(accepted, capacity)
    }

    constructor (capacity: nat)
      ensures Value() == Guard(map[], if capacity == 0 then 1 else capacity)
    {
      this.accepted := map[];
      this.capacity := if capacity == 0 then 1 else capacity;
    }

    method EvictExpired(now: Time) returns (removed: nat)
      modifies this
      ensures Value() == old(Value()).Evict(now)
      ensures removed == |old(accepted)| - |accepted|
    {
      var before := accepted;
      accepted := map nonce | nonce in before && Expiry(before[nonce]) > now :: before[nonce];
      NoMoreEntries(before, accepted);
      removed := |before| - |accepted|;
    }

    method CheckAndRecord(nonce: string, now: Time) returns (admitted: bool)
      modifies this
      ensures (admitted, Value()) == old(Value()).Check(nonce, now)
    {
      var removed := EvictExpired(now);
      if nonce in accepted || |accepted| >= capacity {
        return false;
      }
      accepted := accepted[nonce := now];
      return true;
    }
  }

  lemma SubsetIsSmaller<T>(a: set<T>, b: set<T>)
    requires a <= b
    ensures |a| <= |b|
  {
    assert |b| == |b - a| + |b * a| && b * a == a;
  }

  lemma NoMoreEntries(before: map<string, Time>, after: map<string, Time>)
    requires after.Keys <= before.Keys
    ensures |after| <= |before|
  {
    SubsetIsSmaller(after.Keys, before.Keys);
    assert |after| == |after.Keys| && |before| == |before.Keys|;
  }

  // ---------------------------------------------------------------- histories

  /** Nonces presented to the guard, each with the clock reading. */
  datatype Attempt = Attempt(nonce: string, now: Time)

  function Run(g: Guard, attempts: seq<Attempt>): Guard
    decreases |attempts|
  {
    if attempts == [] then g
    else Run(g.Check(attempts[0].nonce, attempts[0].now).1, attempts[1..])
  }

  /** Whether attempt `i` of the history is accepted. */
  function Accepted(g: Guard, attempts: seq<Attempt>, i: nat): bool
    requires i < |attempts|
  {
    Run(g, attempts[..i]).Check(attempts[i].nonce, attempts[i].now).0
  }

  predicate ClockAdvances(attempts: seq<Attempt>) {
    forall i, j :: 0 <= i < j < |attempts| ==> attempts[i].now <= attempts[j].now
  }

  /** No reading of these attempts reaches the expiry of a nonce accepted at `at`. */
  predicate Before(attempts: seq<Attempt>, at: Time) {
    forall i :: 0 <= i < |attempts| ==> attempts[i].now < Expiry(at)
  }

  predicate Absent(attempts: seq<Attempt>, nonce: string) {
    forall i :: 0 <= i < |attempts| ==> attempts[i].nonce != nonce
  }

  lemma CheckKeepsCapacity(g: Guard, nonce: string, now: Time)
    requires g.Valid()
    ensures g.Check(nonce, now).1.Valid()
  {
    NoMoreEntries(g.accepted, g.Evict(now).accepted);
  }

  /** The guard never holds more nonces than its capacity. */
  lemma {:induction false} CapacityKept(g: Guard, attempts: seq<Attempt>)
    requires g.Valid()
    ensures Run(g, attempts).Valid()
    decreases |attempts|
  {
    if attempts != [] {
      CheckKeepsCapacity(g, attempts[0].nonce, attempts[0].now);
      CapacityKept(g.Check(attempts[0].nonce, attempts[0].now).1, attempts[1..]);
    }
  }

  /** A check that refuses adds nothing and removes only what has expired; one that accepts adds
      only its own nonce. */
  lemma OnlyTheNonce(g: Guard, nonce: string, now: Time, other: string)
    ensures var (admitted, after) := g.Check(nonce, now);
            && (other in after.accepted ==> other in g.accepted || (admitted && other == nonce))
            && (other in g.accepted && Expiry(g.accepted[other]) > now ==>
                  other in after.accepted && after.accepted[other] == g.accepted[other])
  {
  }

  /** A live nonce is held through any attempts, whatever they are, until it expires. */
  lemma {:induction false} LiveNonceHeld(g: Guard, attempts: seq<Attempt>, nonce: string)
    requires nonce in g.accepted && Before(attempts, g.accepted[nonce])
    ensures nonce in Run(g, attempts).accepted && Run(g, attempts).accepted[nonce] == g.accepted[nonce]
    decreases |attempts|
  {
    if attempts != [] {
      OnlyTheNonce(g, attempts[0].nonce, attempts[0].now, nonce);
      LiveNonceHeld(g.Check(attempts[0].nonce, attempts[0].now).1, attempts[1..], nonce);
    }
  }

  /** A nonce that is neither held nor presented does not come to be held. */
  lemma {:induction false} AbsentNonceStaysOut(g: Guard, attempts: seq<Attempt>, nonce: string)
    requires nonce !in g.accepted && Absent(attempts, nonce)
    ensures nonce !in Run(g, attempts).accepted
    decreases |attempts|
  {
    if attempts != [] {
      OnlyTheNonce(g, attempts[0].nonce, attempts[0].now, nonce);
      AbsentNonceStaysOut(g.Check(attempts[0].nonce, attempts[0].now).1, attempts[1..], nonce);
    }
  }

  /** A held nonce that is not presented is held exactly as long as no reading has reached its expiry. */
  lemma {:induction false} HeldIffBefore(g: Guard, attempts: seq<Attempt>, nonce: string)
    requires nonce in g.accepted && Absent(attempts, nonce)
    ensures nonce in Run(g, attempts).accepted <==> Before(attempts, g.accepted[nonce])
    ensures nonce in Run(g, attempts).accepted ==> Run(g, attempts).accepted[nonce] == g.accepted[nonce]
    decreases |attempts|
  {
    if Before(attempts, g.accepted[nonce]) {
      LiveNonceHeld(g, attempts, nonce);
    } else {
      var next := g.Check(attempts[0].nonce, attempts[0].now).1;
      if attempts[0].now < Expiry(g.accepted[nonce]) {
        OnlyTheNonce(g, attempts[0].nonce, attempts[0].now, nonce);
        assert !Before(attempts[1..], g.accepted[nonce]);
        HeldIffBefore(next, attempts[1..], nonce);
      } else {
        AbsentNonceStaysOut(next, attempts[1..], nonce);
      }
    }
  }

  lemma {:induction false} RunSplit(g: Guard, a: seq<Attempt>, b: seq<Attempt>)
    ensures Run(g, a + b) == Run(Run(g, a), b)
    decreases |a|
  {
    if a == [] {
      assert a + b == b;
    } else {
      RunSplit(g.Check(a[0].nonce, a[0].now).1, a[1..], b);
      assert (a + b)[1..] == a[1..] + b;
    }
  }

  lemma RunUpTo(g: Guard, attempts: seq<Attempt>, i: nat, j: nat)
    requires i < j <= |attempts|
    ensures Run(g, attempts[..j])
         == Run(Run(g, attempts[..i]).Check(attempts[i].nonce, attempts[i].now).1, attempts[i + 1..j])
  {
    assert attempts[..j] == attempts[..i] + attempts[i..j];
    RunSplit(g, attempts[..i], attempts[i..j]);
    assert attempts[i..j][1..] == attempts[i + 1..j];
  }

  lemma BeforeNext(attempts: seq<Attempt>, i: nat, j: nat, at: Time)
    requires i <= j < |attempts|
    ensures Before(attempts[i..j + 1], at) <==> Before(attempts[i..j], at) && attempts[j].now < Expiry(at)
  {
    assert attempts[i..j + 1] == attempts[i..j] + [attempts[j]];
    assert attempts[i..j + 1][j - i] == attempts[j];
    assert forall k :: 0 <= k < j - i ==> attempts[i..j + 1][k] == attempts[i..j][k];
  }

  lemma HeldAfter(g: Guard, first: Attempt, between: seq<Attempt>, now: Time)
    requires g.Check(first.nonce, first.now).0 && Absent(between, first.nonce)
    ensures first.nonce in Run(g.Check(first.nonce, first.now).1, between).Evict(now).accepted
       <==> Before(between, first.now) && now < Expiry(first.now)
  {
    HeldIffBefore(g.Check(first.nonce, first.now).1, between, first.nonce);
  }

  lemma RefusedBefore(g: Guard, first: Attempt, between: seq<Attempt>, now: Time)
    requires g.Check(first.nonce, first.now).0 && Before(between, first.now) && now < Expiry(first.now)
    ensures !Run(g.Check(first.nonce, first.now).1, between).Check(first.nonce, now).0
  {
    LiveNonceHeld(g.Check(first.nonce, first.now).1, between, first.nonce);
  }

  /** Replay protection holds exactly on the readings: a nonce accepted at `i` and next presented at
      `j` is still held there if and only if no reading from `i` to `j` has reached its expiry. */
  lemma HeldExactly(g: Guard, attempts: seq<Attempt>, i: nat, j: nat)
    requires i < j < |attempts| && Accepted(g, attempts, i) && Absent(attempts[i + 1..j], attempts[i].nonce)
    ensures attempts[i].nonce in Run(g, attempts[..j]).Evict(attempts[j].now).accepted
       <==> Before(attempts[i + 1..j + 1], attempts[i].now)
  {
    RunUpTo(g, attempts, i, j);
    BeforeNext(attempts, i + 1, j, attempts[i].now);
    HeldAfter(Run(g, attempts[..i]), attempts[i], attempts[i + 1..j], attempts[j].now);
  }

  /** So the next presentation is accepted again exactly when a reading has reached the expiry and
      the guard then has room. */
  lemma AcceptedAgainExactly(g: Guard, attempts: seq<Attempt>, i: nat, j: nat)
    requires i < j < |attempts| && Accepted(g, attempts, i) && Absent(attempts[i + 1..j], attempts[i].nonce)
    requires attempts[j].nonce == attempts[i].nonce
    ensures Accepted(g, attempts, j)
       <==> !Before(attempts[i + 1..j + 1], attempts[i].now)
            && |Run(g, attempts[..j]).Evict(attempts[j].now).accepted| < g.capacity
  {
    HeldExactly(g, attempts, i, j);
    CapacityConstant(g, attempts[..j]);
  }

  lemma {:induction false} CapacityConstant(g: Guard, attempts: seq<Attempt>)
    ensures Run(g, attempts).capacity == g.capacity
    decreases |attempts|
  {
    if attempts != [] {
      CapacityConstant(g.Check(attempts[0].nonce, attempts[0].now).1, attempts[1..]);
    }
  }

  /** However often the nonce is presented in between: between two acceptances a reading has reached
      the expiry of the first. */
  lemma NotAcceptedBefore(g: Guard, attempts: seq<Attempt>, i: nat, j: nat)
    requires i < j < |attempts| && attempts[i].nonce == attempts[j].nonce
    requires Accepted(g, attempts, i) && Accepted(g, attempts, j)
    ensures !Before(attempts[i + 1..j + 1], attempts[i].now)
  {
    RunUpTo(g, attempts, i, j);
    BeforeNext(attempts, i + 1, j, attempts[i].now);
    if Before(attempts[i + 1..j + 1], attempts[i].now) {
      RefusedBefore(Run(g, attempts[..i]), attempts[i], attempts[i + 1..j], attempts[j].now);
    }
  }

  /** With a clock that does not go back and stays below the last instant, two acceptances of a
      nonce are at least five minutes apart, in any history of any length. */
  lemma AcceptancesFarApart(g: Guard, attempts: seq<Attempt>, i: nat, j: nat)
    requires i < j < |attempts| && attempts[i].nonce == attempts[j].nonce
    requires Accepted(g, attempts, i) && Accepted(g, attempts, j)
    ensures !Before(attempts[i + 1..j + 1], attempts[i].now)
    ensures ClockAdvances(attempts) && attempts[j].now < I64_MAX ==> attempts[j].now >= attempts[i].now + RETENTION
  {
    NotAcceptedBefore(g, attempts, i, j);
    if ClockAdvances(attempts) {
      var k :| 0 <= k < j - i && attempts[i + 1..j + 1][k].now >= Expiry(attempts[i].now);
      assert attempts[i + 1..j + 1][k] == attempts[i + 1 + k];
    }
  }

  /** On the clock's range the bound is exact: a nonce presented again while it is held is accepted
      exactly at the last instant, where the saturated expiry releases everything. */
  lemma HeldNonceAccepted(g: Guard, nonce: string, now: Time)
    requires g.Valid() && nonce in g.accepted && g.accepted[nonce] <= now < g.accepted[nonce] + RETENTION
    ensures g.Check(nonce, now).0 <==> now == I64_MAX
  {
    if now == I64_MAX {
      assert g.Evict(now).accepted == map[];
    }
  }

  /** A clock that goes back defeats the guard: evicted at a late reading, the nonce is accepted
      a second time at the first. */
  lemma ClockGoesBack() returns (attempts: seq<Attempt>)
    ensures |attempts| == 3 && attempts[0] == attempts[2]
    ensures Accepted(Guard(map[], 2), attempts, 0) && Accepted(Guard(map[], 2), attempts, 2)
  {
    var g := Guard(map[], 2);
    attempts := [Attempt("n", 0), Attempt("m", 1000), Attempt("n", 0)];
    var one := Guard(map["n" := 0], 2);
    var two := Guard(map["m" := 1000], 2);
    assert g.Evict(0).accepted == map[] && g.Check("n", 0) == (true, one);
    assert one.Evict(1000).accepted == map[] && one.Check("m", 1000) == (true, two);
    assert attempts[..2][1..] == [Attempt("m", 1000)] && [Attempt("m", 1000)][1..] == [];
    assert Run(g, attempts[..2]) == two;
    assert two.Evict(0).accepted == two.accepted;
  }
}
