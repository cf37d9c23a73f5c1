/**
 What the replay guard answers, said of the history of attempts alone: a nonce is refused while an accepted
 attempt with it is live, or while as many attempts are live as the guard holds.
 */
module ReplayHistory {
  import opened ReplayGuard

  /** No reading after attempt `i` has come 300 seconds after it, or to the last instant. */
  predicate Live(attempts: seq<Attempt>, i: nat)
    requires i < |attempts|
  {
    forall k :: i < k < |attempts| ==> attempts[k].now < attempts[i].now + 300 && attempts[k].now < I64_MAX
  }

  /** Attempt `i` was taken and is live. */
  predicate Holds(attempts: seq<Attempt>, i: nat, capacity: nat)
    requires i < |attempts| - 1
    decreases |attempts|, i, 0
  {
    Taken(attempts[..i + 1], capacity) && Live(attempts, i)
  }

  /** How many of the first `n` attempts are held. */
  function HeldCount(attempts: seq<Attempt>, n: nat, capacity: nat): nat
    requires n < |attempts|
    decreases |attempts|, n, 0
  {
    if n == 0 then 0
    else HeldCount(attempts, n - 1, capacity) + if Holds(attempts, n - 1, capacity) then 1 else 0
  }

  /** The last attempt is accepted: its nonce is not held, and there is room. */
  predicate Taken(attempts: seq<Attempt>, capacity: nat)
    requires attempts != []
    decreases |attempts|, |attempts|, 1
  {
    var last := |attempts| - 1;
    && HeldCount(attempts, last, capacity) < capacity
    && forall i :: 0 <= i < last ==> !(attempts[i].nonce == attempts[last].nonce && Holds(attempts, i, capacity))
  }

  // ------------------------------------------------------------ the guard agrees

  /** The nonces held of the first `n` attempts, with their times. */
  function HeldMap(attempts: seq<Attempt>, n: nat, capacity: nat): map<string, Time>
    requires n < |attempts|
  {
    if n == 0 then map[]
    else
      var before := HeldMap(attempts, n - 1, capacity);
      if Holds(attempts, n - 1, capacity) then before[attempts[n - 1].nonce := attempts[n - 1].now] else before
  }

  lemma {:induction false} HeldMapMeans(attempts: seq<Attempt>, n: nat, capacity: nat, nonce: string)
    requires n < |attempts|
    ensures nonce in HeldMap(attempts, n, capacity)
       <==> exists i :: 0 <= i < n && attempts[i].nonce == nonce && Holds(attempts, i, capacity)
    decreases n
  {
    if n > 0 {
      HeldMapMeans(attempts, n - 1, capacity, nonce);
    }
  }

  /** What is held now was held at any earlier time since. */
  lemma HeldBefore(attempts: seq<Attempt>, i: nat, j: nat, capacity: nat)
    requires i < j < |attempts| && Holds(attempts, i, capacity)
    ensures Holds(attempts[..j + 1], i, capacity)
  {
    assert attempts[..j + 1][..i + 1] == attempts[..i + 1];
  }

  /** A held nonce is held once. */
  lemma HeldOnce(attempts: seq<Attempt>, n: nat, capacity: nat)
    requires n < |attempts| - 1 && Taken(attempts[..n + 1], capacity)
    ensures attempts[n].nonce !in HeldMap(attempts, n, capacity)
  {
    var nonce := attempts[n].nonce;
    HeldMapMeans(attempts, n, capacity, nonce);
    if i :| 0 <= i < n && attempts[i].nonce == nonce && Holds(attempts, i, capacity) {
      HeldBefore(attempts, i, n, capacity);
      assert attempts[..n + 1][i].nonce == attempts[..n + 1][n].nonce;
    }
  }

  lemma {:induction false} HeldMapSize(attempts: seq<Attempt>, n: nat, capacity: nat)
    requires n < |attempts|
    ensures |HeldMap(attempts, n, capacity)| == HeldCount(attempts, n, capacity)
    decreases n
  {
    if n > 0 {
      HeldMapSize(attempts, n - 1, capacity);
      if Holds(attempts, n - 1, capacity) {
        HeldOnce(attempts, n - 1, capacity);
      }
    }
  }

  function Unexpired(m: map<string, Time>, now: Time): map<string, Time> {
    map nonce | nonce in m && Expiry(m[nonce]) > now :: m[nonce]
  }

  lemma UnexpiredUpdate(m: map<string, Time>, nonce: string, at: Time, now: Time)
    requires nonce !in m
    ensures Unexpired(m[nonce := at], now)
         == if Expiry(at) > now then Unexpired(m, now)[nonce := at] else Unexpired(m, now)
  {
  }

  lemma LiveNext(attempts: seq<Attempt>, next: Attempt, i: nat)
    requires i < |attempts|
    ensures Live(attempts + [next], i) <==> Live(attempts, i) && Expiry(attempts[i].now) > next.now
  {
    var longer := attempts + [next];
    assert longer[|attempts|] == next && forall k :: 0 <= k < |attempts| ==> longer[k] == attempts[k];
  }

  lemma HoldsNext(attempts: seq<Attempt>, next: Attempt, i: nat, capacity: nat)
    requires i < |attempts| - 1
    ensures Holds(attempts + [next], i, capacity) <==> Holds(attempts, i, capacity) && Expiry(attempts[i].now) > next.now
  {
    LiveNext(attempts, next, i);
    assert (attempts + [next])[..i + 1] == attempts[..i + 1];
  }

  /** A further reading releases what it expires. */
  lemma {:induction false} ReadingExpires(attempts: seq<Attempt>, next: Attempt, n: nat, capacity: nat)
    requires n < |attempts|
    ensures HeldMap(attempts + [next], n, capacity) == Unexpired(HeldMap(attempts, n, capacity), next.now)
    decreases n
  {
    if n > 0 {
      ReadingExpires(attempts, next, n - 1, capacity);
      HoldsNext(attempts, next, n - 1, capacity);
      if Holds(attempts, n - 1, capacity) {
        HeldOnce(attempts, n - 1, capacity);
        UnexpiredUpdate(HeldMap(attempts, n - 1, capacity), attempts[n - 1].nonce, attempts[n - 1].now, next.now);
      }
    }
  }

  /** The guard before the last attempt, at its reading, holds what the history says. */
  ghost predicate InStep(attempts: seq<Attempt>, capacity: nat)
    requires attempts != []
  {
    var before := Run(Guard(map[], capacity), attempts[..|attempts| - 1]);
    && before.capacity == capacity
    && before.Evict(attempts[|attempts| - 1].now).accepted == HeldMap(attempts, |attempts| - 1, capacity)
  }

  lemma InStepDecides(attempts: seq<Attempt>, capacity: nat)
    requires attempts != [] && InStep(attempts, capacity)
    ensures var last := attempts[|attempts| - 1];
            Run(Guard(map[], capacity), attempts[..|attempts| - 1]).Admits(last.nonce, last.now) <==> Taken(attempts, capacity)
  {
    var n := |attempts| - 1;
    HeldMapMeans(attempts, n, capacity, attempts[n].nonce);
    HeldMapSize(attempts, n, capacity);
  }

  lemma RunLast(g: Guard, attempts: seq<Attempt>, last: Attempt)
    ensures Run(g, attempts + [last]) == Run(g, attempts).Check(last.nonce, last.now).1
  {
    RunSplit(g, attempts, [last]);
    assert [last][1..] == [];
    assert Run(Run(g, attempts).Check(last.nonce, last.now).1, []) == Run(g, attempts).Check(last.nonce, last.now).1;
  }

  /** What the guard holds after the last attempt. */
  function HeldAfterLast(attempts: seq<Attempt>, capacity: nat): map<string, Time>
    requires attempts != []
  {
    var n := |attempts| - 1;
    var held := HeldMap(attempts, n, capacity);
    if Taken(attempts, capacity) then held[attempts[n].nonce := attempts[n].now] else held
  }

  lemma HeldGrows(attempts: seq<Attempt>, next: Attempt, capacity: nat)
    requires attempts != []
    ensures Unexpired(HeldAfterLast(attempts, capacity), next.now)
         == HeldMap(attempts + [next], |attempts|, capacity)
  {
    var n, longer := |attempts| - 1, attempts + [next];
    ReadingExpires(attempts, next, n, capacity);
    assert longer[..n + 1] == attempts && longer[n] == attempts[n];
    LiveNext(attempts, next, n);
    if Taken(attempts, capacity) {
      HeldMapMeans(attempts, n, capacity, attempts[n].nonce);
      UnexpiredUpdate(HeldMap(attempts, n, capacity), attempts[n].nonce, attempts[n].now, next.now);
    }
  }

  lemma StaysInStep(attempts: seq<Attempt>, next: Attempt, capacity: nat)
    requires attempts != [] && InStep(attempts, capacity)
    ensures InStep(attempts + [next], capacity)
  {
    var init, last := attempts[..|attempts| - 1], attempts[|attempts| - 1];
    assert attempts == init + [last] && (attempts + [next])[..|attempts|] == attempts;
    InStepDecides(attempts, capacity);
    RunLast(Guard(map[], capacity), init, last);
    HeldGrows(attempts, next, capacity);
  }

  lemma {:induction false} AlwaysInStep(attempts: seq<Attempt>, capacity: nat)
    requires attempts != []
    ensures InStep(attempts, capacity)
    decreases |attempts|
  {
    var init := attempts[..|attempts| - 1];
    if init == [] {
      assert Run(Guard(map[], capacity), init) == Guard(map[], capacity);
    } else {
      AlwaysInStep(init, capacity);
      StaysInStep(init, attempts[|attempts| - 1], capacity);
      assert init + [attempts[|attempts| - 1]] == attempts;
    }
  }

  /** Over every history of a new guard, whatever its clock does, an attempt is accepted exactly when the history
      before it holds neither its nonce nor as many nonces as there is room for. */
  lemma AcceptedByHistory(attempts: seq<Attempt>, i: nat, capacity: nat)
    requires i < |attempts|
    ensures Accepted(Guard(map[], capacity), attempts, i) <==> Taken(attempts[..i + 1], capacity)
  {
    var upTo := attempts[..i + 1];
    assert upTo[..i] == attempts[..i] && upTo[i] == attempts[i];
    AlwaysInStep(upTo, capacity);
    InStepDecides(upTo, capacity);
  }
}
