/** Which requests a server with a new guard accepts, over every history of arrivals, said without the guard. */
module RequestHistory {
  import opened ReplayGuard
  import opened ReplayHistory
  import opened RequestAuth

  /** The arrivals that are authentic, as nonces with their readings. */
  ghost function Authentics(c: Crypto, secret: string, arrivals: seq<Arrival>): seq<Attempt> {
    if arrivals == [] then []
    else
      var last := arrivals[|arrivals| - 1];
      Authentics(c, secret, arrivals[..|arrivals| - 1])
      + if Authentic(c, secret, last.request, last.now) then [Attempt(last.request.nonce.value, last.now)] else []
  }

  lemma {:induction false} AuthenticsReach(c: Crypto, secret: string, arrivals: seq<Arrival>)
    requires Sized(c)
    ensures Authentics(c, secret, arrivals) == Attempts(c, secret, arrivals)
  {
    if arrivals != [] {
      var last := arrivals[|arrivals| - 1];
      AuthenticsReach(c, secret, arrivals[..|arrivals| - 1]);
      AcceptedExactly(c, secret, last.request, last.now, Guard(map[], 0));
    }
  }

  /** The attempt that follows `before` is accepted as the history says. */
  lemma TakenNext(attempts: seq<Attempt>, before: seq<Attempt>, one: seq<Attempt>, capacity: nat)
    requires |before| < |attempts| && attempts[..|before|] == before && one == [attempts[|before|]]
    ensures Accepted(Guard(map[], capacity), attempts, |before|) <==> Taken(before + one, capacity)
  {
    AcceptedByHistory(attempts, |before|, capacity);
    assert attempts[..|before| + 1] == before + one;
  }

  lemma AuthenticIsTaken(c: Crypto, secret: string, arrivals: seq<Arrival>, i: nat, capacity: nat)
    requires i < |arrivals| && Reaches(c, secret, arrivals[i])
    ensures IsAccepted(c, secret, Guard(map[], capacity), arrivals, i)
       <==> Taken(Attempts(c, secret, arrivals[..i]) + AttemptOf(c, secret, arrivals[i]), capacity)
  {
    AcceptedByGuard(c, secret, Guard(map[], capacity), arrivals, i);
    AttemptsPrefix(c, secret, arrivals, i);
    TakenNext(Attempts(c, secret, arrivals), Attempts(c, secret, arrivals[..i]), AttemptOf(c, secret, arrivals[i]), capacity);
  }

  /** A request is accepted exactly when it is authentic, no accepted request with its nonce is live, and fewer
      accepted ones are live than the guard holds. */
  lemma AcceptedInHistory(c: Crypto, secret: string, arrivals: seq<Arrival>, i: nat, capacity: nat)
    requires Sized(c) && i < |arrivals|
    ensures IsAccepted(c, secret, Guard(map[], capacity), arrivals, i)
       <==> Authentic(c, secret, arrivals[i].request, arrivals[i].now)
            && Taken(Authentics(c, secret, arrivals[..i]) + [Attempt(arrivals[i].request.nonce.value, arrivals[i].now)], capacity)
  {
    AcceptedExactly(c, secret, arrivals[i].request, arrivals[i].now, Guard(map[], capacity));
    AuthenticsReach(c, secret, arrivals[..i]);
    if Reaches(c, secret, arrivals[i]) {
      AuthenticIsTaken(c, secret, arrivals, i, capacity);
    }
  }
}
