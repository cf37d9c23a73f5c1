/** The first so many members of a set of integers, as a list. */
module Selection {

  ghost predicate Ascending(s: seq<int>) {
    forall i, j :: 0 <= i < j < |s| ==> s[i] < s[j]
  }

  /** `s` lists the first `limit` integers of `member` in ascending order, or all when there are fewer. */
  ghost predicate First(s: seq<int>, limit: nat, member: int -> bool) {
    && Ascending(s) && |s| <= limit
    && (forall x :: x in s ==> member(x))
    && (forall x :: member(x) && x !in s ==> |s| == limit && forall y :: y in s ==> y < x)
  }

  /** An ascending list does not come back to what it has passed. */
  lemma BeyondPrefix(a: seq<int>, b: seq<int>, n: nat)
    requires Ascending(a) && Ascending(b) && n <= |a| && n < |b| && a[..n] == b[..n]
    requires n < |a| ==> b[n] < a[n]
    ensures b[n] !in a
  {
    forall i | 0 <= i < |a| ensures a[i] != b[n] {
      if i < n {
        assert a[i] == a[..n][i] == b[..n][i] == b[i];
      } else if n < i {
        assert a[n] < a[i];
      }
    }
  }

  lemma {:induction false} AgreeUpTo(a: seq<int>, b: seq<int>, limit: nat, member: int -> bool, n: nat)
    requires First(a, limit, member) && First(b, limit, member)
    requires n <= |a| && n <= |b|
    ensures a[..n] == b[..n]
  {
    if n > 0 {
      AgreeUpTo(a, b, limit, member, n - 1);
      assert a[n - 1] in a && b[n - 1] in b;
      if a[n - 1] < b[n - 1] {
        BeyondPrefix(b, a, n - 1);
      } else if b[n - 1] < a[n - 1] {
        BeyondPrefix(a, b, n - 1);
      }
      assert a[..n] == a[..n - 1] + [a[n - 1]] && b[..n] == b[..n - 1] + [b[n - 1]];
    }
  }

  lemma NotShorter(a: seq<int>, b: seq<int>, limit: nat, member: int -> bool)
    requires First(a, limit, member) && First(b, limit, member)
    ensures |b| <= |a|
  {
    if |a| < |b| {
      assert b[|a|] in b;
      AgreeUpTo(a, b, limit, member, |a|);
      BeyondPrefix(a, b, |a|);
    }
  }

  /** There is only one such list. */
  lemma FirstIsUnique(a: seq<int>, b: seq<int>, limit: nat, member: int -> bool)
    requires First(a, limit, member) && First(b, limit, member)
    ensures a == b
  {
    NotShorter(a, b, limit, member);
    NotShorter(b, a, limit, member);
    AgreeUpTo(a, b, limit, member, |a|);
    assert a == a[..|a|] && b == b[..|b|];
  }

  /** An ascending list is no longer than another that contains it. */
  lemma {:induction false} ContainedIsNoLonger(a: seq<int>, b: seq<int>)
    requires Ascending(a) && forall x :: x in a ==> x in b
    ensures |a| <= |b|
  {
    if a != [] {
      var last := a[|a| - 1];
      assert last in a;
      var i :| 0 <= i < |b| && b[i] == last;
      var rest := b[..i] + b[i + 1..];
      forall x | x in a[..|a| - 1] ensures x in rest {
        assert x in b && x != last;
        var k :| 0 <= k < |b| && b[k] == x;
        assert k < i ==> rest[k] == x;
        assert i < k ==> rest[k - 1] == x;
      }
      ContainedIsNoLonger(a[..|a| - 1], rest);
    }
  }

  /** Members are ordered as their clock readings are, and no two share one. */
  ghost predicate Ordered(member: int -> bool, clock: int -> int) {
    && (forall x, y :: member(x) && member(y) && clock(x) < clock(y) ==> x < y)
    && (forall x, y :: member(x) && member(y) && clock(x) == clock(y) ==> x == y)
  }

  /** `s` lists exactly the members whose clock reading is below `frontier`. */
  ghost predicate Collected(s: seq<int>, member: int -> bool, clock: int -> int, frontier: int) {
    && Ascending(s)
    && (forall x :: x in s ==> member(x) && clock(x) < frontier)
    && (forall x :: member(x) && clock(x) < frontier ==> x in s)
  }

  /** The frontier passes the clock reading of one member. */
  lemma CollectOne(s: seq<int>, member: int -> bool, clock: int -> int, x: int)
    requires Ordered(member, clock) && Collected(s, member, clock, clock(x)) && member(x)
    ensures Collected(s + [x], member, clock, clock(x) + 1)
  {
    forall i | 0 <= i < |s| ensures s[i] < x {
      assert s[i] in s;
    }
    assert Ascending(s + [x]);
  }

  /** The frontier moves over clock readings no member has. */
  lemma CollectNone(s: seq<int>, member: int -> bool, clock: int -> int, frontier: int, next: int)
    requires Collected(s, member, clock, frontier) && frontier <= next
    requires forall x :: member(x) ==> !(frontier <= clock(x) < next)
    ensures Collected(s, member, clock, next)
  {
  }

  /** A collected list that has reached the limit is the selection. */
  lemma CollectedIsFirst(s: seq<int>, limit: nat, member: int -> bool, clock: int -> int, frontier: int)
    requires Ordered(member, clock) && Collected(s, member, clock, frontier) && |s| == limit
    ensures First(s, limit, member)
  {
  }
}
