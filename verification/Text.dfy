/** Text as byte strings: order, splitting, joining and element-wise maps. */
module Text {
  import opened Sorting

  // ------------------------------------------------------------- lexical order

  predicate LexLeq(a: string, b: string) {
    a == [] || (b != [] && (a[0] < b[0] || (a[0] == b[0] && LexLeq(a[1..], b[1..]))))
  }

  lemma {:induction false} LexTotal(a: string, b: string)
    ensures LexLeq(a, b) || LexLeq(b, a)
    ensures LexLeq(a, b) && LexLeq(b, a) ==> a == b
  {
    if a != [] && b != [] && a[0] == b[0] {
      LexTotal(a[1..], b[1..]);
      assert a == [a[0]] + a[1..] && b == [b[0]] + b[1..];
    }
  }

  lemma {:induction false} LexTransitive(a: string, b: string, c: string)
    requires LexLeq(a, b) && LexLeq(b, c)
    ensures LexLeq(a, c)
  {
    if a != [] && a[0] == b[0] == c[0] {
      LexTransitive(a[1..], b[1..], c[1..]);
    }
  }

  predicate PairLeq(a: (string, string), b: (string, string)) {
    if a.0 == b.0 then LexLeq(a.1, b.1) else LexLeq(a.0, b.0)
  }

  lemma PairOrder()
    ensures TotalPreorder(PairLeq) && Antisymmetric(PairLeq)
  {
    forall a, b
      ensures PairLeq(a, b) || PairLeq(b, a)
      ensures PairLeq(a, b) && PairLeq(b, a) ==> a == b
    {
      LexTotal(a.0, b.0);
      LexTotal(a.1, b.1);
    }
    forall a, b, c | PairLeq(a, b) && PairLeq(b, c)
      ensures PairLeq(a, c)
    {
      LexTotal(a.0, b.0);
      LexTotal(b.0, c.0);
      if a.0 == b.0 == c.0 {
        LexTransitive(a.1, b.1, c.1);
      } else {
        LexTransitive(a.0, b.0, c.0);
      }
    }
  }

  // --------------------------------------------------------- splitting, joining

  predicate Free(s: string, c: char) {
    forall i :: 0 <= i < |s| ==> s[i] != c
  }

  /** The pieces of `s` between occurrences of `c`. */
  function Split(s: string, c: char): (r: seq<string>)
    ensures r != []
  {
    if s == [] then [""]
    else
      var rest := Split(s[1..], c);
      if s[0] == c then [""] + rest else [[s[0]] + rest[0]] + rest[1..]
  }

  function Join(parts: seq<string>, c: char): string {
    if parts == [] then ""
    else if |parts| == 1 then parts[0]
    else parts[0] + [c] + Join(parts[1..], c)
  }

  lemma JoinFirst(p: string, parts: seq<string>, c: char)
    requires parts != []
    ensures Join([p] + parts, c) == p + [c] + Join(parts, c)
  {
    assert ([p] + parts)[1..] == parts;
  }

  lemma {:induction false} JoinLast(parts: seq<string>, p: string, c: char)
    ensures Join(parts + [p], c) == if parts == [] then p else Join(parts, c) + [c] + p
  {
    if parts != [] {
      JoinLast(parts[1..], p, c);
      assert (parts + [p])[1..] == parts[1..] + [p];
      if |parts| > 1 {
        assert parts[0] + [c] + (Join(parts[1..], c) + [c] + p) == parts[0] + [c] + Join(parts[1..], c) + [c] + p;
      }
    }
  }

  lemma {:induction false} SplitFree(s: string, c: char)
    requires Free(s, c)
    ensures Split(s, c) == [s]
  {
    if s != [] {
      SplitFree(s[1..], c);
      assert s == [s[0]] + s[1..];
    }
  }

  lemma {:induction false} SplitFirst(a: string, b: string, c: char)
    requires Free(a, c)
    ensures Split(a + [c] + b, c) == [a] + Split(b, c)
  {
    var s := a + [c] + b;
    if a == [] {
      assert s[1..] == b;
    } else {
      SplitFirst(a[1..], b, c);
      assert s[1..] == a[1..] + [c] + b;
      assert a == [a[0]] + a[1..];
    }
  }

  /** Splitting undoes joining pieces free of the separator. */
  lemma {:induction false} SplitJoin(parts: seq<string>, c: char)
    requires parts != [] && forall p :: p in parts ==> Free(p, c)
    ensures Split(Join(parts, c), c) == parts
  {
    if |parts| == 1 {
      SplitFree(parts[0], c);
    } else {
      SplitJoin(parts[1..], c);
      SplitFirst(parts[0], Join(parts[1..], c), c);
    }
  }

  /** Joining undoes splitting. */
  lemma {:induction false} JoinSplit(s: string, c: char)
    ensures Join(Split(s, c), c) == s
  {
    if s != [] {
      JoinSplit(s[1..], c);
      var rest := Split(s[1..], c);
      assert s == [s[0]] + s[1..];
      if s[0] == c {
        assert ([""] + rest)[1..] == rest;
      } else if |rest| > 1 {
        assert ([[s[0]] + rest[0]] + rest[1..])[1..] == rest[1..];
      }
    }
  }

  /** What stands before the first `c`, and what after it. */
  function SplitOnce(s: string, c: char): (string, string) {
    if s == [] then ("", "")
    else if s[0] == c then ("", s[1..])
    else
      var (before, after) := SplitOnce(s[1..], c);
      ([s[0]] + before, after)
  }

  lemma {:induction false} SplitOnceAt(a: string, b: string, c: char)
    requires Free(a, c)
    ensures SplitOnce(a + [c] + b, c) == (a, b)
  {
    var s := a + [c] + b;
    if a == [] {
      assert s[1..] == b;
    } else {
      SplitOnceAt(a[1..], b, c);
      assert s[1..] == a[1..] + [c] + b && a == [a[0]] + a[1..];
    }
  }

  lemma {:induction false} SplitOnceFree(a: string, c: char)
    requires Free(a, c)
    ensures SplitOnce(a, c) == (a, "")
  {
    if a != [] {
      SplitOnceFree(a[1..], c);
      assert a == [a[0]] + a[1..];
    }
  }

  /** The part before the first separator, and the part after it, are determined by the whole. */
  lemma CutIsUnique(a: string, x: string, b: string, y: string, c: char)
    requires Free(a, c) && Free(b, c) && a + [c] + x == b + [c] + y
    ensures a == b && x == y
  {
    SplitOnceAt(a, x, c);
    SplitOnceAt(b, y, c);
  }

  // ------------------------------------------------------------ concatenation

  function Flat(parts: seq<string>): string {
    if parts == [] then "" else Flat(parts[..|parts| - 1]) + parts[|parts| - 1]
  }

  lemma FlatAppend(parts: seq<string>, p: string)
    ensures Flat(parts + [p]) == Flat(parts) + p
  {
    assert (parts + [p])[..|parts|] == parts;
  }

  lemma {:induction false} FlatFromFront(parts: seq<string>)
    requires parts != []
    ensures Flat(parts) == parts[0] + Flat(parts[1..])
  {
    var init, last := parts[..|parts| - 1], parts[|parts| - 1];
    if init == [] {
      assert Flat(init) == "" && Flat(parts[1..]) == "";
    } else {
      FlatFromFront(init);
      assert parts[1..] == init[1..] + [last];
      FlatAppend(init[1..], last);
    }
  }

  // ------------------------------------------------------------- mapped lists

  function Map<A, B>(f: A -> B, s: seq<A>): (r: seq<B>)
    ensures |r| == |s|
  {
    seq(|s|, i requires 0 <= i < |s| => f(s[i]))
  }

  lemma MapOne<A, B>(f: A -> B, a: A)
    ensures Map(f, [a]) == [f(a)]
  {
    assert Map(f, [a])[0] == f(a);
  }

  lemma MapConcat<A, B>(f: A -> B, a: seq<A>, b: seq<A>)
    ensures Map(f, a + b) == Map(f, a) + Map(f, b)
  {
  }

  lemma Pick<A>(t: seq<A>, x: A) returns (left: seq<A>, right: seq<A>)
    requires x in t
    ensures t == left + ([x] + right) && multiset(left + right) == multiset(t) - multiset{x}
  {
    var i :| 0 <= i < |t| && t[i] == x;
    left, right := t[..i], t[i + 1..];
    assert t == left + ([x] + right);
  }

  /** Mapping keeps "a permutation of". */
  lemma {:induction false} MapPermuted<A, B>(f: A -> B, s: seq<A>, t: seq<A>)
    requires multiset(s) == multiset(t)
    ensures multiset(Map(f, s)) == multiset(Map(f, t))
  {
    if s == [] {
      assert |multiset(t)| == |t|;
      assert t == [];
    } else {
      var x, tail := s[0], s[1..];
      assert s == [x] + tail;
      assert x in multiset(t);
      var left, right := Pick(t, x);
      MapPermuted(f, tail, left + right);
      MapConcat(f, [x], tail);
      MapConcat(f, left, right);
      MapConcat(f, left, [x] + right);
      MapConcat(f, [x], right);
      MapOne(f, x);
    }
  }

  lemma MapAgree<A, B, C>(f: A -> B, g: B -> C, h: A -> C, s: seq<A>)
    requires forall i :: 0 <= i < |s| ==> g(f(s[i])) == h(s[i])
    ensures Map(g, Map(f, s)) == Map(h, s)
  {
  }
}
