/**
  Bounded ascending range scans, as the queries run them over a table or an
  index prefix: `range(start, None, Ascending).take(limit)` with an exclusive
  start bound. A key set is enumerated in ascending byte order, the cursor
  excludes itself and everything before it, and a page holds at most `limit`
  keys. Chaining pages from the last key of each enumerates the whole set.
*/
module Pagination {
  import opened Wrappers
  import opened Order

  /** The exclusive lower bound: no cursor, or a key strictly after it. */
  predicate After(start: Option<string>, k: string)
  {
    start.None? || Less(start.value, k)
  }

  ghost predicate StrictlyAscending(s: seq<string>)
  {
    forall i, j :: 0 <= i < j < |s| ==> Less(s[i], s[j])
  }

  /** The keys of `keys` that a scan starting after `start` can reach. */
  ghost function Eligible(keys: set<string>, start: Option<string>): set<string>
  {
    set k | k in keys && After(start, k)
  }

  lemma MinStep(s: set<string>, x: string, m: string)
    requires x in s && m in s && m != x
    requires forall y :: y in s && y != x ==> y == m || Less(m, y)
    ensures Less(x, m) ==> forall y :: y in s ==> y == x || Less(x, y)
    ensures !Less(x, m) ==> forall y :: y in s ==> y == m || Less(m, y)
  {
    LessTotal(x, m);
    forall y | y in s
      ensures Less(x, m) ==> y == x || Less(x, y)
    {
      LessTransitive(x, m, y);
    }
  }

  /** The least key of a non-empty set. */
  ghost function MinOf(s: set<string>): (m: string)
    requires s != {}
    ensures m in s
    ensures forall x :: x in s ==> x == m || Less(m, x)
    decreases s
  {
    var x :| x in s;
    if s == {x} then x
    else
      var m := MinOf(s - {x});
      MinStep(s, x, m);
      if Less(x, m) then x else m
  }

  lemma ConsAscending(m: string, rest: seq<string>, s: set<string>)
    requires StrictlyAscending(rest)
    requires forall x :: x in rest ==> x in s && x != m
    requires forall x :: x in s ==> x == m || Less(m, x)
    ensures StrictlyAscending([m] + rest)
  {
    var r := [m] + rest;
    forall i, j | 0 <= i < j < |r| ensures Less(r[i], r[j]) {
      if i == 0 {
        assert r[j] == rest[j - 1] && rest[j - 1] in rest;
      } else {
        assert r[i] == rest[i - 1] && r[j] == rest[j - 1];
      }
    }
  }

  /** A set of keys in ascending order: the order a range scan visits them. */
  ghost function Ascending(s: set<string>): (r: seq<string>)
    ensures StrictlyAscending(r)
    ensures |r| == |s|
    ensures forall x :: x in r <==> x in s
    decreases s
  {
    if s == {} then []
    else
      var m := MinOf(s);
      var rest := Ascending(s - {m});
      ConsAscending(m, rest, s);
      [m] + rest
  }

  lemma HeadIsLeast(a: seq<string>)
    requires StrictlyAscending(a) && |a| > 0
    ensures forall x :: x in a ==> x == a[0] || Less(a[0], x)
  {
  }

  lemma TailMembers(a: seq<string>)
    requires StrictlyAscending(a) && |a| > 0
    ensures forall x :: x in a[1..] <==> x in a && x != a[0]
  {
    LessIrreflexive(a[0]);
    forall x | x in a && x != a[0] ensures x in a[1..] {
      var k :| 0 <= k < |a| && a[k] == x;
      assert a[1..][k - 1] == x;
    }
  }

  lemma NonEmptyShared(a: seq<string>, b: seq<string>)
    requires forall x :: x in a <==> x in b
    ensures |a| > 0 ==> |b| > 0
  {
    if |a| > 0 {
      assert a[0] in a;
    }
  }

  /** Two ascending sequences with the same elements are equal: `Ascending` is the only such order. */
  lemma {:induction false} AscendingUnique(a: seq<string>, b: seq<string>)
    requires StrictlyAscending(a) && StrictlyAscending(b)
    requires forall x :: x in a <==> x in b
    ensures a == b
    decreases |a|
  {
    NonEmptyShared(a, b);
    NonEmptyShared(b, a);
    if |a| > 0 {
      HeadIsLeast(a);
      HeadIsLeast(b);
      assert a[0] in b && b[0] in a;
      LessAsymmetric(a[0], b[0]);
      assert a[0] == b[0];
      TailMembers(a);
      TailMembers(b);
      AscendingUnique(a[1..], b[1..]);
      assert a == [a[0]] + a[1..] && b == [b[0]] + b[1..];
    }
  }

  lemma SplitAt<T>(s: seq<T>, n: nat)
    requires n <= |s|
    ensures s == s[..n] + s[n..]
  {
  }

  /** `take(limit)`. */
  function Take<T>(s: seq<T>, limit: nat): seq<T>
  {
    if |s| <= limit then s else s[..limit]
  }

  lemma AscendingOrderOfIndices(s: seq<string>, p: int, q: int)
    requires StrictlyAscending(s) && 0 <= p < |s| && 0 <= q < |s|
    ensures Less(s[p], s[q]) ==> p < q
  {
    LessIrreflexive(s[p]);
    if q < p {
      LessAsymmetric(s[q], s[p]);
    }
  }

  lemma TakeSkipsNothing(s: seq<string>, limit: nat)
    requires StrictlyAscending(s)
    ensures forall k, i :: k in s && k !in Take(s, limit) && 0 <= i < |Take(s, limit)|
              ==> Less(Take(s, limit)[i], k)
  {
    forall k, i | k in s && k !in Take(s, limit) && 0 <= i < |Take(s, limit)|
      ensures Less(Take(s, limit)[i], k)
    {
      var j :| 0 <= j < |s| && s[j] == k;
      if j < |Take(s, limit)| {
        assert Take(s, limit)[j] == k;
      }
    }
  }

  /** A take is a prefix of the sequence, empty only when the sequence is (or the limit is zero). */
  lemma TakeIsPrefix<T>(s: seq<T>, limit: nat)
    ensures |Take(s, limit)| <= |s| && Take(s, limit) == s[..|Take(s, limit)|]
    ensures forall i :: 0 <= i < |Take(s, limit)| ==> Take(s, limit)[i] == s[i]
    ensures limit > 0 ==> (Take(s, limit) == [] <==> s == [])
  {
  }

  lemma PageFacts(keys: set<string>, start: Option<string>, limit: nat)
    ensures var r := Take(Ascending(Eligible(keys, start)), limit);
      && StrictlyAscending(r)
      && (forall i :: 0 <= i < |r| ==> r[i] in keys && After(start, r[i]))
      && (forall k, i :: k in keys && After(start, k) && k !in r && 0 <= i < |r| ==> Less(r[i], k))
  {
    var s := Ascending(Eligible(keys, start));
    var r := Take(s, limit);
    TakeIsPrefix(s, limit);
    TakeSkipsNothing(s, limit);
    forall i | 0 <= i < |r| ensures r[i] in keys && After(start, r[i]) {
      assert s[i] in s;
    }
    forall k | k in keys && After(start, k) ensures k in s {
      assert k in Eligible(keys, start);
    }
  }

  /** One page of a scan: the first `limit` keys of the ascending scan of `keys` after `start`. */
  ghost function Page(keys: set<string>, start: Option<string>, limit: nat): seq<string>
  {
    Take(Ascending(Eligible(keys, start)), limit)
  }

  /**
    A page holds the first `limit` keys of `keys` strictly after `start`,
    in ascending order, skipping none.
  */
  lemma PageProperties(keys: set<string>, start: Option<string>, limit: nat)
    ensures var r := Page(keys, start, limit);
      && |r| == (if |Eligible(keys, start)| < limit then |Eligible(keys, start)| else limit)
      && StrictlyAscending(r)
      && (forall i :: 0 <= i < |r| ==> r[i] in keys && After(start, r[i]))
      && (forall k, i :: k in keys && After(start, k) && k !in r && 0 <= i < |r| ==> Less(r[i], k))
  {
    PageFacts(keys, start, limit);
  }

  /** The light part of `PageProperties`: a page is no longer than `limit` and holds only reachable keys. */
  lemma PageBounds(keys: set<string>, start: Option<string>, limit: nat)
    ensures |Page(keys, start, limit)| <= limit
    ensures forall i :: 0 <= i < |Page(keys, start, limit)| ==>
              Page(keys, start, limit)[i] in keys && After(start, Page(keys, start, limit)[i])
  {
    PageProperties(keys, start, limit);
  }

  /** In an ascending scan, the keys after its i-th key are exactly the rest of the scan. */
  lemma RestOfScan(s: seq<string>, keys: set<string>, start: Option<string>, i: nat)
    requires StrictlyAscending(s)
    requires forall x :: x in s <==> x in keys && After(start, x)
    requires i < |s|
    ensures forall x :: x in s[i + 1..] <==> x in keys && Less(s[i], x)
  {
    forall x | x in keys && Less(s[i], x) ensures x in s[i + 1..] {
      if start.Some? {
        LessTransitive(start.value, s[i], x);
      }
      assert s[i] in s;
      var j :| 0 <= j < |s| && s[j] == x;
      AscendingOrderOfIndices(s, i, j);
      assert s[i + 1..][j - i - 1] == x;
    }
    forall x | x in s[i + 1..] ensures x in keys && Less(s[i], x) {
      var j :| 0 <= j < |s[i + 1..]| && s[i + 1..][j] == x;
      assert s[i + 1 + j] == x;
    }
  }

  /**
    Resuming after the i-th key of a scan yields exactly the rest of that
    scan: the cursor is exclusive and loses nothing.
  */
  lemma ResumeAfter(keys: set<string>, start: Option<string>, i: nat)
    requires i < |Ascending(Eligible(keys, start))|
    ensures Ascending(Eligible(keys, Some(Ascending(Eligible(keys, start))[i])))
         == Ascending(Eligible(keys, start))[i + 1..]
  {
    var e := Eligible(keys, start);
    var s := Ascending(e);
    assert forall x :: x in s <==> x in keys && After(start, x);
    RestOfScan(s, keys, start, i);
    var e' := Eligible(keys, Some(s[i]));
    var next := Ascending(e');
    assert forall x :: x in next <==> x in e';
    assert forall x :: x in e' <==> x in keys && Less(s[i], x);
    assert StrictlyAscending(s[i + 1..]);
    AscendingUnique(next, s[i + 1..]);
  }

  /** The keys a client collects by chaining pages, each starting after the last key of the previous one. */
  ghost function Enumerate(keys: set<string>, start: Option<string>, limit: nat): seq<string>
    requires limit > 0
    decreases |Eligible(keys, start)|
  {
    var p := Page(keys, start, limit);
    if p == [] then []
    else
      ResumeAfter(keys, start, |p| - 1);
      p + Enumerate(keys, Some(p[|p| - 1]), limit)
  }

  lemma EnumerateStep(keys: set<string>, start: Option<string>, limit: nat)
    requires limit > 0
    ensures var s := Ascending(Eligible(keys, start));
            var p := Page(keys, start, limit);
            && p == Take(s, limit)
            && |p| <= |s|
            && (p == [] ==> s == [] && Enumerate(keys, start, limit) == [])
            && (p != [] ==>
                  && p == s[..|p|]
                  && p[|p| - 1] == s[|p| - 1]
                  && Enumerate(keys, start, limit) == p + Enumerate(keys, Some(s[|p| - 1]), limit))
  {
  }

  /** After a non-empty page, the chain resumes on exactly the rest of the scan, which is shorter. */
  lemma EnumerateNext(keys: set<string>, start: Option<string>, limit: nat)
    requires limit > 0
    ensures var s := Ascending(Eligible(keys, start));
            var p := Page(keys, start, limit);
            p != [] ==>
              && |p| <= |s|
              && Ascending(Eligible(keys, Some(s[|p| - 1]))) == s[|p|..]
              && Enumerate(keys, start, limit) == s[..|p|] + Enumerate(keys, Some(s[|p| - 1]), limit)
  {
    var p := Page(keys, start, limit);
    EnumerateStep(keys, start, limit);
    if p != [] {
      ResumeAfter(keys, start, |p| - 1);
    }
  }

  /** Chained pages enumerate every reachable key once, in ascending order. */
  lemma {:induction false} EnumerateAll(keys: set<string>, start: Option<string>, limit: nat)
    requires limit > 0
    ensures Enumerate(keys, start, limit) == Ascending(Eligible(keys, start))
    decreases |Eligible(keys, start)|
  {
    var s := Ascending(Eligible(keys, start));
    var p := Page(keys, start, limit);
    EnumerateStep(keys, start, limit);
    if p != [] {
      var n := |p|;
      EnumerateNext(keys, start, limit);
      EnumerateAll(keys, Some(s[n - 1]), limit);
      SplitAt(s, n);
    }
  }

  /** From no cursor, chained pages list the whole key set in ascending order without repeats. */
  lemma EnumerateWhole(keys: set<string>, limit: nat)
    requires limit > 0
    ensures Enumerate(keys, None, limit) == Ascending(keys)
    ensures StrictlyAscending(Enumerate(keys, None, limit))
    ensures forall k :: k in Enumerate(keys, None, limit) <==> k in keys
  {
    EnumerateAll(keys, None, limit);
    assert Eligible(keys, None) == keys;
  }
}
