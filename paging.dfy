/** What a database query does to a collection, as the handlers use it: a filter, a cursor's
    `.skip(n).limit(m)`, the page count `Math.ceil(total / limit)`, and the newest-first order
    used by message history and search. */
module Paging {
  import opened Common

  function Abs(n: int): nat {
    if n < 0 then -n else n
  }

  function Min(a: int, b: int): int {
    if a <= b then a else b
  }

  /** The skip of page `page` of `limit` documents: `(page - 1) * limit`. */
  function Skip(page: int, limit: int): int {
    (page - 1) * limit
  }

  /** The documents a cursor over `s` yields after `.skip(skip).limit(limit)`. MongoDB reads a
      limit of 0 as "no limit" and a negative limit as its absolute value. */
  function Window<T>(s: seq<T>, skip: nat, limit: int): (w: seq<T>)
    ensures limit != 0 ==> |w| <= Abs(limit)
    ensures forall i {:trigger w[i]} :: 0 <= i < |w| ==> skip + i < |s| && w[i] == s[skip + i]
    // it stops only at the end of the cursor or at the limit
    ensures skip + |w| >= |s| || (limit != 0 && |w| == Abs(limit))
  {
    if skip >= |s| then []
    else if limit == 0 || |s| - skip <= Abs(limit) then s[skip..]
    else s[skip..skip + Abs(limit)]
  }

  /** `Math.ceil(total / limit)`. A limit of 0 gives Infinity or NaN, which is no page count. */
  function TotalPages(total: nat, limit: int): (p: Option<int>)
    ensures p.None? <==> limit == 0
    ensures limit > 0 ==> p.Some? && p.value >= 0 && (p.value - 1) * limit < total <= p.value * limit
    ensures limit < 0 ==> p.Some? && p.value <= 0 && p.value * limit <= total < (p.value - 1) * limit
  {
    if limit == 0 then None
    else if limit > 0 then
      CeilDivBounds(total, limit);
      Some((total + limit - 1) / limit)
    else
      FloorDivBounds(total, -limit);
      Some(-(total / -limit))
  }

  lemma CeilDivBounds(total: nat, limit: int)
    requires limit > 0
    ensures var q := (total + limit - 1) / limit;
      q >= 0 && (q - 1) * limit < total <= q * limit
  {
    var q := (total + limit - 1) / limit;
    var r := (total + limit - 1) % limit;
    assert total + limit - 1 == q * limit + r && 0 <= r < limit;
    assert (q - 1) * limit == q * limit - limit;
  }

  lemma FloorDivBounds(total: nat, d: int)
    requires d > 0
    ensures var q := total / d;
      q >= 0 && q * d <= total < (q + 1) * d
  {
    var q := total / d;
    assert total == q * d + total % d;
    assert (q + 1) * d == q * d + d;
  }

  /** The sequence in the opposite order (a cursor sorted newest first). */
  function Reverse<T>(s: seq<T>): (r: seq<T>)
    ensures |r| == |s|
    ensures forall i {:trigger r[i]} :: 0 <= i < |s| ==> r[i] == s[|s| - 1 - i]
  {
    seq(|s|, i requires 0 <= i < |s| => s[|s| - 1 - i])
  }

  /** A page of a newest-first cursor, turned back to oldest first, is one contiguous run of the
      original sequence: it ends `skip` elements before the newest one. */
  lemma {:induction false} NewestPageIsSlice<T>(s: seq<T>, skip: nat, limit: int)
    ensures var w := Window(Reverse(s), skip, limit);
      var hi := |s| - Min(skip, |s|);
      |w| <= hi && Reverse(w) == s[hi - |w|..hi]
  {
    var w := Window(Reverse(s), skip, limit);
    if |w| == 0 {
      assert Reverse(w) == [];
    } else {
      NewestDown(s, skip, limit);
      ReversedRun(s, w, skip);
    }
  }

  /** A page of a newest-first cursor, turned back to oldest first, is the run of `s` ending
      `skip` before its end, and it is cut short only by the oldest element or by the limit. */
  lemma NewestPageRun<T>(s: seq<T>, skip: nat, limit: int, page: seq<T>)
    requires page == Reverse(Window(Reverse(s), skip, limit))
    ensures var hi := |s| - Min(skip, |s|);
      |page| <= hi && page == s[hi - |page|..hi]
    ensures skip + |page| >= |s| || (limit != 0 && |page| == Abs(limit))
  {
    NewestPageIsSlice(s, skip, limit);
  }

  /** A non-empty page of a newest-first cursor lists `s` downwards from `skip` before its end. */
  lemma NewestDown<T>(s: seq<T>, skip: nat, limit: int)
    requires |Window(Reverse(s), skip, limit)| > 0
    ensures var w := Window(Reverse(s), skip, limit);
      && skip + |w| <= |s|
      && forall i :: 0 <= i < |w| ==> w[i] == s[|s| - 1 - skip - i]
  {
    var rs := Reverse(s);
    var w := Window(rs, skip, limit);
    assert skip + (|w| - 1) < |rs|;
    forall i | 0 <= i < |w|
      ensures w[i] == s[|s| - 1 - skip - i]
    {
      assert w[i] == rs[skip + i];
    }
  }

  /** `w` read backwards is the run of `s` that ends `skip` before its end, when `w` lists that
      run from its newest element down. */
  lemma ReversedRun<T>(s: seq<T>, w: seq<T>, skip: nat)
    requires skip + |w| <= |s|
    requires forall i :: 0 <= i < |w| ==> w[i] == s[|s| - 1 - skip - i]
    ensures Reverse(w) == s[|s| - skip - |w|..|s| - skip]
  {
    var page := Reverse(w);
    var run := s[|s| - skip - |w|..|s| - skip];
    forall i | 0 <= i < |w|
      ensures page[i] == run[i]
    {
      assert page[i] == w[|w| - 1 - i];
    }
  }

  /** The first page of a newest-first cursor: the `n` newest elements, newest first. */
  lemma NewestFirst<T>(s: seq<T>, n: nat)
    requires n > 0
    ensures var w := Window(Reverse(s), 0, n);
      |w| == Min(|s|, n) && forall i :: 0 <= i < |w| ==> w[i] == s[|s| - 1 - i]
  {
    var w := Window(Reverse(s), 0, n);
    forall i | 0 <= i < |w| ensures w[i] == s[|s| - 1 - i] {
      assert w[i] == Reverse(s)[i];
    }
  }

  /** A full page of `n` elements of a newest-first cursor, read oldest first, that stops
      `skip` before the newest one. */
  lemma NewestRun<T>(s: seq<T>, skip: nat, n: nat)
    requires 0 < n && skip + n <= |s|
    ensures Reverse(Window(Reverse(s), skip, n)) == s[|s| - skip - n..|s| - skip]
  {
    var w := Window(Reverse(s), skip, n);
    assert |w| == n;
    NewestDown(s, skip, n);
    ReversedRun(s, w, skip);
  }

  /** A window holds only elements of its sequence. */
  lemma WindowMembers<T>(s: seq<T>, skip: nat, limit: int)
    ensures forall x :: x in Window(s, skip, limit) ==> x in s
  {
    var w := Window(s, skip, limit);
    forall x | x in w ensures x in s {
      var i :| 0 <= i < |w| && w[i] == x;
      assert s[skip + i] == x;
    }
  }

  /** Reversal keeps exactly the same elements. */
  lemma ReverseMembers<T>(s: seq<T>)
    ensures forall x :: x in Reverse(s) <==> x in s
  {
    var r := Reverse(s);
    forall x | x in r ensures x in s {
      var i :| 0 <= i < |r| && r[i] == x;
      assert s[|s| - 1 - i] == x;
    }
    forall x | x in s ensures x in r {
      var i :| 0 <= i < |s| && s[i] == x;
      assert r[|s| - 1 - i] == x;
    }
  }

  /** The elements of `s` that satisfy `p`, in their order in `s`. */
  function Filter<T(!new)>(s: seq<T>, p: T -> bool): (r: seq<T>)
    ensures |r| <= |s|
    ensures forall x :: x in r <==> x in s && p(x)
  {
    if s == [] then []
    else Filter(s[..|s| - 1], p) + (if p(s[|s| - 1]) then [s[|s| - 1]] else [])
  }

  /** A filter keeps each passing element as often as it occurs, and no other. */
  lemma {:induction false} FilterCounts<T(!new)>(s: seq<T>, p: T -> bool)
    ensures forall x :: multiset(Filter(s, p))[x] == if p(x) then multiset(s)[x] else 0
  {
    if s != [] {
      var init := s[..|s| - 1];
      FilterCounts(init, p);
      InitThenLast(s);
      assert multiset(s) == multiset(init) + multiset{s[|s| - 1]};
    }
  }

  /** Filtering by two conditions at once is filtering by one and then by the other. */
  lemma {:induction false} FilterBoth<T(!new)>(s: seq<T>, p: T -> bool, q: T -> bool, pq: T -> bool)
    requires forall x :: pq(x) == (p(x) && q(x))
    ensures Filter(s, pq) == Filter(Filter(s, p), q)
  {
    if s != [] {
      var init, last := s[..|s| - 1], s[|s| - 1];
      FilterBoth(init, p, q, pq);
      var a := Filter(init, p);
      if p(last) {
        assert Filter(s, p) == a + [last];
        assert (a + [last])[..|a|] == a;
      } else {
        assert Filter(s, p) == a;
      }
    }
  }

  /** `key` strictly increases along `s`. */
  ghost predicate Increasing<T>(s: seq<T>, key: T -> int) {
    forall i, j :: 0 <= i < j < |s| ==> key(s[i]) < key(s[j])
  }

  /** A filter keeps a strictly increasing key strictly increasing: it only drops elements. */
  lemma {:induction false} FilterKeepsIncreasing<T(!new)>(s: seq<T>, p: T -> bool, key: T -> int)
    requires Increasing(s, key)
    ensures Increasing(Filter(s, p), key)
  {
    if s != [] {
      var init := s[..|s| - 1];
      FilterKeepsIncreasing(init, p, key);
      var r0 := Filter(init, p);
      var r := Filter(s, p);
      if p(s[|s| - 1]) {
        forall i | 0 <= i < |r0| ensures key(r0[i]) < key(s[|s| - 1]) {
          assert r0[i] in init;
          var k :| 0 <= k < |init| && init[k] == r0[i];
          assert s[k] == init[k];
        }
        assert r == r0 + [s[|s| - 1]];
        forall i, j | 0 <= i < j < |r| ensures key(r[i]) < key(r[j]) {
          if j < |r0| {
            assert r[i] == r0[i] && r[j] == r0[j];
          } else {
            assert r[i] == r0[i];
          }
        }
      } else {
        assert r == r0;
      }
    }
  }

  /** A contiguous run of a sequence along which a key strictly increases keeps that order. */
  lemma RunIncreasing<T>(s: seq<T>, lo: nat, hi: nat, key: T -> int)
    requires Increasing(s, key) && lo <= hi <= |s|
    ensures Increasing(s[lo..hi], key)
  {
    var run := s[lo..hi];
    forall i, j | 0 <= i < j < |run| ensures key(run[i]) < key(run[j]) {
      assert run[i] == s[lo + i] && run[j] == s[lo + j];
    }
  }

  /** When `w` read backwards has a strictly increasing key, `w` itself has it strictly decreasing. */
  lemma ReverseIncreasing<T>(w: seq<T>, key: T -> int)
    requires Increasing(Reverse(w), key)
    ensures forall i, j :: 0 <= i < j < |w| ==> key(w[i]) > key(w[j])
  {
    var r := Reverse(w);
    forall i, j | 0 <= i < j < |w| ensures key(w[i]) > key(w[j]) {
      assert w[i] == r[|w| - 1 - i] && w[j] == r[|w| - 1 - j];
    }
  }

  /** A filter that every element passes keeps the whole sequence, in order. */
  lemma {:induction false} FilterKeepsAll<T(!new)>(s: seq<T>, p: T -> bool)
    requires forall i :: 0 <= i < |s| ==> p(s[i])
    ensures Filter(s, p) == s
  {
    if s != [] {
      var init := s[..|s| - 1];
      assert forall i :: 0 <= i < |init| ==> p(init[i]) by {
        forall i | 0 <= i < |init| ensures p(init[i]) {
          assert init[i] == s[i];
        }
      }
      FilterKeepsAll(init, p);
      assert Filter(s, p) == Filter(init, p) + [s[|s| - 1]];
      InitThenLast(s);
    }
  }

  /** A non-empty sequence is its prefix followed by its last element. */
  lemma InitThenLast<T>(s: seq<T>)
    requires s != []
    ensures s[..|s| - 1] + [s[|s| - 1]] == s
  {
  }

  /** A window `w` is the slice of `s` that starts at `skip`, cut short only by the end of `s`
      or by the limit. */
  lemma WindowRun<T>(s: seq<T>, skip: nat, limit: int, w: seq<T>)
    requires w == Window(s, skip, limit)
    ensures |w| > 0 ==> skip + |w| <= |s| && w == s[skip..skip + |w|]
    ensures skip + |w| >= |s| || (limit != 0 && |w| == Abs(limit))
  {
    WindowIsSlice(s, skip, limit);
  }

  /** A window is the slice of `s` that starts at `skip`. */
  lemma WindowIsSlice<T>(s: seq<T>, skip: nat, limit: int)
    ensures var w := Window(s, skip, limit);
      |w| > 0 ==> skip + |w| <= |s| && w == s[skip..skip + |w|]
  {
    var w := Window(s, skip, limit);
    if |w| > 0 {
      assert skip + (|w| - 1) < |s|;
    }
  }
}
