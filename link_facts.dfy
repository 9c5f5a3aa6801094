/**
 * What `add_link`, `remove_link` and `find_link_type` promise about the
 * two-sided link lists of location_manager.py.
 */
module LinkFacts {
  import opened Wrappers
  import opened Locations

  /** `find_link_type` over two lists laid end to end looks at the second only when the first has no match. */
  lemma {:induction false} FindLinkTypeConcat(xs: seq<Link>, ys: seq<Link>, b: LocId)
    ensures FindLinkType(xs + ys, b) ==
            if FindLinkType(xs, b).Some? then FindLinkType(xs, b) else FindLinkType(ys, b)
  {
    if xs != [] {
      assert (xs + ys)[0] == xs[0];
      assert (xs + ys)[1..] == xs[1..] + ys;
      FindLinkTypeConcat(xs[1..], ys, b);
    } else {
      assert xs + ys == ys;
    }
  }

  /**
   * `add_link(a, b, t)` appends `(b, t)` to the end of `a`'s list and
   * `(a, t)` to the end of `b`'s (both to `a`'s for a self-link), and changes
   * nothing else; for `a != b` the counts of `(b, t)` in `a` and of `(a, t)` in
   * `b` both grow by one.
   */
  lemma AddLinkAppends(s: Store, a: LocId, b: LocId, t: string)
    requires a < |s| && b < |s|
    ensures var r := WithLink(s, a, b, t);
      && |r| == |s|
      && (a != b ==> r[a].links == s[a].links + [Link(b, t)] && r[b].links == s[b].links + [Link(a, t)])
      && (a == b ==> r[a].links == s[a].links + [Link(a, t), Link(a, t)])
      && (a != b ==> (Count(r[a].links, Link(b, t)) == Count(s[a].links, Link(b, t)) + 1
                      && Count(r[b].links, Link(a, t)) == Count(s[b].links, Link(a, t)) + 1))
      && (forall j | 0 <= j < |s| :: r[j].name == s[j].name && r[j].description == s[j].description)
      && (forall j | 0 <= j < |s| && j != a && j != b :: r[j] == s[j])
  {
    var r := WithLink(s, a, b, t);
    if a != b {
      assert multiset(r[a].links) == multiset(s[a].links) + multiset{Link(b, t)};
      assert multiset(r[b].links) == multiset(s[b].links) + multiset{Link(a, t)};
    }
  }

  /** `add_link` keeps every peer in the store. */
  lemma AddLinkKeepsPeers(s: Store, a: LocId, b: LocId, t: string)
    requires a < |s| && b < |s| && PeersInStore(s)
    ensures PeersInStore(WithLink(s, a, b, t))
  {
    var r := WithLink(s, a, b, t);
    forall i, l | 0 <= i < |r| && l in r[i].links ensures l.peer < |r| {
      assert l in s[i].links || l == Link(b, t) || l == Link(a, t);
    }
  }

  /**
   * How many entries `(y, u)` in `x`'s list the link pair `(a, b, t)`
   * accounts for: one on `a`'s side and one on `b`'s (two in `a`'s list for a
   * self-link).
   */
  function PairShare(a: LocId, b: LocId, t: string, x: LocId, y: LocId, u: string): int {
    (if x == a && y == b && u == t then 1 else 0) + (if x == b && y == a && u == t then 1 else 0)
  }

  /**
   * Adding (`sign == 1`) or removing (`sign == -1`) whole link pairs keeps
   * the two-sided-links invariant (`Symmetric`).
   */
  lemma SymmetricAfterPairChange(s: Store, r: Store, a: LocId, b: LocId, t: string, sign: int)
    requires |r| == |s| && Symmetric(s) && (sign == 1 || sign == -1)
    requires forall x, y, u | 0 <= x < |s| && 0 <= y < |s| ::
      Count(r[x].links, Link(y, u)) == Count(s[x].links, Link(y, u)) + sign * PairShare(a, b, t, x, y, u)
    ensures Symmetric(r)
  {
    forall x, y, u | 0 <= x < |r| && 0 <= y < |r|
      ensures Count(r[x].links, Link(y, u)) == Count(r[y].links, Link(x, u))
    {
      assert PairShare(a, b, t, x, y, u) == PairShare(a, b, t, y, x, u);
    }
    forall x, u | 0 <= x < |r| ensures Count(r[x].links, Link(x, u)) % 2 == 0 {
      assert PairShare(a, b, t, x, x, u) == 0 || PairShare(a, b, t, x, x, u) == 2;
    }
  }

  /** Counting in `a`'s and `b`'s lists after `add_link(a, b, t)`. */
  lemma CountAfterAdd(s: Store, a: LocId, b: LocId, t: string, x: LocId, y: LocId, u: string)
    requires a < |s| && b < |s| && x < |s|
    ensures Count(WithLink(s, a, b, t)[x].links, Link(y, u)) == Count(s[x].links, Link(y, u)) + PairShare(a, b, t, x, y, u)
  {
    var r := WithLink(s, a, b, t);
    if a == b && x == a {
      assert r[a].links == s[a].links + [Link(a, t), Link(a, t)];
      assert multiset(r[a].links) == multiset(s[a].links) + multiset{Link(a, t), Link(a, t)};
    } else if x == a {
      assert r[a].links == s[a].links + [Link(b, t)];
      assert multiset(r[a].links) == multiset(s[a].links) + multiset{Link(b, t)};
    } else if x == b {
      assert r[b].links == s[b].links + [Link(a, t)];
      assert multiset(r[b].links) == multiset(s[b].links) + multiset{Link(a, t)};
    }
  }

  /** The two-sided-links invariant (`Symmetric`) holds after `add_link`, for two locations and for a self-link alike. */
  lemma AddLinkKeepsSymmetry(s: Store, a: LocId, b: LocId, t: string)
    requires a < |s| && b < |s| && Symmetric(s)
    ensures Symmetric(WithLink(s, a, b, t))
  {
    var r := WithLink(s, a, b, t);
    forall x, y, u | 0 <= x < |s| && 0 <= y < |s|
      ensures Count(r[x].links, Link(y, u)) == Count(s[x].links, Link(y, u)) + 1 * PairShare(a, b, t, x, y, u)
    {
      CountAfterAdd(s, a, b, t, x, y, u);
    }
    SymmetricAfterPairChange(s, r, a, b, t, 1);
  }

  /**
   * If `a` had no link to `b` in a two-sided store, then after
   * `add_link(a, b, t)` both `find_link_type(a, b)` and `find_link_type(b, a)`
   * return `t`.
   */
  lemma AddLinkFindsType(s: Store, a: LocId, b: LocId, t: string)
    requires a < |s| && b < |s| && Symmetric(s)
    requires FindLinkType(s[a].links, b).None?
    ensures FindLinkType(WithLink(s, a, b, t)[a].links, b) == Some(t)
    ensures FindLinkType(WithLink(s, a, b, t)[b].links, a) == Some(t)
  {
    var r := WithLink(s, a, b, t);
    AddLinkAppends(s, a, b, t);
    // By symmetry `b` has no link back to `a` either.
    FindLinkTypeFirst(s[a].links, b);
    assert FindLinkType(s[b].links, a).None? by {
      FindLinkTypeFirst(s[b].links, a);
      forall k | 0 <= k < |s[b].links| ensures s[b].links[k].peer != a {
        var l := s[b].links[k];
        assert Count(s[b].links, Link(a, l.linkType)) == Count(s[a].links, Link(b, l.linkType));
      }
    }
    if a == b {
      FindLinkTypeConcat(s[a].links, [Link(a, t), Link(a, t)], a);
    } else {
      FindLinkTypeConcat(s[a].links, [Link(b, t)], b);
      FindLinkTypeConcat(s[b].links, [Link(a, t)], a);
    }
  }

  /** Once the iterator is past every entry that links to `b`, `remove_link` changes nothing more. */
  lemma {:induction false} RemoveLinkNoMatch(s: Store, a: LocId, b: LocId, i: nat)
    requires a < |s| && b < |s|
    requires forall k | i <= k < |s[a].links| :: s[a].links[k].peer != b
    ensures RemoveLinkFrom(s, a, b, i) == Outcome(s, true)
    decreases |s[a].links| - i
  {
    if i < |s[a].links| {
      RemoveLinkNoMatch(s, a, b, i + 1);
    }
  }

  /** `remove_link(a, b)` when `a` has no entry for `b` leaves every list unchanged. */
  lemma RemoveLinkAbsent(s: Store, a: LocId, b: LocId)
    requires a < |s| && b < |s|
    requires FindLinkType(s[a].links, b).None?
    ensures RemoveLinkFrom(s, a, b, 0) == Outcome(s, true)
  {
    FindLinkTypeFirst(s[a].links, b);
    RemoveLinkNoMatch(s, a, b, 0);
  }

  /** Entries before the iterator's position that do not link to `b` are passed over. */
  lemma {:induction false} RemoveLinkSkipTo(s: Store, a: LocId, b: LocId, i: nat, k: nat)
    requires a < |s| && b < |s| && i <= k <= |s[a].links|
    requires forall j | i <= j < k :: s[a].links[j].peer != b
    ensures RemoveLinkFrom(s, a, b, i) == RemoveLinkFrom(s, a, b, k)
    decreases k - i
  {
    if i < k {
      RemoveLinkSkipTo(s, a, b, i + 1, k);
    }
  }

  /**
   * `remove_link(a, b)` where `a`'s only entry for `b` is `(b, t)` at index
   * `k` removes that entry from `a` and the first `(a, t)` from `b`, and
   * changes nothing else.
   */
  lemma RemoveLinkSingle(s: Store, a: LocId, b: LocId, t: string, k: nat)
    requires a < |s| && b < |s| && a != b
    requires k < |s[a].links| && s[a].links[k] == Link(b, t)
    requires forall j | 0 <= j < |s[a].links| && j != k :: s[a].links[j].peer != b
    requires Link(a, t) in s[b].links
    ensures RemoveLinkFrom(s, a, b, 0) ==
      Outcome(s[a := s[a].(links := s[a].links[..k] + s[a].links[k + 1..])]
               [b := s[b].(links := RemoveFirst(s[b].links, Link(a, t)))], true)
  {
    RemoveLinkSkipTo(s, a, b, 0, k);
    var xs := s[a].links;
    assert RemoveFirst(xs, Link(b, t)) == xs[..k] + xs[k + 1..] by {
      RemoveFirstAt(xs, Link(b, t), k);
    }
    var s1 := s[a := s[a].(links := xs[..k] + xs[k + 1..])];
    var s2 := s1[b := s1[b].(links := RemoveFirst(s1[b].links, Link(a, t)))];
    assert RemoveLinkFrom(s, a, b, k) == RemoveLinkFrom(s2, a, b, k + 1);
    RemoveLinkNoMatch(s2, a, b, k + 1);
  }

  /** `list.remove(x)` where the first `x` sits at index `k` cuts out index `k`. */
  lemma {:induction false} RemoveFirstAt(xs: seq<Link>, x: Link, k: nat)
    requires k < |xs| && xs[k] == x && forall j | 0 <= j < k :: xs[j] != x
    ensures RemoveFirst(xs, x) == xs[..k] + xs[k + 1..]
  {
    if k == 0 {
      assert xs[..0] + xs[1..] == xs[1..];
    } else {
      RemoveFirstAt(xs[1..], x, k - 1);
      RemoveFirstCons(xs, x);
      CutOutCons(xs, k);
    }
  }

  lemma RemoveFirstCons(xs: seq<Link>, x: Link)
    requires xs != [] && xs[0] != x
    ensures RemoveFirst(xs, x) == [xs[0]] + RemoveFirst(xs[1..], x)
  {
  }

  /** Cutting index `k` out of `xs` is keeping the head and cutting `k - 1` out of the tail. */
  lemma CutOutCons(xs: seq<Link>, k: nat)
    requires 0 < k < |xs|
    ensures [xs[0]] + (xs[1..][..k - 1] + xs[1..][k..]) == xs[..k] + xs[k + 1..]
  {
    assert xs[1..][..k - 1] == xs[1..k];
    assert xs[1..][k..] == xs[k + 1..];
    assert [xs[0]] + xs[1..k] == xs[..k];
  }

  /** Counting in a list after `list.remove(x)`. */
  lemma CountAfterRemove(xs: seq<Link>, x: Link, y: Link)
    requires x in xs
    ensures Count(RemoveFirst(xs, x), y) == Count(xs, y) - (if y == x then 1 else 0)
  {
    RemoveFirstCounts(xs, x);
  }

  /** In a two-sided store the partner `(a, t)` of an entry `(b, t)` of `a` is still in `b`'s list once that entry is removed. */
  lemma PartnerPresent(s: Store, a: LocId, b: LocId, t: string)
    requires a < |s| && b < |s| && Symmetric(s)
    requires Link(b, t) in s[a].links
    ensures Link(a, t) in s[a := s[a].(links := RemoveFirst(s[a].links, Link(b, t)))][b].links
  {
    var c := Count(s[a].links, Link(b, t));
    assert c >= 1;
    assert Count(s[b].links, Link(a, t)) == c;
    if a == b {
      assert c % 2 == 0;
      CountAfterRemove(s[a].links, Link(b, t), Link(a, t));
    }
  }

  /** Counting after one removal step of `remove_link`: the pair `(a, b, t)` is gone from both lists. */
  lemma CountAfterRemovePair(s: Store, a: LocId, b: LocId, t: string, x: LocId, y: LocId, u: string)
    requires a < |s| && b < |s| && x < |s|
    requires Link(b, t) in s[a].links
    requires Link(a, t) in s[a := s[a].(links := RemoveFirst(s[a].links, Link(b, t)))][b].links
    ensures var s1 := s[a := s[a].(links := RemoveFirst(s[a].links, Link(b, t)))];
      var s2 := s1[b := s1[b].(links := RemoveFirst(s1[b].links, Link(a, t)))];
      Count(s2[x].links, Link(y, u)) == Count(s[x].links, Link(y, u)) + -1 * PairShare(a, b, t, x, y, u)
  {
    var s1 := s[a := s[a].(links := RemoveFirst(s[a].links, Link(b, t)))];
    if x == a {
      CountAfterRemove(s[a].links, Link(b, t), Link(y, u));
    }
    if x == b {
      CountAfterRemove(s1[b].links, Link(a, t), Link(y, u));
    }
  }

  /**
   * One removal step of `remove_link` on a two-sided store: the partner
   * entry is present, so `list.remove` does not raise, and the store stays
   * two-sided.
   */
  lemma RemoveStepKeepsSymmetry(s: Store, a: LocId, b: LocId, t: string)
    requires a < |s| && b < |s| && Symmetric(s)
    requires Link(b, t) in s[a].links
    ensures var s1 := s[a := s[a].(links := RemoveFirst(s[a].links, Link(b, t)))];
      && Link(a, t) in s1[b].links
      && Symmetric(s1[b := s1[b].(links := RemoveFirst(s1[b].links, Link(a, t)))])
  {
    PartnerPresent(s, a, b, t);
    var s1 := s[a := s[a].(links := RemoveFirst(s[a].links, Link(b, t)))];
    var s2 := s1[b := s1[b].(links := RemoveFirst(s1[b].links, Link(a, t)))];
    forall x, y, u | 0 <= x < |s| && 0 <= y < |s|
      ensures Count(s2[x].links, Link(y, u)) == Count(s[x].links, Link(y, u)) + -1 * PairShare(a, b, t, x, y, u)
    {
      CountAfterRemovePair(s, a, b, t, x, y, u);
    }
    SymmetricAfterPairChange(s, s2, a, b, t, -1);
  }

  /**
   * On a two-sided store `remove_link` never raises, and the store stays
   * two-sided, however many parallel links it removes or skips.
   */
  lemma {:induction false} RemoveLinkKeepsSymmetry(s: Store, a: LocId, b: LocId, i: nat)
    requires a < |s| && b < |s| && Symmetric(s)
    ensures RemoveLinkFrom(s, a, b, i).ok
    ensures Symmetric(RemoveLinkFrom(s, a, b, i).store)
    decreases |s[a].links| - i
  {
    if i < |s[a].links| {
      var l := s[a].links[i];
      if l.peer != b {
        RemoveLinkKeepsSymmetry(s, a, b, i + 1);
      } else {
        assert l == Link(b, l.linkType);
        RemoveStepKeepsSymmetry(s, a, b, l.linkType);
        var s1 := s[a := s[a].(links := RemoveFirst(s[a].links, l))];
        var s2 := s1[b := s1[b].(links := RemoveFirst(s1[b].links, Link(a, l.linkType)))];
        RemoveLinkKeepsSymmetry(s2, a, b, i + 1);
      }
    }
  }

  /**
   * `remove_link` undoes `add_link`: when `a` had no link to `b` in a
   * two-sided store, adding the link `(a, b, t)` and removing it again gives
   * back the original store. This holds for a self-link (`a == b`) too.
   */
  lemma AddThenRemove(s: Store, a: LocId, b: LocId, t: string)
    requires a < |s| && b < |s| && Symmetric(s)
    requires FindLinkType(s[a].links, b).None?
    ensures RemoveLinkFrom(WithLink(s, a, b, t), a, b, 0) == Outcome(s, true)
  {
    FindLinkTypeFirst(s[a].links, b);
    if a == b {
      AddThenRemoveSelf(s, a, t);
    } else {
      // By symmetry `b` has no entry `(a, t)` yet, so the appended one is the first.
      assert Link(a, t) !in s[b].links by {
        assert Count(s[b].links, Link(a, t)) == Count(s[a].links, Link(b, t));
        assert Link(b, t) !in s[a].links;
      }
      AddThenRemoveFresh(s, a, b, t);
    }
  }

  /**
   * The self-link round trip: `add_link(a, a, t)` appends `(a, t)` twice to
   * `a`'s list; `remove_link(a, a)` meets the first copy, removes it and then
   * the second as its partner, and the iterator runs off the shortened list.
   */
  lemma AddThenRemoveSelf(s: Store, a: LocId, t: string)
    requires a < |s|
    requires forall j | 0 <= j < |s[a].links| :: s[a].links[j].peer != a
    ensures RemoveLinkFrom(WithLink(s, a, a, t), a, a, 0) == Outcome(s, true)
  {
    var xs := s[a].links;
    var l := Link(a, t);
    var r := s[a := s[a].(links := xs + [l, l])];
    assert WithLink(s, a, a, t) == r by {
      var w := s[a := s[a].(links := xs + [l])];
      assert w[a].links + [l] == xs + [l, l];
    }
    RemoveLinkSkipTo(r, a, a, 0, |xs|);
    RemoveSelfPairAt(s, a, t);
  }

  /** At the first copy of a freshly added self-link, `remove_link(a, a)` removes both copies and stops. */
  lemma RemoveSelfPairAt(s: Store, a: LocId, t: string)
    requires a < |s|
    requires forall j | 0 <= j < |s[a].links| :: s[a].links[j].peer != a
    ensures RemoveLinkFrom(s[a := s[a].(links := s[a].links + [Link(a, t), Link(a, t)])], a, a, |s[a].links|)
            == Outcome(s, true)
  {
    var xs := s[a].links;
    var n := |xs|;
    var l := Link(a, t);
    var x2 := xs + [l, l];
    RemoveFirstAt(x2, l, n);
    assert x2[..n] + x2[n + 1..] == xs + [l];
    RemoveFirstAt(xs + [l], l, n);
    assert (xs + [l])[..n] + (xs + [l])[n + 1..] == xs;
    var r := s[a := s[a].(links := x2)];
    var s1 := s[a := s[a].(links := xs + [l])];
    assert r[a].links[n] == l;
    assert r[a := r[a].(links := RemoveFirst(r[a].links, l))] == s1;
    assert s1[a].links[n] == l;
    assert s1[a := s1[a].(links := RemoveFirst(s1[a].links, l))] == s;
    assert RemoveLinkFrom(r, a, a, n) == RemoveLinkFrom(s, a, a, n + 1);
  }

  /** `AddThenRemove` once the two facts it takes from symmetry are established. */
  lemma AddThenRemoveFresh(s: Store, a: LocId, b: LocId, t: string)
    requires a < |s| && b < |s| && a != b
    requires forall j | 0 <= j < |s[a].links| :: s[a].links[j].peer != b
    requires Link(a, t) !in s[b].links
    ensures RemoveLinkFrom(WithLink(s, a, b, t), a, b, 0) == Outcome(s, true)
  {
    var xa := s[a].links + [Link(b, t)];
    var xb := s[b].links + [Link(a, t)];
    var r := WithLink(s, a, b, t);
    assert r == s[a := s[a].(links := xa)][b := s[b].(links := xb)];
    var n := |s[a].links|;
    assert r[a].links == xa && r[b].links == xb;
    RemoveLinkSingle(r, a, b, t, n);
    RemoveFirstAt(xb, Link(a, t), |s[b].links|);
    assert xa[..n] + xa[n + 1..] == s[a].links;
    assert xb[..|s[b].links|] + xb[|s[b].links| + 1..] == s[b].links;
    assert r[a := r[a].(links := s[a].links)][b := r[b].(links := s[b].links)] == s;
  }

  /**
   * The index skip of removing while iterating: with two parallel links of
   * types `t` and `u` between `a` and `b`, `remove_link(a, b)` removes the
   * first pair and skips the second, which survives on both sides.
   */
  lemma RemoveLinkSkipsParallel(s: Store, a: LocId, b: LocId, t: string, u: string)
    requires a < |s| && b < |s| && a != b
    requires s[a].links == [Link(b, t), Link(b, u)]
    requires s[b].links == [Link(a, t), Link(a, u)]
    ensures RemoveLinkFrom(s, a, b, 0).ok
    ensures RemoveLinkFrom(s, a, b, 0).store[a].links == [Link(b, u)]
    ensures RemoveLinkFrom(s, a, b, 0).store[b].links == [Link(a, u)]
  {
    var s1 := s[a := s[a].(links := [Link(b, u)])];
    var s2 := s1[b := s1[b].(links := [Link(a, u)])];
    assert RemoveFirst(s[a].links, Link(b, t)) == [Link(b, u)];
    assert RemoveFirst(s[b].links, Link(a, t)) == [Link(a, u)];
    assert RemoveLinkFrom(s, a, b, 0) == RemoveLinkFrom(s2, a, b, 1);
  }
}
