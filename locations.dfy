/**
 * The location graph of location_manager.py as a value: a store of location
 * records, where a location's identity is its index in the store and a link
 * names its peer by that identity. Python compares link peers with `==` on
 * objects without `__eq__`, that is by identity, which indices reproduce.
 */
module Locations {
  import opened Wrappers

  /** The identity of a location: its position in the store. */
  type LocId = nat

  /** One entry of a location's `links` list: `(peer, link_type)`. */
  datatype Link = Link(peer: LocId, linkType: string)

  datatype Location = Location(name: string, description: string, links: seq<Link>)

  /** `LocationManager.locations`, in list order. */
  type Store = seq<Location>

  /** Every link names a location of the store (Python peers are live objects). */
  ghost predicate PeersInStore(s: Store) {
    forall i, l | 0 <= i < |s| && l in s[i].links :: l.peer < |s|
  }

  /**
   * `Location.find_link_type`: the type of the first entry whose peer is
   * `other`, or `None` when no entry links to `other`.
   */
  function FindLinkType(links: seq<Link>, other: LocId): Option<string> {
    if links == [] then None
    else if links[0].peer == other then Some(links[0].linkType)
    else FindLinkType(links[1..], other)
  }

  /** The answer is `None` exactly when no entry links to `other`, and otherwise the type of the first entry that does. */
  lemma {:induction false} FindLinkTypeFirst(links: seq<Link>, other: LocId)
    ensures FindLinkType(links, other).None? <==> forall k | 0 <= k < |links| :: links[k].peer != other
    ensures FindLinkType(links, other).Some? ==> exists k | 0 <= k < |links| ::
      links[k] == Link(other, FindLinkType(links, other).value) && forall j | 0 <= j < k :: links[j].peer != other
  {
    if links != [] && links[0].peer != other {
      var r := FindLinkType(links[1..], other);
      FindLinkTypeFirst(links[1..], other);
      if r.Some? {
        var k :| 0 <= k < |links[1..]| && links[1..][k] == Link(other, r.value)
                 && forall j | 0 <= j < k :: links[1..][j].peer != other;
        assert links[k + 1] == Link(other, r.value);
      }
    }
  }

  /** No two locations share a name (`add_location` itself does not enforce this). */
  predicate UniqueNames(s: Store) {
    forall i, j | 0 <= i < j < |s| :: s[i].name != s[j].name
  }

  /**
   * `LocationManager.find_location`: the first location whose name is
   * exactly `name`, or `None`.
   */
  function FindLocation(s: Store, name: string): (r: Option<LocId>)
    ensures r.Some? ==> r.value < |s| && s[r.value].name == name
  {
    if s == [] then None
    else if s[0].name == name then Some(0)
    else match FindLocation(s[1..], name)
      case None => None
      case Some(j) => Some(j + 1)
  }

  /** The location found is the first one of that name, and `None` means no location has it. */
  lemma {:induction false} FindLocationFirst(s: Store, name: string)
    ensures FindLocation(s, name).Some? ==> forall j | 0 <= j < FindLocation(s, name).value :: s[j].name != name
    ensures FindLocation(s, name).None? ==> forall j | 0 <= j < |s| :: s[j].name != name
  {
    if s != [] && s[0].name != name {
      FindLocationFirst(s[1..], name);
      assert forall j | 1 <= j < |s| :: s[j].name == s[1..][j - 1].name;
    }
  }

  /** Number of entries of `links` equal to `l`. */
  function Count(links: seq<Link>, l: Link): nat {
    multiset(links)[l]
  }

  /**
   * The two-sided-links invariant: the links form two-sided pairs. Location `a` holds as many
   * entries `(b, t)` as `b` holds entries `(a, t)`, and a self-link `(a, t)`
   * appears in `a`'s list an even number of times (both of its sides live in
   * the same list).
   */
  ghost predicate Symmetric(s: Store) {
    && (forall a, b, t | 0 <= a < |s| && 0 <= b < |s| ::
          Count(s[a].links, Link(b, t)) == Count(s[b].links, Link(a, t)))
    && (forall a, t | 0 <= a < |s| :: Count(s[a].links, Link(a, t)) % 2 == 0)
  }

  /** The store after `s[a].add_link(s[b], t)`: `(b, t)` is appended to `a`'s list, then `(a, t)` to `b`'s. */
  function WithLink(s: Store, a: LocId, b: LocId, t: string): Store
    requires a < |s| && b < |s|
  {
    var s1 := s[a := s[a].(links := s[a].links + [Link(b, t)])];
    s1[b := s1[b].(links := s1[b].links + [Link(a, t)])]
  }

  /** Python's `list.remove(x)`: drop the first entry equal to `x`, if any. */
  function RemoveFirst(links: seq<Link>, x: Link): (r: seq<Link>)
    ensures |r| <= |links|
  {
    if links == [] then []
    else if links[0] == x then links[1..]
    else [links[0]] + RemoveFirst(links[1..], x)
  }

  /** `list.remove(x)` takes out exactly one copy of `x` when there is one, and changes nothing otherwise. */
  lemma {:induction false} RemoveFirstCounts(links: seq<Link>, x: Link)
    ensures x in links ==> |RemoveFirst(links, x)| == |links| - 1
    ensures x !in links ==> RemoveFirst(links, x) == links
    ensures multiset(RemoveFirst(links, x)) == multiset(links) - multiset{x}
  {
    if links != [] {
      assert links == [links[0]] + links[1..];
      if links[0] != x {
        RemoveFirstCounts(links[1..], x);
      }
    }
  }

  /** Replacing one list by a list of some of its entries keeps every peer in the store. */
  lemma PeersAfterShrink(s: Store, j: LocId, links: seq<Link>)
    requires j < |s| && PeersInStore(s)
    requires multiset(links) <= multiset(s[j].links)
    ensures PeersInStore(s[j := s[j].(links := links)])
  {
    forall m | m in links ensures m in s[j].links {
      assert multiset(links)[m] > 0;
    }
  }

  /**
   * The result of an operation that Python can abort half-way with an
   * exception: the store as it stands when the operation ends, and whether
   * it ran to completion (`ok`) or raised.
   */
  datatype Outcome = Outcome(store: Store, ok: bool)

  /**
   * `Location.remove_link` on `s[a]` with peer `s[b]`, from the point where
   * the `for` loop's iterator stands at index `i`. Python's list iterator
   * reads `links[i]` and advances `i` whatever the body does, so after a
   * removal the entry that slid into position `i` is skipped. The partner
   * entry `(a, t)` is removed from `b`'s list with `list.remove`, which
   * raises when it is missing.
   */
  function RemoveLinkFrom(s: Store, a: LocId, b: LocId, i: nat): (r: Outcome)
    requires a < |s| && b < |s|
    ensures |r.store| == |s|
    decreases |s[a].links| - i
  {
    if i >= |s[a].links| then Outcome(s, true)
    else
      var l := s[a].links[i];
      if l.peer != b then RemoveLinkFrom(s, a, b, i + 1)
      else
        var s1 := s[a := s[a].(links := RemoveFirst(s[a].links, l))];
        var back := Link(a, l.linkType);
        if back !in s1[b].links then
          Outcome(s1, false)
        else
          var s2 := s1[b := s1[b].(links := RemoveFirst(s1[b].links, back))];
          RemoveLinkFrom(s2, a, b, i + 1)
  }

  /** `remove_link` changes only the link lists of `a` and `b`. */
  lemma {:induction false} RemoveLinkFromFrame(s: Store, a: LocId, b: LocId, i: nat)
    requires a < |s| && b < |s|
    ensures var r := RemoveLinkFrom(s, a, b, i);
      && (forall j | 0 <= j < |s| ::
            r.store[j].name == s[j].name && r.store[j].description == s[j].description)
      && (forall j | 0 <= j < |s| && j != a && j != b :: r.store[j] == s[j])
    decreases |s[a].links| - i
  {
    if i < |s[a].links| {
      var l := s[a].links[i];
      if l.peer != b {
        RemoveLinkFromFrame(s, a, b, i + 1);
      } else {
        var s1 := s[a := s[a].(links := RemoveFirst(s[a].links, l))];
        var back := Link(a, l.linkType);
        if back in s1[b].links {
          var s2 := s1[b := s1[b].(links := RemoveFirst(s1[b].links, back))];
          RemoveLinkFromFrame(s2, a, b, i + 1);
        }
      }
    }
  }

  /** `remove_link` never adds an entry, so every peer stays in the store. */
  lemma {:induction false} RemoveLinkKeepsPeers(s: Store, a: LocId, b: LocId, i: nat)
    requires a < |s| && b < |s| && PeersInStore(s)
    ensures PeersInStore(RemoveLinkFrom(s, a, b, i).store)
    decreases |s[a].links| - i
  {
    if i < |s[a].links| {
      var l := s[a].links[i];
      if l.peer != b {
        RemoveLinkKeepsPeers(s, a, b, i + 1);
      } else {
        var s1 := s[a := s[a].(links := RemoveFirst(s[a].links, l))];
        RemoveFirstCounts(s[a].links, l);
        PeersAfterShrink(s, a, RemoveFirst(s[a].links, l));
        var back := Link(a, l.linkType);
        if back in s1[b].links {
          var s2 := s1[b := s1[b].(links := RemoveFirst(s1[b].links, back))];
          RemoveFirstCounts(s1[b].links, back);
          PeersAfterShrink(s1, b, RemoveFirst(s1[b].links, back));
          RemoveLinkKeepsPeers(s2, a, b, i + 1);
        }
      }
    }
  }
}
