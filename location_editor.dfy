/**
 * `LocationEditor` of location_editor.py: renaming a location and changing
 * its description in the manager's list.
 *
 * `change_name` assigns the new name first and then walks every link list,
 * replacing each entry whose peer is *currently* named like the old name by
 * an entry to the renamed location. Since the renamed location no longer
 * carries the old name, only entries to other locations of that name are
 * redirected.
 */
module LocationEditing {
  import opened Wrappers
  import opened Locations
  import opened LocationManagement

  /** One link list after the rewrite loop, peers' names read in `s`. */
  function RedirectList(s: Store, links: seq<Link>, loc: LocId, oldName: string): (r: seq<Link>)
    requires forall l | l in links :: l.peer < |s|
    ensures |r| == |links|
  {
    seq(|links|, k requires 0 <= k < |links| =>
      if s[links[k].peer].name == oldName then Link(loc, links[k].linkType) else links[k])
  }

  /** Every link list after the rewrite loop; the loop changes no name. */
  function Redirected(s: Store, loc: LocId, oldName: string): (r: Store)
    requires PeersInStore(s)
    ensures |r| == |s|
  {
    seq(|s|, j requires 0 <= j < |s| => s[j].(links := RedirectList(s, s[j].links, loc, oldName)))
  }

  /** `change_name(location, new_name)` for a non-empty `new_name`: assign the name, then redirect. */
  function Renamed(s: Store, loc: LocId, newName: string): Store
    requires loc < |s| && PeersInStore(s)
  {
    Redirected(s[loc := s[loc].(name := newName)], loc, s[loc].name)
  }

  /** `change_description(location, new_description)` */
  function Described(s: Store, loc: LocId, description: string): Store
    requires loc < |s|
  {
    s[loc := s[loc].(description := description)]
  }

  class LocationEditor {
    /** `self.location_manager` */
    const manager: LocationManager

    constructor(manager: LocationManager)
      ensures this.manager == manager
    {
      this.manager := manager;
    }

    /**
     * `change_name`: an empty name is refused (the error dialog is not
     * modelled) and nothing changes; otherwise the location is renamed and
     * the link lists are rewritten in place.
     */
    method ChangeName(loc: LocId, newName: string)
      requires loc < |manager.locations| && manager.Valid()
      modifies manager
      ensures newName == "" ==> manager.locations == old(manager.locations)
      ensures newName != "" ==> manager.locations == Renamed(old(manager.locations), loc, newName)
      ensures manager.Valid()
    {
      if newName == "" {
        return;
      }
      var oldName := manager.locations[loc].name;
      manager.locations := manager.locations[loc := manager.locations[loc].(name := newName)];
      ghost var s1 := manager.locations;
      assert PeersInStore(s1);
      ghost var r := Redirected(s1, loc, oldName);
      var j := 0;
      while j < |manager.locations|
        invariant |manager.locations| == |s1| && j <= |s1|
        invariant forall m | 0 <= m < j :: manager.locations[m] == r[m]
        invariant forall m | j <= m < |s1| :: manager.locations[m] == s1[m]
      {
        RedirectEntries(j, loc, oldName, s1);
        j := j + 1;
      }
      assert manager.locations == r;
      RedirectedKeepsPeers(s1, loc, oldName);
    }

    /**
     * The inner loop of `change_name` over the list of location `j`: each
     * entry whose peer is now named `oldName` is replaced, at its index, by
     * an entry to `loc` of the same type. Peers' names are read from the
     * manager, whose names are those of `s1`.
     */
    method RedirectEntries(j: LocId, loc: LocId, oldName: string, ghost s1: Store)
      requires PeersInStore(s1) && |manager.locations| == |s1| && j < |s1|
      requires manager.locations[j] == s1[j]
      requires forall m | 0 <= m < |s1| :: manager.locations[m].name == s1[m].name
      modifies manager
      ensures manager.locations ==
        old(manager.locations)[j := s1[j].(links := RedirectList(s1, s1[j].links, loc, oldName))]
    {
      var k := 0;
      while k < |manager.locations[j].links|
        invariant |manager.locations| == |s1|
        invariant manager.locations == old(manager.locations)[j := manager.locations[j]]
        invariant manager.locations[j] == s1[j].(links := manager.locations[j].links)
        invariant |manager.locations[j].links| == |s1[j].links| && k <= |s1[j].links|
        invariant forall x | 0 <= x < k ::
          manager.locations[j].links[x] == RedirectList(s1, s1[j].links, loc, oldName)[x]
        invariant forall x | k <= x < |s1[j].links| :: manager.locations[j].links[x] == s1[j].links[x]
      {
        var e := manager.locations[j].links[k];
        assert e in s1[j].links;
        if manager.locations[e.peer].name == oldName {
          manager.locations := manager.locations[j := manager.locations[j].(links := manager.locations[j].links[k := Link(loc, e.linkType)])];
        }
        k := k + 1;
      }
      assert manager.locations[j].links == RedirectList(s1, s1[j].links, loc, oldName);
    }

    /** `change_description`: only the description of `loc` changes. */
    method ChangeDescription(loc: LocId, description: string)
      requires loc < |manager.locations|
      modifies manager
      ensures manager.locations == Described(old(manager.locations), loc, description)
      ensures old(manager.Valid()) ==> manager.Valid()
    {
      manager.locations := manager.locations[loc := manager.locations[loc].(description := description)];
    }
  }

  /** Redirected entries point at `loc`, which is in the store. */
  lemma RedirectedKeepsPeers(s: Store, loc: LocId, oldName: string)
    requires loc < |s| && PeersInStore(s)
    ensures PeersInStore(Redirected(s, loc, oldName))
  {
    var r := Redirected(s, loc, oldName);
    forall i, l | 0 <= i < |r| && l in r[i].links ensures l.peer < |r| {
      var k :| 0 <= k < |r[i].links| && r[i].links[k] == l;
      assert s[i].links[k] in s[i].links;
    }
  }

  /** `find_location` depends on the names alone. */
  lemma FindLocationByNames(s: Store, u: Store, name: string)
    requires |s| == |u| && forall j | 0 <= j < |s| :: s[j].name == u[j].name
    ensures FindLocation(s, name) == FindLocation(u, name)
  {
  }

  /**
   * What `change_name` does to the lists: the renamed location carries the
   * new name, no other name or any description changes, every list keeps
   * its length and its link types, and an entry changes exactly when its
   * peer is another location named like the renamed one, in which case it
   * now points at the renamed location.
   */
  lemma RenamedShape(s: Store, loc: LocId, newName: string)
    requires loc < |s| && PeersInStore(s)
    ensures var r := Renamed(s, loc, newName);
      && |r| == |s|
      && r[loc].name == newName
      && (forall j | 0 <= j < |s| && j != loc :: r[j].name == s[j].name)
      && (forall j | 0 <= j < |s| :: r[j].description == s[j].description)
      && (forall j | 0 <= j < |s| :: |r[j].links| == |s[j].links|)
      && (forall j, k | 0 <= j < |s| && 0 <= k < |s[j].links| ::
            r[j].links[k].linkType == s[j].links[k].linkType)
      && (forall j, k | 0 <= j < |s| && 0 <= k < |s[j].links| ::
            r[j].links[k] != s[j].links[k] <==>
              s[j].links[k].peer != loc && s[s[j].links[k].peer].name == s[loc].name)
      && (forall j, k | 0 <= j < |s| && 0 <= k < |s[j].links| && r[j].links[k] != s[j].links[k] ::
            r[j].links[k].peer == loc)
      && PeersInStore(r)
  {
    var s1 := s[loc := s[loc].(name := newName)];
    assert PeersInStore(s1);
    RedirectedKeepsPeers(s1, loc, s[loc].name);
  }

  /** With unique names, `change_name` rewrites no entry. */
  lemma RenameUniqueKeepsLinks(s: Store, loc: LocId, newName: string)
    requires loc < |s| && PeersInStore(s) && UniqueNames(s)
    ensures forall j | 0 <= j < |s| :: Renamed(s, loc, newName)[j].links == s[j].links
  {
    var r := Renamed(s, loc, newName);
    forall j | 0 <= j < |s| ensures r[j].links == s[j].links {
      forall k | 0 <= k < |s[j].links| ensures r[j].links[k] == s[j].links[k] {
        var e := s[j].links[k];
        assert e in s[j].links;
        if e.peer != loc {
          assert s[e.peer].name != s[loc].name by {
            if e.peer < loc {
            } else {
            }
          }
        }
      }
    }
  }

  /**
   * With unique names, renaming keeps the pairing invariant and every
   * `find_link_type` answer, whatever the new name, and the location is no
   * longer found by its old name.
   */
  lemma RenameUniqueKeepsPairs(s: Store, loc: LocId, newName: string)
    requires loc < |s| && PeersInStore(s) && UniqueNames(s)
    ensures var r := Renamed(s, loc, newName);
      && (Symmetric(s) ==> Symmetric(r))
      && (forall a, b | 0 <= a < |s| :: FindLinkType(r[a].links, b) == FindLinkType(s[a].links, b))
      && (newName != s[loc].name ==> FindLocation(r, s[loc].name) == None)
  {
    var r := Renamed(s, loc, newName);
    RenameUniqueKeepsLinks(s, loc, newName);
    RenamedShape(s, loc, newName);
    if Symmetric(s) {
      forall a, b, t | 0 <= a < |r| && 0 <= b < |r|
        ensures Count(r[a].links, Link(b, t)) == Count(r[b].links, Link(a, t))
      {
        assert r[a].links == s[a].links && r[b].links == s[b].links;
      }
      forall a, t | 0 <= a < |r| ensures Count(r[a].links, Link(a, t)) % 2 == 0 {
        assert r[a].links == s[a].links;
      }
    }
    if newName != s[loc].name {
      assert FindLocation(r, s[loc].name) == None by {
        FindLocationFirst(r, s[loc].name);
      }
    }
  }

  /**
   * With unique names and a new name no other location has, the names stay
   * unique and the location is found by its new name.
   */
  lemma RenameUniqueFinds(s: Store, loc: LocId, newName: string)
    requires loc < |s| && PeersInStore(s) && UniqueNames(s)
    requires forall j | 0 <= j < |s| && j != loc :: s[j].name != newName
    ensures UniqueNames(Renamed(s, loc, newName))
    ensures FindLocation(Renamed(s, loc, newName), newName) == Some(loc)
  {
    var r := Renamed(s, loc, newName);
    RenamedShape(s, loc, newName);
    assert FindLocation(r, newName) == Some(loc) by {
      FindLocationFirst(r, newName);
    }
  }

  /** Two locations of one name, linked to each other once. */
  function Namesakes(x: string, d: string, t: string): Store {
    [Location(x, d, [Link(1, t)]), Location(x, d, [Link(0, t)])]
  }

  lemma CountSingle(l: Link, m: Link)
    ensures Count([l], m) == if l == m then 1 else 0
  {
    assert multiset([l]) == multiset{l};
  }

  lemma {:induction false} NamesakesPaired(x: string, d: string, t: string)
    ensures Symmetric(Namesakes(x, d, t))
  {
    var s := Namesakes(x, d, t);
    forall a, b, u | 0 <= a < |s| && 0 <= b < |s|
      ensures Count(s[a].links, Link(b, u)) == Count(s[b].links, Link(a, u))
    {
      CountSingle(s[a].links[0], Link(b, u));
      CountSingle(s[b].links[0], Link(a, u));
      assert s[a].links == [s[a].links[0]] && s[b].links == [s[b].links[0]];
    }
    forall a, u | 0 <= a < |s| ensures Count(s[a].links, Link(a, u)) % 2 == 0 {
      CountSingle(s[a].links[0], Link(a, u));
      assert s[a].links == [s[a].links[0]];
    }
  }

  /**
   * Renaming the first of two linked namesakes redirects its own entry onto
   * itself, which breaks the pairing.
   */
  lemma {:induction false} NamesakeRenameBreaksPairs(x: string, y: string, d: string, t: string)
    requires x != y
    ensures Symmetric(Namesakes(x, d, t))
    ensures Renamed(Namesakes(x, d, t), 0, y) == [Location(y, d, [Link(0, t)]), Location(x, d, [Link(0, t)])]
    ensures !Symmetric(Renamed(Namesakes(x, d, t), 0, y))
  {
    NamesakesPaired(x, d, t);
    var s := Namesakes(x, d, t);
    var r := Renamed(s, 0, y);
    var s1 := s[0 := s[0].(name := y)];
    assert s1[1].name == x && s1[0].name == y;
    assert r[0] == s1[0].(links := RedirectList(s1, s1[0].links, 0, x));
    assert r[0].links == [Link(0, t)];
    assert r[1].links == [Link(1 - 1, t)];
    assert r == [Location(y, d, [Link(0, t)]), Location(x, d, [Link(0, t)])];
    assert multiset(r[0].links)[Link(0, t)] == 1;
  }

  /** `change_description` touches no name and no link. */
  lemma DescribedKeepsRest(s: Store, loc: LocId, description: string)
    requires loc < |s|
    ensures var r := Described(s, loc, description);
      && |r| == |s|
      && r[loc].description == description
      && (forall j | 0 <= j < |s| && j != loc :: r[j] == s[j])
      && (forall j | 0 <= j < |s| :: r[j].name == s[j].name && r[j].links == s[j].links)
      && (forall n :: FindLocation(r, n) == FindLocation(s, n))
      && (Symmetric(s) ==> Symmetric(r))
      && (PeersInStore(s) ==> PeersInStore(r))
  {
    var r := Described(s, loc, description);
    forall n ensures FindLocation(r, n) == FindLocation(s, n) {
      FindLocationByNames(r, s, n);
    }
  }
}
