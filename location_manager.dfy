/**
 * `LocationManager` of location_manager.py: the list of locations, the
 * link operations of `Location` that change it in place, and
 * `load_locations`, which rebuilds locations from saved records.
 *
 * The directory `Locations` is given as the sequence of its files in the
 * order `os.listdir` returns them, each with its name and its text.
 */
module LocationManagement {
  import opened Wrappers
  import opened Locations
  import opened Records
  import opened LinkFacts

  /** One entry of the `Locations` directory. */
  datatype File = File(name: string, text: string)

  /** `filename.endswith(".txt")` */
  predicate IsRecordFile(name: string) {
    |name| >= 4 && name[|name| - 4..] == ".txt"
  }

  /**
   * One `Link:` line during loading: the peer is the first location already
   * in the store with that name, the new location itself included; a line
   * whose peer is not there yet is skipped.
   */
  function AttachLink(s: Store, id: LocId, l: LinkLine): (r: Store)
    requires id < |s|
    ensures |r| == |s|
  {
    match FindLocation(s, l.peerName)
    case None => s
    case Some(p) => WithLink(s, id, p, l.linkType)
  }

  /** The link lines of one record, in file order. */
  function AttachLinks(s: Store, id: LocId, links: seq<LinkLine>): (r: Store)
    requires id < |s|
    ensures |r| == |s|
    decreases |links|
  {
    if links == [] then s else AttachLinks(AttachLink(s, id, links[0]), id, links[1..])
  }

  /** One record file: `add_location(name, description)`, then its link lines. */
  function LoadRecord(s: Store, rec: Record): (r: Store)
    ensures |r| == |s| + 1
  {
    AttachLinks(s + [Location(rec.name, rec.description, [])], |s|, rec.links)
  }

  /**
   * `load_locations` over the directory's files in listing order. Files
   * that are not `.txt` are ignored; a record that cannot be read raises
   * `IndexError`, which ends the load with the records before it loaded.
   */
  function LoadFiles(s: Store, files: seq<File>): (r: Outcome)
    ensures |r.store| >= |s|
    decreases |files|
  {
    if files == [] then Outcome(s, true)
    else if !IsRecordFile(files[0].name) then LoadFiles(s, files[1..])
    else match Decode(files[0].text)
      case None => Outcome(s, false)
      case Some(rec) => LoadFiles(LoadRecord(s, rec), files[1..])
  }

  class LocationManager {
    /** `self.locations` */
    var locations: Store

    /** Every link names a location of the list. */
    ghost predicate Valid()
      reads this
    {
      PeersInStore(locations)
    }

    constructor()
      ensures locations == [] && Valid()
    {
      locations := [];
    }

    /** `add_location`: appends a location without links and returns it; names are not checked for duplicates. */
    method AddLocation(name: string, description: string) returns (id: LocId)
      modifies this
      ensures id == |old(locations)|
      ensures locations == old(locations) + [Location(name, description, [])]
      ensures old(Valid()) ==> Valid()
    {
      id := |locations|;
      locations := locations + [Location(name, description, [])];
    }

    /** `locations[a].add_link(locations[b], linkType)` */
    method AddLink(a: LocId, b: LocId, linkType: string)
      requires a < |locations| && b < |locations|
      modifies this
      ensures locations == WithLink(old(locations), a, b, linkType)
      ensures old(Valid()) ==> Valid()
    {
      if Valid() {
        AddLinkKeepsPeers(locations, a, b, linkType);
      }
      locations := locations[a := locations[a].(links := locations[a].links + [Link(b, linkType)])];
      locations := locations[b := locations[b].(links := locations[b].links + [Link(a, linkType)])];
    }

    /**
     * `locations[a].remove_link(locations[b])`: `ok` is false when
     * `list.remove` raised `ValueError`, with the lists as they stood then.
     */
    method RemoveLink(a: LocId, b: LocId) returns (ok: bool)
      requires a < |locations| && b < |locations|
      modifies this
      ensures Outcome(locations, ok) == RemoveLinkFrom(old(locations), a, b, 0)
      ensures old(Valid()) ==> Valid()
    {
      if Valid() {
        RemoveLinkKeepsPeers(locations, a, b, 0);
      }
      var i := 0;
      while i < |locations[a].links|
        invariant |locations| == |old(locations)|
        invariant RemoveLinkFrom(locations, a, b, i) == RemoveLinkFrom(old(locations), a, b, 0)
        decreases |locations[a].links| - i
      {
        var l := locations[a].links[i];
        if l.peer == b {
          locations := locations[a := locations[a].(links := RemoveFirst(locations[a].links, l))];
          var back := Link(a, l.linkType);
          if back !in locations[b].links {
            return false;
          }
          locations := locations[b := locations[b].(links := RemoveFirst(locations[b].links, back))];
        }
        i := i + 1;
      }
      ok := true;
    }

    /** `load_locations`: `ok` is false when a record could not be read. */
    method LoadLocations(files: seq<File>) returns (ok: bool)
      modifies this
      ensures Outcome(locations, ok) == LoadFiles(old(locations), files)
      ensures old(Valid()) ==> Valid()
    {
      var f := 0;
      while f < |files|
        invariant f <= |files|
        invariant LoadFiles(locations, files[f..]) == LoadFiles(old(locations), files)
        invariant old(Valid()) ==> Valid()
      {
        assert files[f..][1..] == files[f + 1..];
        if IsRecordFile(files[f].name) {
          var rec := Decode(files[f].text);
          if rec.None? {
            return false;
          }
          var id := AddLocation(rec.value.name, rec.value.description);
          AttachRecordLinks(id, rec.value.links);
        }
        f := f + 1;
      }
      ok := true;
    }

    /** The second pass over one file: each `Link: ` line links the new location to its peer, if that is loaded. */
    method AttachRecordLinks(id: LocId, links: seq<LinkLine>)
      requires id < |locations|
      modifies this
      ensures locations == AttachLinks(old(locations), id, links)
      ensures old(Valid()) ==> Valid()
    {
      var k := 0;
      while k < |links|
        invariant id < |locations| && k <= |links|
        invariant AttachLinks(locations, id, links[k..]) == AttachLinks(old(locations), id, links)
        invariant old(Valid()) ==> Valid()
      {
        assert links[k..][1..] == links[k + 1..];
        var l := links[k];
        var peer := FindLocation(locations, l.peerName);
        if peer.Some? {
          AddLink(id, peer.value, l.linkType);
        }
        k := k + 1;
      }
    }
  }
}
