/**
 * What `load_locations` guarantees about the store it builds: the link
 * invariant survives, a link line waits for its peer, and a two-sided pair
 * saved in both files comes back exactly once whichever file is read first.
 */
module LoadFacts {
  import opened Wrappers
  import opened Locations
  import opened LinkFacts
  import opened Records
  import opened LocationManagement

  /** `find_location` after `add_location`: an earlier match wins, else the new location if it has the name. */
  lemma {:induction false} FindLocationAfterAppend(s: Store, loc: Location, name: string)
    ensures FindLocation(s + [loc], name) ==
      if FindLocation(s, name).Some? then FindLocation(s, name)
      else if loc.name == name then Some(|s|)
      else None
  {
    if s == [] {
      assert s + [loc] == [loc];
    } else {
      assert (s + [loc])[0] == s[0];
      if s[0].name != name {
        assert (s + [loc])[1..] == s[1..] + [loc];
        FindLocationAfterAppend(s[1..], loc, name);
      }
    }
  }

  /** A location without links joins a well-formed, two-sided store without breaking either property. */
  lemma AppendLocationKeepsInvariant(s: Store, loc: Location)
    requires loc.links == [] && PeersInStore(s) && Symmetric(s)
    ensures PeersInStore(s + [loc]) && Symmetric(s + [loc])
  {
    var r := s + [loc];
    forall a, b, t | 0 <= a < |r| && 0 <= b < |r|
      ensures Count(r[a].links, Link(b, t)) == Count(r[b].links, Link(a, t))
    {
      if a == |s| || b == |s| {
        assert Link(b, t) !in r[a].links;
        assert Link(a, t) !in r[b].links;
      }
    }
  }

  /** The link lines of a record keep the store well-formed and two-sided. */
  lemma {:induction false} AttachLinksKeepsInvariant(s: Store, id: LocId, links: seq<LinkLine>)
    requires id < |s| && PeersInStore(s) && Symmetric(s)
    ensures PeersInStore(AttachLinks(s, id, links)) && Symmetric(AttachLinks(s, id, links))
    decreases |links|
  {
    if links != [] {
      var found := FindLocation(s, links[0].peerName);
      if found.Some? {
        AddLinkKeepsPeers(s, id, found.value, links[0].linkType);
        AddLinkKeepsSymmetry(s, id, found.value, links[0].linkType);
      }
      AttachLinksKeepsInvariant(AttachLink(s, id, links[0]), id, links[1..]);
    }
  }

  /**
   * The two-sided-links invariant (`Symmetric`) survives loading: starting from a well-formed two-sided
   * store, every store `load_locations` leaves behind, complete or cut
   * short by a bad record, is well-formed and two-sided.
   */
  lemma {:induction false} LoadKeepsInvariant(s: Store, files: seq<File>)
    requires PeersInStore(s) && Symmetric(s)
    ensures PeersInStore(LoadFiles(s, files).store) && Symmetric(LoadFiles(s, files).store)
    decreases |files|
  {
    if files != [] && IsRecordFile(files[0].name) {
      match Decode(files[0].text)
      case None =>
      case Some(rec) =>
        AppendLocationKeepsInvariant(s, Location(rec.name, rec.description, []));
        AttachLinksKeepsInvariant(s + [Location(rec.name, rec.description, [])], |s|, rec.links);
        LoadKeepsInvariant(LoadRecord(s, rec), files[1..]);
    } else if files != [] {
      LoadKeepsInvariant(s, files[1..]);
    }
  }

  /** Link lines change only link lists. */
  lemma {:induction false} AttachLinksKeepsFields(s: Store, id: LocId, links: seq<LinkLine>)
    requires id < |s|
    ensures forall j | 0 <= j < |s| ::
      AttachLinks(s, id, links)[j].name == s[j].name
      && AttachLinks(s, id, links)[j].description == s[j].description
    decreases |links|
  {
    if links != [] {
      var found := FindLocation(s, links[0].peerName);
      if found.Some? {
        AddLinkAppends(s, id, found.value, links[0].linkType);
      }
      AttachLinksKeepsFields(AttachLink(s, id, links[0]), id, links[1..]);
    }
  }

  /** Loading one record appends a location with the record's name and description; no other name or description changes. */
  lemma LoadRecordAppends(s: Store, rec: Record)
    ensures var r := LoadRecord(s, rec);
      && |r| == |s| + 1
      && r[|s|].name == rec.name && r[|s|].description == rec.description
      && forall j | 0 <= j < |s| :: r[j].name == s[j].name && r[j].description == s[j].description
  {
    var s1 := s + [Location(rec.name, rec.description, [])];
    AttachLinksKeepsFields(s1, |s|, rec.links);
    assert forall j | 0 <= j < |s| :: s1[j] == s[j];
  }

  /** Link lines whose peers are not in the store add nothing. */
  lemma {:induction false} AttachLinksUnknown(s: Store, id: LocId, links: seq<LinkLine>)
    requires id < |s|
    requires forall k | 0 <= k < |links| :: FindLocation(s, links[k].peerName).None?
    ensures AttachLinks(s, id, links) == s
    decreases |links|
  {
    if links != [] {
      assert FindLocation(s, links[0].peerName).None?;
      AttachLinksUnknown(s, id, links[1..]);
    }
  }

  /**
   * A link line is attached only when its peer is already loaded: a record
   * whose peers are all still unknown loads as a location without links.
   */
  lemma UnknownPeersIgnored(s: Store, rec: Record)
    requires forall k | 0 <= k < |rec.links| ::
      rec.links[k].peerName != rec.name && forall j | 0 <= j < |s| :: s[j].name != rec.links[k].peerName
    ensures LoadRecord(s, rec) == s + [Location(rec.name, rec.description, [])]
  {
    var loc := Location(rec.name, rec.description, []);
    forall k | 0 <= k < |rec.links| ensures FindLocation(s + [loc], rec.links[k].peerName).None? {
      FindLocationAfterAppend(s, loc, rec.links[k].peerName);
    }
    AttachLinksUnknown(s + [loc], |s|, rec.links);
  }

  /**
   * A pair linked with type `t` is saved twice, once in each file. Whichever
   * file is read first, its link line finds no peer and is skipped; the
   * second file's line attaches the pair on both sides. So the pair comes
   * back exactly once, in either order (swap `p` and `q`).
   */
  lemma {:induction false} PairRestoredOnce(s: Store, p: string, dp: string, q: string, dq: string, t: string)
    requires p != q
    requires forall j | 0 <= j < |s| :: s[j].name != p && s[j].name != q
    ensures LoadRecord(LoadRecord(s, Record(p, dp, [LinkLine(q, t)])), Record(q, dq, [LinkLine(p, t)]))
            == s + [Location(p, dp, [Link(|s| + 1, t)]), Location(q, dq, [Link(|s|, t)])]
  {
    var lp := Location(p, dp, []);
    var lq := Location(q, dq, []);
    var s1 := s + [lp];
    assert FindLocation(s, q).None? && FindLocation(s, p).None?;
    FindLocationAfterAppend(s, lp, q);
    assert AttachLink(s1, |s|, LinkLine(q, t)) == s1;
    assert [LinkLine(q, t)][1..] == [];
    assert AttachLinks(s1, |s|, []) == s1;
    assert LoadRecord(s, Record(p, dp, [LinkLine(q, t)])) == s1;
    var s2 := s1 + [lq];
    FindLocationAfterAppend(s, lp, p);
    FindLocationAfterAppend(s1, lq, p);
    assert FindLocation(s2, p) == Some(|s|);
    assert AttachLink(s2, |s1|, LinkLine(p, t)) == WithLink(s2, |s| + 1, |s|, t);
    var w := WithLink(s2, |s| + 1, |s|, t);
    var e := s + [Location(p, dp, [Link(|s| + 1, t)]), Location(q, dq, [Link(|s|, t)])];
    assert w[|s|] == e[|s|];
    assert w[|s| + 1] == e[|s| + 1];
    assert forall j | 0 <= j < |s| :: w[j] == e[j];
    assert w == e;
    assert [LinkLine(p, t)][1..] == [];
    assert AttachLinks(w, |s1|, []) == w;
  }

  /** Reading the link lines `xs + ys` is reading `xs`, then `ys`. */
  lemma {:induction false} AttachLinksConcat(s: Store, id: LocId, xs: seq<LinkLine>, ys: seq<LinkLine>)
    requires id < |s|
    ensures AttachLinks(s, id, xs + ys) == AttachLinks(AttachLinks(s, id, xs), id, ys)
    decreases |xs|
  {
    if xs == [] {
      assert xs + ys == ys;
    } else {
      assert (xs + ys)[0] == xs[0] && (xs + ys)[1..] == xs[1..] + ys;
      AttachLinksConcat(AttachLink(s, id, xs[0]), id, xs[1..], ys);
    }
  }

  /**
   * Link lines that name neither location `x` nor location `y` leave the
   * number of entries `(y, u)` in `x`'s list as it was (`y` may lie beyond
   * the store, for a location not loaded yet).
   */
  lemma {:induction false} AttachLinksKeepsCount(s: Store, id: LocId, links: seq<LinkLine>, x: LocId, y: LocId, u: string)
    requires id < |s| && x < |s|
    requires forall k | 0 <= k < |links| :: links[k].peerName != s[x].name && (y < |s| ==> links[k].peerName != s[y].name)
    ensures Count(AttachLinks(s, id, links)[x].links, Link(y, u)) == Count(s[x].links, Link(y, u))
    decreases |links|
  {
    if links != [] {
      var s' := AttachLink(s, id, links[0]);
      var found := FindLocation(s, links[0].peerName);
      if found.Some? {
        AddLinkAppends(s, id, found.value, links[0].linkType);
        CountAfterAdd(s, id, found.value, links[0].linkType, x, y, u);
      }
      assert s'[x].name == s[x].name && (y < |s| ==> s'[y].name == s[y].name);
      AttachLinksKeepsCount(s', id, links[1..], x, y, u);
    }
  }

  /** No link line of `links` names `p` or `q`. */
  predicate NamesNeither(links: seq<LinkLine>, p: string, q: string) {
    forall k | 0 <= k < |links| :: links[k].peerName != p && links[k].peerName != q
  }

  /** Loading records one after another, as `load_locations` does with readable record files. */
  function LoadRecords(s: Store, recs: seq<Record>): (r: Store)
    ensures |r| == |s| + |recs|
    decreases |recs|
  {
    if recs == [] then s else LoadRecords(LoadRecord(s, recs[0]), recs[1..])
  }

  /** `f` is a `.txt` file whose text reads as record `r`. */
  predicate ReadsAs(f: File, r: Record) {
    IsRecordFile(f.name) && Decode(f.text) == Some(r)
  }

  /** Each file of `files` reads as the record at the same position. */
  predicate AllReadAs(files: seq<File>, recs: seq<Record>) {
    |files| == |recs| && forall i | 0 <= i < |files| :: ReadsAs(files[i], recs[i])
  }

  /** Readable record files load as their records, in listing order, and the load completes. */
  lemma {:induction false} LoadReadableFiles(s: Store, files: seq<File>, recs: seq<Record>)
    requires AllReadAs(files, recs)
    ensures LoadFiles(s, files) == Outcome(LoadRecords(s, recs), true)
    decreases |files|
  {
    if files != [] {
      assert ReadsAs(files[0], recs[0]);
      assert AllReadAs(files[1..], recs[1..]) by {
        assert forall i | 0 <= i < |files[1..]| :: files[1..][i] == files[i + 1] && recs[1..][i] == recs[i + 1];
      }
      LoadReadableFiles(LoadRecord(s, recs[0]), files[1..], recs[1..]);
    }
  }

  /** Loading records keeps every earlier name. */
  lemma {:induction false} LoadRecordsAppends(s: Store, recs: seq<Record>)
    ensures forall j | 0 <= j < |s| :: LoadRecords(s, recs)[j].name == s[j].name
    decreases |recs|
  {
    if recs != [] {
      LoadRecordAppends(s, recs[0]);
      LoadRecordsAppends(LoadRecord(s, recs[0]), recs[1..]);
    }
  }

  /**
   * Link lines read for location `id` add entries only to `id`'s list and,
   * as `(id, ·)`, to its peers' lists: when `id` is neither `x` nor `y`, the
   * number of entries `(y, u)` in `x`'s list stays as it was.
   */
  lemma {:induction false} AttachLinksAtOthers(s: Store, id: LocId, links: seq<LinkLine>, x: LocId, y: LocId, u: string)
    requires id < |s| && x < |s| && id != x && id != y
    ensures Count(AttachLinks(s, id, links)[x].links, Link(y, u)) == Count(s[x].links, Link(y, u))
    decreases |links|
  {
    if links != [] {
      var found := FindLocation(s, links[0].peerName);
      if found.Some? {
        CountAfterAdd(s, id, found.value, links[0].linkType, x, y, u);
      }
      AttachLinksAtOthers(AttachLink(s, id, links[0]), id, links[1..], x, y, u);
    }
  }

  /**
   * Records loaded after location `x` whose new locations are not `y` keep
   * the number of entries `(y, u)` in `x`'s list, whatever their lines name.
   */
  lemma {:induction false} LoadRecordsKeepsCount(s: Store, recs: seq<Record>, x: LocId, y: LocId, u: string)
    requires x < |s| && (y < |s| || |s| + |recs| <= y)
    ensures Count(LoadRecords(s, recs)[x].links, Link(y, u)) == Count(s[x].links, Link(y, u))
    decreases |recs|
  {
    if recs != [] {
      var s1 := s + [Location(recs[0].name, recs[0].description, [])];
      assert s1[x] == s[x];
      AttachLinksAtOthers(s1, |s|, recs[0].links, x, y, u);
      LoadRecordsKeepsCount(LoadRecord(s, recs[0]), recs[1..], x, y, u);
    }
  }

  /**
   * The first record of the pair: its line for `q` finds no location and is
   * skipped, so `p`'s new list holds no entry for any later location `iq`.
   */
  lemma PairFirstRecord(s: Store, p: string, dp: string, links: seq<LinkLine>, iq: LocId, u: string)
    requires forall j | 0 <= j < |s| :: s[j].name != p
    requires forall k | 0 <= k < |links| :: links[k].peerName != p
    requires |s| < iq
    ensures var r := LoadRecord(s, Record(p, dp, links));
      && r[|s|].name == p && (forall j | 0 <= j < |s| :: r[j].name != p)
      && Count(r[|s|].links, Link(iq, u)) == 0
  {
    var s1 := s + [Location(p, dp, [])];
    AttachLinksKeepsFields(s1, |s|, links);
    AttachLinksKeepsCount(s1, |s|, links, |s|, iq, u);
  }

  /**
   * The second record of the pair, read into store `m` where `ip` is the
   * first location named `p`: its line for `p` links the new location and
   * `ip` once with type `t`, and its other lines add nothing between them.
   */
  lemma PairSecondRecord(m: Store, ip: LocId, p: string, q: string, dq: string, xq: seq<LinkLine>, yq: seq<LinkLine>, t: string, u: string)
    requires ip < |m| && m[ip].name == p && p != q
    requires forall j | 0 <= j < ip :: m[j].name != p
    requires NamesNeither(xq, p, q) && NamesNeither(yq, p, q)
    ensures var r := LoadRecord(m, Record(q, dq, xq + [LinkLine(p, t)] + yq));
      && r[ip].name == p && r[|m|].name == q
      && Count(r[ip].links, Link(|m|, u)) == Count(m[ip].links, Link(|m|, u)) + (if u == t then 1 else 0)
      && Count(r[|m|].links, Link(ip, u)) == (if u == t then 1 else 0)
  {
    var iq := |m|;
    var s2 := m + [Location(q, dq, [])];
    var c1 := AttachLinks(s2, iq, xq);
    AttachLinksKeepsFields(s2, iq, xq);
    assert FindLocation(c1, p) == Some(ip) by {
      assert c1[ip].name == p;
      assert forall j | 0 <= j < ip :: c1[j].name != p by {
        assert forall j | 0 <= j < ip :: c1[j].name == m[j].name;
      }
      FindLocationFirst(c1, p);
    }
    var c2 := WithLink(c1, iq, ip, t);
    assert AttachLinks(c1, iq, [LinkLine(p, t)]) == c2;
    AttachLinksConcat(s2, iq, xq, [LinkLine(p, t)]);
    AttachLinksConcat(s2, iq, xq + [LinkLine(p, t)], yq);
    AddLinkAppends(c1, iq, ip, t);
    AttachLinksKeepsFields(c2, iq, yq);
    AttachLinksKeepsCount(s2, iq, xq, ip, iq, u);
    CountAfterAdd(c1, iq, ip, t, ip, iq, u);
    AttachLinksKeepsCount(c2, iq, yq, ip, iq, u);
    AttachLinksKeepsCount(s2, iq, xq, iq, ip, u);
    CountAfterAdd(c1, iq, ip, t, iq, ip, u);
    AttachLinksKeepsCount(c2, iq, yq, iq, ip, u);
  }

  /**
   * `PairRestoredOnce` in general: `p`'s record, then any records `mids`,
   * then `q`'s record. When the two records' other lines name neither `p`
   * nor `q`, `p`'s list ends with exactly one entry `(q, t)`, `q`'s with
   * exactly one entry `(p, t)`, and there is no entry of any other type `u`
   * between the two. The records read in between may name anything: each
   * attaches lines only at its own index.
   */
  lemma PairRestoredAmong(s: Store, p: string, dp: string, xp: seq<LinkLine>, yp: seq<LinkLine>, mids: seq<Record>,
                          q: string, dq: string, xq: seq<LinkLine>, yq: seq<LinkLine>, t: string, u: string)
    requires p != q
    requires forall j | 0 <= j < |s| :: s[j].name != p && s[j].name != q
    requires NamesNeither(xp, p, q) && NamesNeither(yp, p, q) && NamesNeither(xq, p, q) && NamesNeither(yq, p, q)
    ensures var r := LoadRecord(LoadRecords(LoadRecord(s, Record(p, dp, xp + [LinkLine(q, t)] + yp)), mids),
                                Record(q, dq, xq + [LinkLine(p, t)] + yq));
      var ip, iq := |s|, |s| + 1 + |mids|;
      && |r| == iq + 1 && r[ip].name == p && r[iq].name == q
      && Count(r[ip].links, Link(iq, u)) == (if u == t then 1 else 0)
      && Count(r[iq].links, Link(ip, u)) == (if u == t then 1 else 0)
  {
    PairAmongRecords(s, Record(p, dp, xp + [LinkLine(q, t)] + yp), mids, Record(q, dq, xq + [LinkLine(p, t)] + yq),
                     xp, yp, xq, yq, t, u);
  }

  /** `PairRestoredAmong` for records given by their fields rather than spelled out. */
  lemma PairAmongRecords(s: Store, recP: Record, mids: seq<Record>, recQ: Record,
                         xp: seq<LinkLine>, yp: seq<LinkLine>, xq: seq<LinkLine>, yq: seq<LinkLine>, t: string, u: string)
    requires recP.name != recQ.name
    requires forall j | 0 <= j < |s| :: s[j].name != recP.name && s[j].name != recQ.name
    requires recP.links == xp + [LinkLine(recQ.name, t)] + yp && recQ.links == xq + [LinkLine(recP.name, t)] + yq
    requires NamesNeither(xp, recP.name, recQ.name) && NamesNeither(yp, recP.name, recQ.name)
    requires NamesNeither(xq, recP.name, recQ.name) && NamesNeither(yq, recP.name, recQ.name)
    ensures var r := LoadRecord(LoadRecords(LoadRecord(s, recP), mids), recQ);
      var ip, iq := |s|, |s| + 1 + |mids|;
      && |r| == iq + 1 && r[ip].name == recP.name && r[iq].name == recQ.name
      && Count(r[ip].links, Link(iq, u)) == (if u == t then 1 else 0)
      && Count(r[iq].links, Link(ip, u)) == (if u == t then 1 else 0)
  {
    var p, q := recP.name, recQ.name;
    var ip, iq := |s|, |s| + 1 + |mids|;
    forall k | 0 <= k < |recP.links| ensures recP.links[k].peerName != p {
      if k < |xp| {
        assert recP.links[k] == xp[k];
      } else if k > |xp| {
        assert recP.links[k] == yp[k - |xp| - 1];
      }
    }
    assert recP == Record(p, recP.description, recP.links);
    var r1 := LoadRecord(s, recP);
    var m := LoadRecords(r1, mids);
    assert |m| == iq && m[ip].name == p && (forall j | 0 <= j < ip :: m[j].name != p)
           && Count(m[ip].links, Link(iq, u)) == 0 by {
      PairFirstRecord(s, p, recP.description, recP.links, iq, u);
      LoadRecordsAppends(r1, mids);
      LoadRecordsKeepsCount(r1, mids, ip, iq, u);
    }
    assert recQ == Record(q, recQ.description, xq + [LinkLine(p, t)] + yq);
    PairSecondRecord(m, ip, p, q, recQ.description, xq, yq, t, u);
  }

  /**
   * Loading a listing of readable record files is loading the first record,
   * then the middle ones, then the last: with `PairRestoredAmong` this gives
   * the pair's restoration for files listed with `p`'s first and `q`'s last.
   */
  lemma LoadFilesEnds(s: Store, files: seq<File>, recs: seq<Record>)
    requires AllReadAs(files, recs) && |recs| >= 2
    ensures LoadFiles(s, files)
            == Outcome(LoadRecord(LoadRecords(LoadRecord(s, recs[0]), recs[1..|recs| - 1]), recs[|recs| - 1]), true)
  {
    LoadReadableFiles(s, files, recs);
    LoadRecordsEnds(s, recs);
  }

  /** Loading records is loading the first, then the middle ones, then the last. */
  lemma LoadRecordsEnds(s: Store, recs: seq<Record>)
    requires |recs| >= 2
    ensures LoadRecords(s, recs) == LoadRecord(LoadRecords(LoadRecord(s, recs[0]), recs[1..|recs| - 1]), recs[|recs| - 1])
  {
    var n := |recs|;
    assert recs[1..] == recs[1..n - 1] + [recs[n - 1]];
    LoadRecordsSnoc(LoadRecord(s, recs[0]), recs[1..n - 1], recs[n - 1]);
  }

  lemma {:induction false} LoadRecordsSnoc(s: Store, recs: seq<Record>, b: Record)
    ensures LoadRecords(s, recs + [b]) == LoadRecord(LoadRecords(s, recs), b)
    decreases |recs|
  {
    if recs == [] {
      assert recs + [b] == [b];
    } else {
      assert (recs + [b])[0] == recs[0] && (recs + [b])[1..] == recs[1..] + [b];
      LoadRecordsSnoc(LoadRecord(s, recs[0]), recs[1..], b);
    }
  }

  /**
   * The same at the level of files: saving two locations linked once, each
   * in its own file, and loading both files restores the pair once, in
   * either listing order, provided the records survive the text format.
   */
  lemma {:induction false} SavedPairLoadsOnce(s: Store, p: string, dp: string, q: string, dq: string, t: string)
    requires p != q
    requires forall j | 0 <= j < |s| :: s[j].name != p && s[j].name != q
    requires Encodable(Record(p, dp, [LinkLine(q, t)])) && Encodable(Record(q, dq, [LinkLine(p, t)]))
    ensures LoadFiles(s, [File(p + ".txt", Encode(Record(p, dp, [LinkLine(q, t)]))),
                          File(q + ".txt", Encode(Record(q, dq, [LinkLine(p, t)])))])
            == Outcome(s + [Location(p, dp, [Link(|s| + 1, t)]), Location(q, dq, [Link(|s|, t)])], true)
  {
    var rp := Record(p, dp, [LinkLine(q, t)]);
    var rq := Record(q, dq, [LinkLine(p, t)]);
    DecodeEncode(rp);
    DecodeEncode(rq);
    TxtFileName(p);
    TxtFileName(q);
    LoadTwoFiles(s, File(p + ".txt", Encode(rp)), File(q + ".txt", Encode(rq)), rp, rq);
    PairRestoredOnce(s, p, dp, q, dq, t);
  }

  lemma TxtFileName(n: string)
    ensures IsRecordFile(n + ".txt")
  {
    assert (n + ".txt")[|n|..] == ".txt";
  }

  /** Two readable record files load as their two records, in listing order. */
  lemma {:induction false} LoadTwoFiles(s: Store, f1: File, f2: File, r1: Record, r2: Record)
    requires IsRecordFile(f1.name) && Decode(f1.text) == Some(r1)
    requires IsRecordFile(f2.name) && Decode(f2.text) == Some(r2)
    ensures LoadFiles(s, [f1, f2]) == Outcome(LoadRecord(LoadRecord(s, r1), r2), true)
  {
    LoadFirstFile(s, f1, [f2], r1);
    LoadFirstFile(LoadRecord(s, r1), f2, [], r2);
  }

  lemma {:induction false} LoadFirstFile(s: Store, f: File, rest: seq<File>, r: Record)
    requires IsRecordFile(f.name) && Decode(f.text) == Some(r)
    ensures LoadFiles(s, [f] + rest) == LoadFiles(LoadRecord(s, r), rest)
  {
    assert ([f] + rest)[0] == f;
    assert ([f] + rest)[1..] == rest;
  }

  /**
   * A self-link made by one `add_link(x, x, t)` sits twice in `x`'s list and
   * is saved as two `Link:` lines; each line attaches a whole self-link
   * again, so loading the saved record gives four entries.
   */
  lemma {:induction false} SelfLinkDoubledOnLoad(s: Store, n: string, d: string, t: string)
    requires forall j | 0 <= j < |s| :: s[j].name != n
    ensures var i := |s|;
      LoadRecord(s, Record(n, d, [LinkLine(n, t), LinkLine(n, t)]))
      == s + [Location(n, d, [Link(i, t), Link(i, t), Link(i, t), Link(i, t)])]
  {
    var i := |s|;
    var l := LinkLine(n, t);
    var s1 := s + [Location(n, d, [])];
    FindLocationAfterAppend(s, Location(n, d, []), n);
    assert FindLocation(s, n).None?;
    var s2 := s + [Location(n, d, [Link(i, t), Link(i, t)])];
    SelfLinkStep(s, Location(n, d, []), t);
    assert [] + [Link(i, t), Link(i, t)] == [Link(i, t), Link(i, t)];
    assert FindLocation(s1, n) == Some(i);
    assert AttachLink(s1, i, l) == s2;
    FindLocationAfterAppend(s, Location(n, d, [Link(i, t), Link(i, t)]), n);
    SelfLinkStep(s, Location(n, d, [Link(i, t), Link(i, t)]), t);
    assert [Link(i, t), Link(i, t)] + [Link(i, t), Link(i, t)] == [Link(i, t), Link(i, t), Link(i, t), Link(i, t)];
    assert FindLocation(s2, n) == Some(i);
    var s3 := s + [Location(n, d, [Link(i, t), Link(i, t), Link(i, t), Link(i, t)])];
    assert AttachLink(s2, i, l) == s3;
    assert [l, l][1..] == [l];
    assert [l][1..] == [];
    assert AttachLinks(s3, i, []) == s3;
    assert AttachLinks(s2, i, [l]) == s3;
  }

  /** A self-link on the last location appends two entries to its own list. */
  lemma SelfLinkStep(s: Store, loc: Location, t: string)
    ensures WithLink(s + [loc], |s|, |s|, t) == s + [loc.(links := loc.links + [Link(|s|, t), Link(|s|, t)])]
  {
    var w := WithLink(s + [loc], |s|, |s|, t);
    var e := s + [loc.(links := loc.links + [Link(|s|, t), Link(|s|, t)])];
    assert w[|s|] == e[|s|];
    assert forall j | 0 <= j < |s| :: w[j] == e[j];
  }
}
