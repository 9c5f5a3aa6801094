/**
 * The text record that `Location.save_to_file` writes for one location and
 * that `LocationManager.load_locations` parses back:
 *
 *   Name: <name>
 *   Description: <description>        (only when the description is not empty)
 *   Link: <peer name> (<link type>)   (one per entry of `links`, in list order)
 *
 * A record names its peers by name; resolving names to locations is the
 * loader's business (module LocationManagement).
 */
module Records {
  import opened Wrappers
  import opened Text
  import opened Locations

  /** One `Link:` line: the peer's name and the link type. */
  datatype LinkLine = LinkLine(peerName: string, linkType: string)

  datatype Record = Record(name: string, description: string, links: seq<LinkLine>)

  /** The record of location `id` as `save_to_file` sees it: each peer by its current name. */
  function RecordOf(s: Store, id: LocId): (r: Record)
    requires id < |s| && forall l | l in s[id].links :: l.peer < |s|
    ensures r.name == s[id].name && r.description == s[id].description
    ensures |r.links| == |s[id].links|
  {
    var links := s[id].links;
    Record(s[id].name, s[id].description,
           seq(|links|, k requires 0 <= k < |links| => LinkLine(s[links[k].peer].name, links[k].linkType)))
  }

  // ---- Encoding (save_to_file) ----

  /** One `<key>: <value>` line. */
  function KeyLine(key: string, value: string): string {
    key + ": " + value
  }

  /** `f"Link: {link.name} ({link_type})"` */
  function LinkText(l: LinkLine): string {
    KeyLine("Link", l.peerName + " (" + l.linkType + ")")
  }

  function LinkTexts(links: seq<LinkLine>): seq<string> {
    if links == [] then [] else [LinkText(links[0])] + LinkTexts(links[1..])
  }

  /** The `Name:` line, then the `Description:` line when the description is not empty. */
  function HeadLines(r: Record): seq<string> {
    [KeyLine("Name", r.name)] + (if r.description != "" then [KeyLine("Description", r.description)] else [])
  }

  /** The lines `save_to_file` writes, without their "\n" terminators. */
  function EncodeLines(r: Record): seq<string> {
    HeadLines(r) + LinkTexts(r.links)
  }

  /** The whole text of the file `save_to_file` writes. */
  function Encode(r: Record): string {
    JoinLines(EncodeLines(r))
  }

  // ---- Decoding (load_locations) ----

  /** `line.strip().split(": ")[1]`, or `None` where Python raises `IndexError`. */
  function Field(line: string): Option<string> {
    var parts := Split(Strip(line), ": ");
    if |parts| < 2 then None else Some(parts[1])
  }

  /** `line.startswith("Description:")` */
  predicate IsDescriptionLine(line: string) {
    "Description:" <= line
  }

  /**
   * The description loop: the value of the first line that starts with
   * "Description:", `""` when there is none, and `None` when that first
   * line has no value (`IndexError`).
   */
  function FindDescription(lines: seq<string>): Option<string> {
    if lines == [] then Some("")
    else if IsDescriptionLine(lines[0]) then Field(lines[0])
    else FindDescription(lines[1..])
  }

  /** `line.startswith("Link: ")` */
  predicate IsLinkLine(line: string) {
    "Link: " <= line
  }

  /**
   * One line of the link loop: a line that starts with "Link: " and has a
   * value after `": "` gives the peer name before the first `" ("` and the
   * type after it without its last character (`""` when there is no `" ("`).
   */
  function ParseLink(line: string): Option<LinkLine> {
    if !IsLinkLine(line) then None
    else
      var parts := Split(Strip(line), ": ");
      if |parts| < 2 then None
      else
        var q := Split(parts[1], " (");
        Some(LinkLine(q[0], if |q| > 1 then DropLast(q[1]) else ""))
  }

  /** Every line through `parse`, keeping the lines it accepts, in order. */
  function Collect<T>(parse: string -> Option<T>, lines: seq<string>): seq<T> {
    if lines == [] then []
    else match parse(lines[0])
      case None => Collect(parse, lines[1..])
      case Some(x) => [x] + Collect(parse, lines[1..])
  }

  /** The link loop over every line of the file, the first one included (after `file.seek(0)`). */
  function ParseLinks(lines: seq<string>): seq<LinkLine> {
    Collect(ParseLink, lines)
  }

  /**
   * The record `load_locations` reads from one file, or `None` when reading
   * it raises `IndexError`: an empty file, a first line without a value
   * after `": "`, or a first "Description:" line without one.
   */
  function Decode(text: string): Option<Record> {
    DecodeLines(Lines(text))
  }

  /** `Decode` on the lines of the file. */
  function DecodeLines(lines: seq<string>): Option<Record> {
    if lines == [] then None
    else match Field(lines[0])
      case None => None
      case Some(name) =>
        match FindDescription(lines[1..])
        case None => None
        case Some(d) => Some(Record(name, d, ParseLinks(lines)))
  }

  // ---- When the round trip holds ----

  /** A name or description that survives `Name: ` / `Description: ` parsing. */
  ghost predicate FieldEncodable(v: string) {
    && v != []
    && !IsSpace(v[|v| - 1])
    && !Contains(v, ": ")
    && NoLineBreak(v)
  }

  ghost predicate LinkEncodable(l: LinkLine) {
    && !Contains(l.peerName, ": ") && !Contains(l.peerName, " (")
    && (l.peerName == [] || l.peerName[|l.peerName| - 1] != ':')
    && NoLineBreak(l.peerName)
    && !Contains(l.linkType, ": ") && !Contains(l.linkType, " (")
    && NoLineBreak(l.linkType)
  }

  ghost predicate Encodable(r: Record) {
    && FieldEncodable(r.name)
    && (r.description == [] || FieldEncodable(r.description))
    && forall k | 0 <= k < |r.links| :: LinkEncodable(r.links[k])
  }

  // ---- The loader's loops, one step at a time ----

  lemma FindDescriptionCons(lines: seq<string>)
    requires lines != []
    ensures FindDescription(lines) == if IsDescriptionLine(lines[0]) then Field(lines[0]) else FindDescription(lines[1..])
  {
  }

  lemma CollectCons<T>(parse: string -> Option<T>, lines: seq<string>)
    requires lines != []
    ensures parse(lines[0]).None? ==> Collect(parse, lines) == Collect(parse, lines[1..])
    ensures parse(lines[0]).Some? ==> Collect(parse, lines) == [parse(lines[0]).value] + Collect(parse, lines[1..])
  {
  }

  lemma LinkTextsCons(links: seq<LinkLine>)
    requires links != []
    ensures LinkTexts(links) == [LinkText(links[0])] + LinkTexts(links[1..])
  {
  }

  /** The index of the first line that starts with "Description:", or `|lines|` when there is none. */
  function DescriptionIndex(lines: seq<string>): (i: nat)
    ensures i <= |lines|
  {
    if lines == [] || IsDescriptionLine(lines[0]) then 0 else 1 + DescriptionIndex(lines[1..])
  }

  /**
   * The description loop gives the value of the first "Description:" line,
   * and `""` when no line starts with "Description:".
   */
  lemma {:induction false} FindDescriptionFirst(lines: seq<string>)
    ensures var i := DescriptionIndex(lines);
      FindDescription(lines) == if i == |lines| then Some("") else Field(lines[i])
  {
    if lines != [] && !IsDescriptionLine(lines[0]) {
      FindDescriptionFirst(lines[1..]);
      FindDescriptionCons(lines);
      assert DescriptionIndex(lines) == 1 + DescriptionIndex(lines[1..]);
    }
  }

  lemma {:induction false} CollectConcat<T>(parse: string -> Option<T>, xs: seq<string>, ys: seq<string>)
    ensures Collect(parse, xs + ys) == Collect(parse, xs) + Collect(parse, ys)
    decreases |xs|
  {
    if xs == [] {
      assert xs + ys == ys;
    } else {
      var zs := xs + ys;
      assert zs[0] == xs[0] && zs[1..] == xs[1..] + ys;
      CollectConcat(parse, xs[1..], ys);
      CollectCons(parse, zs);
      CollectCons(parse, xs);
    }
  }

  // ---- Lines of a saved record ----

  /** The layout of a saved record, in the text of `save_to_file`. */
  lemma EncodedLayout(r: Record)
    ensures var ls := EncodeLines(r);
      var h := if r.description != "" then 2 else 1;
      && |ls| == h + |r.links|
      && ls[0] == "Name: " + r.name
      && (r.description != "" ==> ls[1] == "Description: " + r.description)
      && forall k | 0 <= k < |r.links| ::
           ls[h + k] == "Link: " + r.links[k].peerName + " (" + r.links[k].linkType + ")"
  {
    LinkTextsAt(r.links);
    assert "Name" + ": " == "Name: " && "Description" + ": " == "Description: ";
    forall k | 0 <= k < |r.links| ensures LinkText(r.links[k]) == "Link: " + r.links[k].peerName + " (" + r.links[k].linkType + ")" {
      LinkTextIs(r.links[k]);
    }
  }

  /**
   * The lines `save_to_file` writes for location `id` of a store: its name,
   * its description when that is not empty, then one line per entry of its
   * list, in list order, naming the peer by the peer's current name.
   */
  lemma SavedRecordLines(s: Store, id: LocId)
    requires id < |s| && forall l | l in s[id].links :: l.peer < |s|
    ensures var ls := EncodeLines(RecordOf(s, id));
      var links := s[id].links;
      var h := if s[id].description != "" then 2 else 1;
      && |ls| == h + |links|
      && ls[0] == "Name: " + s[id].name
      && (s[id].description != "" ==> ls[1] == "Description: " + s[id].description)
      && forall k | 0 <= k < |links| ::
           ls[h + k] == "Link: " + s[links[k].peer].name + " (" + links[k].linkType + ")"
  {
    var r := RecordOf(s, id);
    EncodedLayout(r);
    assert forall k | 0 <= k < |s[id].links| ::
      r.links[k] == LinkLine(s[s[id].links[k].peer].name, s[id].links[k].linkType);
  }

  lemma LinkTextIs(l: LinkLine)
    ensures LinkText(l) == "Link: " + l.peerName + " (" + l.linkType + ")"
  {
    assert "Link" + ": " == "Link: ";
  }

  lemma {:induction false} LinkTextsAt(links: seq<LinkLine>)
    ensures |LinkTexts(links)| == |links|
    ensures forall k | 0 <= k < |links| :: LinkTexts(links)[k] == LinkText(links[k])
  {
    if links != [] {
      LinkTextsAt(links[1..]);
      LinkTextsCons(links);
    }
  }

  /** What each kind of saved line starts with. */
  lemma NameLineKind(n: string)
    ensures !IsDescriptionLine(KeyLine("Name", n)) && !IsLinkLine(KeyLine("Name", n))
  {
    assert KeyLine("Name", n)[0] == 'N';
  }

  lemma DescriptionLineKind(d: string)
    ensures IsDescriptionLine(KeyLine("Description", d)) && !IsLinkLine(KeyLine("Description", d))
  {
    assert KeyLine("Description", d)[0] == 'D';
    assert KeyLine("Description", d)[..12] == "Description:";
  }

  lemma LinkLineKind(l: LinkLine)
    ensures !IsDescriptionLine(LinkText(l)) && IsLinkLine(LinkText(l))
  {
    assert LinkText(l)[0] == 'L';
    assert LinkText(l)[..6] == "Link: ";
  }

  /** A saved record has a "Description:" line after its first line exactly when its description is not empty. */
  lemma EncodedDescriptionLine(r: Record)
    ensures (exists k | 1 <= k < |EncodeLines(r)| :: IsDescriptionLine(EncodeLines(r)[k]))
            <==> r.description != ""
  {
    var ls := EncodeLines(r);
    LinkTextsAt(r.links);
    if r.description != "" {
      DescriptionLineKind(r.description);
      assert IsDescriptionLine(ls[1]);
    } else {
      forall k | 1 <= k < |ls| ensures !IsDescriptionLine(ls[k]) {
        assert ls[k] == LinkText(r.links[k - 1]);
        LinkLineKind(r.links[k - 1]);
      }
    }
  }

  /** The description loop finds nothing among `Link:` lines. */
  lemma {:induction false} NoDescriptionInLinks(links: seq<LinkLine>)
    ensures FindDescription(LinkTexts(links)) == Some("")
  {
    if links != [] {
      LinkTextsCons(links);
      FindDescriptionCons(LinkTexts(links));
      LinkLineKind(links[0]);
      assert LinkTexts(links)[1..] == LinkTexts(links[1..]);
      NoDescriptionInLinks(links[1..]);
    }
  }

  /** The link loop finds nothing in the head lines. */
  lemma HeadHasNoLinks(r: Record)
    ensures ParseLinks(HeadLines(r)) == []
  {
    var h := HeadLines(r);
    NameLineKind(r.name);
    DescriptionLineKind(r.description);
    CollectCons(ParseLink, h);
    if r.description != "" {
      CollectCons(ParseLink, h[1..]);
      assert h[1..][1..] == [];
    } else {
      assert h[1..] == [];
    }
  }

  // ---- Parsing one line ----

  lemma NoColonInWord(w: string)
    requires forall j | 0 <= j < |w| :: w[j] != ':'
    ensures !Contains(w, ": ")
  {
    NoFirstCharNoMatch(w, ": ");
  }

  /** `Split` of `<key>: <v>` on `": "` when `key` has no colon. */
  lemma SplitKey(key: string, v: string)
    requires forall j | 0 <= j < |key| :: key[j] != ':'
    ensures Split(KeyLine(key, v), ": ") == [key] + Split(v, ": ")
  {
    NoColonInWord(key);
    SplitAfterHead(key, v, ": ");
  }

  /** `Field` of `<key>: <v>` is `v` when `v` is a well-formed field. */
  lemma FieldOfLine(key: string, v: string)
    requires key != [] && !IsSpace(key[0]) && forall j | 0 <= j < |key| :: key[j] != ':'
    requires FieldEncodable(v)
    ensures Field(KeyLine(key, v)) == Some(v)
  {
    var line := KeyLine(key, v);
    assert line[0] == key[0] && line[|line| - 1] == v[|v| - 1];
    StripUnchanged(line);
    SplitKey(key, v);
    SplitWhole(v, ": ");
  }

  /** The text of an encodable link line has no `": "` after its `Link: ` key. */
  lemma LinkValueNoColon(l: LinkLine)
    requires LinkEncodable(l)
    ensures !Contains(l.peerName + " (" + l.linkType + ")", ": ")
  {
    NoColonInWord(" (");
    NoColonInWord(")");
    NotContainsConcat(l.peerName, " (", ": ");
    var x := l.peerName + " (";
    assert x[|x| - 1] == '(';
    NotContainsConcat(x, l.linkType, ": ");
    NotContainsConcat(x + l.linkType, ")", ": ");
  }

  /** A link line is its own `strip()`: it starts with `L` and ends with `)`. */
  lemma StripLinkText(l: LinkLine)
    ensures Strip(LinkText(l)) == LinkText(l)
  {
    var line := LinkText(l);
    assert line[0] == 'L' && line[|line| - 1] == ')';
    StripUnchanged(line);
  }

  /** The pieces of a link line after its `Link` key. */
  lemma SplitLinkText(l: LinkLine)
    ensures Split(Strip(LinkText(l)), ": ") == ["Link"] + Split(l.peerName + " (" + l.linkType + ")", ": ")
  {
    StripLinkText(l);
    SplitKey("Link", l.peerName + " (" + l.linkType + ")");
  }

  /** The value of an encodable link line splits at its `" ("` into the peer name and the type with its `)`. */
  lemma SplitLinkValue(l: LinkLine)
    requires LinkEncodable(l)
    ensures Split(l.peerName + " (" + l.linkType + ")", " (") == [l.peerName, l.linkType + ")"]
  {
    var rest := l.linkType + ")";
    assert l.peerName + " (" + l.linkType + ")" == l.peerName + " (" + rest;
    SplitAfterHead(l.peerName, rest, " (");
    assert !Contains(")", " (") by {
      NoFirstCharNoMatch(")", " (");
    }
    NotContainsConcat(l.linkType, ")", " (");
    SplitWhole(rest, " (");
  }

  /** `ParseLink` of a `Link:` line whose pieces are known. */
  lemma ParseLinkParts(line: string, v: string, peer: string, tail: string)
    requires IsLinkLine(line)
    requires Split(Strip(line), ": ") == ["Link", v] && Split(v, " (") == [peer, tail]
    ensures ParseLink(line) == Some(LinkLine(peer, DropLast(tail)))
  {
  }

  /** An encodable link line parses back to itself. */
  lemma ParseLinkText(l: LinkLine)
    requires LinkEncodable(l)
    ensures ParseLink(LinkText(l)) == Some(l)
  {
    var v := l.peerName + " (" + l.linkType + ")";
    LinkLineKind(l);
    SplitLinkText(l);
    LinkValueNoColon(l);
    SplitWhole(v, ": ");
    SplitLinkValue(l);
    ParseLinkParts(LinkText(l), v, l.peerName, l.linkType + ")");
    assert DropLast(l.linkType + ")") == l.linkType;
  }

  lemma {:induction false} ParseLinkTexts(links: seq<LinkLine>)
    requires forall k | 0 <= k < |links| :: LinkEncodable(links[k])
    ensures ParseLinks(LinkTexts(links)) == links
  {
    if links != [] {
      var ts := LinkTexts(links);
      LinkTextsCons(links);
      CollectCons(ParseLink, ts);
      assert ts[0] == LinkText(links[0]) && ts[1..] == LinkTexts(links[1..]);
      ParseLinkText(links[0]);
      assert forall k | 0 <= k < |links[1..]| :: links[1..][k] == links[k + 1];
      ParseLinkTexts(links[1..]);
      assert [links[0]] + links[1..] == links;
    }
  }

  // ---- No line breaks inside a line ----

  lemma {:induction false} LinkTextsNoLineBreak(links: seq<LinkLine>)
    requires forall k | 0 <= k < |links| :: LinkEncodable(links[k])
    ensures forall k | 0 <= k < |LinkTexts(links)| :: NoLineBreak(LinkTexts(links)[k])
  {
    LinkTextsAt(links);
    forall k | 0 <= k < |links| ensures NoLineBreak(LinkText(links[k])) {
      LinkNoLineBreak(links[k]);
    }
  }

  lemma KeyLineNoLineBreak(key: string, v: string)
    requires NoLineBreak(key) && NoLineBreak(v)
    ensures NoLineBreak(KeyLine(key, v))
  {
    NoLineBreakConcat(key, ": ");
    NoLineBreakConcat(key + ": ", v);
  }

  lemma LinkNoLineBreak(l: LinkLine)
    requires NoLineBreak(l.peerName) && NoLineBreak(l.linkType)
    ensures NoLineBreak(LinkText(l))
  {
    NoLineBreakConcat(l.peerName, " (");
    NoLineBreakConcat(l.peerName + " (", l.linkType);
    NoLineBreakConcat(l.peerName + " (" + l.linkType, ")");
    KeyLineNoLineBreak("Link", l.peerName + " (" + l.linkType + ")");
  }

  /** No line of an encoded record holds a line break, so the file reads back line for line. */
  lemma EncodeLinesNoLineBreak(r: Record)
    requires NoLineBreak(r.name) && NoLineBreak(r.description)
    requires forall k | 0 <= k < |r.links| :: LinkEncodable(r.links[k])
    ensures forall k | 0 <= k < |EncodeLines(r)| :: NoLineBreak(EncodeLines(r)[k])
  {
    KeyLineNoLineBreak("Name", r.name);
    KeyLineNoLineBreak("Description", r.description);
    LinkTextsNoLineBreak(r.links);
    var head := HeadLines(r);
    forall k | 0 <= k < |EncodeLines(r)| ensures NoLineBreak(EncodeLines(r)[k]) {
      if k >= |head| {
        assert EncodeLines(r)[k] == LinkTexts(r.links)[k - |head|];
      } else {
        assert EncodeLines(r)[k] == head[k];
      }
    }
  }

  /** The text of `save_to_file` reads back as the lines it wrote. */
  lemma EncodedLines(r: Record)
    requires Encodable(r)
    ensures Lines(Encode(r)) == EncodeLines(r)
  {
    assert NoLineBreak(r.name) && NoLineBreak(r.description);
    EncodeLinesNoLineBreak(r);
    LinesJoinLines(EncodeLines(r));
  }

  // ---- The round trip ----

  /** The first line of a saved record gives back its name. */
  lemma NameLine(r: Record)
    requires FieldEncodable(r.name)
    ensures EncodeLines(r) != [] && Field(EncodeLines(r)[0]) == Some(r.name)
  {
    FieldOfLine("Name", r.name);
    assert EncodeLines(r)[0] == HeadLines(r)[0];
  }

  /** The description loop over a saved record's lines after the first gives back its description. */
  lemma EncodedDescription(r: Record)
    requires Encodable(r)
    ensures EncodeLines(r) != [] && FindDescription(EncodeLines(r)[1..]) == Some(r.description)
  {
    var ls := EncodeLines(r);
    assert ls[1..] == HeadLines(r)[1..] + LinkTexts(r.links);
    if r.description != "" {
      FieldOfLine("Description", r.description);
      DescriptionLineKind(r.description);
      assert ls[1..][0] == KeyLine("Description", r.description);
      FindDescriptionCons(ls[1..]);
    } else {
      assert ls[1..] == LinkTexts(r.links);
      NoDescriptionInLinks(r.links);
    }
  }

  /** The link loop over a saved record gives back its link lines. */
  lemma EncodedLinks(r: Record)
    requires Encodable(r)
    ensures ParseLinks(EncodeLines(r)) == r.links
  {
    CollectConcat(ParseLink, HeadLines(r), LinkTexts(r.links));
    HeadHasNoLinks(r);
    ParseLinkTexts(r.links);
  }

  /**
   * Round trip: loading the file that `save_to_file` writes gives back the
   * name, the description and every link line in order, provided no field
   * holds `": "`, a line break or trailing white space, no peer name or type
   * holds `" ("`, and no peer name ends with `':'`.
   */
  lemma DecodeEncode(r: Record)
    requires Encodable(r)
    ensures Decode(Encode(r)) == Some(r)
  {
    EncodedLines(r);
    DecodeEncodedLines(r);
  }

  lemma DecodeEncodedLines(r: Record)
    requires Encodable(r)
    ensures DecodeLines(EncodeLines(r)) == Some(r)
  {
    NameLine(r);
    EncodedDescription(r);
    EncodedLinks(r);
    DecodeLinesSome(EncodeLines(r), r.name, r.description);
  }

  /** `DecodeLines` once the name and the description loop are known. */
  lemma DecodeLinesSome(lines: seq<string>, name: string, d: string)
    requires lines != [] && Field(lines[0]) == Some(name) && FindDescription(lines[1..]) == Some(d)
    ensures DecodeLines(lines) == Some(Record(name, d, ParseLinks(lines)))
  {
  }

  /** `DecodeLines` when the description loop fails. */
  lemma DecodeLinesNoDescription(lines: seq<string>)
    requires lines != [] && Field(lines[0]).Some? && FindDescription(lines[1..]).None?
    ensures DecodeLines(lines) == None
  {
  }

  /** `save_to_file` followed by parsing its file: the location's name, description and peer names come back. */
  lemma SavedLocationReadsBack(s: Store, id: LocId)
    requires id < |s| && PeersInStore(s)
    requires Encodable(RecordOf(s, id))
    ensures Decode(Encode(RecordOf(s, id))) == Some(RecordOf(s, id))
  {
    DecodeEncode(RecordOf(s, id));
  }

  // ---- Where the round trip fails ----

  /** The file of a record, read back line by line, when its lines are known to hold no line break. */
  lemma ReadBack(r: Record, ls: seq<string>)
    requires EncodeLines(r) == ls
    requires forall k | 0 <= k < |ls| :: NoLineBreak(ls[k])
    ensures Decode(Encode(r)) == DecodeLines(ls)
  {
    LinesJoinLines(ls);
  }

  /** `(<t>)` holds no `": "` when `t` holds none. */
  lemma ParenthesizedNoColon(t: string)
    requires !Contains(t, ": ")
    ensures !Contains("(" + t + ")", ": ")
  {
    NoColonInWord("(");
    NoColonInWord(")");
    NotContainsConcat("(", t, ": ");
    NotContainsConcat("(" + t, ")", ": ");
  }

  lemma SplitColonPeerValue(b: string, t: string)
    requires !Contains(b, ": ") && !Contains(t, ": ")
    ensures Split((b + ":") + " (" + t + ")", ": ") == [b, "(" + t + ")"]
  {
    assert (b + ":") + " (" + t + ")" == b + ": " + ("(" + t + ")");
    SplitAfterHead(b, "(" + t + ")", ": ");
    ParenthesizedNoColon(t);
    SplitWhole("(" + t + ")", ": ");
  }

  /** `Link: <b>: (<t>)`, the line of a peer named `<b>:`, parses as a link to `<b>` with an empty type. */
  lemma ColonPeerLine(b: string, t: string)
    requires !Contains(b, ": ") && !Contains(b, " (") && !Contains(t, ": ")
    ensures ParseLink(LinkText(LinkLine(b + ":", t))) == Some(LinkLine(b, ""))
  {
    var l := LinkLine(b + ":", t);
    LinkLineKind(l);
    SplitLinkText(l);
    SplitColonPeerValue(b, t);
    SplitWhole(b, " (");
  }

  /** A record without description reads back with its name and the parse of its link lines. */
  lemma DecodeWithoutDescription(r: Record)
    requires FieldEncodable(r.name) && r.description == ""
    ensures DecodeLines(EncodeLines(r)) == Some(Record(r.name, "", ParseLinks(LinkTexts(r.links))))
  {
    var ls := EncodeLines(r);
    NameLine(r);
    assert ls[1..] == LinkTexts(r.links);
    NoDescriptionInLinks(r.links);
    CollectConcat(ParseLink, HeadLines(r), LinkTexts(r.links));
    HeadHasNoLinks(r);
    DecodeLinesSome(ls, r.name, "");
  }

  /** The lines of a record with one link and no description hold no line break. */
  lemma OneLinkNoLineBreak(name: string, l: LinkLine)
    requires NoLineBreak(name) && NoLineBreak(l.peerName) && NoLineBreak(l.linkType)
    ensures var ls := EncodeLines(Record(name, "", [l]));
      forall k | 0 <= k < |ls| :: NoLineBreak(ls[k])
  {
    LinkNoLineBreak(l);
    KeyLineNoLineBreak("Name", name);
    LinkTextsCons([l]);
    assert [l][1..] == [];
    assert EncodeLines(Record(name, "", [l])) == [KeyLine("Name", name), LinkText(l)];
  }

  /** The link loop over the line of a link to `<b>:` gives a link to `<b>` with an empty type. */
  lemma ColonPeerLinks(b: string, t: string)
    requires !Contains(b, ": ") && !Contains(b, " (") && !Contains(t, ": ")
    ensures ParseLinks(LinkTexts([LinkLine(b + ":", t)])) == [LinkLine(b, "")]
  {
    var l := LinkLine(b + ":", t);
    LinkTextsCons([l]);
    assert [l][1..] == [];
    ColonPeerLine(b, t);
    CollectCons(ParseLink, [LinkText(l)]);
    assert [LinkText(l)][1..] == [];
  }

  /**
   * The round trip needs peer names that do not end in `':'`: the line of a
   * link to `<b>:` splits on its second `": "`, so the link comes back as a
   * link to `<b>` with an empty type.
   */
  lemma PeerNameEndingInColon(name: string, b: string, t: string)
    requires FieldEncodable(name)
    requires !Contains(b, ": ") && !Contains(b, " (") && NoLineBreak(b)
    requires !Contains(t, ": ") && NoLineBreak(t)
    ensures Decode(Encode(Record(name, "", [LinkLine(b + ":", t)])))
            == Some(Record(name, "", [LinkLine(b, "")]))
  {
    var l := LinkLine(b + ":", t);
    var r := Record(name, "", [l]);
    NoLineBreakConcat(b, ":");
    OneLinkNoLineBreak(name, l);
    ReadBack(r, EncodeLines(r));
    DecodeWithoutDescription(r);
    ColonPeerLinks(b, t);
  }

  /** `<key>: <blank>` strips down to `<key>:`. */
  lemma StripBlankKeyLine(key: string, d: string)
    requires forall j | 0 <= j < |d| :: IsSpace(d[j])
    ensures Strip(KeyLine(key, d)) == StripStart(key + ":")
  {
    assert KeyLine(key, d) == (key + ":") + (" " + d);
    StripEndSpaces(key + ":", " " + d);
  }

  /** A bare `<key>:` has no `": "`, so it splits into one piece. */
  lemma SplitBareKey(key: string)
    requires forall j | 0 <= j < |key| :: key[j] != ':'
    ensures Split(key + ":", ": ") == [key + ":"]
  {
    NoColonInWord(key);
    TooShortNoMatch(":", ": ");
    NotContainsConcat(key, ":", ": ");
    SplitWhole(key + ":", ": ");
  }

  /** The line of a white-space value strips down to its bare key, which has a single piece. */
  lemma BlankKeyLine(key: string, d: string)
    requires key != [] && !IsSpace(key[0]) && forall j | 0 <= j < |key| :: key[j] != ':'
    requires forall j | 0 <= j < |d| :: IsSpace(d[j])
    ensures Field(KeyLine(key, d)) == None
  {
    StripBlankKeyLine(key, d);
    assert (key + ":")[0] == key[0];
    assert StripStart(key + ":") == key + ":";
    SplitBareKey(key);
  }

  /** The key `Description` is a word without a colon that starts with a letter. */
  lemma DescriptionKey()
    ensures "Description" != [] && !IsSpace("Description"[0])
    ensures forall j | 0 <= j < |"Description"| :: "Description"[j] != ':'
  {
  }

  /**
   * A description made of white space only is written (it is not empty)
   * but cannot be read back: its stripped line `Description:` has no
   * `": "`, and the loader raises.
   */
  lemma BlankDescriptionUnreadable(r: Record)
    requires FieldEncodable(r.name)
    requires r.description != "" && forall j | 0 <= j < |r.description| :: IsSpace(r.description[j])
    requires NoLineBreak(r.description)
    requires forall k | 0 <= k < |r.links| :: LinkEncodable(r.links[k])
    ensures Decode(Encode(r)) == None
  {
    EncodeLinesNoLineBreak(r);
    ReadBack(r, EncodeLines(r));
    DescriptionKey();
    BlankKeyLine("Description", r.description);
    DecodeBadDescription(r);
  }

  /** A record whose description line has no value does not read back. */
  lemma DecodeBadDescription(r: Record)
    requires FieldEncodable(r.name)
    requires r.description != "" && Field(KeyLine("Description", r.description)) == None
    ensures DecodeLines(EncodeLines(r)) == None
  {
    NameLine(r);
    BadDescriptionLine(r);
    DecodeLinesNoDescription(EncodeLines(r));
  }

  lemma BadDescriptionLine(r: Record)
    requires r.description != "" && Field(KeyLine("Description", r.description)) == None
    ensures EncodeLines(r) != [] && FindDescription(EncodeLines(r)[1..]) == None
  {
    var ls := EncodeLines(r);
    DescriptionLineKind(r.description);
    assert ls[1..][0] == KeyLine("Description", r.description);
    FindDescriptionCons(ls[1..]);
  }
}
