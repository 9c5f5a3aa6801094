# Location-Mapper, modelled in Dafny

Location-Mapper keeps a set of named locations. Each has a description and a list of typed links to other locations. It saves each location to a text record `<name>.txt`, loads all records back, renames locations, and finds the shortest route between two locations.

This project models the core of that program:

- **The location graph** (location_manager.py). A location's identity is its index in the manager's list (`Locations.Store`). A link entry `(peer, link_type)` becomes `Link(peer index, type)`, so index equality plays the part of Python's object identity.
  - `add_link`, `remove_link` and `add_location` are methods of the class `LocationManager`, which updates its `locations` field in place. Each method ensures that the new list equals a specification function of the old one (`WithLink`, `RemoveLinkFrom`).
  - `find_link_type` and `find_location` are functions.
  - `remove_link` keeps Python's iterate-while-removing behaviour. The list iterator advances its index whatever the body does, so the entry after a removed one is skipped.
  - `list.remove` raising `ValueError` ends the operation with the lists as they stood at that point (`Outcome(store, ok = false)`).
- **The record codec** (`save_to_file` and the parsing in `load_locations`).
  - Records are modelled as text. The model covers `str.strip`, `str.split(sep)`, `startswith` and `s[:-1]`, and reads a file line by line with universal newlines.
  - `load_locations` walks the directory's files in the order given. It adds each `.txt` record and then attaches its link lines to peers already loaded.
- **The editor** (location_editor.py). `change_name` assigns the new name and then rewrites entries in place in a nested loop. `change_description` assigns the description.
- **The path finder** (path_finder.py).
  - The `networkx` graph is a map from names to neighbour lists, built by the same two loops as the source.
  - The shortest-path query is a breadth-first search, proved to return a shortest path or `None` exactly when none exists.
  - The route renderer is the index loop of the `__main__` block, proved equal to a recursive definition `Route`.

The central invariant is `Symmetric` ("two-sided links"): location `a` holds as many entries `(b, t)` as `b` holds entries `(a, t)`, and a self-link appears an even number of times. `add_link`, `remove_link` and `load_locations` preserve it. On a symmetric store `remove_link` never raises, and, when `a` had no link to `b`, it undoes `add_link`.

## Model

| member | source | states |
|---|---|---|
| Locations.FindLinkTypeFirst | location_manager.py:30-34 | `find_link_type` gives `None` exactly when no entry links to `other`, and otherwise the type of the first entry that does |
| Locations.FindLocation | location_manager.py:68-72 | a location found by `find_location` is in the list and has exactly the name asked for |
| Locations.FindLocationFirst | location_manager.py:68-72 | the location found is the first one with that name; `None` means no location has it |
| Locations.RemoveFirstCounts | location_manager.py:18-19 | `list.remove(x)` removes exactly one copy of `x` when one is present (length drops by one, multiset loses one `x`) and leaves the list unchanged otherwise |
| Locations.RemoveLinkFromFrame | location_manager.py:15-19 | `remove_link(a, b)` changes only the link lists of `a` and `b`; every name and description stays, even when it raises |
| Locations.RemoveLinkKeepsPeers | location_manager.py:15-19 | `remove_link` never adds an entry, so every peer stays a location of the list |
| LinkFacts.FindLinkTypeConcat | location_manager.py:30-34 | over two lists laid end to end, `find_link_type` looks at the second only when the first has no match |
| LinkFacts.AddLinkAppends | location_manager.py:11-13 | `add_link(a, b, t)` appends `(b, t)` to `a`'s list and `(a, t)` to `b`'s (both to `a`'s for a self-link), keeps every other list, and for `a != b` raises both counts by one |
| LinkFacts.AddLinkKeepsPeers | location_manager.py:11-13 | after `add_link` every peer is still a location of the list |
| LinkFacts.CountAfterAdd | location_manager.py:11-13 | every entry count after `add_link` is the old count plus the pair's share |
| LinkFacts.AddLinkKeepsSymmetry | location_manager.py:11-13 | `add_link` keeps the links two-sided |
| LinkFacts.AddLinkFindsType | location_manager.py:11-13 | if `a` had no link to `b` in a two-sided store, afterwards `find_link_type(a, b)` and `find_link_type(b, a)` both return `t` |
| LinkFacts.RemoveLinkNoMatch | location_manager.py:15-19 | once the iterator is past every entry for `b`, nothing more changes and nothing raises |
| LinkFacts.RemoveLinkAbsent | location_manager.py:15-19 | `remove_link(a, b)` when `a` has no entry for `b` leaves every list unchanged |
| LinkFacts.RemoveLinkSkipTo | location_manager.py:16-17 | entries whose peer is not `b` are passed over without change |
| LinkFacts.RemoveLinkSingle | location_manager.py:15-19 | when `a`'s only entry for `b` is `(b, t)` at index `k`, `remove_link` cuts out index `k` and the first `(a, t)` of `b`, and nothing else |
| LinkFacts.RemoveFirstAt | location_manager.py:18 | `list.remove(x)` with the first `x` at index `k` cuts out exactly index `k` |
| LinkFacts.CountAfterRemove | location_manager.py:18-19 | `list.remove(x)` lowers the count of `x` by one and keeps every other count |
| LinkFacts.PartnerPresent | location_manager.py:19 | in a two-sided store the partner `(a, t)` is still in `b`'s list after `(b, t)` left `a`'s list, so `list.remove` does not raise |
| LinkFacts.CountAfterRemovePair | location_manager.py:18-19 | every entry count after one removal step is the old count minus the pair's share |
| LinkFacts.RemoveStepKeepsSymmetry | location_manager.py:18-19 | one removal step on a two-sided store finds the partner entry and keeps the store two-sided |
| LinkFacts.RemoveLinkKeepsSymmetry | location_manager.py:15-19 | on a two-sided store `remove_link` never raises and leaves the store two-sided |
| LinkFacts.AddThenRemove | location_manager.py:11-19 | when `a` had no link to `b` in a two-sided store, `add_link(a, b, t)` then `remove_link(a, b)` gives back the original store, for a self-link too |
| LinkFacts.AddThenRemoveSelf | location_manager.py:11-19 | `remove_link(a, a)` removes both copies a self `add_link(a, a, t)` appended and restores the store |
| LinkFacts.AddThenRemoveFresh | location_manager.py:11-19 | the same round trip, from the two absence facts it uses |
| LinkFacts.RemoveLinkSkipsParallel | location_manager.py:15-19 | with two parallel links of types `t` and `u`, `remove_link` removes the first pair and skips the second, which survives on both sides |
| LocationManagement.LocationManager.constructor | location_manager.py:37-38 | a new manager has no locations |
| LocationManagement.LocationManager.AddLocation | location_manager.py:40-43 | appends a location with the given name and description and no links, returns its id, does not check for duplicate names, and keeps every peer in the list |
| LocationManagement.LocationManager.AddLink | location_manager.py:11-13 | the list becomes `WithLink(old, a, b, t)` and every peer stays in the list |
| LocationManagement.LocationManager.RemoveLink | location_manager.py:15-19 | the in-place loop yields exactly `RemoveLinkFrom(old, a, b, 0)`, including the raised case, and every peer stays in the list |
| LocationManagement.LocationManager.LoadLocations | location_manager.py:45-66 | the nested loops yield exactly `LoadFiles(old, files)`: non-`.txt` files are ignored and an unreadable record stops the load; every peer index stays inside the store, also when the load stops early |
| LocationManagement.LocationManager.AttachRecordLinks | location_manager.py:57-66 | the link-line loop of one record yields exactly `AttachLinks(old, id, links)`, and every peer index stays inside the store |
| LoadFacts.FindLocationAfterAppend | location_manager.py:68-72 | after `add_location`, `find_location` still finds an earlier match, else the new location if it has the name, else nothing |
| LoadFacts.AppendLocationKeepsInvariant | location_manager.py:40-43 | a new location without links keeps the store well formed and two-sided |
| LoadFacts.AttachLinksKeepsInvariant | location_manager.py:58-66 | attaching a record's link lines keeps the store well formed and two-sided |
| LoadFacts.LoadKeepsInvariant | location_manager.py:45-66 | loading any sequence of files into a well-formed, two-sided store keeps it so, also when the load stops early |
| LoadFacts.AttachLinksKeepsFields | location_manager.py:58-66 | attaching links changes no name and no description |
| LoadFacts.LoadRecordAppends | location_manager.py:56 | loading a record adds one location at the end with the record's name and description and renames nothing |
| LoadFacts.AttachLinksUnknown | location_manager.py:64-66 | link lines whose peer is not loaded yet are skipped |
| LoadFacts.UnknownPeersIgnored | location_manager.py:58-66 | a record all of whose peers are missing loads as a location without links |
| LoadFacts.PairRestoredOnce | location_manager.py:58-66 | for two records holding only the pair's line, a pair saved in both files is restored as exactly one two-sided link: the first record's line finds no peer and is skipped, the second record's line links both sides (swapping the names covers the other order) |
| LoadFacts.PairRestoredAmong | location_manager.py:56-66 | with any other link lines around the pair's (naming neither end), loading `p`'s record, then any records `mids` (naming anything), then `q`'s record gives `p` exactly one entry `(q, t)` and `q` exactly one entry `(p, t)`, and no entry of another type between them |
| LoadFacts.LoadFilesEnds | location_manager.py:45-56 | a listing of readable `.txt` files loads as its first record, then its middle records, then its last, so PairRestoredAmong applies to any listing with `p`'s file first and `q`'s file last |
| LoadFacts.LoadReadableFiles | location_manager.py:45-56 | a listing of readable `.txt` files loads without error as its records, one after another, in listing order |
| LoadFacts.LoadRecordsKeepsCount | location_manager.py:56-66 | loading further records leaves the number of entries `(y, u)` in an earlier location `x`'s list unchanged, when `y` is not one of the new locations |
| LoadFacts.AttachLinksAtOthers | location_manager.py:58-66 | a record's link lines change no other location's count of entries `(y, u)` unless `y` is the record's own location |
| LoadFacts.LoadRecordsAppends | location_manager.py:56 | loading further records renames no location already loaded |
| LoadFacts.AttachLinksKeepsCount | location_manager.py:58-66 | link lines that name neither `x` nor `y` leave the number of entries `(y, u)` in `x`'s list unchanged |
| LoadFacts.AttachLinksConcat | location_manager.py:58-66 | reading link lines `xs + ys` is reading `xs`, then `ys` |
| LoadFacts.SavedPairLoadsOnce | location_manager.py:45-66 | the two files `save_to_file` writes for a pair linked once load back as that one pair and nothing else (stated for one listing order; swapping the names gives the other) |
| LoadFacts.LoadTwoFiles | location_manager.py:46-56 | two readable `.txt` files load as their two records in order |
| LoadFacts.SelfLinkDoubledOnLoad | location_manager.py:58-66 | a self-link saved as its two entries loads back as four entries |
| Records.EncodedLayout | location_manager.py:24-28 | the record's lines are `Name: <name>`, then `Description: <d>` only when `d` is not empty, then `Link: <peer> (<type>)` per entry in list order |
| Records.SavedRecordLines | location_manager.py:21-28 | for a location of the store, the saved lines are `Name: <name>`, `Description: <d>` only when `d` is not empty, then line `h + k` is `Link: <current name of the k-th peer> (<k-th type>)`, with `h` 2 or 1 |
| Records.EncodedDescriptionLine | location_manager.py:25-26 | a line after the first starts with `Description:` exactly when the description is not empty |
| Records.EncodedLines | location_manager.py:52 | reading the written file line by line gives back the lines written |
| Records.FieldOfLine | location_manager.py:50 | `line.strip().split(": ")[1]` of `<key>: <v>` is `v` for a value without `": "`, line breaks or trailing white space |
| Records.FindDescriptionFirst | location_manager.py:52-55 | the description is the value of the first `Description:` line, `""` when there is none |
| Records.ParseLinkText | location_manager.py:59-63 | the line written for a link parses back to that link, an empty type `()` to `""` |
| Records.ParseLinkTexts | location_manager.py:58-63 | the link lines of a record parse back to its links, in order |
| Records.EncodedDescription | location_manager.py:51-55 | the description read from a written record is the one saved, `""` when none was |
| Records.EncodedLinks | location_manager.py:57-63 | the link loop over the whole written record, the `Name:` and `Description:` lines included, finds exactly the saved links |
| Records.DecodeEncode | location_manager.py:21-63 | a record with encodable fields reads back as itself |
| Records.DecodeEncodedLines | location_manager.py:50-63 | the same round trip on the lines |
| Records.SavedLocationReadsBack | location_manager.py:21-63 | the record saved for a location with encodable fields reads back as that record |
| Records.DecodeWithoutDescription | location_manager.py:51 | a record saved without a description reads back with description `""` |
| Records.PeerNameEndingInColon | location_manager.py:60-62 | a peer name ending in `:` reads back without the colon and with type `""`, so the round trip needs peer names that do not end in `:` |
| Records.BlankDescriptionUnreadable | location_manager.py:54 | a description made only of white space is written but makes the record unreadable |
| Records.DecodeBadDescription | location_manager.py:54 | a written `Description:` line without a readable value makes the whole record unreadable |
| Text.TrimEndSpaces | location_manager.py:50 | `rstrip` stops exactly after the last non-space character |
| Text.StripEndSpaces | location_manager.py:50 | `rstrip` of a text followed by white space is that text |
| Text.TrimStartSpaces | location_manager.py:50 | what `lstrip` drops is white space |
| Text.StripUnchanged | location_manager.py:50 | `strip` leaves a text without white space at its ends unchanged |
| Text.FindFromFirst | location_manager.py:50 | `split` cuts at the first occurrence of the separator from where it stands |
| Text.JoinSplit | location_manager.py:50 | joining the parts of `split(sep)` with `sep` gives back the text |
| Text.SplitAfterHead | location_manager.py:50 | splitting `a + sep + b`, where `a` has no `sep`, gives `a` and then the parts of `b` |
| Text.SplitWhole | location_manager.py:62 | a text without the separator splits into itself alone |
| Text.DropLast | location_manager.py:63 | `s[:-1]` drops the last character, and is empty for an empty text |
| Text.LinesJoinLines | location_manager.py:52 | lines without line breaks, each written with `"\n"`, are read back unchanged |
| PathFinding.AddNodes | path_finder.py:8-9 | the graph's nodes are exactly the location names, without edges yet |
| PathFinding.AddEdgeNeighbours | path_finder.py:14 | `add_edge(u, v)` makes `u` and `v` neighbours both ways, adds nothing else, and never lists a neighbour twice |
| PathFinding.AddLinkEdges | path_finder.py:13-14 | the inner loop adds one undirected edge per entry of one location |
| PathFinding.AddEdges | path_finder.py:12-14 | after both loops two names are neighbours exactly when some entry joins them in either direction |
| PathFinding.BuildGraph | path_finder.py:5-14 | the nodes are the location names, and `y` is a neighbour of `x` exactly when some entry links a location named `x` to one named `y` or back; parallel links give one edge |
| PathFinding.PairsFrom | path_finder.py:12-14 | the pairs visited by the loops are exactly the (location name, peer name) pairs of all entries |
| PathFinding.PairsEdge | path_finder.py:12-14 | a pair in either order is visited exactly when the names are joined by an entry |
| PathFinding.NextLayer | path_finder.py:17 | one breadth-first layer keeps every found path shortest and either finds a new name or ends the search |
| PathFinding.FoundShortest | path_finder.py:17 | a name found by the search has a path no longer than any other path to it |
| PathFinding.NotFoundUnreachable | path_finder.py:19-20 | a name the finished search did not find has no path at all |
| PathFinding.ReachableFound | path_finder.py:17-20 | every name with a path from the start is found by the finished search |
| PathFinding.ShortestPath | path_finder.py:16-20 | the result is a path from start to end no longer than any other, and `None` exactly when there is no path |
| PathFinding.PathsAreRoutes | path_finder.py:12-17 | paths of the graph are exactly the routes along links of the store |
| PathFinding.FindShortestPath | path_finder.py:4-20 | `find_shortest_path` returns a route along links from start to end no longer than any other, and `None` exactly when the two names are not connected |
| PathFinding.StepLabel | path_finder.py:36 | a step has a label exactly when both names are found and the first has an entry for the second |
| PathFinding.RenderRoute | path_finder.py:31-39 | the index loop builds exactly `Route(path)` |
| PathFinding.RouteStep | path_finder.py:33-39 | one turn of the loop appends the name, then its label and `" -> "` unless it is the last name, or fails on a missing link type |
| PathFinding.RouteFails | path_finder.py:36-38 | rendering fails exactly when some step between consecutive names has no link type |
| PathFinding.TypedRoute | path_finder.py:31-39 | when step `i` follows a link of type `types[i]` (both names found, `find_link_type` gives `types[i]`), the route is each name followed by `" (<type>)"`, or nothing for an empty type, joined by `" -> "` with no trailing arrow |
| PathFinding.UntypedRoute | path_finder.py:33-39 | when every step has an empty type, the route is the names joined by `" -> "` |
| PathFinding.RouteEnds | path_finder.py:33-39 | a rendered route starts with the first name and ends with the last, with no trailing arrow |
| PathFinding.FirstWithName | location_manager.py:68-72 | with unique names, `find_location` of a location's name finds that location |
| PathFinding.StepOnEdge | path_finder.py:36 | with unique names and two-sided links, every graph edge has a link type in the direction walked |
| PathFinding.RouteRenders | path_finder.py:30-39 | with unique names and two-sided links, every route `find_shortest_path` can return renders |
| LocationEditing.LocationEditor.constructor | location_editor.py:7-8 | the editor works on the given manager |
| LocationEditing.LocationEditor.ChangeName | location_editor.py:10-22 | an empty name changes nothing; otherwise the list becomes `Renamed(old, loc, newName)` (name assigned, then entries redirected in place), and every peer stays in the list |
| LocationEditing.LocationEditor.RedirectEntries | location_editor.py:20-22 | the inner loop replaces, at its index, each entry whose peer is now named `old_name` by an entry to the renamed location of the same type, and changes nothing else |
| LocationEditing.LocationEditor.ChangeDescription | location_editor.py:36-37 | only the description of the location changes |
| LocationEditing.RedirectedKeepsPeers | location_editor.py:19-22 | redirected entries point at a location of the list |
| LocationEditing.RenamedShape | location_editor.py:15-22 | after a rename the location has the new name, no other name or description changes, no list changes length or link type, and an entry changes exactly when its peer is another location named like the renamed one, in which case it now points at the renamed location |
| LocationEditing.RenameUniqueKeepsLinks | location_editor.py:19-22 | with unique names the rewrite loop changes no entry |
| LocationEditing.RenameUniqueKeepsPairs | location_editor.py:15-22 | with unique names a rename to any new name keeps links two-sided and every `find_link_type` answer, and the location is no longer found by its old name |
| LocationEditing.RenameUniqueFinds | location_editor.py:15-22 | with unique names and a new name no other location has, names stay unique and the location is found by its new name |
| LocationEditing.NamesakeRenameBreaksPairs | location_editor.py:16-22 | renaming one of two linked namesakes points its own entry at itself and breaks the two-sided invariant |
| LocationEditing.DescribedKeepsRest | location_editor.py:36-37 | `change_description` changes no name, no link and no `find_location` answer, and keeps both invariants |

## Left out

- The Tkinter classes `Application` and `LocationEditorUI`, the `messagebox` calls and all of location_visualizer.py. They are user interface and drawing, with no graph logic of their own.
- File-system effects: opening, writing and listing files, `os.rename` and the "save all" after a rename. The directory is a given sequence of `(file name, text)` pairs in listing order, and a saved record is its text.
- `print` in the `__main__` block of path_finder.py. The route is returned as a string instead.
- The sort by name in location_manager.py:80 only orders the display.
- networkx's choice among equally short paths. The model runs its own breadth-first search; its result is as short as any, but it need not be the path networkx returns.
- Python exceptions are modelled as results.
  - `ValueError` from `remove_link` and `IndexError` from `load_locations` give a result with `ok = false`.
  - The renderer returns `None` in two cases:
    - a route step has no link type, so the source raises `TypeError`;
    - a step's first name is not found, so `find_location` returns `None` and `.find_link_type` raises `AttributeError` (path_finder.py:36).
- PathFinding.FindShortestPath: requires both names to be location names. networkx raises `NodeNotFound` for an unknown name, and the source does not catch it.
- LocationEditing.LocationEditor.ChangeName: requires every peer to be a location of the list. This always holds in the source: every peer comes from a `find_location` result (location_manager.py:64-66, 173-177), and nothing removes a location from the list.
- Records.DecodeEncode: proved only for encodable records.
  - The name must be non-empty.
  - Name and description must have no `": "`, no line break and no trailing white space.
  - Peer names and link types must have no `": "`, no `" ("` and no line break, and a peer name must not end in `:`.
  - PeerNameEndingInColon and BlankDescriptionUnreadable show the round trip failing outside these conditions.
- LocationEditing.RenameUniqueKeepsPairs and RenameUniqueFinds: proved only for stores with unique names, because `add_location` and `change_name` do not enforce them. NamesakeRenameBreaksPairs shows what a rename does otherwise.
- LoadFacts.PairRestoredAmong: proved only when `p`'s record is read first and `q`'s last, the store holds neither name, and the pair's two records have no other link lines naming `p` or `q`. Such a further line adds another entry between them. The records read in between are unconstrained.
- `load_locations` reads the records in one pass.
  - A link line adds a link only when its peer is already in the store, so each pair is restored when the later of its two records is read.
  - The first unreadable record stops the load, so later files are not read; the model stops there too.
- `add_location` and `change_name` raise no duplicate-name, empty-name or not-found error: `add_location` accepts any name and `change_name` accepts any non-empty one, so the model has no such errors either.
