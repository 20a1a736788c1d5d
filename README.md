# Idiom graph

A Dafny model of the in-memory idiom graph behind a word-chain ("成语接龙")
service. A dictionary of idioms is loaded once, one idiom per input line.
Every line is trimmed of surrounding white space. A line of at least two runes
is kept under a fresh integer id, and a later duplicate replaces an earlier one.

A build loop then walks the idiom table in Go's unspecified map order and does
two things:

- It fills three indices, keyed by the first rune, the last rune and the
  (first, last) pair of runes.
- It wires a directed chain graph with an edge A→B whenever A's last rune is
  B's first and A ≠ B.

Once the loop is done, the finished graph is handed to a shortest-path library
(idioms/idiom_graph.go, line 124).

After loading, the graph only answers read-only queries:

- `Find`: an idiom by its text.
- `BeginWith`, `EndWith`, `BeginEndWith`: pages of a bucket, selected by
  `normalize(offset, length)`.
- `ShortestPath`: a shortest chain between two idioms.

How the model is laid out:

- `seqs.dfy`: small lemmas that regroup sequence concatenations.
- `runes.dfy`: text as a sequence of runes, plus `strings.TrimSpace` over the
  Unicode white-space set.
- `line_reader.dfy`:
  - The input is a stream, i.e. its data followed by either end of file or a
    read error.
  - `bufio.Reader.ReadString('\n')` is a pure function of the stream and a
    position.
  - `Lines` is the split of the data at newlines.
- `idiom.dfy`:
  - Idiom nodes and `IsValidIdiom`.
  - `Accept`, the idioms the read loop keeps, in input order.
  - `Register`, the idiom table the read loop leaves behind.
- `index.dfy`: `IndexBy` gives the three indices the build loop produces after
  visiting the idioms in a given order. It comes with lemmas on bucket
  membership, counts and order independence.
- `chain.dfy`: the chain graph's edge set as a function of the loaded idioms,
  and chains (paths) over it.
- `paging.dfy`: `normalize` and the page a query returns.
- `idiom_graph.dfy`: the class `IdiomGraph`, covering the loader with its read
  loop and build loop, and the queries.
  - The build loop picks the next idiom with `:|`, an arbitrary choice among
    those not yet visited.
  - A ghost field `order` records the order taken.
  - The class invariant `Valid()` ties the indices to `IndexBy(idioms, order, key)`
    and the edges to the edge specification.
  - Because that invariant holds for every order, the edge set and the bucket
    contents are the same whatever order Go's map iteration takes
    (`OrderIndependent`).

## Model

| member | source | states |
|---|---|---|
| Runes.IsSpace | idioms/idiom_graph.go:86 | `unicode.IsSpace`: the runes with the Unicode White_Space property (tab, newline, vertical tab, form feed, carriage return, space, U+0085, U+00A0, U+1680, U+2000-U+200A, U+2028, U+2029, U+202F, U+205F, U+3000) |
| Runes.TrimSpace | idioms/idiom_graph.go:86 | `strings.TrimSpace`: leading white space cut, then trailing white space cut. What that amounts to is stated by the lemmas below |
| Runes.TrimLeftCuts | idioms/idiom_graph.go:86 | trimming the front cuts only white space and leaves a text that is empty or does not begin with white space |
| Runes.TrimRightCuts | idioms/idiom_graph.go:86 | trimming the back cuts only white space and leaves a text that is empty or does not end with white space |
| Runes.TrimSpaceTrims | idioms/idiom_graph.go:86 | the trimmed line is an infix of the line: only white space is cut at either end, and it neither begins nor ends with white space |
| Runes.TrimmedUnique | idioms/idiom_graph.go:86 | there is only one such infix, so the trimmed line is determined by the line |
| Runes.TrimSpaceIs | idioms/idiom_graph.go:86 | any cut that removes only white space and leaves no white space at either end is what trimming returns |
| Runes.TrimSpaceDropsTrailingSpace | idioms/idiom_graph.go:81-86 | a line read together with its newline trims to the same idiom as the line without it |
| Runes.TrimSpaceKeeps | idioms/idiom_graph.go:86 | a text with no white space at either end is left unchanged by trimming |
| Runes.TrimSpaceIdempotent | idioms/idiom_graph.go:86 | trimming an already trimmed line changes nothing |
| LineReader.NextNewline | idioms/idiom_graph.go:81 | the position of the first newline at or after `pos`, or the end of the data when there is none |
| LineReader.ReadString | idioms/idiom_graph.go:81-84 | the chunk is the data from `pos` on, ending just past a newline when delimited and at the end of the data otherwise. It reports the stream's error exactly when it stops undelimited on a failing stream |
| LineReader.ReadStringStopsAtNewline | idioms/idiom_graph.go:81 | the read is delimited if and only if a newline is left; a delimited chunk ends with its only newline, an undelimited one has none |
| LineReader.LinesFrom | idioms/idiom_graph.go:80-94 | the lines from a position on: the pieces between newlines, the last one being the text after the final newline, so there is always at least one |
| LineReader.Lines | idioms/idiom_graph.go:80-94 | the lines of the whole input, the split whose properties the lemmas below state |
| LineReader.LinesNoNewline | idioms/idiom_graph.go:80-94 | the lines the input splits into contain no newline |
| LineReader.JoinLines | idioms/idiom_graph.go:80-94 | those lines, joined with newlines, give back the input |
| LineReader.LinesOfJoinAfter | idioms/idiom_graph.go:80-94 | after any prefix ending a line, splitting newline-free lines joined with newlines gives back exactly those lines |
| LineReader.LinesOfJoin | idioms/idiom_graph.go:80-94 | splitting newline-free lines joined with newlines gives back exactly those lines |
| LineReader.ReadStringTakesFirstLine | idioms/idiom_graph.go:80-94 | one `ReadString` at a line start consumes exactly the first remaining line; the rest of the lines are those after it |
| LineReader.JoinAppend | idioms/idiom_graph.go:80-94 | joining one more line appends a newline and that line |
| LineReader.LastLineWithoutNewline | idioms/idiom_graph.go:81-93 | text after the last newline is a line of its own, even with no newline after it |
| Idiom.IsValidIdiom | idioms/idiom_graph.go:48-52 | an idiom is valid when it has at least two runes |
| Idiom.Begin | idioms/idiom_graph.go:100-101 | the first rune of an idiom, the key of `bindex` |
| Idiom.End | idioms/idiom_graph.go:100-101 | the last rune of an idiom, the key of `eindex` |
| Idiom.BeKeyOf | idioms/idiom_graph.go:111 | the (first rune, last rune) pair, the key of `beindex` |
| Idiom.Accepted | idioms/idiom_graph.go:80-94 | the idioms the read loop keeps from the whole input, in input order: `Accept` over the input's lines |
| Idiom.Accept | idioms/idiom_graph.go:86-90 | every kept idiom has at least two runes, and no more idioms are kept than there are lines |
| Idiom.AcceptMembers | idioms/idiom_graph.go:86-90 | a text is kept if and only if it has at least two runes and some line trims to it |
| Idiom.Kept | idioms/idiom_graph.go:86-87 | one line contributes at most one idiom, and only a valid one |
| Idiom.AcceptAppend | idioms/idiom_graph.go:86-90 | one more line keeps the idioms kept so far followed by what that line contributes |
| Idiom.Register | idioms/idiom_graph.go:88-89 | the table the read loop leaves: the i-th accepted idiom stored under its text with id i, a later one overwriting an earlier one with the same text |
| Idiom.RegisterLastWins | idioms/idiom_graph.go:88-89 | the table's keys are exactly the accepted idioms. Each is stored under its own text with the id of its last occurrence, which is below the number of accepted lines |
| Idiom.RegisterIdsDistinct | idioms/idiom_graph.go:88-89 | two different stored idioms have different ids |
| Idiom.RegisterAppend | idioms/idiom_graph.go:88-89 | accepting one more idiom stores it under the next id, replacing any earlier entry for the same text |
| Idiom.RegisterWellFormed | idioms/idiom_graph.go:86-89 | a table built from accepted idioms holds only valid idioms under their own text, with distinct ids |
| Idiom.AcceptReadLine | idioms/idiom_graph.go:81-93 | the idioms accepted from the rest of the input are the current line's, if kept, followed by those of the lines after it when the line ended with a newline |
| Idiom.ReadLoopStep | idioms/idiom_graph.go:80-94 | one turn of the read loop preserves "stored so far + accepted from the rest = accepted from the whole input"; after the line that ends the input, what was stored is everything |
| Idiom.LoadedIdioms | idioms/idiom_graph.go:80-94 | after loading, a text is a key if and only if it is valid and some input line trims to it. Its id is the position of its last occurrence among the accepted lines |
| Idiom.LastLineLoaded | idioms/idiom_graph.go:81-93 | a valid final line with no newline after it is still stored, with the id of the last accepted line |
| Index.Lookup | idioms/idiom_graph.go:104-114 | Go's lookup of a map of slices: the bucket for a key, or the empty (nil) slice when the key is absent |
| Index.IndexBy | idioms/idiom_graph.go:111-114 | an index after visiting the idioms in a given order: each visited node appended, in visit order, to the bucket of its key |
| Index.BucketCount | idioms/idiom_graph.go:99-114 | after visiting `order`, a node occurs once in the bucket for key c if its idiom was visited, is stored as that node and has key c; otherwise it does not occur |
| Index.BucketMembers | idioms/idiom_graph.go:99-114 | a node is in a bucket if and only if it is a visited stored node with the bucket's key |
| Index.BucketOrderIrrelevant | idioms/idiom_graph.go:99 | two visit orders of the same idioms give every bucket the same multiset of nodes |
| Index.BucketGrows | idioms/idiom_graph.go:112-114 | visiting one more idiom appends its node to its own bucket and leaves every other bucket unchanged |
| Index.BucketHasVisited | idioms/idiom_graph.go:112-114 | every visited idiom's node is in the bucket of its key |
| Index.BucketFollowsOrder | idioms/idiom_graph.go:112-114 | inside a bucket, nodes appear in the order they were visited: of any two visited idioms with the same key, the earlier one's node sits at an earlier position |
| Index.BucketOfTwo | idioms/idiom_graph.go:112-114 | two idioms with the same key visited in turn give the bucket of exactly their two nodes, in that order |
| Index.BucketOrderMatters | idioms/idiom_graph.go:99 | visiting the same two idioms the other way round gives a different bucket, so the order inside a bucket depends on Go's map iteration order |
| Index.IndexesAppend | idioms/idiom_graph.go:111-114 | visiting one more stored, unvisited idiom with an append to its bucket in each of the three indices keeps the indices exact for the longer visit order |
| Index.MembersAppend | idioms/idiom_graph.go:99 | visiting one more idiom adds it to the visited set |
| Index.EntriesAppend | idioms/idiom_graph.go:112-114 | an append to one bucket adds exactly one entry to the index |
| Index.IndexEntries | idioms/idiom_graph.go:99-114 | after visiting `order`, an index holds one entry per visited idiom |
| Chain.ChainEdges | idioms/idiom_graph.go:103-109 | the edge set the two wiring loops produce over a set of idioms: A→B for every two of them with A ≠ B and A's last rune equal to B's first |
| Chain.ChainEdgesAdd | idioms/idiom_graph.go:103-109 | adding an idiom adds exactly the edges into it from the idioms already present that end with its first rune, and the edges out of it to those that begin with its last rune |
| Chain.NoSelfEdge | idioms/idiom_graph.go:104-114 | the chain graph has no self edge |
| Chain.ChainLinksRunes | idioms/idiom_graph.go:177 | in a chain, consecutive idioms are loaded, differ, and link last rune to first rune |
| Chain.ChainStaysInGroup | idioms/idiom_graph.go:177 | a chain that starts in a group with no outgoing rune link never leaves it |
| Chain.NoChainAcrossGroups | idioms/idiom_graph.go:177 | between such groups there is no chain, so the empty path is the documented answer |
| Chain.ThreeIdiomChain | idioms/idiom_graph.go:99-121 | for 爱屋及乌, 乌烟瘴气 and 气壮山河 the edges are exactly the two links, and the three-idiom chain is a shortest one |
| Chain.ThreeIdiomAnswer | idioms/idiom_graph.go:177-188 | in that three-idiom graph, the only answer for 爱屋及乌 to 气壮山河 is [爱屋及乌, 乌烟瘴气, 气壮山河] |
| Chain.ShortestPathToItself | idioms/idiom_graph.go:177-188 | the answer for a path from an idiom to itself is the one-idiom path [x], never empty |
| Paging.Normalize | idioms/idiom_graph.go:134-149 | 0 ≤ start ≤ end ≤ slicelen. A negative offset counts as 0, a negative length reaches the end, an offset at or past the end gives (slicelen, slicelen), and otherwise the range is (offset, min(offset + length, slicelen)) |
| Paging.NormalizeAsWritten | idioms/idiom_graph.go:134-149 | with 64-bit `int` wrap-around at line 141, the result agrees with `Normalize` wherever `offset + length` does not overflow |
| Paging.NormalizeOverflow | idioms/idiom_graph.go:141 | offset 1 with the largest length makes the end wrap below the start; the intended range is the tail of the bucket |
| Paging.Window | idioms/idiom_graph.go:151-161 | the page is the contiguous run of the bucket starting at the clamped offset, of the requested length when it fits, to the end of the bucket otherwise, and empty past the end |
| Paging.WindowNegativeOffset | idioms/idiom_graph.go:135-137 | a negative offset gives the same page as offset 0 |
| Paging.WindowWhole | idioms/idiom_graph.go:138-140 | offset 0 with a negative length gives the whole bucket |
| Paging.WindowPastEnd | idioms/idiom_graph.go:142-144 | an offset at or past the end gives an empty page |
| Paging.WindowsTile | idioms/idiom_graph.go:151-161 | consecutive pages concatenate to the page covering both |
| IdiomGraphs.IdiomGraph.Load | idioms/idiom_graph.go:67-127 | a read error other than end of file yields no graph and that error. Otherwise the graph is valid and its table is the registered accepted lines of the whole input, the final unterminated line included |
| IdiomGraphs.IdiomGraph.FromTable | idioms/idiom_graph.go:97-121 | from a well-formed table, the build loop leaves a valid graph over the same table |
| IdiomGraphs.IdiomGraph.Build | idioms/idiom_graph.go:97-121 | for any order in which the idioms are visited, all idioms end up indexed and the edges are exactly the chain edges between them |
| IdiomGraphs.IdiomGraph.Visit | idioms/idiom_graph.go:99-115 | visiting one more idiom keeps indices, nodes and edges exact for the visited set |
| IdiomGraphs.IdiomGraph.AddNode | idioms/idiom_graph.go:103 | the node's id joins the graph; its precondition that the id is new holds at every call, so the library never reports an id collision |
| IdiomGraphs.IdiomGraph.SetEdge | idioms/idiom_graph.go:105-108 | the edge and its end points join the graph; its precondition that the end points differ holds at every call |
| IdiomGraphs.IdiomGraph.WireInto | idioms/idiom_graph.go:104-106 | adds exactly the edges into the node from the visited idioms that end with its first rune |
| IdiomGraphs.IdiomGraph.WireOutOf | idioms/idiom_graph.go:107-109 | adds exactly the edges out of the node to the visited idioms that begin with its last rune |
| IdiomGraphs.IdiomGraph.SetEdgesInto | idioms/idiom_graph.go:104-106 | the edges from every node of the bucket into the node are added, and the graph's node set is unchanged |
| IdiomGraphs.IdiomGraph.SetEdgesOutOf | idioms/idiom_graph.go:107-109 | the edges from the node to every node of the bucket are added, and the graph's node set is unchanged |
| IdiomGraphs.IdiomGraph.Index | idioms/idiom_graph.go:111-114 | appends the node to the bucket of its key in each index and records it as visited |
| IdiomGraphs.IdiomGraph.Find | idioms/idiom_graph.go:129-132 | a node is returned if and only if the text is loaded, and it is the node stored for that text |
| IdiomGraphs.IdiomGraph.BeginWith | idioms/idiom_graph.go:151-161 | the page of the first-rune bucket. Every node in it is stored and begins with the rune, and with no such idiom the page is empty |
| IdiomGraphs.IdiomGraph.EndWith | idioms/idiom_graph.go:163-168 | the page of the last-rune bucket. Every node in it is stored and ends with the rune, and with no such idiom the page is empty |
| IdiomGraphs.IdiomGraph.BeginEndWith | idioms/idiom_graph.go:170-175 | the page of the (first, last) bucket. Every node in it has both boundary runes, and with no such idiom the page is empty |
| IdiomGraphs.IdiomGraph.ShortestPath | idioms/idiom_graph.go:177-188 | returns the library's path unchanged. When it is non-empty it starts at b, ends at e, and links each idiom's last rune to the next one's first; for b = e it is [b] |
| IdiomGraphs.CopyPath | idioms/idiom_graph.go:182-185 | the copied path equals the library's path |
| IdiomGraphs.AnswerAsNodes | idioms/idiom_graph.go:177-188 | a shortest-path answer over stored nodes starts at b, ends at e, and each node differs from the next and ends with the rune the next one begins with; for b = e it is [b] |
| IdiomGraphs.IdiomGraph.BucketInvariant | idioms/idiom_graph.go:99-114 | in each index, a node occurs exactly once in the bucket of its own key and in no other bucket |
| IdiomGraphs.IdiomGraph.IndexSizes | idioms/idiom_graph.go:99-114 | each index holds as many entries as there are idioms |
| IdiomGraphs.IdiomGraph.EdgeInvariant | idioms/idiom_graph.go:99-121 | A→B is an edge if and only if both are loaded, A ≠ B and A's last rune is B's first; the graph's nodes are all the loaded ids |
| IdiomGraphs.OrderIndependent | idioms/idiom_graph.go:99 | two graphs built from the same table have the same edges and nodes, and every bucket has the same multiset of nodes |
| IdiomGraphs.FindAfterLoad | idioms/idiom_graph.go:129-132 | on a loaded graph, `Find` succeeds if and only if some input line trims to a valid idiom equal to the text. The node found has the id of the last occurrence |
| IdiomGraphs.BucketIsVisited | idioms/idiom_graph.go:104-109 | before an idiom is visited, its buckets hold only earlier visited nodes, so the wiring never meets the idiom itself |
| IdiomGraphs.EdgesFromBucket | idioms/idiom_graph.go:104-106 | the edges wired from the last-rune bucket are exactly the chain edges into the idiom from the visited ones |
| IdiomGraphs.EdgesToBucket | idioms/idiom_graph.go:107-109 | the edges wired to the first-rune bucket are exactly the chain edges out of the idiom to the visited ones |
| IdiomGraphs.BucketExactly | idioms/idiom_graph.go:157-175 | once every idiom is visited, a bucket holds exactly the stored nodes with its key |
| Index.IndexByAppend | idioms/idiom_graph.go:112-114 | visiting one more idiom appends its node to the bucket of its key |
| IdiomGraphs.BucketIds | idioms/idiom_graph.go:104-109 | before an idiom is visited, every node in one of its buckets is already a graph node and has a different id, so each `SetEdge` of the wiring loops is allowed |
| IdiomGraphs.IdsOfFresh | idioms/idiom_graph.go:103 | an unvisited idiom's id is not yet in the graph |

## Left out

- The shortest-path computation (`path.DijkstraAllPaths`, `Between`, lines 124 and 179) is a call into the gonum library. `ShortestPath` takes the library's answer as a parameter. Its precondition is the answer `ShortestPath` documents: empty when there is no chain, otherwise a shortest chain from `b` to `e`.
- Edge weights (`kSelfWeight`, `kNormalWeight`, `kAbsentWeight`, lines 58-60) are floats that only the shortest-path library reads, so they are not modelled. All edges have the same weight.
- The graph library's internal representation is not modelled. The graph is a set of node ids and a set of edges between idiom texts. Its two failure cases become preconditions: a repeated node id in `AddNode` and a self edge in `SetEdge`.
- `runtime.GC()` and the `gcnum` counter (lines 95, 98, 116-122, 125) only affect memory and are not modelled.
- UTF-8 decoding in `[]rune(...)`, including invalid bytes, is not modelled. Text is already the sequence of runes.
- The reader is modelled as a stream: its data, then end of file or an error. A reader that fails part-way yields its data up to the failure, then the error. Byte-level buffering of `bufio.Reader` is not modelled.
- IdiomGraphs.IdiomGraph.ShortestPath: the comment at line 177 promises an empty result only when no path exists; for `b == e` the library (`path.AllShortest.Between`) returns the one-idiom path `[b]`, and the model follows it (`Chain.ShortestPathToItself`).
- `IdiomNode.MarshalJSON` and `IdiomNode.ID` (lines 19-25) are JSON and library plumbing. The node's id and text are plain fields of `IdiomNode`.
- Paging.Normalize: computed on unbounded integers, so it does not show the 64-bit wrap-around of `offset + length` at line 141. `NormalizeAsWritten` models that wrap-around; see Findings.
- idioms/urls.go (HTTP handlers, form parsing, JSON responses) and idioms/main.go (flags, file opening, server start-up and shutdown) are not part of this model.

## Findings

| source | as written | input that shows it | evidently intended | confidence | as-written member | corrected member |
|---|---|---|---|---|---|---|
| idioms/idiom_graph.go:141 | `offsetend := offset + length` wraps around on 64-bit `int`, so `end` can fall below `start` and `nodes[start:end]` panics | `BeginWith(w, 1, 9223372036854775807)`, reachable from the request `o=1&l=9223372036854775807` (idioms/urls.go:51-72): the end wraps to -9223372036854775808 | a range past the end is read as "to the end" (lines 154-155), giving `(min(1, n), n)` | high, by proof; not executed | Paging.NormalizeAsWritten, Paging.NormalizeOverflow | Paging.Normalize |
