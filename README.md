# dgs-graphstream, modelled in Dafny

dgs-graphstream turns a graph into an animation of its partitions. In outline:

1. METIS assigns each node to a partition, and OSLOM2 or Infomap finds clusters inside each partition.
2. Those per-partition clusters get global ids and become node colours.
3. Each partition is written as a GraphStream DGS event stream: one `an` (add node) line per node, in the global node order. An `ae` (add edge) line joins each node to the nodes already written, and a `st` (step) line follows every node.
4. The Java animator lays each stream out and renders one frame per step.
5. The Python side pads the partitions' frame lists, joins them into grid frames (PNG and SVG), and exports a selection of the frames as PDF.

This project models the logic of those steps that is pure data handling:

- the readers of the METIS, OSLOM2 `tp`, Infomap `.tree` and assignment/order files;
- the cluster bookkeeping: homeless nodes, local-to-global ids and the per-node `cluster` attribute;
- the colour fusion;
- sub-graph extraction and dot-attribute normalisation;
- the frame windows and the DGS writer;
- the legacy pipeline of `genGraphStream.py`: `format_id`, `write_dgs`, the partition selection of `gen_dgs_files` and the tile bookkeeping of `join_images`;
- the frame padding, SVG grid and PDF selection of `image.py`;
- the Java animator's command-line tokenizer, its option defaults, its pie-slice count and its edge style.

## How the model is laid out

- **One Dafny module per component.** `file_io.py` is split by concern into `Timeline`, `DgsFile`, `Metis` and `Readers`. The other modules are `Cluster`, `Color`, `Graphs`, `Utils`, `LegacyDgs`, `JoinImages`, `Image` and `Animate`.
- **Shared helpers.**
  - `Wrappers`: `Option` and `Result`, plus `Exc`, which names the Python exception or Java throwable that ends an operation.
  - `PyStr`: Python string operations (`split`, `strip`, `int()`, `str()` and so on).
  - `ODicts`: insertion-ordered dictionaries.
  - `Lists`: sequence helpers.
- **Python dicts.** A dict whose iteration order matters is an `ODict`: its keys in insertion order, plus a map. A dict mutated in place by the source is a `Dict` object holding an `ODict`, and the methods that mutate it say what they `modify`.
- **Loops.** Every loop of the source is a method with a `while` loop. Its `ensures` ties the result, or the new state, to a specification function, and lemmas about that function state what the source promises.
- **Exceptions.** Where the source can raise, the model returns `Err(e)` with the exception that would be raised.
- **Files.** A file is the sequence of lines its iterator yields, each with its newline. A real file never yields an empty line, so the `while line:` loops of the readers read to the end; the model also covers the general case, in which such a loop stops at the first empty line.

## Model

Source paths are relative to the repository root.

| member | source | states |
|---|---|---|
| Utils.ToInt | utils.py:8-12 | an integer is returned unchanged; text that `int()` accepts (surrounding whitespace, an optional sign, digits with single underscores between them) becomes that integer; any other text is returned unchanged |
| Utils.ToIntOfDecimal | utils.py:8-12 | the decimal text of an integer converts back to that integer |
| Utils.ToIntGrouped | utils.py:8-12 | digit groups joined by one underscore convert as the digits alone, so `to_int('1_0')` is 10 |
| PyStr.ParseInt | utils.py:10 | `int()` of a string: whitespace at either end is skipped, then an optional sign and a digit run in which single underscores may separate digits; stated by `PyStr.ParseGrouped`, `PyStr.UnderscoreIgnored`, `PyStr.UnderscoreMisplaced`, `PyStr.PlainDecimals` and `PyStr.ParseShowInt` |
| PyStr.ParseGrouped | utils.py:10 | a grouped digit run parses to the value of its digits with the underscores removed |
| PyStr.UnderscoreIgnored | utils.py:10 | one underscore between two digit groups does not change what `int()` reads |
| PyStr.UnderscoreMisplaced | utils.py:10 | an underscore that opens or closes the digits, or follows another underscore, is refused |
| PyStr.PlainDecimals | utils.py:10 | without underscores, `int()` reads exactly an optional sign followed by decimal digits |
| PyStr.ParseShowInt | utils.py:10 | `int(str(n)) == n` for every integer |
| Utils.ToIntIdempotent | utils.py:8-12 | converting twice is the same as converting once |
| Utils.PutAll | utils.py:16-18 | after the first `n` items of a dict are written, the keys are the old ones plus those items' keys, and each written key holds the written value |
| Utils.MergedKeys | utils.py:14-19 | the merged dict holds a key exactly when some input dict holds it |
| Utils.MergedValue | utils.py:16-18 | a key's merged value comes from the last input dict that holds it |
| Utils.MergeDictionaries | utils.py:14-19 | the nested loops build exactly `Merged(ds)` |
| Utils.Pruned | utils.py:21-27 | the pruned dict keeps exactly the keys that are valid, each with its old value |
| Utils.PruneIdempotent | utils.py:21-27 | pruning twice with the same valid keys is the same as pruning once |
| Utils.PrunedByRemoval | utils.py:22-27 | deleting, one by one, the keys that are missing from the valid keys gives the pruned dict |
| Utils.KeysNotIn | utils.py:22-25 | the first loop collects exactly the invalid keys, in iteration order |
| Utils.DeleteAll | utils.py:26-27 | the second loop removes exactly the listed keys, in place |
| Utils.PruneInvalidKeys | utils.py:21-27 | in place, the dict becomes its pruned form |
| Graphs.Subgraph | graph.py:30 | the sub-graph holds exactly the nodes whose id was asked for (other ids are ignored), and exactly the edges between them |
| Graphs.SubgraphValid | graph.py:30 | a sub-graph of a graph with symmetric adjacency has symmetric adjacency |
| Graphs.PartitionIds | graph.py:29 | node `v` is selected exactly when `1 <= v <= len(assignments)` and line `v - 1` assigns the partition |
| Graphs.CreateSubGraphs | graph.py:25-32 | one sub-graph per listed partition, in the listed order |
| Graphs.SubGraphMembership | graph.py:28-31 | a node is in the k-th sub-graph exactly when it is a node of the graph and its 1-based position in the assignments holds the k-th partition |
| Graphs.SubGraphsDisjoint | graph.py:29-30 | sub-graphs of two different partitions share no node |
| Graphs.DotKey | graph.py:16-19 | the key is the name with its surrounding quotes stripped, passed through `to_int` when asked; the pseudo-node `graph` gives no key |
| Graphs.DotAttributes | graph.py:12-23 | the dictionary built is well formed, and the only exception is AttributeError |
| Graphs.NodeAttributeFromDot | graph.py:12-23 | the loop over the node statements computes `DotAttributes` |
| Graphs.DotAttributesKeys | graph.py:15-20 | a key is present exactly when some node statement normalises to it |
| Graphs.DotAttributesErrKept | graph.py:21-22 | once the quote stripping has failed, later node statements cannot undo the failure |
| Graphs.DotAttributesNoGraph | graph.py:19 | `graph` is never a key |
| Graphs.DotAttributesLastWins | graph.py:20 | a key's value comes from the last node statement that normalises to it |
| Graphs.DotAttributesFails | graph.py:21-22 | the call fails exactly when quotes are stripped and a kept node lacks the attribute |
| Graphs.DotAttributesStripped | graph.py:21-22 | with quote stripping, every value is present and neither starts nor ends with `"` |
| Timeline.InsertByOrder | file_io.py:180 | inserting a node into a list sorted by `order` keeps it sorted, adds exactly that node, and grows the list by one |
| Timeline.SortByOrder | file_io.py:180 | the result is sorted by `order` and is a permutation of the input |
| Timeline.SortIdsDistinct | file_io.py:198 | sorting keeps the node ids distinct |
| Timeline.SortByOrderStable | file_io.py:180 | the sort is stable: nodes with equal `order` keep their relative order |
| Timeline.Partitions | file_io.py:181 | the partition of each node, position by position |
| Timeline.FrameStartAndCount | file_io.py:178-185 | the two lists have equal length and the starts strictly increase |
| Timeline.FrameStarts | file_io.py:178-182 | the starts are exactly the positions, in the order-sorted full graph, of the partition's nodes |
| Timeline.FrameShape | file_io.py:178-185 | the result is the windows cut by the partition's positions and the end `len(full) + trailing` |
| Timeline.WindowsOf | file_io.py:183-184 | windows cut from strictly increasing starts abut, the last ends at the end point, and the counts sum to the end minus the first start |
| Timeline.PositiveWindowsOf | file_io.py:183-184 | starts below `n` with an end `trailing >= 0` frames after `n` give windows of at least one frame, the last at least `1 + trailing` |
| Timeline.WindowsAbut | file_io.py:183-184 | `starts[i] + counts[i] == starts[i + 1]`; the last window ends at `len(sorted_nodes) + trailing_frame_count`; the counts sum to that end minus `starts[0]` |
| Timeline.WindowsPositive | file_io.py:182-184 | with `trailing_frame_count >= 0`, every count is at least 1 and the last at least `1 + trailing_frame_count` |
| Timeline.NoWindowsIffEmpty | file_io.py:182 | a partition gets no window exactly when none of the full graph's nodes belongs to it |
| DgsFile.Render | file_io.py:227-238 | every line ends in a newline and starts with its keyword `an `, `ae ` or `st ` |
| DgsFile.Colour | file_io.py:211-213 | the node's colour attribute when it has one, otherwise `black` |
| DgsFile.Label | file_io.py:216-222 | hidden nodes get no label; otherwise the id for `id`, the order for `order`, nothing for any other label type |
| DgsFile.NodeAttributes | file_io.py:207-222 | the hidden flag, colour and label the loop computes are those of `Hidden`, `Colour` and `Label` |
| DgsFile.EdgeLines | file_io.py:230-236 | one `ae` line per neighbour already written, numbered on from the current edge counter, each ending at the node being written |
| DgsFile.EdgeLinesPairs | file_io.py:230-236 | the endpoints of a node's `ae` lines are exactly `PairsFrom` |
| DgsFile.PairsFromMembers | file_io.py:230-236 | a node's edges are exactly one from each of its neighbours already written, ending at the node |
| DgsFile.PairsFromDistinct | file_io.py:233 | distinct neighbours give distinct edges |
| DgsFile.Emitter.Stop | file_io.py:204-227 | the first node whose `an` line raises (missing `size`, or no frame window left), or the number of nodes when none does |
| DgsFile.StopAt | file_io.py:204-227 | the writing stops exactly at the first node that raises |
| DgsFile.StreamLayout | file_io.py:198-239 | the first `k` nodes give exactly `k` `an` lines, for the nodes in ascending `order`, and `k` `st` lines numbered 1 to `k`; the `ae` ids run 0, 1, 2, ... with no gap |
| DgsFile.StreamPairs | file_io.py:204-236 | the `ae` lines of the first `k` nodes have the endpoints `Pairs(k)` |
| DgsFile.PairsSound | file_io.py:230-236 | every edge written joins a node to a neighbour that was written no later than the node |
| DgsFile.PairsComplete | file_io.py:230-236 | every neighbour written no later than a node gives an edge into that node |
| DgsFile.FreshNode | file_io.py:233 | when a node is written, no earlier edge ends at it |
| DgsFile.PairsDistinct | file_io.py:233-235 | no edge is written twice |
| DgsFile.StreamEdges | file_io.py:230-236 | the `ae` lines join exactly each node to the neighbours written no later than itself: each edge appears in the step of its later-written end |
| DgsFile.StreamEdgesDistinct | file_io.py:233-235 | no `ae` endpoint pair is written twice |
| DgsFile.EmitterFor | file_io.py:196-198 | for a well-formed sub-graph, the sorted nodes the loop visits have distinct ids and every neighbour list is free of repeats |
| DgsFile.EdgeStep | file_io.py:231-236 | one neighbour: when it is written, the edge is new and is added with the next id; otherwise nothing changes |
| DgsFile.EdgeLoopStep | file_io.py:233-236 | one pass of the edge loop keeps the lines and `edges_added` in step with `EdgeLines` |
| DgsFile.WriteEdges | file_io.py:230-236 | the edge loop appends exactly `EdgeLines`, records exactly `PairsFrom`, and advances `i` by their number |
| DgsFile.MakeNodeLine | file_io.py:205-227 | the node's `an` line, or the KeyError of a node without `size`, or the IndexError of a node past the last frame window |
| DgsFile.WriteBlock | file_io.py:205-239 | one pass of the node loop keeps the loop invariant: the lines written so far are those of the first `index + 1` nodes |
| DgsFile.WriteNodes | file_io.py:200-239 | the node loop writes the lines of the nodes before the first that raises, and fails with that node's exception |
| DgsFile.WriteDgsFile | file_io.py:187-241 | the header `DGS004` and `partition_<p> 0 0`, then the stream of the sorted nodes up to the first exception, and that exception |
| Metis.EdgeKey | file_io.py:13 | an undirected edge is keyed by its two ends, the smaller first |
| Metis.AddEdge | file_io.py:73 | adding an edge adds its missing ends without attributes, (re)sets its weight, and leaves the other nodes alone |
| Metis.AddEdges | file_io.py:73 | every edge added has both ends as nodes and is in the graph; earlier nodes and edges stay |
| Metis.AddEdgesKeys | file_io.py:73 | `add_edges_from` adds exactly the keys of the listed edges to the graph's edge keys |
| Metis.AddEdgesKept | file_io.py:73 | an edge whose key is not listed keeps its weight |
| Metis.AddEdgesLast | file_io.py:73 | an edge listed more than once takes the weight of its last listing |
| Metis.AddEdgesUniform | file_io.py:97-98 | edges listed with one weight all carry that weight afterwards |
| Metis.TokenKeySet | file_io.py:97 | the edge list built from neighbour tokens lists exactly the keys `{n, v - 1}` the tokens name |
| Metis.TokenKeys | file_io.py:97-98 | adding that edge list adds exactly those keys and leaves every other edge's weight as it was |
| Metis.UnitLine | file_io.py:96-98 | an unweighted line adds exactly the edges `{n, v - 1}` of its neighbour tokens `v`, each with weight 1.0, and changes no other edge |
| Metis.WeightedLine | file_io.py:69-73 | a weighted line adds exactly the edges `{n, v - 1}` of the first tokens of its pairs, each with the weight of the last pair naming that neighbour, and changes no other edge |
| Metis.WeightedLast | file_io.py:71-73 | the last (neighbour, weight) pair naming a neighbour sets that edge's weight |
| Metis.LastOfDistinct | file_io.py:71 | among edges from one vertex, one whose neighbour is not named again is the last with its key |
| Metis.SetWeight | file_io.py:74 | setting a node's weight fails with KeyError exactly when the node is not in the graph yet |
| Metis.UnitEdges | file_io.py:97 | each token is a 1-based neighbour with weight 1.0; ValueError on a token that is not an integer |
| Metis.UnitEdgesOk | file_io.py:97 | the unweighted neighbour list is read exactly when every token is an integer |
| Metis.PairUp | file_io.py:70 | consecutive tokens are paired up, and an odd last token is dropped |
| Metis.WeightedEdges | file_io.py:71 | each pair is a 1-based neighbour and an integer weight; ValueError otherwise |
| Metis.WeightedEdgesOk | file_io.py:71 | the weighted neighbour list is read exactly when both tokens of every pair are integers |
| Metis.HeaderFormats | file_io.py:28-57 | the counts are the header's first two integers; FMT 0, 1, 10 or 11 selects the edge and node weights, a missing FMT means no weights, and any other FMT fails with AssertionError |
| Metis.ParseHeader | file_io.py:34-57 | the header line `nodes edges [FMT [ncon]]` read with `int()`; stated by `Metis.HeaderFormats` |
| Metis.FirstWeight | file_io.py:74 | the first vertex weight is read, when there is one and it is an integer |
| Metis.AddVertex | file_io.py:73-74 | the vertex's edges are added, then its weight is set; KeyError when no edge brought the vertex into the graph |
| Metis.VertexLine | file_io.py:62-107 | a data line defines vertex `n` and advances `n`; with node weights the first token is its weight; its edges are stated by `Metis.VertexEdges` |
| Metis.VertexEdges | file_io.py:62-107 | data line `n` adds exactly the edges `{n, v - 1}` its neighbour tokens `v` name, read after the `ncon` vertex weights (none for FMT 1): in (neighbour, weight) pairs with the last pair's weight for FMT 1 and 11, with weight 1.0 otherwise; no other edge changes |
| Metis.ReadLine | file_io.py:23-111 | an empty line raises IndexError, a `%` line changes nothing, the first other line is the header, and each later line is the next vertex |
| Metis.DropComments | file_io.py:24-26 | the lines that are not comments, in order |
| Metis.CommentsIgnored | file_io.py:24-26 | comment lines can be removed anywhere without changing what is read |
| Metis.VerticesRead | file_io.py:28-111 | the first line that is not a comment is the header, every later one a vertex, so `n` counts them; vertices `0 .. n-1` are nodes with a weight |
| Metis.HeaderThenVertices | file_io.py:28-111 | the header is read exactly when a line that is not a comment was read; `n` counts the later ones |
| Metis.VerticesWeighted | file_io.py:28-111 | vertices `0 .. n-1` are nodes with a weight after any lines read without an exception |
| Metis.ErrKept | file_io.py:23-111 | an exception raised by a line ends the read |
| Metis.ReadMetisSpec | file_io.py:10-117 | the graph is returned exactly when a header was read and the node and edge counts match it; a count mismatch fails with AssertionError, a file without a header with UnboundLocalError |
| Metis.ReadMetis | file_io.py:10-117 | the line loop computes `ReadMetisSpec` |
| Metis.ReadMetisLine | file_io.py:23-111 | one pass of the line loop computes `ReadLine` |
| Readers.ReadOrder | file_io.py:137-140 | one integer per line, in order; ValueError otherwise |
| Readers.ReadOrderOk | file_io.py:137-140 | the order file is read exactly when every line holds an integer |
| Readers.ReadAssignments | file_io.py:132-135 | the keys are exactly the line numbers, each with its line's integer; ValueError otherwise |
| Readers.Append | file_io.py:152 | appending to one key's list grows only that list, creating it when missing |
| Readers.AddMembers | file_io.py:150-152 | a member line fails with UnboundLocalError exactly when it has a token and no header has set `module_id`; otherwise its tokens become keys |
| Readers.AddMembersCounts | file_io.py:150-152 | each key's list grows by one copy of the module id per occurrence of the key, duplicates kept |
| Readers.TpLine | file_io.py:147-152 | a `#` line sets `module_id` to its second token plus one (IndexError or ValueError otherwise); any other line adds members |
| Readers.LiveLength | file_io.py:146-154 | the `while line:` loop stops at the first empty line, or at the end |
| Readers.ReadOslom2TpSpec | file_io.py:142-156 | an empty file raises StopIteration at the first `next` |
| Readers.ReadOslom2Tp | file_io.py:142-156 | the loop computes `ReadOslom2TpSpec`; the same function with `toInt` false is the genGraphStream.py:261-276 copy |
| Readers.TpReadLine | file_io.py:147-154 | one pass of the loop computes `TpLine` |
| Readers.TpMembers | file_io.py:150-152 | the inner loop over a member line computes `AddMembers` on the line's node keys, failing with UnboundLocalError before any header |
| Readers.TpErrKept | file_io.py:145-156 | an exception raised by a line is the result of the whole read |
| Readers.ModuleKeysCollide | file_io.py:166 | the module key glues the path parts without a separator, so `1:23` and `12:3` collide at level 2 |
| Readers.ModuleKey | file_io.py:166 | the first `level` `:`-separated parts of the path glued together; stated by `Readers.ModuleKeysCollide` |
| Readers.IndexOf | file_io.py:170 | `module_ids.index(key)` is the first position of the key |
| Readers.Intern | file_io.py:167-172 | a new key is appended to `module_ids`, a known one leaves it unchanged, and the node gets the key's 1-based id, appended only when new in file_io.py |
| Readers.InternKeepsIds | file_io.py:167-170 | a key keeps its id as later keys are interned: ids follow first appearance |
| Readers.TreeLine | file_io.py:164-172 | a `#` line changes nothing; any other line needs three tokens (IndexError otherwise) |
| Readers.ReadInfomapTree | file_io.py:158-176 | the loop computes `ReadInfomapTreeSpec`; with `toInt` and `dedup` false it is the genGraphStream.py:277-293 copy |
| Readers.ReadInfomapTreeSpec | file_io.py:158-176 | an empty file raises StopIteration at the first `next` |
| Readers.TreeReadLine | file_io.py:164-174 | one pass of the loop computes `TreeLine` |
| Readers.TreeIntern | file_io.py:168-172 | a new module key is appended, and the node gets the key's 1-based position (`Intern`) |
| Readers.TreeErrKept | file_io.py:161-176 | an exception raised by a line is the result of the whole read |
| Readers.InternInterned | file_io.py:167-172 | interning one line keeps the invariant: distinct module keys, ids in range, no repeated id in a list when deduplicating |
| Readers.InternDistinct | file_io.py:167-168 | `module_ids` never holds a key twice |
| Readers.InternInRange | file_io.py:170 | every id handed out is between 1 and the number of keys |
| Readers.InternNoRepeats | file_io.py:171-172 | the file_io.py reader never appends an id twice to one node's list |
| Readers.TreeLinesInterned | file_io.py:163-174 | every file read without an exception satisfies the invariant |
| Cluster.MaxOf | cluster.py:36 | `max` of an empty sequence raises ValueError; otherwise the result is an element no smaller than any other |
| Cluster.Chain | cluster.py:36 | the chain holds exactly the ids of the lists |
| Cluster.MaxCluster | cluster.py:35-36 | the largest id of any list; ValueError exactly when there is no id at all (no key, or only empty lists) |
| Cluster.ChainHasIds | cluster.py:36 | the maximum of the chain is the maximum over all lists, with the same failure case |
| Cluster.PutEach | cluster.py:32-33 | the assignments keep the dict well formed |
| Cluster.PutEachSpec | cluster.py:32-33 | every listed key maps to the value, the other keys keep theirs, and new keys are appended in the listed order |
| Cluster.HomedFails | cluster.py:22-33 | the fix-up fails, with ValueError, exactly when the dictionary holds no id |
| Cluster.Homed | cluster.py:22-33 | the homeless nodes added with the list `[max + 1]`, or ValueError; stated by `Cluster.HomedFails`, `Cluster.HomedSpec` and `Cluster.HomelessPut` |
| Cluster.HomedSpec | cluster.py:22-33 | otherwise every graph node is a key, the keys already there (graph nodes or not) keep their lists and places, the new keys follow in graph order, and every homeless node gets the same list `[max + 1]` |
| Cluster.HomelessPut | cluster.py:30-33 | giving each homeless node, in graph order, the list `[h]` leaves the existing keys and lists as they were |
| Cluster.CreateClusterForHomelessNodes | cluster.py:22-33 | in place, the dict becomes its fixed-up form, or the call fails with ValueError and changes nothing |
| Cluster.ShiftIds | cluster.py:49 | every id of the list is raised by `c`, in order |
| Cluster.ShiftAll | cluster.py:48-49 | every list is shifted by `c`; the keys and their order stay |
| Cluster.ShiftEach | cluster.py:48-49 | the loop over the items computes `ShiftAll` |
| Cluster.ShiftMap | cluster.py:48-49 | only map `i` of the list is rewritten, in place, and it becomes its shifted form |
| Cluster.Handled | cluster.py:42-44 | the number of maps, from the first, that hold an id: the conversion stops at the first map without one |
| Cluster.Maxima | cluster.py:44 | the maximum id of each handled map |
| Cluster.Offsets | cluster.py:41-51 | the running `cluster_increment` before map `k` is the sum of the maxima of the maps before it |
| Cluster.Partial | cluster.py:42-51 | after `i` rounds, exactly the first `i` maps are shifted by their offsets |
| Cluster.DoLocalToGlobalClusterConversion | cluster.py:38-53 | the maps are rewritten in place into `Converted`, and the result is `Mapping` |
| Cluster.MappingSpec | cluster.py:40-53 | the conversion fails with ValueError exactly when some map holds no id; otherwise `mapping[0] == 0` and `mapping[k]` is the sum of the maxima of maps `0 .. k-1` |
| Cluster.ConvertedSpec | cluster.py:42-51 | every map keeps its keys, their order and its list lengths; on success every id of map `k` is raised by exactly `mapping[k]`; on failure the first map without ids and all later maps are unchanged |
| Cluster.MaximaPositive | cluster.py:44 | with ids of at least 1, every maximum is at least 1 |
| Cluster.ConvertedRange | cluster.py:46-51 | with ids of at least 1, the ids of map `k` after the shift lie in `(mapping[k], mapping[k] + max_k]` |
| Cluster.MappingIncreasing | cluster.py:46-51 | with ids of at least 1, `mapping[k] + max_k` is at most every later offset, so the mapping never decreases |
| Cluster.ConvertedDisjoint | cluster.py:38-53 | with ids of at least 1, every id of an earlier map is smaller than every id of a later map: no two maps share a global id |
| Cluster.Firsts | cluster.py:19 | each key maps to the first id of its list; IndexError exactly when some list is empty |
| Cluster.SetClusters | cluster.py:20 | each node named in the dict gets that `cluster` attribute; the other nodes and the edges are untouched |
| Cluster.LabelledFails | cluster.py:19 | labelling a sub-graph fails with IndexError exactly when one of its nodes has an empty list |
| Cluster.LabelledNodes | cluster.py:19-20 | a labelled sub-graph has the same nodes, in order, and the same edges; each node with a list gets the first id as its `cluster` attribute |
| Cluster.Labelling | cluster.py:13-20 | the number of rounds that complete before the first failure |
| Cluster.LabelledUpTo | cluster.py:13-20 | after `i` rounds, exactly the first `i` sub-graphs are labelled |
| Cluster.PrunedUpTo | cluster.py:15-16 | after `i` rounds, exactly the first `i` maps are pruned to their sub-graph's nodes |
| Cluster.AddedSpec | cluster.py:12-20 | every map is handled exactly when there are enough sub-graphs and no sub-graph node has an empty list; then each map keeps exactly its keys that are nodes of its sub-graph, and each sub-graph is labelled |
| Cluster.LabelRound | cluster.py:15-20 | one round prunes the map to the sub-graph's nodes, then labels the sub-graph from it |
| Cluster.AddClustersToGraph | cluster.py:12-20 | the maps are pruned in place and the sub-graphs labelled, round by round, up to the first failure |
| Color.ClusterColoursFails | color.py:17-18 | building `cluster_to_color` fails with IndexError exactly when a visited node has no cluster |
| Color.ClusterColoursDomain | color.py:17-22 | a cluster is coloured exactly when some visited node that has a colour has it as first cluster |
| Color.FirstColourWins | color.py:19-22 | a cluster's colour is that of the first node, in iteration order, that has a colour and has the cluster as first cluster; later nodes never overwrite it |
| Color.ClusterColoursErrKept | color.py:17-18 | once `clusters[0]` has failed, the loop's outcome is that failure |
| Color.ClusterToColor | color.py:15-22 | the first loop computes `ClusterColoursUpTo` over all nodes |
| Color.Lookup | color.py:27 | each cluster's colour, in membership order; KeyError on the first cluster without a colour |
| Color.StripQuotes | color.py:28 | each colour stripped of surrounding `"`; AttributeError on the first `None` colour |
| Color.NodeColoursSplit | color.py:27-28 | splitting a node's colour string on `,` gives back the stripped colour of each of its clusters, in order: one entry per membership |
| Color.NodeColoursFails | color.py:27-28 | a node fails exactly when one of its clusters has no colour (KeyError) or a `None` colour (AttributeError) |
| Color.WrittenKeys | color.py:25-28 | the dict built holds exactly the keys written |
| Color.WrittenOrder | color.py:25-28 | keys written once each keep the order they were written in |
| Color.WrittenValue | color.py:25-28 | a key holds the value written last under it |
| Color.FirstFailure | color.py:26-28 | the index of the first failed node, or the number of nodes |
| Color.FusedStopsAt | color.py:26-28 | the second loop fails with the exception of the first node whose colours fail |
| Color.FusedDone | color.py:26-28 | without a failure the second loop writes every node |
| Color.FusedFails | color.py:26-28 | the second loop fails exactly when some node's colours fail, with KeyError or AttributeError |
| Color.FusedKeys | color.py:63-66 | every node is written under its key (passed through `to_int` in the global version), and nothing else is |
| Color.NodesToColors | color.py:24-28 | the second loop computes `Fused` |
| Color.Fuse | color.py:14-29 | both loops compute `ColorsPerNode` |
| Color.GetColorsPerNode | color.py:14-29 | `get_colors_per_node` computes `ColorsPerNode` without `to_int` (also genGraphStream.py:366-381) |
| Color.GetColorsPerNodeGlobal | color.py:47-67 | `get_colors_per_node_global` computes `ColorsPerNodeGlobal` |
| Color.ColorsPerNodeShape | color.py:25-29 | the result has exactly the keys of `clusters_per_node`, in order, and each value is the comma-joined stripped colours of all the node's clusters |
| Color.ColorsPerNode | color.py:14-29 | the first loop's cluster colours, then the second loop's fused colours per node; stated by `Color.ColorsPerNodeShape`, `Color.UncolouredClusterFails` and `Color.FusedKeys` |
| Color.NodeColours | color.py:27-28 | one node's colours looked up by cluster, stripped of quotes and joined by `,`; stated by `Color.NodeColoursSplit` and `Color.NodeColoursFails` |
| Color.UncolouredClusterFails | color.py:27 | a membership naming a cluster that no coloured node has as first cluster makes the whole fusion fail: there is no default colour |
| Color.GlobalWithoutClusters | color.py:50-51 | when every partition's map is empty, `color_per_node` is returned unchanged |
| Color.GlobalKeys | color.py:48-66 | otherwise the keys are the `to_int` images of the nodes of all partitions |
| Color.MergedImage | color.py:48 | a `to_int` image of a merged key is the image of a key of some partition's map, and conversely |
| LegacyDgs.OtherRun | genGraphStream.py:160 | the length of the run of characters outside `[0-9a-zA-Z]` that starts the text |
| LegacyDgs.FormatId | genGraphStream.py:159-160 | empty text stays empty; the output starts with `_` exactly when the input starts with another character |
| LegacyDgs.FormatIdClean | genGraphStream.py:160 | the output holds only ASCII letters, digits and `_`, and never two adjacent `_` |
| LegacyDgs.FormatIdFixed | genGraphStream.py:160 | a text is left unchanged exactly when it is already clean, so alphanumeric text is unchanged |
| LegacyDgs.FormatIdIdempotent | genGraphStream.py:160 | applying `format_id` twice is the same as applying it once |
| LegacyDgs.FormatIdKeepsAlnums | genGraphStream.py:160 | letters and digits are kept, in order |
| LegacyDgs.FormatIdOneUnderscorePerRun | genGraphStream.py:160 | each maximal run of other characters becomes exactly one `_` |
| LegacyDgs.FormatIdAsWritten | genGraphStream.py:159-160 | as written, an integer node name raises TypeError; a text name is formatted |
| LegacyDgs.MetisNameRejected | genGraphStream.py:175 | the first node of a graph read from METIS is named 0, and its id cannot be formatted |
| LegacyDgs.NodeId | genGraphStream.py:175 | the corrected id `format_id(str(n))`: a text name is formatted as before |
| LegacyDgs.NodeIdOfNat | genGraphStream.py:175 | a non-negative integer name is written as its decimal digits |
| LegacyDgs.NodeIdsOfNatsDistinct | genGraphStream.py:175 | distinct METIS node numbers get distinct ids |
| LegacyDgs.Render | genGraphStream.py:167-197 | every line ends in a newline, and each event starts with its keyword |
| LegacyDgs.NodeColourCases | genGraphStream.py:176-184 | with a non-empty colour map the colour is looked up by formatted id, `black` when absent; otherwise the colour attribute, `black` when absent |
| LegacyDgs.EdgeStepSound | genGraphStream.py:189-195 | one edge keeps the record: ids consecutive, pairs new, both ends written |
| LegacyDgs.EdgeScanGrows | genGraphStream.py:189-195 | the edge scan only appends lines and pairs; the written nodes and `st` stay |
| LegacyDgs.EdgeScanComplete | genGraphStream.py:189-195 | after the scan, every edge whose two ends are written has its pair recorded |
| LegacyDgs.NodeStepSound | genGraphStream.py:174-198 | one node keeps the record, adds its id and advances `st` by one |
| LegacyDgs.NodesUpToSound | genGraphStream.py:170-198 | after `k` nodes: edge ids are 0, 1, ...; no pair is written twice; every `ae` follows the `an` lines of both ends; `st` lines are numbered from 1, one per node |
| LegacyDgs.NodesUpToAdded | genGraphStream.py:167-187 | after `k` nodes the written ids are the first `k` ids, after the two header lines |
| LegacyDgs.DgsLinesStream | genGraphStream.py:162-198 | the file starts with `DGS004` and `partition_<p> 0 0`, has one `an` per node in node order, `ae` ids from 0 without gaps, no pair twice, each `ae` after its ends' `an` lines, and one `st` per node |
| LegacyDgs.DgsLines | genGraphStream.py:162-198 | the lines `write_dgs` writes for a partition, with the corrected node ids of ## Findings; stated by `LegacyDgs.DgsLinesStream` and `LegacyDgs.DgsLinesComplete` |
| LegacyDgs.DgsLinesComplete | genGraphStream.py:189-195 | every graph edge between two written nodes is written |
| LegacyDgs.ScanEdges | genGraphStream.py:189-195 | the inner loop computes `EdgeScan` |
| LegacyDgs.ChooseColour | genGraphStream.py:176-184 | the colour chosen is `NodeColour` |
| LegacyDgs.WriteNode | genGraphStream.py:174-198 | one pass of the outer loop computes `NodeStep` |
| LegacyDgs.WriteDgs | genGraphStream.py:162-198 | `write_dgs`, with the corrected node ids of ## Findings, writes `DgsLines` |
| LegacyDgs.Named | genGraphStream.py:242 | the node named `v`, when the graph has one |
| LegacyDgs.PickedNodes | genGraphStream.py:242 | the sub-graph holds exactly the nodes whose name is listed |
| LegacyDgs.Subgraph | genGraphStream.py:242 | `graph.subgraph(nodes)`: the listed nodes and the edges between them; stated by `LegacyDgs.PickedNodes` and `LegacyDgs.BetweenEdges` |
| LegacyDgs.BetweenEdges | genGraphStream.py:242 | the sub-graph holds exactly the edges with both ends listed |
| LegacyDgs.MembersExactly | genGraphStream.py:241 | partition `p` holds the 0-based line numbers of the assignments that say `p` |
| LegacyDgs.FilesForOne | genGraphStream.py:237-238 | a single partition is written as partition 0 from the whole graph |
| LegacyDgs.PartitionContents | genGraphStream.py:239-243 | with several partitions, partitions `0 .. partitions_num - 1` are written, each from the nodes its assignments name and the edges between them |
| LegacyDgs.PartitionsDisjoint | genGraphStream.py:240-243 | no node is written to two partitions |
| LegacyDgs.TextNamesGiveEmptyPartitions | genGraphStream.py:241-242 | a graph named by text rather than line numbers gives empty partitions |
| LegacyDgs.DgsFilesParsed | genGraphStream.py:233-243 | the assignments are parsed before the partition count is looked at: the files are written exactly when every line is an integer, and a single partition is the whole graph |
| LegacyDgs.GenDgsFiles | genGraphStream.py:232-243 | the loop over the partitions computes `DgsFiles` |
| LegacyDgs.WritePartitions | genGraphStream.py:240-243 | with several partitions, partition `p` is written from the sub-graph of its members, for `p` from 0 up |
| JoinImages.FramesMax | genGraphStream.py:385-391 | the length of the longest frame list, 0 without partitions |
| JoinImages.LongestFrameList | genGraphStream.py:384-391 | the loop over the partitions computes `FramesMax` |
| JoinImages.Start | genGraphStream.py:397-399 | pointers start at -1 and tiles as `frame_blank.png`, one per partition |
| JoinImages.Place | genGraphStream.py:407-425 | one entry keeps the pointers and tiles one per partition |
| JoinImages.PlaceSkips | genGraphStream.py:408-409 | a -1 entry changes nothing |
| JoinImages.PlaceFails | genGraphStream.py:411-425 | an entry fails exactly when it is neither -1 nor a partition number: a negative index inside `pframe` reaches the dict `frames` and raises KeyError, which nothing catches; any other index raises IndexError, and the handler's message raises it again |
| JoinImages.PlaceChangesOnlyItsPartition | genGraphStream.py:411-425 | an entry for partition `a` advances only `pframe[a]` and changes only `tiles[a]`; a hit writes one output frame and advances `f`, a miss writes nothing and is reported missing, with the pointer left advanced |
| JoinImages.PlaceAll | genGraphStream.py:406-425 | the loop over the entries keeps the pointers and tiles one per partition |
| JoinImages.PlaceAllStops | genGraphStream.py:406-425 | once an entry has failed, the loop has failed with its error |
| JoinImages.PlaceAllOk | genGraphStream.py:406-425 | the loop completes exactly when every entry is -1 or a partition number |
| JoinImages.PlaceAllPointers | genGraphStream.py:412 | after the entries, each partition's pointer is its number of entries minus one |
| JoinImages.PlaceAllTiles | genGraphStream.py:413 | after the entries, each tile is the last frame its partition reached, blank before the first |
| JoinImages.PlaceAllCount | genGraphStream.py:422 | the number of output frames is the number of frames shown, partition by partition |
| JoinImages.EntryMisses | genGraphStream.py:424-425 | an entry misses exactly when its partition's earlier entries have already shown all of its frames |
| JoinImages.MissesPersist | genGraphStream.py:424-425 | a partition that missed once misses at each of its later entries |
| JoinImages.SinglePartitionShowsAll | genGraphStream.py:401-402 | with one partition, the entries `[0] * frames_max` show each frame once, in order, each in its own output frame, and none is missing |
| JoinImages.SinglePartition | genGraphStream.py:401-402 | `join_images` with one partition shows all of its frames without reading the assignment file |
| JoinImages.PlaceEntry | genGraphStream.py:411-425 | one pass of the loop on the arrays `pframe` and `tiles`, in place, computes `Place` |
| JoinImages.JoinImages | genGraphStream.py:383-425 | `join_images` computes `Joined` |
| Image.CeilHalf | image.py:63 | `ceil(0.5 * fps)` for an integer `fps`: `2r - 1 <= fps <= 2r` |
| Image.Repeat | image.py:81 | `[x] * n`: `n` copies of `x`, none when `n` is not positive |
| Image.MaxFrameCount | image.py:62 | ValueError exactly when there is no partition; otherwise the length of a longest frame list |
| Image.Padded | image.py:80-81 | every padded list is at least `frame_count` long and at least as long as before |
| Image.PadFrames | image.py:80-81 | the loop pads each list in place, giving `Padded` |
| Image.PaddingShape | image.py:62-64 | with `fps >= 0`: every list has `frame_count` entries and ends with the partition's own frames, in order, after blanks only; every partition gets at least `ceil(0.5 * fps)` blanks, and the longest exactly that many |
| Image.LastIndex | image.py:99 | the index of the last occurrence of a character, or -1 |
| Image.DropPng | image.py:99 | a `.png` file name whose base name has a character other than `.` loses exactly its `.png` |
| Image.SvgTile | image.py:99-100 | the `.svg` twin of a tile when that file exists, `''` otherwise |
| Image.FrameAt | image.py:89-100 | output frame `f` has one PNG tile and one SVG tile per partition |
| Image.Combined | image.py:52-108 | the frames fail exactly when there is no partition |
| Image.CombinedTiles | image.py:80-100 | there are `frame_count` output frames; in frame `f` partition `p` shows the blank frame until its `lead` blanks run out, then its own frame `f - lead`, so the `IndexError` branch is never taken |
| Image.CombineImagesIntoTiles | image.py:83-108 | the frame loop computes `Combined` |
| Image.JoinFrames | image.py:86-89 | pass `f` of the frame loop takes tile `f` of every padded list, for `f` from 0 to `frame_count - 1` |
| Image.Rows | image.py:24 | `ceil(n / columns)`: the least number of rows whose cells hold `n` tiles |
| Image.Placed | image.py:28-37 | only non-empty names are placed |
| Image.Grid | image.py:40-45 | `columns + 1` vertical and `rows + 1` horizontal lines |
| Image.CellsDistinct | image.py:31-32 | distinct indices get distinct cells |
| Image.CellInGrid | image.py:24-32 | every index below `n` has its cell inside the `rows` x `columns` grid |
| Image.PlacedTiles | image.py:28-37 | the placed tiles are exactly the non-empty names, each at `(col * width, row * height)` of its cell |
| Image.OffsetsDistinct | image.py:34-35 | with positive cell sizes, different indices get different offsets |
| Image.CreateSvgTiles | image.py:23-50 | the three loops build `SvgFigure`: the tiles, then the vertical lines, then the horizontal lines |
| Image.Reversed | image.py:129 | the list reversed |
| Image.EveryStep | image.py:129 | for a positive step, the elements at the multiples of the step: `ceil(n / step)` of them |
| Image.StepInRange | image.py:129 | an index below `ceil(n / step)` times `step` stays below `n` |
| Image.PdfSelectionFrames | image.py:127-129 | the selection fails with ValueError exactly for step 0; otherwise it starts with the last frame, and a positive step takes every step-th frame counting back from the last |
| Image.PdfSelection | image.py:129 | `list(reversed(frames))[0::step]`, with ValueError for step 0; stated by `Image.PdfSelectionFrames` |
| Animate.Step | dgs-graphstream/src/dgsgraphstreamanimate/DgsGraphStreamAnimate.java:244-260 | one token keeps the tokenizer's state well formed: the option being filled, when there is one, is in the map |
| Animate.Tokenize | dgs-graphstream/src/dgsgraphstreamanimate/DgsGraphStreamAnimate.java:244-261 | the token loop of `main`: an opening token starts a fresh list, a value joins the current one, a value before any option is illegal usage and a token too short for `charAt` throws; stated by `Animate.TokenizeOption`, `Animate.TokenizeOutcome` and `Animate.TokenizeStops` |
| Animate.Configure | dgs-graphstream/src/dgsgraphstreamanimate/DgsGraphStreamAnimate.java:263-351 | the settings read from the option map, or the usage exit; stated by `Animate.UsageExactly`, `Animate.ConfigureDefaults`, `Animate.Choices` and `Animate.DotfileRequired` |
| Animate.Main | dgs-graphstream/src/dgsgraphstreamanimate/DgsGraphStreamAnimate.java:239-355 | `main`: tokenize, then configure; stated by `Animate.Defaults` and `Animate.TokenizeOutcome` |
| Animate.ParseArgs | dgs-graphstream/src/dgsgraphstreamanimate/DgsGraphStreamAnimate.java:241-261 | the token loop computes `Tokenize` |
| Animate.TokenizeStops | dgs-graphstream/src/dgsgraphstreamanimate/DgsGraphStreamAnimate.java:247-259 | once the loop has returned or thrown, later tokens change nothing |
| Animate.TokenizeOutcome | dgs-graphstream/src/dgsgraphstreamanimate/DgsGraphStreamAnimate.java:244-261 | the loop runs to the end exactly when no token is empty or a lone `-` (those throw at `charAt`) and the first token opens an option; it prints `Illegal parameter usage` exactly when the first token is a plain value |
| Animate.TokenizeCurrent | dgs-graphstream/src/dgsgraphstreamanimate/DgsGraphStreamAnimate.java:251-255 | the option being filled is the one opened last |
| Animate.OpenStep | dgs-graphstream/src/dgsgraphstreamanimate/DgsGraphStreamAnimate.java:251-252 | an opening token gives its option a fresh empty list and leaves the other options alone |
| Animate.ValueStep | dgs-graphstream/src/dgsgraphstreamanimate/DgsGraphStreamAnimate.java:254-255 | a value joins the list of the option opened last, and no other |
| Animate.TokenizeOption | dgs-graphstream/src/dgsgraphstreamanimate/DgsGraphStreamAnimate.java:244-261 | option `k` is in the map exactly when a token `-k` opened it, and its values are the tokens after the last `-k` up to the next opening token: a repeated option starts afresh, and a token like `-1.2` is a value |
| Animate.OptionWithValue | dgs-graphstream/src/dgsgraphstreamanimate/DgsGraphStreamAnimate.java:251-255 | an option followed by one value gets exactly that value |
| Animate.RequiredOnly | dgs-graphstream/src/dgsgraphstreamanimate/DgsGraphStreamAnimate.java:244-261 | `-dgs`, `-out` and `-dotfile`, each with one value, fill the map with exactly those three entries |
| Animate.First | dgs-graphstream/src/dgsgraphstreamanimate/DgsGraphStreamAnimate.java:294-350 | `params.get(key).get(0)`: NullPointerException for a missing key, IndexOutOfBoundsException for an empty list, the first value otherwise |
| Animate.Chosen | dgs-graphstream/src/dgsgraphstreamanimate/DgsGraphStreamAnimate.java:294-304 | true exactly when the option is present and its first value is the word; an empty list throws |
| Animate.JavaParse | dgs-graphstream/src/dgsgraphstreamanimate/DgsGraphStreamAnimate.java:307-343 | `Long.parseLong` (64 bits) or `Integer.parseInt` (32 bits): an optional sign and ASCII digits whose value fits the width; NumberFormatException otherwise |
| Animate.Number | dgs-graphstream/src/dgsgraphstreamanimate/DgsGraphStreamAnimate.java:306-344 | an integer option is its first value parsed at the option's width when given, the default when absent; a given option without a value throws IndexOutOfBoundsException |
| Animate.FloatGiven | dgs-graphstream/src/dgsgraphstreamanimate/DgsGraphStreamAnimate.java:310-324 | a float option fails exactly when it is given with no value |
| Animate.UsageExactly | dgs-graphstream/src/dgsgraphstreamanimate/DgsGraphStreamAnimate.java:263-291 | usage is printed and the program exits exactly when `-dgs` or `-out` is missing, or `-h` or `-help` is given |
| Animate.DotfileRequired | dgs-graphstream/src/dgsgraphstreamanimate/DgsGraphStreamAnimate.java:346-351 | without `-dotfile` the run never reaches the animation, whatever the mode |
| Animate.ConfigureDefaults | dgs-graphstream/src/dgsgraphstreamanimate/DgsGraphStreamAnimate.java:293-344 | with only the required options, every other setting takes its default |
| Animate.Defaults | dgs-graphstream/src/dgsgraphstreamanimate/DgsGraphStreamAnimate.java:239-351 | the defaults: springbox, images, no display, the clock's seed, node size 10, edge size 2, label size 0, 1280 x 720 |
| Animate.Choices | dgs-graphstream/src/dgsgraphstreamanimate/DgsGraphStreamAnimate.java:293-304 | the layout is LinLog, the mode dot and the display on exactly when the option's first value asks for it |
| Animate.PieSlices | dgs-graphstream/src/dgsgraphstreamanimate/DgsGraphStreamAnimate.java:209 | a colour string with `k` commas gives `k + 1` slices, one per `,`-separated piece |
| Animate.PieCount | dgs-graphstream/src/dgsgraphstreamanimate/DgsGraphStreamAnimate.java:209 | one slice per `,`-separated piece of the colour string; stated by `Animate.PieSlices` and `Animate.SlicePerCluster` |
| Animate.PieStyle | dgs-graphstream/src/dgsgraphstreamanimate/DgsGraphStreamAnimate.java:214 | the pie-chart style with the colour string as fill; stated by `Animate.PieStylePieces` |
| Animate.SlicePerCluster | dgs-graphstream/src/dgsgraphstreamanimate/DgsGraphStreamAnimate.java:209 | a node's colour string, as the colour fusion builds it, gets one slice per cluster the node belongs to |
| Animate.JavaSplit | dgs-graphstream/src/dgsgraphstreamanimate/DgsGraphStreamAnimate.java:234 | Java's `split(";")` of a text without `;` is the text itself |
| Animate.DropTrailingEmpty | dgs-graphstream/src/dgsgraphstreamanimate/DgsGraphStreamAnimate.java:234 | Java's `split` drops exactly the trailing empty pieces |
| Animate.EdgeStyle | dgs-graphstream/src/dgsgraphstreamanimate/DgsGraphStreamAnimate.java:232-235 | no style when the source node has none; otherwise the second `;`-piece plus `;`, and ArrayIndexOutOfBoundsException when there is no second piece |
| Animate.PieStylePieces | dgs-graphstream/src/dgsgraphstreamanimate/DgsGraphStreamAnimate.java:214 | a pie-chart style splits into the shape, the fill colour and an empty rest |
| Animate.EdgeTakesFillColour | dgs-graphstream/src/dgsgraphstreamanimate/DgsGraphStreamAnimate.java:214-235 | an edge takes the fill colour of its source node's pie chart |

## Left out

- File, network and process I/O: opening and writing files, `glob`, `os.path.isfile` (the set of existing SVG files is a parameter), directory creation, logging and printing. The gvmap, OSLOM2, Infomap and `montage` calls are also left out; only what the Python does with their results is modelled.
- The networkx and pydot libraries. A graph is a sequence of nodes plus an adjacency map (`Graphs.Graph`), a METIS graph is a map of nodes and a map of edges (`Metis.MGraph`), and the legacy graph is a node list plus an edge list (`LegacyDgs.NxGraph`). Iteration orders are those sequences. A networkx sub-graph shares its attribute dicts with its parent graph; here graphs are values, so the `cluster` attributes set on a sub-graph are returned with it, not seen through the parent.
- Floating point. The weight `1.0` is the opaque value `Metis.One`. The pie share `1.0f / count` is left out; only the slice count is modelled. `Float.parseFloat` of `-force`, `-a`, `-r` and `-theta` is left out too.
- Animate.FloatGiven: only reading the first value of a float option is modelled; whether `Float.parseFloat` accepts that value, and the NumberFormatException it would throw, are not.
- The colour ramp: `get_N_HexCol` and `gen_colour_map` (genGraphStream.py:121-157). `LegacyDgs.WriteDgs` takes the colour map as a map from formatted ids to colours.
- `math.sqrt` for the column count of image.py:72. Image.CreateSvgTiles takes `columns` as a parameter and requires it to be at least 1; the caller's `ceil(sqrt(partitions))` is at least 1 whenever there is a partition.
- Image.PdfSelectionFrames: the step `int(pdf_percentage / 100.0 * len(frames))` of image.py:127 is a float computation, so the step is a parameter. The selection is proved for every integer step.
- image.py:86 loops with `xrange`, which Python 3 does not have. The model runs that loop over `0 .. frame_count - 1`, as intended.
- Rendering: the PNG and SVG composition, the PDF export, the Java layout and animation (`AnimateDgs`, `CreateLayout`, the dot export), `nodeAdded`, and BatikGraphics2D.java. Of `main`, the model ends at the values passed to `AnimateDgs`.
- Unicode. Python's `isalnum`, whitespace and `int()`, and Java's `Character.isLetter`, are restricted to ASCII. Java's `parseInt` and `parseLong` are modelled for ASCII digits only.
- Fallback values in `DgsFile.Emitter.NodeLine`: for a node that would raise, it uses an empty size and the window 0, 0. The writing stops at such a node (`DgsFile.Emitter.Stop`), so no fallback is ever written.
- Animate.Defaults: it requires the three values to be plain values (not empty, not `-`, and not an option). Other values are covered by `Animate.TokenizeOutcome` and `Animate.TokenizeOption`.
- Readers.ReadOslom2TpSpec: the contract states only the empty-file case. The contents are stated per line by `Readers.TpLine`, `Readers.AddMembersCounts` and `Readers.TpErrKept`.
- Readers.ReadInfomapTreeSpec: the contract states only the empty-file case. The contents are stated by `Readers.Intern`, `Readers.TreeLinesInterned` and `Readers.TreeErrKept`.
- The Java option map is modelled by key. `main` keeps a reference to the current list, but that reference always points to the list of the option opened last, so the two agree.
- The other readers and writers of file_io.py and genGraphStream.py (`read_edgelist`, `read_dot`, `read_pajek`, `relabel_graph`, the OSLOM and Pajek writers, `add_node_attribute_to_dot_file`) are not part of this model.

- Graphs.Node: every node is taken to carry integer `order` and `partition` attributes, set by the caller, and every sub-graph a `partition` attribute. The KeyError that file_io.py:180-181, 187, 198 and 222 would raise for a node or graph lacking them is not modelled.
- Graphs.Subgraph: the sub-graph's nodes, and each node's neighbours, are taken in the parent graph's order. networkx 1.x rebuilds the adjacency of `subgraph(sub_graph_nodes)` in the order of `sub_graph_nodes`, the ascending ids of graph.py:29; networkx 2.x sub-graph views may iterate the set of kept nodes instead. Either can make `graph.edges(node_id)` at file_io.py:230 list a node's neighbours in another order, which changes the order and the ids of the `ae` lines, and can change the order in which `sorted` at file_io.py:198 leaves nodes of equal `order`. The stream lemmas (`DgsFile.StreamEdges`: each edge exactly once, after both its ends; `DgsFile.StreamEdgesDistinct`; `DgsFile.StreamLayout`: consecutive ids) hold for any adjacency order.
- LegacyDgs.Subgraph: a sub-graph's edges are taken in the parent graph's edge order. networkx 1.x rebuilds the adjacency of `subgraph(nodes)` in the order of `nodes`, so its `edges_iter` can list a node's edges in another order, which changes the order and the ids of the `ae` lines.

## Findings

| source | as written | input that shows it | evidently intended | confidence | as-written member | corrected member |
|---|---|---|---|---|---|---|
| genGraphStream.py:159-160, 175 | `format_id(n[0])` passes the node name straight to `re.sub`, which accepts only text | any graph read by `read_metis` (genGraphStream.py:21), whose node names are the integers 0, 1, ...: the first node, 0, raises TypeError | format the decimal text of the name, `format_id(str(n[0]))`, so distinct node numbers get distinct ids | not executed | LegacyDgs.FormatIdAsWritten, LegacyDgs.MetisNameRejected | LegacyDgs.NodeId, LegacyDgs.NodeIdOfNat, LegacyDgs.NodeIdsOfNatsDistinct |
