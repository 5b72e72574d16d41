# Verified models of the traffic monitor's algorithms

This project models the parts of the repository that carry real arguments and proves what they are
for. Every file is one module.

- **Skyline packer** (`Thirdparty/imgui/imstb_rectpack.h`): `Skyline` is the skyline as a value,
  read through the height of single columns; `WasteScan` the scan that measures waste;
  `PackerModel` one packing step and every run of steps; `BestFit` what best fit achieves over all
  columns; `RectPack` the linked nodes, the searches
  and the splice, each proved to be such a step; `RectBatch` the sorting, packing and unsorting of a
  batch; `PackerStorage` whether the node storage is always enough.
- **Undo store of the text editor** (`Thirdparty/imgui/imstb_textedit.h`): `UndoModel` is the history
  over values and its reference, a row of versions with a position; `UndoTiles` how the two stacks
  lie in the two arrays; `UndoStore` the arrays themselves; `TextEdit` the operations that change
  the text.
- **eBPF hooks** (`Source/EBPF`): `PacketParser` (destination port and mark), `PortOwnership`
  (`port_to_pid` as a transition system), `UdpPairing` (entry, exit and return probes over all
  interleavings of tasks), on hash maps of bounded size (`BpfMaps`).
- **Stream protocol** (`Source/Util/ClientSocket.cpp`, `Source/Util/Buffer.hpp`): `ByteBuffer`, `Framing`.
- **`TrafficCounter`**, **`Timers`**, **`ReplaceAll`** (`Source/Util`) and **`FlagAtlas`** (`Meta/Scripts/FlagConv.py`).

`Wrappers`, `Bytes` and `Sizes` hold the types and the facts about set sizes that several modules share.

Code that updates objects in place is a class or works on arrays; its methods are tied to functions
on values, and the lemmas are about those functions.

`dafny verify dfyconfig.toml` checks the whole project.

## Results that differ from what the code or its comments say

- The comment at `imstb_rectpack.h:254-255` promises that rounding widths to `align` makes the node
  storage always enough. It does not: the search rounds, the splice uses the width as given.
  `PackerStorage.StorageExact` gives the exact condition for both heuristics and every height (as many
  nodes as columns; a target one high gets by with a little less), `CrowdStarves` the failing family,
  `QuantizedRunHasRoom` the case the comment has in mind (widths that are multiples of `align`).
- `find_min_y` counts columns in front of a span that starts inside flat ground, and could then report
  more waste than there is; `WasteScan.WasteExactly` says for which skylines. No such skyline ever comes
  up: the packer leaves ground only in front of the right edge (`PackerModel.StepKeepsInv` keeps
  `Grounded`), so the reported waste always is the true area (`WasteScan.WasteIsArea`). Best fit looks
  only at positions where an edge meets a node, and still no integer column is lower, or as low over
  less wasted area (`BestFit.StepIsBest`).
- After `stb_text_undo` had to drop redo records, its redo record keeps the place and the lengths of
  another one. `UndoStore.UndoState.Undo` says what is left, and that the redo stack is right exactly if
  the two happen to match (`UndoTiles.StaleExact`); `UndoModel.DiscardReachable` reaches the failing case.
- Insert mode records a replacement of one character, however many are typed: undo restores the text
  if and only if one was, or none at the very end (`UndoModel.InsertModeExact`).
- A frame is received whole exactly if its size is below 2^32 (`Framing.FrameExact`). The result of a
  finished `SendFramed` says whether the frame went out, except for an empty payload on a connection that
  lives: its frame goes out, but is reported as a failure.
- A UDP send is reported exactly if it goes through the IPv4 function on a bound socket with a cookie
  (`UdpPairing.SendReportedExactly`); one that stays in IPv6 never is, because no exit hook records its
  cookie. Whatever a set of tasks does, exactly the expected events are reported, each with its own
  cookie, if and only if the maps have an entry for every task (`UdpPairing.CapacityExact`).
- The port entry of an outgoing connection outlives it, so that a later process on that port is
  reported under the first one (`PortOwnership.ReusedPortMisattributed`). By the history of the hooks alone,
  `ReportedByHistory` says exactly which connections are reported under their own process. The tracepoint
  asks the socket map, which knows every creator exactly as long as a run sees at most 65536 sockets
  (`PortOwnership.SocketsExact`): nothing removes a socket from it.
- A hardware address whose first nibble is 4 or 6 is taken for an IP header. These are exactly the
  addresses behind which some packet loses its port (`PacketParser.SafeAddresses`).
- The tick count of a traffic counter is said to be clamped at 255, but wraps. An inactive counter
  stays inactive all the same if it shows no traffic; one that still shows traffic is woken by the first
  refresh that closes a window (`TrafficCounter.InactiveStays`).

## Model

| member | source | states |
|---|---|---|
| `Skyline.SlideLeft` | Thirdparty/imgui/imstb_rectpack.h:364-391 | sliding a span left to the start of its node never raises it: why node positions suffice |
| `Skyline.SpliceHeights` | Thirdparty/imgui/imstb_rectpack.h:464-499 | the splice sets exactly the columns from x to the edge to the new top and leaves all others |
| `Skyline.SpliceSpans` | Thirdparty/imgui/imstb_rectpack.h:501-507 | after the splice the list is strictly increasing from 0 to the sentinel at the width |
| `Skyline.SpliceBounds` | Thirdparty/imgui/imstb_rectpack.h:487-499 | where the raised columns end: at the right edge, or at the next node for a right-aligned start |
| `Skyline.SpliceGrounded` | Thirdparty/imgui/imstb_rectpack.h:471-499 | a splice on a node or on a raised one leaves ground only in front of the right edge |
| `WasteScan.VisitScans` | Thirdparty/imgui/imstb_rectpack.h:312-335 | one round accounts for the columns of one more node |
| `WasteScan.ScanMeasures` | Thirdparty/imgui/imstb_rectpack.h:291-339 | y is always the highest column under the span; waste is the true area if the span starts on a node or a raised one (`WasteExactly` covers all other starts) |
| `WasteScan.AheadEnds` | Thirdparty/imgui/imstb_rectpack.h:312-335 | what a wrong count of columns adds to the waste from any node on, and when it adds nothing |
| `WasteScan.WasteExactly` | Thirdparty/imgui/imstb_rectpack.h:291-339 | for every skyline and span the reported waste is at least the true area, and equal to it if and only if a condition on the heights holds |
| `WasteScan.WasteIsArea` | Thirdparty/imgui/imstb_rectpack.h:291-339 | on skylines with ground only in front of the right edge the reported waste always is the true area |
| `PackerModel.KnotsSuffice` | Thirdparty/imgui/imstb_rectpack.h:364-391 | a bound over node positions is a bound over every integer column |
| `PackerModel.PackEdge` | Thirdparty/imgui/imstb_rectpack.h:487-499 | raised columns stay within the rounded width; for bottom-left they are exactly the rectangle's |
| `PackerModel.PackRaises` | Thirdparty/imgui/imstb_rectpack.h:464-499 | no column of the skyline ever falls |
| `PackerModel.PackKeepsInv` | Thirdparty/imgui/imstb_rectpack.h:464-522 | a packed rectangle is inside, apart from all others, and the whole invariant is kept |
| `PackerModel.StepKeepsInv` | Thirdparty/imgui/imstb_rectpack.h:449-526 | every call keeps skyline, node count and boxes right, with ground only in front of the right edge; a failed one changes nothing |
| `BestFit.SlideToLeft` | Thirdparty/imgui/imstb_rectpack.h:395-409 | from a higher node a span may slide left until an edge meets a node, and gets no worse |
| `BestFit.SlideToRight` | Thirdparty/imgui/imstb_rectpack.h:395-409 | from a lower one it may slide right |
| `BestFit.CandidatesSuffice` | Thirdparty/imgui/imstb_rectpack.h:395-441 | for every integer column some position with an edge on a node is no worse |
| `BestFit.PickedIsBest` | Thirdparty/imgui/imstb_rectpack.h:364-441 | no integer column is lower than the picked one, or as low over less wasted area |
| `BestFit.StepIsBest` | Thirdparty/imgui/imstb_rectpack.h:449-526 | so every rectangle that best fit places, its width rounded to align, rests lowest, and among the lowest over the least wasted area |
| `BestFit.PickedIsLeftmost` | Thirdparty/imgui/imstb_rectpack.h:366-441 | of the positions looked at that are as low and waste as little, the leftmost is picked |
| `BestFit.SlackCountsCells` | Thirdparty/imgui/imstb_rectpack.h:310-339 | the area is the number of free cells under the span, counted as a set |
| `PackerModel.RunKeepsInv` | Thirdparty/imgui/imstb_rectpack.h:546-570 | so does every run of calls, and no box is ever given up |
| `PackerModel.RunGives` | Thirdparty/imgui/imstb_rectpack.h:546-570 | each accepted request of a run has its box, inside and apart from earlier ones |
| `PackerModel.RunApart` | Thirdparty/imgui/imstb_rectpack.h:546-570 | two accepted requests of a run never overlap |
| `PackerModel.RunSafe` | Thirdparty/imgui/imstb_rectpack.h:546-584 | over any run all accepted rectangles are inside the target and pairwise disjoint |
| `PackerModel.RunAppend` | Thirdparty/imgui/imstb_rectpack.h:558-570 | the packing loop extends a run by one step |
| `RectPack.VisitNode` | Thirdparty/imgui/imstb_rectpack.h:312-335 | one round of the loop is one step of the scan |
| `RectPack.FindMinY` | Thirdparty/imgui/imstb_rectpack.h:291-339 | the loop over linked nodes yields the highest column under the span and the area wasted below it |
| `RectPack.CompareTakes` | Thirdparty/imgui/imstb_rectpack.h:370-387 | taking a lower node keeps the best position lowest, and leftmost for bottom-left |
| `RectPack.CompareEnds` | Thirdparty/imgui/imstb_rectpack.h:366-391 | the search may stop at the first node too far right |
| `RectPack.TakenIsChosen` | Thirdparty/imgui/imstb_rectpack.h:364-393 | the node taken is lowest over every integer column |
| `RectPack.NothingTaken` | Thirdparty/imgui/imstb_rectpack.h:364-393 | if none is taken, the rounded rectangle fits at no column at all |
| `RectPack.RightIsChosen` | Thirdparty/imgui/imstb_rectpack.h:410-441 | a right-aligned position that wins is lowest over every integer column as well |
| `RectPack.RankNext` | Thirdparty/imgui/imstb_rectpack.h:428-438 | comparing with one more right edge keeps the best rank first among all seen |
| `RectPack.RankedIsFittest` | Thirdparty/imgui/imstb_rectpack.h:364-441 | the first of all ranks is the best fit among all left- and right-aligned spans |
| `RectPack.FittestAligned` | Thirdparty/imgui/imstb_rectpack.h:410-441 | best fit never leaves ground in front of a span |
| `RectPack.FitIsPicked` | Thirdparty/imgui/imstb_rectpack.h:393-446 | the two loops together pick the least (y, wasted area, x) of all candidates, or nothing fits anywhere |
| `RectPack.RoundedIs` | Thirdparty/imgui/imstb_rectpack.h:353-356 | the arithmetic on width and align yields the least multiple of align that is not below the width |
| `RectPack.CeilDiv` | Thirdparty/imgui/imstb_rectpack.h:257-261 | align is the least number with width <= align * num_nodes |
| `RectPack.InitialInv` | Thirdparty/imgui/imstb_rectpack.h:281-287 | a fresh target satisfies the invariant |
| `RectPack.InitialIsEmpty` | Thirdparty/imgui/imstb_rectpack.h:281-287 | it is empty: the size asked for, no boxes, all storage free, ground at every column |
| `RectPack.LinkStorage` | Thirdparty/imgui/imstb_rectpack.h:269-271 | the caller's nodes become one acyclic free list |
| `RectPack.Context.ListsPartition` | Thirdparty/imgui/imstb_rectpack.h:509-522 | active and free list are acyclic and disjoint and hold num_nodes + 2 nodes together |
| `RectPack.Context.SearchLeft` | Thirdparty/imgui/imstb_rectpack.h:364-391 | after the first loop the best node beats every node, by (y, wasted area, x) for best fit |
| `RectPack.Context.TryRight` | Thirdparty/imgui/imstb_rectpack.h:418-438 | one right-aligned candidate is compared with the best so far |
| `RectPack.Context.SearchRight` | Thirdparty/imgui/imstb_rectpack.h:410-441 | after the second loop the best position beats all left- and right-aligned ones |
| `RectPack.Context.FindSpan` | Thirdparty/imgui/imstb_rectpack.h:364-446 | the search for a rounded width: picked position, or a proof that none exists |
| `RectPack.Context.FindBestPos` | Thirdparty/imgui/imstb_rectpack.h:347-447 | the result is the picked position, or the rectangle is feasible at no column |
| `RectPack.Context.Release` | Thirdparty/imgui/imstb_rectpack.h:485-493 | exactly the covered nodes go to the free list |
| `RectPack.Context.Attach` | Thirdparty/imgui/imstb_rectpack.h:471-483 | the new node is linked in front of the first node that may be dropped |
| `RectPack.Context.Insert` | Thirdparty/imgui/imstb_rectpack.h:464-499 | the linked lists after the splice carry the spliced skyline, and the free count matches |
| `RectPack.Context.Commit` | Thirdparty/imgui/imstb_rectpack.h:464-499 | the target after the splice is the packed model |
| `RectPack.Context.PackRectangle` | Thirdparty/imgui/imstb_rectpack.h:449-526 | one call is one step: lowest position, or rejected only for want of a node or of any place |
| `RectPack.Context.SetupAllowOutOfMem` | Thirdparty/imgui/imstb_rectpack.h:245-263 | align is 1 or the ceiling of width by num_nodes; everything else stays |
| `RectPack.Context.SetupHeuristic` | Thirdparty/imgui/imstb_rectpack.h:233-243 | only the heuristic changes |
| `RectPack.Context.constructor` | Thirdparty/imgui/imstb_rectpack.h:265-288 | the target starts empty, with all of the storage free |
| `RectBatch.SortIndices` | Thirdparty/imgui/imstb_rectpack.h:556 | a permutation that puts the rectangles in order |
| `RectBatch.Sort` | Thirdparty/imgui/imstb_rectpack.h:556 | the array is reordered, and in order by the given comparison |
| `RectBatch.OrderedIsHighestFirst` | Thirdparty/imgui/imstb_rectpack.h:528-556 | the order in plain heights and widths: highest first, and of equal heights the widest first |
| `RectBatch.SettledAppend` | Thirdparty/imgui/imstb_rectpack.h:558-570 | one more rectangle keeps the batch disjoint, inside and complete |
| `RectBatch.RunGrows` | Thirdparty/imgui/imstb_rectpack.h:558-570 | the batch so far is a run of packing steps; empty rectangles take none |
| `RectBatch.UnsortRestores` | Thirdparty/imgui/imstb_rectpack.h:550-573 | sorting by the saved index puts every rectangle back in its place |
| `RectBatch.SettledReordered` | Thirdparty/imgui/imstb_rectpack.h:572-573 | unsorting keeps the batch settled |
| `RectBatch.Restored` | Thirdparty/imgui/imstb_rectpack.h:550-573 | order, ids and sizes are those of the caller's array again |
| `RectBatch.RestoredRun` | Thirdparty/imgui/imstb_rectpack.h:550-573 | the restored array, read by height, is the run that was packed |
| `RectBatch.PackOne` | Thirdparty/imgui/imstb_rectpack.h:559-569 | an empty rectangle goes to (0, 0); any other is one packing step |
| `RectBatch.PackSorted` | Thirdparty/imgui/imstb_rectpack.h:558-570 | the packing loop as a run with disjoint results |
| `RectBatch.Flag` | Thirdparty/imgui/imstb_rectpack.h:575-580 | flags say which rectangles have a position; the result whether all have |
| `RectBatch.PackRects` | Thirdparty/imgui/imstb_rectpack.h:546-584 | packed in one run, highest first and of equal heights the widest first; inside and disjoint from this and all earlier batches; array order, ids, sizes kept; 1 exactly if all were packed |
| `RectBatch.SessionGives` | Thirdparty/imgui/imstb_rectpack.h:546-584 | a packed rectangle of any call is inside and apart from all that was there before |
| `RectBatch.SessionApart` | Thirdparty/imgui/imstb_rectpack.h:546-584 | two packed rectangles of any two calls never overlap |
| `RectBatch.SessionSafe` | Thirdparty/imgui/imstb_rectpack.h:546-584 | over any sequence of calls all packed rectangles are inside the target and pairwise disjoint |
| `PackerStorage.NeverOnEdge` | Thirdparty/imgui/imstb_rectpack.h:410-441 | with ground in front of the right edge, best fit never right-aligns to it from inside a raised node |
| `PackerStorage.PickedOnGrid` | Thirdparty/imgui/imstb_rectpack.h:347-447 | with widths that are multiples of align only positions on the grid are picked |
| `PackerStorage.QuantizedRunHasRoom` | Thirdparty/imgui/imstb_rectpack.h:254-261 | with widths that are multiples of align a node is always left, from any state on the grid |
| `PackerStorage.QuantizedSuffices` | Thirdparty/imgui/imstb_rectpack.h:254-261 | so on a fresh target of any width, with either heuristic |
| `PackerStorage.ColumnsSuffice` | Thirdparty/imgui/imstb_rectpack.h:254-261 | with a node for every column one is always left, whatever the heuristic and the widths |
| `PackerStorage.CrowdFittest` | Thirdparty/imgui/imstb_rectpack.h:364-441 | next to a row of unit squares best fit picks the same place as bottom-left |
| `PackerStorage.CrowdStarves` | Thirdparty/imgui/imstb_rectpack.h:254-261 | unit squares use up any storage smaller than the width, although another one would fit |
| `PackerStorage.RunStaysInARow` | Thirdparty/imgui/imstb_rectpack.h:449-526 | in a target one high both heuristics fill the columns from the left |
| `PackerStorage.RowHasRoom` | Thirdparty/imgui/imstb_rectpack.h:254-261 | there, when the nodes are used up, less than align columns are left |
| `PackerStorage.StorageExact` | Thirdparty/imgui/imstb_rectpack.h:254-261 | for both heuristics and every height the storage is always enough if and only if num_nodes >= width, or the height is 0, or it is 1 and width < num_nodes + align |
| `UndoModel.CounterUndoes` | Thirdparty/imgui/imstb_textedit.h:1297-1363 | the counter entry takes an edit back, and its own counter is the edit again |
| `UndoModel.RecordedWithin` | Thirdparty/imgui/imstb_textedit.h:1253-1275 | recording stays within slots and characters |
| `UndoModel.UndoneWithin` | Thirdparty/imgui/imstb_textedit.h:1297-1363 | so does undo |
| `UndoModel.RedoneWithin` | Thirdparty/imgui/imstb_textedit.h:1365-1414 | so does redo: there is always room for the undo record |
| `UndoModel.RunWithin` | Thirdparty/imgui/imstb_textedit.h:1194-1414 | no run that drops no redo record outgrows the arrays, whatever the edits |
| `UndoModel.EditMirrors` | Thirdparty/imgui/imstb_textedit.h:1277-1295 | an edit within the budget is a new version behind the current one |
| `UndoModel.UndoMirrors` | Thirdparty/imgui/imstb_textedit.h:1297-1363 | undo goes one version back and keeps the way forward |
| `UndoModel.RedoMirrors` | Thirdparty/imgui/imstb_textedit.h:1365-1414 | redo goes one version on and keeps the way back |
| `UndoModel.StepMirrors` | Thirdparty/imgui/imstb_textedit.h:1253-1439 | every operation keeps the history equal to the row of versions, within the budget |
| `UndoModel.RunMirrors` | Thirdparty/imgui/imstb_textedit.h:1253-1439 | so does every run |
| `UndoModel.RunShowsVersion` | Thirdparty/imgui/imstb_textedit.h:1253-1439 | from a cleared state, any walk of edits, undos and redos shows exactly the edits not undone, if each edit fits next to what can be undone then |
| `UndoModel.TotalsAffordable` | Thirdparty/imgui/imstb_textedit.h:1253-1439 | edits that fit the two limits in all do so in any order |
| `UndoModel.ShedLeast` | Thirdparty/imgui/imstb_textedit.h:1270-1272 | no more old records are pushed out than have to be |
| `UndoModel.EditKeepsMost` | Thirdparty/imgui/imstb_textedit.h:1253-1275 | an edit leaves the longest row of newest records that fits both limits; any longer one breaks a limit |
| `UndoModel.UndoKeepsExactly` | Thirdparty/imgui/imstb_textedit.h:1304-1346 | the redo record of an undo can redo it if and only if nothing is deleted or the characters kept for undoing leave room; otherwise it only takes away what the undo put |
| `UndoModel.RedoKeepsExactly` | Thirdparty/imgui/imstb_textedit.h:1372-1402 | the undo record of a redo can undo it if and only if nothing is deleted or there is room for what is; otherwise it does nothing |
| `UndoModel.EditTrims` | Thirdparty/imgui/imstb_textedit.h:1253-1295 | however little room there is, after an edit the history holds the steps of the newest part of the row |
| `UndoModel.StepMirrorsPart` | Thirdparty/imgui/imstb_textedit.h:1253-1439 | every operation keeps it so |
| `UndoModel.LongRunShowsVersion` | Thirdparty/imgui/imstb_textedit.h:1253-1439 | any number of edits, with old records pushed out: the text is that of the edits not undone, as long as no undo asks for a record that is gone and what undos and redos delete can be kept |
| `UndoModel.InsertModeExact` | Thirdparty/imgui/imstb_textedit.h:800-806 | undoing an overwrite restores the text if and only if one character was typed (or none at the end) |
| `UndoModel.DiscardReachable` | Thirdparty/imgui/imstb_textedit.h:1330-1337 | an undo that has to drop redo records can happen |
| `UndoModel.FittingMost` | Thirdparty/imgui/imstb_textedit.h:1330-1337 | no more redo entries are dropped than have to be |
| `UndoTiles.TilesShift` | Thirdparty/imgui/imstb_textedit.h:1207-1215 | moving records and characters moves the tiling |
| `UndoTiles.DropFirst` | Thirdparty/imgui/imstb_textedit.h:1201-1217 | dropping the oldest undo record leaves both stacks tiled |
| `UndoTiles.DropLast` | Thirdparty/imgui/imstb_textedit.h:1223-1251 | dropping the oldest redo record leaves both stacks tiled |
| `UndoTiles.PushLast` | Thirdparty/imgui/imstb_textedit.h:1283-1294 | a new undo record extends the tiling |
| `UndoTiles.RefillLast` | Thirdparty/imgui/imstb_textedit.h:1424-1428 | saving characters into the newest record changes that entry only |
| `UndoTiles.PushFirst` | Thirdparty/imgui/imstb_textedit.h:1338-1345 | a redo record in front extends the redo tiling downwards |
| `UndoTiles.PushBehind` | Thirdparty/imgui/imstb_textedit.h:1379-1398 | an undo record written by redo extends the undo tiling |
| `UndoTiles.StaleExact` | Thirdparty/imgui/imstb_textedit.h:1338-1345 | after a discard the redo stack is right if and only if the record that was newest has the place and the lengths of the new one |
| `UndoStore.UndoState.constructor` | Thirdparty/imgui/imstb_textedit.h:1442-1447 | cleared: both stacks empty, at opposite ends |
| `UndoStore.UndoState.FlushRedo` | Thirdparty/imgui/imstb_textedit.h:1194-1198 | the redo stack is empty, the undo stack as before |
| `UndoStore.UndoState.DiscardUndo` | Thirdparty/imgui/imstb_textedit.h:1201-1217 | the oldest undo entry goes, all others keep their characters |
| `UndoStore.UndoState.MakeRoom` | Thirdparty/imgui/imstb_textedit.h:1253-1275 | the loop ends with room for the characters, and drops no more entries than needed |
| `UndoStore.UndoState.CreateUndo` | Thirdparty/imgui/imstb_textedit.h:1277-1295 | a record whose characters the caller fills in, or none if it cannot fit |
| `UndoStore.UndoState.MakeUndo` | Thirdparty/imgui/imstb_textedit.h:1416-1439 | the store holds the pushed entry with the characters of the text |
| `UndoStore.UndoState.DiscardRedo` | Thirdparty/imgui/imstb_textedit.h:1223-1251 | the oldest redo entry goes; the freed slot keeps a stale copy |
| `UndoStore.UndoState.FreeRedoChars` | Thirdparty/imgui/imstb_textedit.h:1330-1337 | the loop frees the characters without reaching its bail-out |
| `UndoStore.UndoState.PushCrowdedRedo` | Thirdparty/imgui/imstb_textedit.h:1330-1346 | with redo records dropped: the ones that fit stay in place, the characters are stored, the record is stale |
| `UndoStore.UndoState.PrepareRedo` | Thirdparty/imgui/imstb_textedit.h:1304-1346 | the whole redo side in all three cases |
| `UndoStore.UndoState.Undo` | Thirdparty/imgui/imstb_textedit.h:1297-1363 | text, cursor and undo stack are the model's; so is the redo stack, and after a discard it is what fits, with a first record that is right exactly if the old one resembles it |
| `UndoStore.UndoState.PrepareUndo` | Thirdparty/imgui/imstb_textedit.h:1372-1402 | the undo record of a redo, with and without room |
| `UndoStore.UndoState.Redo` | Thirdparty/imgui/imstb_textedit.h:1365-1414 | text, cursor and both stacks are the model's |
| `TextEdit.Editor.ClampState` | Thirdparty/imgui/imstb_textedit.h:613-624 | cursor and selection end up inside the text |
| `TextEdit.Editor.DeleteRange` | Thirdparty/imgui/imstb_textedit.h:627-632 | a deletion is one recorded edit |
| `TextEdit.Editor.DeleteSelection` | Thirdparty/imgui/imstb_textedit.h:635-648 | the clamped selection is cut as one edit, and the cursor is at its start |
| `TextEdit.Editor.TypeOver` | Thirdparty/imgui/imstb_textedit.h:800-806 | insert mode: one character gives way to all that is typed; one is recorded |
| `TextEdit.Editor.Type` | Thirdparty/imgui/imstb_textedit.h:794-815 | typing cuts the selection, inserts in its place and leaves cursor and selection there; refused newlines change nothing |
| `TextEdit.Editor.Undo` | Thirdparty/imgui/imstb_textedit.h:1297-1363 | text, cursor and history after undo, with and without dropped redo records |
| `TextEdit.Editor.Redo` | Thirdparty/imgui/imstb_textedit.h:1365-1414 | text and history after redo are the model's; the cursor is behind what was put back |
| `PacketParser.PacketLayout` | Source/EBPF/EBPFTraffic.h:172-200 | where version, protocol and ports of a well-formed packet lie |
| `PacketParser.BarePacketFound` | Source/EBPF/EBPFTraffic.h:165-203 | every bare IPv4 packet (any header length) and extension-free IPv6 packet yields its destination port |
| `PacketParser.FramedPacketFound` | Source/EBPF/EBPFTraffic.h:204-261 | so does every one behind an Ethernet header whose first nibble is not 4 or 6 |
| `PacketParser.SafeAddresses` | Source/EBPF/EBPFTraffic.h:165-261 | behind a hardware address every well-formed packet yields its port if and only if the first nibble is not 4 or 6 |
| `PacketParser.FramedPacketMissed` | Source/EBPF/EBPFTraffic.h:170-188 | an address that starts like an impossible IPv4 header hides the port of every packet |
| `PacketParser.FoundPortIsInPacket` | Source/EBPF/EBPFTraffic.h:165-261 | a port is only read from a complete TCP or UDP header, of the protocol and at the place that an IP header names |
| `PacketParser.ShapedByOwner` | Source/EBPF/EBPFTraffic.h:263-282 | without a mark of its own a port gets the mark of the process that owns it |
| `PacketParser.ShapedByPort` | Source/EBPF/EBPFTraffic.h:263-268 | a mark of the port itself comes first, whoever owns the port |
| `PacketParser.UnmarkedKept` | Source/EBPF/EBPFTraffic.h:263-284 | a packet whose port has no mark in either map keeps its own |
| `PacketParser.NoPortKept` | Source/EBPF/EBPFTraffic.h:241-284 | a packet without a port keeps its mark |
| `PacketParser.OtherProtocolKept` | Source/EBPF/EBPFTraffic.h:165-261 | so does every bare IP packet that carries neither TCP nor UDP |
| `PortOwnership.PortMapNeverFull` | Source/EBPF/EBPFInternal.h:98-106 | the port map never exceeds its capacity, so no update is refused |
| `PortOwnership.ListenClaims` | Source/EBPF/EBPFConnect.h:37-92 | entering LISTEN makes the process the owner, whichever hook sees it |
| `PortOwnership.StepKeepsPort` | Source/EBPF/EBPFConnect.h:50-168 | only a closing listener removes a port |
| `PortOwnership.PortStays` | Source/EBPF/EBPFConnect.h:67-76 | through every run a port stays until a listener on it closes |
| `PortOwnership.OwnerStays` | Source/EBPF/EBPFConnect.h:94-166 | with no other claim the owner stays, and every report about the port names it |
| `PortOwnership.ListenerOwnsPort` | Source/EBPF/EBPFConnect.h:50-168 | both, from LISTEN on |
| `PortOwnership.ReusedPortMisattributed` | Source/EBPF/EBPFConnect.h:94-138 | a reused client port is reported under its former owner, as accepted |
| `PortOwnership.ReportedAsOwnExactly` | Source/EBPF/EBPFConnect.h:120-138 | a connection is reported under its own process if and only if the map holds no other owner |
| `PortOwnership.StepHolds` | Source/EBPF/EBPFConnect.h:50-168 | what each hook makes of the owner of a port, given who created the socket |
| `PortOwnership.SocketsAreHistory` | Source/EBPF/EBPFLifetime.h:30-70 | while at most 65536 sockets were seen, the socket map holds for each exactly the process that created it last, by the hooks alone |
| `PortOwnership.SocketsExact` | Source/EBPF/EBPFLifetime.h:30-70 | after a run the map knows the creator of every socket if and only if the run saw at most 65536 sockets |
| `PortOwnership.MapIsHistory` | Source/EBPF/EBPFConnect.h:10-168 | while at most 65536 sockets were seen, the owner is whoever was named last since a listener closed, or the first to connect since then; the tracepoint names the creator of the socket, by the history of the hooks alone |
| `PortOwnership.ReportedByHistory` | Source/EBPF/EBPFConnect.h:94-138 | over any such run a connection gives exactly one report, with its cookie and port, under the owner that the history tells, and as accepted if and only if it tells any; so under its own process if and only if there is no other owner |
| `PortOwnership.AcceptedByHistory` | Source/EBPF/EBPFAccept.h:25-75 | an accepted socket is reported with its cookie and port under the owner that the history tells, or under the current process if it tells none |
| `PortOwnership.NothingElseReported` | Source/EBPF/EBPFConnect.h:50-168 | no other hook reports a connection, and none does without a cookie or without room in the ring |
| `PortOwnership.Kernel.SocketBind` | Source/EBPF/EBPFBind.h:9-78 | binding is a claim, if the event can be made |
| `PortOwnership.Kernel.TracepointListen` | Source/EBPF/EBPFConnect.h:10-48 | the tracepoint as a step |
| `PortOwnership.Kernel.TcpSetState` | Source/EBPF/EBPFConnect.h:50-168 | the three branches as one step |
| `PortOwnership.Kernel.UdpEmit` | Source/EBPF/EBPFUdp.h:52-62 | an implicit UDP bind is a claim |
| `PortOwnership.Kernel.SockGraft` | Source/EBPF/EBPFAccept.h:10-77 | an accepted socket is reported under the owner of its port |
| `PortOwnership.Kernel.OnSockCreate` | Source/EBPF/EBPFLifetime.h:30-70 | the creator and the cookie of the socket are stored, if there is room; the ports are left alone |
| `BpfMaps.UpdateSucceeds` | Source/EBPF/EBPFUdp.h:20-36 | with no more keys than entries no update is refused |
| `UdpPairing.StepAgrees` | Source/EBPF/EBPFUdp.h:112-238 | a hook of one task keeps the maps right for it and leaves every other task alone |
| `UdpPairing.StepKeepsInv` | Source/EBPF/EBPFUdp.h:25-238 | every hook keeps the pairing |
| `UdpPairing.RunKeepsInv` | Source/EBPF/EBPFUdp.h:25-238 | so does every interleaving |
| `UdpPairing.StepReports` | Source/EBPF/EBPFUdp.h:41-238 | each hook reports exactly what the phase of its task calls for |
| `UdpPairing.SendReportedExactly` | Source/EBPF/EBPFUdp.h:122-197 | a send is reported if and only if it is an IPv4 one of a bound socket with a cookie |
| `UdpPairing.RunReports` | Source/EBPF/EBPFUdp.h:25-238 | a run reports exactly what is expected of it, in order |
| `UdpPairing.InterleavingsPair` | Source/EBPF/EBPFUdp.h:25-238 | in every interleaving exactly the expected events, each with its socket's cookie, and idle tasks leave nothing behind |
| `UdpPairing.PureIpv6SendIsSilent` | Source/EBPF/EBPFUdp.h:165-197 | a send that stays in IPv6 reports nothing |
| `UdpPairing.FullMapMispairs` | Source/EBPF/EBPFUdp.h:112-197 | with more tasks than entries some run from the start pairs a cookie with another socket |
| `UdpPairing.CapacityExact` | Source/EBPF/EBPFUdp.h:12-238 | all runs of a set of tasks report what is expected, rightly paired, if and only if there are at most 16384 tasks |
| `UdpPairing.PidIsUpperHalf` | Source/EBPF/EBPFUdp.h:57-58 | the process is the upper half of the task number |
| `UdpPairing.StepClaims` | Source/EBPF/EBPFUdp.h:41-110 | a hook changes the owner of a port if and only if it handles a bound socket, and then to the process of its task |
| `UdpPairing.RunClaims` | Source/EBPF/EBPFUdp.h:41-238 | in every interleaving a port belongs to the process that claimed it last |
| `UdpPairing.UdpHooks.EnterSend` | Source/EBPF/EBPFUdp.h:112-120 | the entry probe |
| `UdpPairing.UdpHooks.ExitSend` | Source/EBPF/EBPFUdp.h:25-38 | the exit hook |
| `UdpPairing.UdpHooks.EmitIfBound` | Source/EBPF/EBPFUdp.h:41-110 | the port of a bound socket is claimed for the process, and the event made if the cookie is known |
| `UdpPairing.UdpHooks.ReturnSend4` | Source/EBPF/EBPFUdp.h:122-154 | the IPv4 return probe, which leaves the cookie if the socket is unknown |
| `UdpPairing.UdpHooks.ReturnSend6` | Source/EBPF/EBPFUdp.h:165-197 | the IPv6 return probe, which drops both entries |
| `UdpPairing.UdpHooks.ExitReceive` | Source/EBPF/EBPFUdp.h:201-238 | the receive hooks |
| `ByteBuffer.CapacityBounds` | Source/Util/Buffer.hpp:31-49 | growth does not wrap, suffices, stays below max(1025, 2 * needed), and doubles below half the range |
| `ByteBuffer.WrittenAppends` | Source/Util/Buffer.hpp:126-145 | writing appends to the unread bytes |
| `ByteBuffer.StepIsFifo` | Source/Util/Buffer.hpp:74-145 | each operation is that of an ideal queue and keeps the positions in order |
| `ByteBuffer.RunIsFifo` | Source/Util/Buffer.hpp:74-145 | so is any interleaving in which no single write overflows, however much is written in all |
| `ByteBuffer.IdealIsConcatenation` | Source/Util/Buffer.hpp:61-68 | an ideal queue holds all writes, in order, less what was taken |
| `ByteBuffer.RunCopiesLittle` | Source/Util/Buffer.hpp:38-48 | all regrowths of a run copy no more than the storage gains, if no single write needs more than half the range |
| `ByteBuffer.WBuffer.EnsureCapacity` | Source/Util/Buffer.hpp:31-49 | the loop reaches the capacity of the model, and pads |
| `ByteBuffer.WBuffer.WriteBytes` | Source/Util/Buffer.hpp:126-145 | unread bytes and written ones, unless the size would overflow |
| `ByteBuffer.WBuffer.ReadBytes` | Source/Util/Buffer.hpp:105-122 | what is returned and what stays make up what was there |
| `ByteBuffer.WBuffer.ConsumeBytes` | Source/Util/Buffer.hpp:74-83 | consuming, with the reset when nothing is left |
| `ByteBuffer.WBuffer.CompactBytes` | Source/Util/Buffer.hpp:85-93 | compacting moves the unread bytes and changes none |
| `ByteBuffer.WBuffer.SetWritingPos` | Source/Util/Buffer.hpp:95-103 | positions stay in order; the bytes are those of the storage, grown if needed |
| `ByteBuffer.WBuffer.Resize` | Source/Util/Buffer.hpp:162-169 | what survives a cut is unchanged |
| `Framing.HeaderBytes` | Source/Util/ClientSocket.cpp:117-119 | the four bytes of the length header, lowest first |
| `Framing.FrameExact` | Source/Util/ClientSocket.cpp:115-202 | a frame comes back whole if and only if its size is below 2^32 |
| `Framing.PopFirst` | Source/Util/ClientSocket.cpp:178-202 | from any prefix of the stream the first frame is taken, or none |
| `Framing.ReadsOnlyWhenEmpty` | Source/Util/ClientSocket.cpp:161-167 | the socket is read if and only if no complete frame is buffered |
| `Framing.ListenDelivers` | Source/Util/ClientSocket.cpp:12-24 | from any point on the rest of the frames comes out once each and in order, and the connection is closed in the end |
| `Framing.FramesSurviveChunking` | Source/Util/ClientSocket.cpp:154-202 | every list of payloads survives every chunking; a shutdown or an error loses no frame that has arrived, and closes the connection |
| `Framing.SendsStream` | Source/Util/ClientSocket.cpp:115-126 | several sends put the stream of their payloads on the wire |
| `Framing.PartOfFrame` | Source/Util/ClientSocket.cpp:178-190 | part of a frame is never taken for a frame |
| `Framing.SentFramesArrive` | Source/Util/ClientSocket.cpp:115-202 | what was sent whole arrives whole and in order, also if the connection ends within another frame |
| `Framing.RoomSplits` | Source/Util/ClientSocket.cpp:115-126 | what the answers of the socket take in all is shared out between the header and the payload |
| `Framing.ClientSocket.Send` | Source/Util/ClientSocket.cpp:90-113 | exactly as many bytes go out as the answers take before the first error; success if and only if that is all of them; closed only by an error, and unfinished only if the answers end |
| `Framing.ClientSocket.SendFramed` | Source/Util/ClientSocket.cpp:115-126 | the same for a whole frame; with enough room all of it goes out, and the result says so if and only if the payload is not empty or the connection is lost |
| `Framing.ClientSocket.TryPopBufferedFrame` | Source/Util/ClientSocket.cpp:178-202 | the first complete frame moves to the output, or nothing changes |
| `Framing.ClientSocket.ReceiveFramed` | Source/Util/ClientSocket.cpp:133-176 | one call is one step of the receiver |
| `TrafficCounter.BytesConserved` | Source/Util/TrafficCounter.hpp:51-123 | over any run and clock total plus recent bytes grow by exactly what was pushed |
| `TrafficCounter.StepAgrees` | Source/Util/TrafficCounter.hpp:51-139 | every operation keeps the counter in agreement with an observer of the run |
| `TrafficCounter.RunAgrees` | Source/Util/TrafficCounter.hpp:51-139 | so does every run |
| `TrafficCounter.SpeedIsLastWindow` | Source/Util/TrafficCounter.hpp:76-122 | a closed window shows exactly the bytes since the previous close |
| `TrafficCounter.WindowsAreTimed` | Source/Util/TrafficCounter.hpp:76-122 | a window closes when 1000 ms have passed, whatever happened in between, and then only; an early refresh changes nothing |
| `TrafficCounter.TurnsInactiveAtThird` | Source/Util/TrafficCounter.hpp:104-115 | a counter turns inactive only at the third zero-speed close since the last push |
| `TrafficCounter.ThirdZeroCloseTurns` | Source/Util/TrafficCounter.hpp:104-115 | and at that close it does |
| `TrafficCounter.ActiveStays` | Source/Util/TrafficCounter.hpp:67-123 | an active counter stays active at every refresh but its third zero-speed close |
| `TrafficCounter.TrafficWakes` | Source/Util/TrafficCounter.hpp:82-92 | an inactive counter that shows traffic is active after the next close |
| `TrafficCounter.RefreshKeepsInactive` | Source/Util/TrafficCounter.hpp:67-123 | a refresh leaves an inactive counter inactive if and only if it closes no window or the counter shows no traffic |
| `TrafficCounter.InactiveStays` | Source/Util/TrafficCounter.hpp:67-123 | over any refreshes an inactive counter stays so if and only if it shows no traffic or no window closes; the tick count wraps at 256 |
| `TrafficCounter.RemovalIsDueOnTime` | Source/Util/TrafficCounter.hpp:129-144 | without pushes a mark is due exactly 5000 ms after the first one |
| `TrafficCounter.PushRevives` | Source/Util/TrafficCounter.hpp:51-63 | a push takes a mark back |
| `TrafficCounter.OnlyMarksPend` | Source/Util/TrafficCounter.hpp:51-139 | nothing but a mark makes a counter pending removal |
| `TrafficCounter.NeverDue` | Source/Util/TrafficCounter.hpp:141-144 | so over any run without marks nothing is ever due for removal |
| `TrafficCounter.PendingIsSilent` | Source/Util/TrafficCounter.hpp:67-74 | a marked counter shows no traffic, and does not while it waits |
| `TrafficCounter.TTrafficCounter.CloseWindow` | Source/Util/TrafficCounter.hpp:76-122 | closing a window in place |
| `TrafficCounter.TTrafficCounter.RefreshAt` | Source/Util/TrafficCounter.hpp:67-123 | refresh in place, at a given time |
| `TrafficCounter.TTrafficCounter.MarkForRemoval` | Source/Util/TrafficCounter.hpp:129-139 | marking in place; a second mark changes nothing |
| `TrafficCounter.TTrafficCounter.DueForRemoval` | Source/Util/TrafficCounter.hpp:141-144 | whether a marked counter is due |
| `TrafficCounter.TTrafficCounter.PushOutgoingTraffic` | Source/Util/TrafficCounter.hpp:51-56 | an upload push in place |
| `TrafficCounter.TTrafficCounter.PushIncomingTraffic` | Source/Util/TrafficCounter.hpp:58-63 | a download push in place |
| `Timers.FirstSlot` | Source/Util/Time.cpp:10-19 | the first slot is the next multiple of the interval |
| `Timers.AlignedFires` | Source/Util/Time.hpp:85-93 | fire number k is for slot k and never early, whatever the clock does |
| `Timers.AlignedNext` | Source/Util/Time.hpp:85-93 | the next fire time moves by one interval for each fire |
| `Timers.AlignedStaysAligned` | Source/Util/Time.hpp:85-93 | it stays a multiple of the interval |
| `Timers.AlignedCatchesUp` | Source/Util/Time.hpp:85-93 | after a clock jump every missed slot fires, one per update |
| `Timers.AlignedFiresWhenDue` | Source/Util/Time.hpp:85-93 | an update fires if and only if the slot behind all earlier fires has come |
| `Timers.PeriodicAccounts` | Source/Util/Time.hpp:94-100 | all elapsed time is fires or remainder |
| `Timers.PaidIsFires` | Source/Util/Time.hpp:94-100 | fires account for one interval each |
| `Timers.PeriodicOnTime` | Source/Util/Time.hpp:94-100 | with steps up to one interval the remainder stays below it |
| `Timers.PeriodicCounts` | Source/Util/Time.hpp:94-100 | and the number of fires is the number of whole intervals that passed |
| `Timers.PeriodicFiresWhenDue` | Source/Util/Time.hpp:94-100 | over steps of any length an update fires if and only if the time passed since the start, less one interval for each fire, has reached the interval |
| `Timers.NewTimerCounts` | Source/Util/Time.cpp:10-19 | a new periodic timer has fired once for each whole interval since it was made |
| `Timers.ManagerRunsEach` | Source/Util/Time.cpp:21-33 | every timer of a manager runs as if it were alone, by its own readings of the wall clock |
| `Timers.ManagerKeepsTime` | Source/Util/Time.cpp:21-33 | the time between two calls is fires and remainder, for each periodic timer |
| `Timers.FiringListed` | Source/Util/Time.cpp:21-33 | every timer that fires is listed |
| `Timers.ListedFires` | Source/Util/Time.cpp:21-33 | and every id listed is that of a timer that fires |
| `Timers.WithoutInOrder` | Source/Util/Time.hpp:131-140 | removing a timer keeps the others in order |
| `Timers.WTimerManager.AddTimer` | Source/Util/Time.hpp:113-129 | a new timer with a new id behind the others |
| `Timers.WTimerManager.RemoveTimer` | Source/Util/Time.hpp:131-140 | the timers with other ids stay |
| `Timers.WTimerManager.UpdateTimers` | Source/Util/Time.cpp:21-33 | every timer is updated once, by the wall clock at that moment; the ids of those that fire, in order |
| `ReplaceAll.PiecesJoin` | Source/Util/Format.hpp:67-78 | the pieces joined by the needle are the haystack: nothing else is cut out |
| `ReplaceAll.PiecesLeftmost` | Source/Util/Format.hpp:72-76 | no piece allows an earlier cut |
| `ReplaceAll.ReplacedNone` | Source/Util/Format.hpp:72-77 | without an occurrence nothing changes |
| `ReplaceAll.ReplacedFirst` | Source/Util/Format.hpp:72-76 | the first occurrence is replaced and the search goes on behind it |
| `ReplaceAll.Find` | Source/Util/Format.hpp:72 | the first occurrence from a position on, or none |
| `ReplaceAll.ReplaceAll` | Source/Util/Format.hpp:67-78 | the loop ends and equals replacing the leftmost non-overlapping occurrences of the original |
| `FlagAtlas.BitLengthBounds` | Meta/Scripts/FlagConv.py:39-41 | what bit_length means |
| `FlagAtlas.NoneBelowLarger` | Meta/Scripts/FlagConv.py:38-41 | below the start of the search no power of two holds an image |
| `FlagAtlas.LaidAtMost` | Meta/Scripts/FlagConv.py:43-46 | however images are laid out in a square, not only on a grid, they are no more than the grid has cells |
| `FlagAtlas.HoldsExactly` | Meta/Scripts/FlagConv.py:43-46 | the comparison of the search holds if and only if the images can be laid out at all |
| `FlagAtlas.NothingFits` | Meta/Scripts/FlagConv.py:42-48 | when the loop ends without a side, no power of two up to the cap is enough |
| `FlagAtlas.SearchSide` | Meta/Scripts/FlagConv.py:42-48 | the loop finds the least side from its start on |
| `FlagAtlas.FindMinPower2Side` | Meta/Scripts/FlagConv.py:37-48 | the least power of two up to the cap that holds the images, or there is none |
| `FlagAtlas.CellFits` | Meta/Scripts/FlagConv.py:126-131 | every image lies in the atlas, and its row exists |
| `FlagAtlas.CellsApart` | Meta/Scripts/FlagConv.py:126-131 | no two images overlap |
| `FlagAtlas.NextCell` | Meta/Scripts/FlagConv.py:126-131 | images follow each other from left to right and row by row, from the corner on |
| `FlagAtlas.PlaceImages` | Meta/Scripts/FlagConv.py:124-133 | the loop lays out all images, inside and disjoint |
| `FlagAtlas.BuildAtlas` | Meta/Scripts/FlagConv.py:118-133 | sizing and placement together succeed whenever a side up to the cap is enough |

## Left out

- Machine integers of the packer: coordinates, waste and widths are unbounded; the target is at most 2^31 - 1 wide and 2^30 high, and sizes are not negative.
- Sharing of node memory between two packers, and a target without node storage (`num_nodes` of 0).
- Redo after redo records were dropped: what the store then holds is stated, what a further redo makes of a stale record is not.
- A host that refuses an insertion during undo or redo; the answer of the host to typing is a parameter.
- The bail-out inside the discard loop of `stb_text_undo` and the row error of the atlas script: shown to be unreachable, so they have no branch in the model.
- Cursor movement, mouse, row layout, clipboard and the key switch of the text editor.
- Contents of ring-buffer events beyond socket, port, process and cookie; context types and the in-kernel verifier; the cgroup traffic hooks. Reservation failure is a parameter.
- UdpPairing.InterleavingsPair: takes the exit hook of a call to run before its return probe.
- Sockets, threads, `poll` and signals: answers of `send` and `recv` are parameters, of any chunk size.
- Framing.ClientSocket.TryPopBufferedFrame: takes less than 2^63 bytes to be buffered; byte order is little-endian.
- Wrap-around of the 64-bit byte totals; `Clear` and the typed read and write templates of `WBuffer`; the debug assertion on overflow.
- Doubles are exact reals; traffic items start with whole-numbered speeds; the wall clock is not negative when an aligned timer is made, and its interval is at least one second (the code divides by it).
- Timer callbacks and locking: the ids of the timers that fire stand for the callbacks.
- ReplaceAll.ReplaceAll: takes a non-empty needle; with an empty one the source does not end.
- FlagAtlas.FindMinPower2Side: takes at least one image and positive sizes; rendering and file output are not modelled.
- Message payloads (cereal), the daemon's rule manager, system map, resolver and statistics, the user interface and generated tables.
