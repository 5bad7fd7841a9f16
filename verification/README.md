# A verified model of the stateful algorithms in SDR++Brown

SDR++Brown is a software radio. Around its signal processing it carries a number of small
algorithms that keep state by hand: a rectangle packer over linked lists, an undo engine in
fixed arrays, a two-thread buffer handoff, a deferred saver, an interval merger, a draw-list
codec, an incremental request parser, two search tools. Each makes promises that cannot be
read off one function. This project models them in Dafny and proves the promises.

`dafny verify dfyconfig.toml` verifies everything.

Code that changes state is a class with the source's fields; its methods are proved against
functions on plain values, and the promises are lemmas about those functions. Two-thread
protocols are state machines with one step per critical section, and the classes beside them
do to their fields what a step does to the state.

| files | what they model |
|---|---|
| `Skyline`, `RectPack`, `PackRuns`, `PackRects` | the skyline packer `imstb_rectpack.h` |
| `UndoModel`, `UndoEngine` | undo and redo of the text editor `imstb_textedit.h` |
| `StreamModel`, `Stream` | the double-buffer handoff `stream.h` |
| `BlockModel`, `Block`, `Processor` | the life of a DSP block, `block.h` and `processor.h` |
| `AutoSaveModel`, `ConfigSaver` | the deferred config saver `config.cpp` |
| `BandOrder`, `BandMerge`, `BandCanon`, `BandLists`, `BandResults` | the band merger of `traficom_to_sdrpp_brown.py` |
| `DrawCodec`, `DrawWidgets`, `DrawReplay`, `DrawLists` | the remote draw list `smgui.cpp` |
| `UrlCodec`, `HttpModel`, `HttpRoundTrip`, `HttpParser` | the request parser of `EmbeddableWebServer.h` |
| `PolySearch`, `Annealing`, `Neighbors` | the polynomial search tools of libcorrect |
| `Common`, `Sorting` | shared types, the libraries' stable sort |

## What the code does otherwise than it says

- `imstb_rectpack.h:242-259` says that with the default rounding "num_nodes is always enough".
  It is, for every run on a target of a given width, if and only if there are at least as many
  nodes as columns (`PackRuns.EnoughNodesIff`). A placed rectangle covers its own width, not
  the rounded one, so nodes can lie closer together than the rounding supposes.
- `stb_text_undo`, when it has to discard redo records, goes on with a slot whose fields it no
  longer sets (`imstb_textedit.h:1266`). The text is right even then; the redo record is the
  edit that takes the text back exactly when there was room, or when the record it picks up
  happens to have the same place and lengths (`UndoEngine.Editor.TextUndo`). Two insertions and
  one undo are enough to come to such a state (`UndoModel.RoomRunsOut`), and one insertion of
  999 characters to come to one without space (`UndoModel.SpaceRunsOut`). The next edit throws the redo records away, and
  all is sound again (`UndoEngine.Editor.UndoThenPaste`).
- `merge_bands` says that bands of one name and compatible types within the given distance are
  merged. Its backward scan stops at the first interval that ends too early, so this holds for
  all inputs if and only if a name uses at most one specific type
  (`BandCanon.MaximalIffOneSpecific`). Its forward loop never folds anything in
  (`BandMerge.AbsorbFoldsNothing`).
- `loadItem` does not count the type byte of an element in its length checks. So `load` looks
  at the byte after the length it is given exactly when the last element lacks one byte, which
  a walk over the bytes tells beforehand; that byte decides whether it succeeds or fails, and
  where there is none it leaves the buffer (`DrawCodec.EndsAsWalked`, `DrawCodec.LooksPast`).
  In all other cases it stays inside, and so it does on every list that loads back as it was
  stored (`DrawCodec.StaysInside`, `DrawCodec.StoredIsWhole`).
- `InputText` of the server takes up a text as long as its buffer, and `strcpy` then writes the
  final zero after the buffer (`DrawReplay.ChangeComesBack`).
- A request with `Content-Length: 0`, or a negative one, is not done with its last byte; the
  parser waits for any one byte more and drops it (`HttpRoundTrip.EmptyBodyWaits`,
  `HttpRoundTrip.ZeroLengthIsGood`).
- A header without a value is not kept, but its name is, and begins the name of the next
  (`HttpRoundTrip.EmptyFieldSticks`).
- A `stop()` inside a temporary stop brings the worker thread back on a block that is not
  running (`Blocks.StopInsideTempStop`); `start()` and `stop()` keep the fields consistent
  exactly when they are not called, to any effect, inside one (`Blocks.StartStopOrderlyIff`).
- `shuffle` of the annealing tool stops one draw early: of any order of distinct elements and
  the same order with its last two exchanged, exactly one can come out
  (`Annealing.HalfReachable`), and the list with just its last two exchanged never does
  (`Annealing.LastTwoNotExchanged`). So one set of inner bits is never flipped, all but the
  last but one, and every other is (`Neighbors.EveryNeighborButOne`); the loop's bound `len - 2` wraps around below two
  elements, which `Annealing.NextNeighbor` therefore requires.

## Model

| member | source | states |
|---|---|---|
| `RectPack.Context.InitTarget` | core/src/imgui/imstb_rectpack.h:262-292 | a fresh target: two linked sentinels, all given nodes free, align the ceiling of width/num_nodes |
| `RectPack.Context.SetupAllowOutOfMem` | core/src/imgui/imstb_rectpack.h:242-259 | align becomes 1, or the smallest rounding that the comment asks for |
| `RectPack.QuantumIsCeiling` | core/src/imgui/imstb_rectpack.h:250-257 | that rounding is the least one with num_nodes * align >= width |
| `Skyline.ScanResult` | core/src/imgui/imstb_rectpack.h:295-343 | the scan over nodes returns exactly the greatest skyline height over the window |
| `Skyline.WasteIsGap` | core/src/imgui/imstb_rectpack.h:295-343 | the waste is the summed gap under the window when it starts at a node or on a raised one, and never less anywhere |
| `Skyline.WasteCanOvercount` | core/src/imgui/imstb_rectpack.h:312-338 | the smallest window on which the waste is more than the gap |
| `RectPack.Context.FindMinY` | core/src/imgui/imstb_rectpack.h:295-343 | the loop over linked nodes computes that height and that waste |
| `Skyline.NodesSuffice` | core/src/imgui/imstb_rectpack.h:369-395 | the best of the node positions is lowest and leftmost of all positions in the target |
| `Skyline.BestFitIsLowest` | core/src/imgui/imstb_rectpack.h:399-447 | the best-fit choice among left- and right-aligned candidates is as low as any position at all |
| `Skyline.BestFitWastesLeast` | core/src/imgui/imstb_rectpack.h:429-442 | and of the candidates as low it wastes least, and of those is leftmost |
| `RectPack.Context.FindBestPos` | core/src/imgui/imstb_rectpack.h:351-451 | bottom-left: the lowest resting y over every x, leftmost; best-fit: the lowest, then least waste, then leftmost of the candidates; fails only if nothing fits |
| `Skyline.SpliceHeight` | core/src/imgui/imstb_rectpack.h:463-497 | after a placement the skyline is the top over the rectangle's own width, the swallowed part of the last node's columns included, and unchanged elsewhere |
| `Skyline.SpliceKeepsShape` | core/src/imgui/imstb_rectpack.h:463-526 | the list still starts at 0, increases strictly, and ends at the sentinel at width |
| `Skyline.SpliceNeverFalls` | core/src/imgui/imstb_rectpack.h:453-530 | a placement on its resting height lowers the skyline nowhere, rounding or not |
| `Skyline.PlaceKeepsSound` | core/src/imgui/imstb_rectpack.h:453-530 | all boxes placed stay inside the target, disjoint, and under the skyline |
| `RectPack.Context.PackRectangle` | core/src/imgui/imstb_rectpack.h:453-530 | succeeds iff a node is free and some position fits; then the box is where the heuristic must put it, the lists are spliced, every node is in exactly one list |
| `RectPack.Context.FreeNodeLeft` | core/src/imgui/imstb_rectpack.h:133-147 | with num_nodes >= width the free list is never empty |
| `PackRuns.EnoughNodesIff` | core/src/imgui/imstb_rectpack.h:142-147 | some run can run out of nodes while a rectangle still fits iff num_nodes < width |
| `PackRuns.StairReached` | core/src/imgui/imstb_rectpack.h:248-258 | the run that uses up all nodes although rounding is on |
| `PackRects.PackRects` | core/src/imgui/imstb_rectpack.h:558-596 | any call after any calls: the rectangles have their turns tallest first, then widest; each turn places where the heuristic must on the skyline left by the turns before, iff there is a node and room; rectangles back in order with their sizes, boxes apart from all earlier ones and each other, flags and result right, the others do not fit when nodes suffice |
| `PackRects.PackEach` | core/src/imgui/imstb_rectpack.h:570-583 | the packing loop over the sorted rectangles |
| `PackRects.RoomShrinks` | core/src/imgui/imstb_rectpack.h:570-583 | what did not fit once does not fit later in the call |
| `PackRects.InOrder` | core/src/imgui/imstb_rectpack.h:585-586 | sorting by the remembered index restores the caller's order |
| `UndoModel.RedoUndoes` | core/src/imgui/imstb_textedit.h:1225-1342 | redo after undo restores text and both stacks exactly |
| `UndoModel.UndoRedoes` | core/src/imgui/imstb_textedit.h:1225-1342 | undo after redo restores text and both stacks exactly |
| `UndoModel.RunTells` | core/src/imgui/imstb_textedit.h:1205-1367 | over every run of edits, undos and redos with room the text is the version a history predicts that keeps as many versions as 99 records with 999 characters allow |
| `UndoModel.EditForgets` | core/src/imgui/imstb_textedit.h:1181-1203 | an edit that deletes n characters forgets no record while 98 records and 999 - n characters hold them, and otherwise only as many of the oldest as it must |
| `UndoModel.AllUndone` | core/src/imgui/imstb_textedit.h:1181-1291 | at most 99 edits that delete at most 999 characters in all are all remembered, and as many undos give the first text |
| `UndoModel.SpaceRunsOut` | core/src/imgui/imstb_textedit.h:1253-1255 | one insertion into the empty text leaves no space for its own undo iff it has 999 characters or more |
| `UndoModel.RoomRunsOut` | core/src/imgui/imstb_textedit.h:1253-1269 | two insertions and an undo from the empty text, after which the next undo has no space, or is crowded by redo records the newest of which is unlike the one to write; which of these, the lengths tell |
| `UndoModel.UndoTimesText` | core/src/imgui/imstb_textedit.h:1225-1291 | n undos give the text n versions back |
| `UndoModel.RedoTimesUndoes` | core/src/imgui/imstb_textedit.h:1225-1342 | n redos after n undos restore everything |
| `UndoModel.EditKeepsSane` | core/src/imgui/imstb_textedit.h:1181-1222 | dropping the oldest records for room leaves a stack that still applies, whatever the redo records were |
| `UndoEngine.Editor.DiscardUndo` | core/src/imgui/imstb_textedit.h:1129-1145 | the oldest record and its characters go; every other record still denotes the same edit |
| `UndoEngine.Editor.DiscardRedo` | core/src/imgui/imstb_textedit.h:1151-1179 | the same at the other end of the arrays |
| `UndoEngine.Editor.CreateUndo` | core/src/imgui/imstb_textedit.h:1181-1222 | drops all redo records, makes room and pushes a record with its storage, or empties the stack when it can never fit; needs only the undo stack in order, and leaves everything so |
| `UndoEngine.Editor.MakeUndo` | core/src/imgui/imstb_textedit.h:1349-1367 | the record pushed is the inverse of the edit about to be made |
| `UndoEngine.Editor.TextUndo` | core/src/imgui/imstb_textedit.h:1225-1291 | the text always becomes the older version and the undo stack stays in order; the redo record written is the inverse iff there was space and either nothing to forget or a stale slot that looks alike; the model's undo when there was room |
| `UndoEngine.SlotMeans` | core/src/imgui/imstb_textedit.h:1234-1276 | what the redo slot holds in each case, and when it denotes the inverse edit |
| `UndoEngine.Editor.TextRedo` | core/src/imgui/imstb_textedit.h:1293-1342 | carries out the edit its record says and pushes the inverse; in a well laid out state this is the model's redo |
| `UndoEngine.Editor.RedoReady` | core/src/imgui/imstb_textedit.h:1304-1319 | there the next record is the model's newest redo edit, and the way out for a full buffer is never taken |
| `UndoEngine.Editor.Delete` | core/src/imgui/imstb_textedit.h:591-596 | a deletion is an edit of the model |
| `UndoEngine.Editor.DeleteSelection` | core/src/imgui/imstb_textedit.h:577-613 | clamps, then deletes the selection whichever way round it is |
| `UndoEngine.Editor.Paste` | core/src/imgui/imstb_textedit.h:707-724 | deletes the selection and inserts, as two edits |
| `UndoEngine.Editor.TypeOver` | core/src/imgui/imstb_textedit.h:753-761 | overwriting a character is one replacing edit |
| `UndoEngine.Editor.UndoThenPaste` | core/src/imgui/imstb_textedit.h:1181-1291 | an edit after any undo, crowded or not, makes the state sound, with something to undo and nothing that crowds it |
| `StreamModel.StepInv` | core/src/dsp/stream.h:94-159 | exactly one token exists, whatever critical section runs next |
| `StreamModel.RunsInOrder` | core/src/dsp/stream.h:94-159 | in every interleaving the batches read are a prefix of those swapped, each once, in order, at most one on its way |
| `StreamModel.StableWhileUsing` | core/src/dsp/stream.h:121-159 | no one changes the batch the reader works on until it flushes |
| `StreamModel.NeverStuck` | core/src/dsp/stream.h:94-159 | without stops, reader and writer never both wait |
| `StreamModel.StoppedReaderTakesNothing` | core/src/dsp/stream.h:121-192 | in every interleaving from stopReader to clearReadStop the reader finishes at most the batch it has in use |
| `StreamModel.StoppedWriterSendsNothing` | core/src/dsp/stream.h:94-171 | and from stopWriter to clearWriteStop nothing is sent |
| `Streams.Stream.SwapBuffers` | core/src/dsp/stream.h:94-110 | the pointer swap under the first lock, and nothing when stopped; the two buffers stay different, so what is filled next is not what is read |
| `Streams.Stream.LeaveRead` | core/src/dsp/stream.h:121-143 | the size or -1, and the reader counted out |
| `BlockModel.NextKeepsInv` | core/src/dsp/block.h:82-122 | every step of worker, controller and neighbours keeps the system's invariant |
| `BlockModel.NothingLostButOnePerStop` | core/src/dsp/block.h:82-122 | over any run with restarts, batches are taken in order, each has one fate, what is handed on is what was processed, and at most one is lost per stop |
| `BlockModel.PendingSurvivesStop` | core/src/dsp/block.h:99-122 | a batch waiting in the input of a stopped block is the next one read after a restart |
| `BlockModel.AtMostOneMore` | core/src/dsp/block.h:99-122 | a stop lets at most one more batch be taken and one more be handed on |
| `BlockModel.StoppedNeverBlocked` | core/src/dsp/block.h:99-122 | with both stops set the worker can always go on |
| `BlockModel.StopEnds` | core/src/dsp/block.h:82-122 | and is gone after at most six steps of its own from anywhere, handing nothing on |
| `BlockModel.ReaderLetOut` | core/src/dsp/stream.h:173-188 | a worker waiting in read is let out, so stopReader's polling ends |
| `BlockModel.StopAndRestart` | core/src/dsp/block.h:87-122 | from any state of a running block the controlling thread and the worker alone can carry a stop and the next start through; it counts as one stop |
| `BlockModel.BatchPasses` | core/src/dsp/processor.h:15-37 | with a batch waiting and room to hand on, eight steps of the worker take it and hand on what process makes of it |
| `Blocks.StartStopOrderlyIff` | core/src/dsp/block.h:41-80 | when start and stop keep the flags and the thread consistent |
| `Blocks.StopInsideTempStop` | core/src/dsp/block.h:51-80 | the call order that does not |
| `Blocks.BalancedRestores` | core/src/dsp/block.h:61-80 | balanced temporary stops, however nested, leave the block as it was |
| `Blocks.Block.TempStop` | core/src/dsp/block.h:70-80 | the outermost one stops a running worker, inner ones only count |
| `Blocks.Block.TempStart` | core/src/dsp/block.h:61-69 | and the last one brings it back |
| `Processors.RunBounded` | core/src/dsp/processor.h:42-73 | every sample goes to process once and in order, in the longest pieces allowed; no chunk is over the buffer; it fails only for want of room or when swap refuses; the input is flushed, the total is right |
| `Processors.FeedIsWhole` | core/src/dsp/processor.h:49-70 | for a process whose runs compose, pieces are as good as the whole |
| `Processors.BoundedIsWhole` | core/src/dsp/processor.h:42-73 | so the chunks swapped out are one run over the whole batch |
| `AutoSaveModel.StepInv` | core/src/config.cpp:26-192 | the saver's invariant holds after every critical section |
| `AutoSaveModel.NothingLost` | core/src/config.cpp:26-192 | in every reachable state an unsaved change has a save on its way, and a free lock with nothing changed means the file is the config |
| `AutoSaveModel.WorkerStaysAway` | core/src/config.cpp:39-52 | after disableAutoSave returns the worker is not at the manager until it is enabled again |
| `AutoSaveModel.OwedIsPaid` | core/src/config.cpp:54-92 | from every state that owes a save, the worker and the pending enqueue alone can make it |
| `AutoSaveModel.NeverQueuedTwice` | core/src/config.cpp:26-92 | in every run without switching off a job is in the worker's list once or not at all, as it says |
| `AutoSaveModel.SavedUntilChanged` | core/src/config.cpp:152-161 | a save, the client's or the worker's, makes the file the config, and it stays so in every run until the next change |
| `AutoSaveModel.OnlySavesWrite` | core/src/config.cpp:26-192 | nothing else writes the file, and only clients change the config |
| `ConfigSaver.ConfigManager.Release` | core/src/config.cpp:182-192 | marks the change, and asks for an enqueue when autosave is on |
| `ConfigSaver.SaveWorker.Enqueue` | core/src/config.cpp:26-37 | one entry per queued job, a new due time, nothing for a cancelled job |
| `ConfigSaver.SaveWorker.Remove` | core/src/config.cpp:39-44 | every entry of the job goes, the others stay |
| `ConfigSaver.SaveWorker.TakeNext` | core/src/config.cpp:54-73 | takes the job due first, if it is due |
| `ConfigSaver.SaveWorker.LockJob` | core/src/config.cpp:74-87 | locks the manager, or asks to try again, or finds it gone |
| `ConfigSaver.SaveWorker.SaveIfChanged` | core/src/config.cpp:77-83 | saves a changed config and unlocks |
| `BandMerge.FindsLastMatch` | util/traficom_to_sdrpp_brown.py:253-266 | the scan answers an interval iff it is the last of a matching type and none from it on ends too early |
| `BandMerge.FindsNothing` | util/traficom_to_sdrpp_brown.py:253-266 | it answers none only if from every interval of a matching type on there is one that ends too early |
| `BandMerge.AddsIffAlone` | util/traficom_to_sdrpp_brown.py:246-292 | so a band adds an interval exactly then, and otherwise changes just the last one it matches |
| `BandMerge.AbsorbFoldsNothing` | util/traficom_to_sdrpp_brown.py:277-292 | the forward loop never folds anything: a band changes one interval or adds one |
| `BandMerge.MergePartitions` | util/traficom_to_sdrpp_brown.py:246-292 | each band of a name goes to exactly one interval |
| `BandMerge.MergeIsSound` | util/traficom_to_sdrpp_brown.py:246-292 | an interval is the hull of its bands, with no gap wider than the given distance, of their one specific type or "other" |
| `BandCanon.MergeSeparates` | util/traficom_to_sdrpp_brown.py:246-292 | with one specific type the intervals are sorted and further apart than the distance |
| `BandCanon.CanonicalIsUnique` | util/traficom_to_sdrpp_brown.py:213-223 | two such forms of the same bands agree in bounds, type and bands |
| `BandCanon.StraddleMerges` | util/traficom_to_sdrpp_brown.py:256-259 | three bands of two specific types that the scan leaves apart |
| `BandCanon.MaximalIffOneSpecific` | util/traficom_to_sdrpp_brown.py:213-223 | the documented conditions leave nothing to merge, for all inputs, iff at most one specific type is in use |
| `BandLists.MergeBands` | util/traficom_to_sdrpp_brown.py:208-296 | the whole program: grouping by folded name, the loops, the final sort |
| `BandResults.IntervalsPartition` | util/traficom_to_sdrpp_brown.py:208-296 | each input band goes to exactly one interval of the result |
| `BandResults.MergedIsSound` | util/traficom_to_sdrpp_brown.py:208-296 | the result lists one sound interval after the other, in order |
| `BandResults.MergedInOrder` | util/traficom_to_sdrpp_brown.py:294-295 | in order is by start, end, type and folded name |
| `BandResults.TakenInOrder` | util/traficom_to_sdrpp_brown.py:234-244 | within a name bands are taken by start, end, specific types before "other", type |
| `BandOrder.TextLeAt` | util/traficom_to_sdrpp_brown.py:237-244 | text is compared at its first difference |
| `BandResults.MergedIsCanonical` | util/traficom_to_sdrpp_brown.py:208-296 | with one specific type per name the result is each name's canonical form |
| `BandResults.MergedTwice` | util/traficom_to_sdrpp_brown.py:208-296 | and merging again changes nothing |
| `DrawCodec.EncodeAll` | core/src/gui/smgui.cpp:320-393 | store writes exactly getSize bytes |
| `DrawCodec.Format` | core/src/gui/smgui.cpp:320-358 | the bytes of every kind of element: its type, then its value, low bytes first |
| `DrawCodec.EndsAsWalked` | core/src/gui/smgui.cpp:257-303 | for every buffer, length and content: load uses the length iff its bytes are whole elements, looks at the byte after iff the last lacks one byte, and then succeeds, fails or leaves the buffer as told |
| `DrawCodec.StaysInside` | core/src/gui/smgui.cpp:257-303 | otherwise what it loads does not depend on any byte after the length |
| `DrawCodec.RoundTripIff` | core/src/gui/smgui.cpp:257-373 | stored bytes load back as the list, all used, iff all strings are shorter than 65536, with or without bytes after them |
| `DrawCodec.StoredIsWhole` | core/src/gui/smgui.cpp:320-373 | so load never looks past the bytes of such a list |
| `DrawCodec.LooksPast` | core/src/gui/smgui.cpp:263-282 | inputs on which load looks past the length and succeeds, fails, or leaves the buffer |
| `DrawWidgets.ValidIff` | core/src/gui/smgui.cpp:395-481 | validate accepts exactly the lists that are steps with the arguments of their types |
| `DrawWidgets.AdvanceAgrees` | core/src/gui/smgui.cpp:84-213 | draw and validate agree on every step's number of arguments |
| `DrawWidgets.RecordedIsTyped` | core/src/gui/smgui.cpp:489-831 | every list the widget functions record is accepted by validate |
| `DrawWidgets.DrawsWhatWasRecorded` | core/src/gui/smgui.cpp:84-213 | draw makes the call that was recorded, each argument read with the right field |
| `DrawReplay.PlayedIsShown` | core/src/gui/smgui.cpp:67-218 | drawing a recorded menu makes its calls, less what closed popups and tables hide, leaves in the list the user's values and else what was there, and reports the last change |
| `DrawReplay.EditedIsChanged` | core/src/gui/smgui.cpp:84-146 | what a widget leaves in its elements is its call with the user's value |
| `DrawReplay.ReportedIs` | core/src/gui/smgui.cpp:61-65 | the change reported is the widget's name, the user's value and the recorded sync flag |
| `DrawReplay.MenuArrives` | core/src/gui/smgui.cpp:67-393 | record, store, load, validate and draw together keep the menu, and give back the user's values and last change |
| `DrawReplay.ChangeComesBack` | core/src/gui/smgui.cpp:702-718 | a change reported is taken up by the server's widget with the user's value; an input text longer than its buffer is not, one as long overruns it by its final zero |
| `DrawReplay.OthersDoNotHear` | core/src/gui/smgui.cpp:489-731 | and by no widget of another name |
| `DrawReplay.ReportersTakeSync` | core/src/gui/smgui.cpp:515-731 | every widget that reports changes takes the sync flag asked for it |
| `DrawLists.StoreItem` | core/src/gui/smgui.cpp:320-358 | the bytes at the position, or failure for lack of room |
| `DrawLists.DrawList.Store` | core/src/gui/smgui.cpp:360-373 | all elements' bytes from the start, the rest of the buffer untouched, or failure iff too small |
| `DrawLists.DrawList.Load` | core/src/gui/smgui.cpp:291-318 | the elements of the bytes, for every length in the buffer; fails iff one cannot be read or the list is not valid, and says when the buffer is left |
| `DrawLists.DrawList.Validate` | core/src/gui/smgui.cpp:420-481 | the loop decides validity |
| `DrawLists.DrawList.SkipPast` | core/src/gui/smgui.cpp:170-175 | leaving a closed popup or table lands after the widget that ends it, never inside arguments |
| `DrawLists.DrawList.Draw` | core/src/gui/smgui.cpp:67-218 | on a valid list: in range, right types, always at a step; calls, changed list and reported change as the list means |
| `DrawLists.Recorder.Widget` | core/src/gui/smgui.cpp:489-836 | pushes the step with the sync flag it takes, and the arguments |
| `DrawLists.RecordedNext` | core/src/gui/smgui.cpp:515-530 | so a list of recorded calls stays one |
| `UrlCodec.UnescapeEscape` | core/src/EmbeddableWebServer.h:538-560 | an escaped string decodes to itself |
| `UrlCodec.ParameterOfEscape` | core/src/EmbeddableWebServer.h:538-560 | as a parameter too, at the end or before the next one |
| `UrlCodec.EscapesExactly` | core/src/EmbeddableWebServer.h:543-556 | letters, digits and three signs stay, every other byte becomes its two digits |
| `UrlCodec.SpelledDecodes` | core/src/EmbeddableWebServer.h:677-707 | every spelling of bytes, as themselves, a space as a plus, or as two digits, decodes to them; what is no number or is cut short means nothing |
| `UrlCodec.EveryStringSpells` | core/src/EmbeddableWebServer.h:658-711 | and every string is such a spelling |
| `UrlCodec.URLDecode` | core/src/EmbeddableWebServer.h:650-713 | decodes the string or its parameter part, fails only with a full buffer and more to come, stays in it |
| `UrlCodec.EscapeForURL` | core/src/EmbeddableWebServer.h:538-560 | the loop computes the escaped string |
| `HttpModel.AppendChar` | core/src/EmbeddableWebServer.h:948-956 | writes in the used pool only and never through a null pointer |
| `HttpModel.Step` | core/src/EmbeddableWebServer.h:1308-1480 | every character keeps every buffer in range, the header count below 64 in header states, and a name and value in every accepted header |
| `HttpModel.FeedConcat` | core/src/EmbeddableWebServer.h:1321-1480 | parsing a then b is parsing a + b |
| `HttpModel.FragmentsDoNotMatter` | core/src/EmbeddableWebServer.h:1321-1480 | nor does any other cutting into fragments |
| `HttpModel.DoneStays` | core/src/EmbeddableWebServer.h:1473-1477 | what comes after the end changes nothing but a warning |
| `HttpRoundTrip.PutAllFills` | core/src/EmbeddableWebServer.h:926-956 | the characters of one string become the pool's next string |
| `HttpRoundTrip.FieldArrives` | core/src/EmbeddableWebServer.h:1364-1424 | one field line adds exactly one header |
| `HttpRoundTrip.EmptyFieldSticks` | core/src/EmbeddableWebServer.h:1381-1404 | a field without a value adds none, but its name begins the next one's |
| `HttpRoundTrip.LineEaten` | core/src/EmbeddableWebServer.h:1309-1318 | without a free header or room in the pool a line leaves only its warning |
| `HttpRoundTrip.HeadersAlwaysEnd` | core/src/EmbeddableWebServer.h:1364-1463 | however many lines of whatever kind and length follow the first, the empty line ends them |
| `HttpRoundTrip.RequestArrives` | core/src/EmbeddableWebServer.h:1321-1480 | a well-formed request is parsed back to itself: its line up to 63, 1023 and 15 bytes, its first 64 fields, and as many bytes of body as the first Content-Length says, up to 128 MB; a warning for what is cut off and no other; and when it is done |
| `HttpRoundTrip.FragmentsArrive` | core/src/EmbeddableWebServer.h:1894-1912 | the same in whatever fragments it comes |
| `HttpRoundTrip.EmptyBodyWaits` | core/src/EmbeddableWebServer.h:1428-1471 | a request that announces length 0 is not done when it is whole; any one byte after it makes it done and changes nothing else |
| `HttpRoundTrip.ZeroLengthIsGood` | core/src/EmbeddableWebServer.h:1428-1450 | every request line with one Content-Length that fits and reads as 0 or less is such a request |
| `HttpRoundTrip.PrintedText` | core/src/EmbeddableWebServer.h:1321-1426 | the bytes that are parsed back are the text of a request: spaces, colons and line ends where the protocol has them |
| `HttpRoundTrip.NamesInAnyCase` | core/src/EmbeddableWebServer.h:466-474 | two names are taken for one iff they differ at most in the case of letters |
| `HttpRoundTrip.LengthInAnyCase` | core/src/EmbeddableWebServer.h:466-474 | the name of that field in any mixture of cases |
| `HttpRoundTrip.EscapedPathArrives` | core/src/EmbeddableWebServer.h:1337-1351 | a name escaped into the path is what the parser decodes |
| `HttpParser.HttpRequest.PathEndsHere` | core/src/EmbeddableWebServer.h:1337-1343 | decoding the path always succeeds |
| `HttpParser.HttpRequest.HeaderInRequest` | core/src/EmbeddableWebServer.h:466-474 | the first accepted header with the name, whatever its case |
| `HttpParser.HttpRequest.HeaderNameChar` | core/src/EmbeddableWebServer.h:1364-1380 | a name's characters go to the pool in place |
| `HttpParser.HttpRequest.HeaderValueChar` | core/src/EmbeddableWebServer.h:1381-1404 | a value's characters, and when a header is accepted |
| `HttpParser.HttpRequest.EndHeaders` | core/src/EmbeddableWebServer.h:1425-1456 | done, or a body of the announced length within its limit |
| `HttpParser.HttpRequest.RequestParse` | core/src/EmbeddableWebServer.h:1321-1480 | the loop with its replay ends and feeds the fragment to the request |
| `PolySearch.SuccessorCounts` | core/libcorrect/tools/find_conv_optim_poly.c:167-176 | adding 2 with carry is counting in base num_polys |
| `PolySearch.NumberOfNth` | core/libcorrect/tools/find_conv_optim_poly.c:161-177 | the n-th polynomial is n's digits |
| `PolySearch.NthOfNumber` | core/libcorrect/tools/find_conv_optim_poly.c:161-177 | every polynomial is the one of its number |
| `PolySearch.CoeffIsOdd` | core/libcorrect/tools/find_conv_optim_poly.c:146-148 | the coefficients are the odd numbers of `order` binary digits |
| `PolySearch.AddTwo` | core/libcorrect/tools/find_conv_optim_poly.c:167-176 | the carry loop in place |
| `PolySearch.Enumerate` | core/libcorrect/tools/find_conv_optim_poly.c:146-177 | the list holds every tuple of odd coefficients in range exactly once |
| `PolySearch.EndRound` | core/libcorrect/tools/find_conv_optim_poly.c:211-240 | a round keeps the cheaper half, at least 20 and just 20 when the message has its full length, none dearer than one it drops, and doubles the message |
| `PolySearch.MessageDoubles` | core/libcorrect/tools/find_conv_optim_poly.c:218-234 | the message of a round is the first one's times a power of 2, up to 50 million bytes |
| `PolySearch.Eliminate` | core/libcorrect/tools/find_conv_optim_poly.c:180-242 | the rounds end with exactly 20 of the list, cheapest first by the last round's message |
| `PolySearch.WinnersDiffer` | core/libcorrect/tools/find_conv_optim_poly.c:180-242 | which are all different |
| `Annealing.ShuffledPermutes` | core/libcorrect/tools/find_conv_optim_poly_annealing.c:36-43 | whatever is drawn, the shuffle only reorders |
| `Annealing.HalfReachable` | core/libcorrect/tools/find_conv_optim_poly_annealing.c:36-43 | of every order of distinct elements and that order with its last two exchanged, exactly one can come out |
| `Annealing.LastTwoNotExchanged` | core/libcorrect/tools/find_conv_optim_poly_annealing.c:36-43 | no draws exchange just the last two |
| `Annealing.Shuffle` | core/libcorrect/tools/find_conv_optim_poly_annealing.c:36-43 | the swaps in place |
| `Annealing.RandGeo` | core/libcorrect/tools/find_conv_optim_poly_annealing.c:45-55 | one more than the draws above the threshold that come first, within bounds |
| `Annealing.NextNeighbor` | core/libcorrect/tools/find_conv_optim_poly_annealing.c:57-73 | exactly the bits that come first in the shuffled list are flipped, as many as drawn, none at an edge of a coefficient |
| `Neighbors.NeverLast` | core/libcorrect/tools/find_conv_optim_poly_annealing.c:36-43 | the last element but one never comes last |
| `Neighbors.EveryNeighborButOne` | core/libcorrect/tools/find_conv_optim_poly_annealing.c:36-73 | some draws flip just the given inner bits, for every set of them but the one that lacks only the last but one |

## Left out

- WasteIsGap: the waste is only bounded from below when the window starts inside a zero-height node, because only the best-fit heuristic uses it and it uses the computed value.
- TextUndo: from a state whose redo records are not in order, which an earlier crowded undo may leave, it is modelled only while it need not discard any; to discard a record whose length is not that of its characters moves the wrong part of the buffer.
- TextRedo: requires that the record to replay is an edit of the text, with its characters next and space to undo it, which every well laid out state gives; what a redo makes of the record a crowded undo left otherwise is not modelled.
- Rectangles with `STBRP_LARGE_RECTS`: coordinates are the 16-bit ones the program is built with; waste is an unbounded integer.
- `qsort` and Python's `sort` are one stable insertion sort; only that they order and permute is used.
- Paste: the client's insertion is taken to succeed, so the branch for a refused insertion is not modelled.
- Layout, mouse and cursor movement in the text editor: client callbacks and floating point.
- Buffer sizes and allocation in streams; a stream's buffers are never freed in the model.
- Condition variables are guarded steps: a waiting thread may go on when its condition holds, and nothing is said about fairness or time.
- One reader and one writer per stream, and switching autosave on and off from one thread at a time, as the callers do.
- The one-second delay of the config saver is a due time given by the caller; loading a config and errors of the file system are not modelled.
- `casefold` is a parameter: any function on names; `int()` around frequencies is the identity.
- Float arguments of draw lists are their 32 bits, so `PopStyleColor` is recorded and replayed by the float its count becomes; sizes of 2^31 bytes and more are not wrapped.
- The 4096-byte buffer that draw copies an input text into, null bytes inside labels and texts, and what the program does with a byte outside a buffer.
- `sscanf` is a parameter for two hexadecimal digits and for a decimal number; escaping needs of it only that two lower-case digits read as their number.
- Two strings of the header pool may share bytes after a header with an empty name; disjointness is stated for well-formed fields only.
- Sockets, threads, file serving and routes of the web server; the UI backends; the server's network protocol; the libcorrect coders and their noise simulation.
- `dsp/chain.h`: its own comment says that it looks for the wrong neighbour.
- `rand` is a parameter in the search tools, and nothing is said about distributions.
- Coefficients wider than 16 bits, which the tools' type cannot hold.
