# Models and proofs for Moses

Moses is a phrase-based translation decoder with a tuner for its weights (mert), a filter for its phrase tables
(sigtest-filter) and a language model server (lmserver). This project models their algorithms in Dafny and proves
what they promise. `dafny verify dfyconfig.toml` checks all of it.

Code that changes data step by step is modelled by classes and methods with the loops of the original; each method is
proved against functions and predicates, and the promises are proved about these as lemmas. Code that computes values
is modelled by functions. Real numbers stand for floating-point numbers throughout.

## What is modelled

**The on-disk prefix tree and the phrase table** (moses/src/PrefixTree.h, File.h, FilePtr.h, LVoc.h,
PhraseDictionaryTree.cpp). `Tries` defines lookup, insertion and change on trees as values. `PrefixTree` is the linked
tree in memory. `TrieFile` defines the file format, in which children lie behind their parents and offsets are
patched afterwards; `PrefixTreeFile` is the worklist that writes it, and `PrefixTreeReader` the lazy reader.
`TargetData` and `LVoc` are the candidate lists and the vocabularies. `PhraseTable` says what a table answers,
`PhraseTableCreate` builds the files, `PhraseTableLines` says which lines stand behind an answer, `PhraseTableRead`
looks phrases up, and `PhraseTablePipeline` goes from the text
to the answer.

**The line search of the tuner** (mert/Optimizer.cpp, Point.cpp, Scorer.cpp). `Envelope` walks along the upper
envelope of one sentence's candidates, `LineSearch` merges the thresholds of all sentences and chooses the best
interval, `Point` ties lines to points of the weight space, `Scorer` is incremental scoring with regularisation, and
`Powell` the search around the line search; `LocalOptimum` puts the line search on points in its place.
Products of weights and features are compared through an abstract relation in the loops, which `Point` instantiates
with the exact one.

**Language model scores and recombination** (moses/src/LanguageModel.cpp, LanguageModelInternal.cpp,
NGramCollection.cpp, LMList.cpp, Hypothesis.cpp, Hypothesis.h, DummyScoreProducers.cpp, InputType.cpp).
`LanguageModel` has the two-part score and segmentation independence for any n-gram model. `BackOff` defines back-off
probabilities, and `InternalLm` is the built-in model with its reversed tree. `Recombination` shows that hypotheses
that compare equal are bisimilar.

**Search** (moses/src/BitmapContainer.cpp, SearchCubePruning.cpp, HypothesisStackNormal.cpp, HypothesisStackCubePruning.cpp,
ReorderingConstraint.cpp, WordsBitmap.h, Manager.cpp). `CubeGrid` is the best-first exploration of hypotheses by
translation options, and `PopLoop` the loop over all coverage bitmaps of a stack. `HypothesisPruning` and
`HypothesisStack` are the two stacks with recombination, arcs and pruning. `Reordering` is the check of walls and zones, with its meaning over whole derivations, and
`ReorderingProgress` says exactly when these constraints can bring a derivation to a dead end. `SearchGraph` and
`ForwardScores` are the connected part of the search graph and the best score of its completions.

**Kernels**: `FloydWarshall` (moses/src/FloydWarshall.cpp), `Mbr` (moses-cmd/src/mbr.cpp) and `Fisher`
(sigtest-filter/filter-pt.cpp).

**The language model server** (lmserver/lmserver.c, thread.c). `Lines` and `Framing` are the read buffer and its
command lines, `Messages` and `ReplyList` the list of reply fragments with its sending, `ConnQueue` and `Dispatch` the
queues between the dispatcher and the worker threads, whose steps may interleave in any way.

## Where the code does less than one might expect

Each entry names the lines of the code, an input or a family of inputs, and the exact condition where there is one.

- Keys of grid positions (moses/src/BitmapContainer.cpp:234-244). The key under which the exploration of a grid
  remembers a position is an `int`. Keys differ if and only if there are at most 65536 rows, and at most 65536 columns
  or one row (`CubeGrid.KeyIsInjective`); exactly then all positions are visited
  (`CubeGrid.BitmapContainer.Exhausted`). Grids of up to 131072 rows pass the assertions
  (`CubeGrid.BitmapContainer.LargeGridLosesPositions`).
- Unigram models (moses/src/LanguageModel.cpp:141-153). The score depends on the segmentation if and only if the order
  is 1 and some unigram is worth something (`LanguageModel.SegmentationMatters`); `LanguageModel.UnigramsDependOnSegmentation`
  has three words in one and in two phrases.
- Blocks of a phrase table (moses/src/PhraseDictionaryTree.cpp:588-599). Candidates of a phrase are lost if and only if
  a later block begins with the same first word (`PhraseTable.AnswerIsComplete`). Creation notices a repeated source
  phrase inside a block only, and accepts the three lines of `PhraseTableCreate.SplitBlockLoses`.
- Vocabularies (moses/src/LVoc.h:49-65) are read back as they were written if and only if no word is empty or holds
  white space (`LVoc.RoundTrip`).
- Alignments (moses/src/File.h:77-83) come back unchanged if and only if they hold no NUL
  (`PhraseTablePipeline.NothingChanged`).
- An empty phrase table (moses/src/PhraseDictionaryTree.cpp:616-622) makes `Create` index its offset vector with an
  invalid label; the model ends with the error `NoPhrases` there, exactly if no line has a source phrase
  (`PhraseTableCreate.Create`).
- Close thresholds (mert/Optimizer.cpp:165-200). The line search gives up exactness if and only if some candidate is
  best on an interval shorter than 0.0001 only (`LineSearch.SentenceThresholds`, `Point.OptimizeLine`).
- Threshold pruning (moses/src/HypothesisStackCubePruning.cpp:150-213) keeps more than the demanded number of hypotheses
  if scores are equal, and one when none is demanded (`HypothesisPruning.ThresholdKeepsTies`).
- `fisher_exact` (sigtest-filter/filter-pt.cpp:221) is called with its marginals exchanged, which is harmless
  (`Fisher.UpperTailSymmetric`).
- Command lines (lmserver/lmserver.c:968-974). One that consists of a carriage return only keeps it, and commands end
  at their first NUL (`Framing.Conn.CutCommand`).
- The end of a connection (lmserver/lmserver.c:1069-1091). As long as reads fill the buffer, reading goes on without a
  look for commands, and at the end of the connection nobody looks any more. The commands handed out are all those of
  the bytes sent if and only if the arrivals do not end in this way with a newline unseen (`Framing.Loses`,
  `Framing.Conn.Serve`). That takes at least 2048 bytes and an end directly behind data (`Framing.LosesOnlyFull`);
  2048 bytes with a newline on a new connection, and then its end, hand out no command (`Framing.FullThenClosed`).
- Zones (moses/src/ReorderingConstraint.cpp:170-239). Without local walls and distortion limit, zones can block every
  continuation of a derivation if and only if two of them cross (`ReorderingProgress.StuckIffCrossing`). Without
  crossing zones they can if and only if there is a trap, whatever the walls and the limit
  (`ReorderingProgress.StuckIffTrap`): a zone inside another one, with a local wall in it and a word before it that can
  be left open. `ReorderingProgress.CrossingZonesGetStuck` and `ReorderingProgress.NestedZonesGetStuck` are instances.
- A UDP reply of more than 65536 datagrams repeats sequence numbers (lmserver/lmserver.c:611-660,
  `ReplyList.HeadersDiffer`).

## Model

| member | source | states |
|---|---|---|
| Tries.FindAfterInsert | moses/src/PrefixTree.h:47-62 | After inserting a sequence, that sequence has its updated value, each of its proper prefixes that was missing reads as the default, and every other sequence reads as before |
| Tries.FindAfterUpdate | moses/src/PrefixTree.h:152-169 | Changing the value of a sequence changes exactly that entry, and nothing at all when the entry does not exist |
| Tries.FindBySubTrie | moses/src/PrefixTree.h:79-84 | Looking up a sequence is looking up its last key in the node that the other keys lead to |
| Tries.SubTrieStep | moses/src/PrefixTree.h:72-84 | One more key leads exactly one node further down, or nowhere |
| Tries.MissingStays | moses/src/PrefixTree.h:79-84 | Below a missing entry every longer sequence is missing |
| PrefixTree.PrefixTreeSA.FindPtr | moses/src/PrefixTree.h:79-84 | The linked tree answers what its abstract tree answers, for every non-empty sequence |
| PrefixTree.PrefixTreeSA.Find | moses/src/PrefixTree.h:91-93 | A missing entry reads as the default |
| PrefixTree.PrefixTreeSA.Open | moses/src/PrefixTree.h:48-56 | The key, its data and its child are inserted at the same place, and sorting is kept |
| PrefixTree.PrefixTreeSA.Insert | moses/src/PrefixTree.h:47-62 | The linked tree changes as the abstract insertion says, in its own part of the heap, and the returned item is the old value or the default |
| TrieFile.KidInside | moses/src/PrefixTree.h:198-214 | Each child's record lies strictly behind its parent's and inside the tree, so 0 is safe as the mark of a missing child and following offsets ends |
| TrieFile.SiblingBeyond | moses/src/PrefixTree.h:198-214 | The records of two children never overlap |
| TrieFile.StoredFrame | moses/src/PrefixTree.h:135-144 | Whether a tree is stored depends on its own cells only |
| TrieFile.WriteStores | moses/src/PrefixTree.h:178-216 | Writing a tree at the end of a file appends exactly its size, leaves all earlier cells alone and stores the tree there |
| TrieFile.KidsAreStored | moses/src/PrefixTree.h:196-214 | Back-patching the children one by one, the last first, turns a record with zero offsets into a stored tree |
| TrieFile.CompleteStep | moses/src/PrefixTree.h:189-215 | One turn of the explicit worklist has the same final outcome as the recursive definition of the file |
| TrieFile.SizeUpdated | moses/src/PrefixTree.h:152-169 | A change of data never changes the size of a tree, so nothing in the file moves |
| TrieFile.DataChanged | moses/src/PrefixTree.h:160-163 | Overwriting the data cell of a key stores the tree with the changed item |
| TrieFile.KidChanged | moses/src/PrefixTree.h:166-168 | When a child's cells are rewritten to hold another tree of the same size, the parent stores the tree with that child, and nothing outside its own cells has changed |
| PrefixTreeFile.CreateNext | moses/src/PrefixTree.h:189-215 | A turn of the loop patches the offset, appends the record and pushes the children, which keeps the final file and reduces what remains |
| PrefixTreeFile.Create | moses/src/PrefixTree.h:178-216 | The worklist leaves in the file exactly what the recursive definition of the format says, behind what was there |
| PrefixTreeReader.PrefixTreeF.ReadRecord | moses/src/PrefixTree.h:135-141 | The three vectors of a record come back as they were stored |
| PrefixTreeReader.PrefixTreeF.MakeLinks | moses/src/PrefixTree.h:139-143 | Exactly the non-zero offsets become pointers to be loaded on demand |
| PrefixTreeReader.PrefixTreeF.Load | moses/src/FilePtr.h:46-49 | Loading a child yields a node for exactly that child of the stored tree, behind its parent, and keeps every node loaded before sound |
| PrefixTreeReader.PrefixTreeF.FindKey | moses/src/PrefixTree.h:223-227 | The position of the key, or the number of keys |
| PrefixTreeReader.PrefixTreeF.FindPtr | moses/src/PrefixTree.h:235-241 | Round trip: the lazily read tree gives the answer of the tree that was written, whatever has been loaded so far |
| PrefixTreeReader.PrefixTreeF.Find | moses/src/PrefixTree.h:248-249 | The same with the default for missing entries |
| PrefixTreeReader.PrefixTreeF.Free | moses/src/PrefixTree.h:146-147 | Forgetting all loaded children changes no answer: the nodes still stand for the same trees |
| PrefixTreeReader.PrefixTreeF.ChangeData | moses/src/PrefixTree.h:152-169 | The value changes in memory and in the file alike, the file changes inside this tree's cells only, and all other loaded nodes stay as they were |
| PrefixTreeReader.PrefixTreeF.ChangeHere | moses/src/PrefixTree.h:160-164 | The byte position computed for the item is that of its own cell |
| Files.File.Write | moses/src/File.h:36-39 | A scalar overwrites the cell at the cursor or extends the file by one, and the cursor moves on |
| Files.File.ReadAll | moses/src/File.h:64-69 | The cells from the cursor on are returned and the cursor moves behind them |
| LVoc.LVoc.Add | moses/src/LVoc.h:32-38 | A new word gets the next number and a known one keeps its own, and no other word is renumbered |
| LVoc.LVoc.Write | moses/src/LVoc.h:49-52 | One line per entry, from the last down |
| LVoc.WrittenEntry | moses/src/LVoc.h:49-52 | An entry written out: number, blank, word |
| LVoc.LVoc.Read | moses/src/LVoc.h:55-65 | Malformed lines are skipped, the vector grows to the number read and the map is updated |
| LVoc.SpaceIs | moses/src/LVoc.h:55-65 | What separates number and word |
| LVoc.LineReads | moses/src/LVoc.h:51-59 | A line written for a word without white space reads as its number and the word |
| LVoc.KeysAreTokens | moses/src/LVoc.h:55-65 | Only non-empty words without white space can ever be read |
| LVoc.RoundTrip | moses/src/LVoc.h:49-65 | Reading a written vocabulary gives it back if and only if every word is non-empty and has no white space |
| TargetData.WriteCands | moses/src/PhraseDictionaryTree.cpp:85-97 | A candidate list is appended in its format |
| TargetData.OneCandidate | moses/src/PhraseDictionaryTree.cpp:73-97 | The format written out for one candidate without alignments |
| TargetData.ReadString | moses/src/File.h:77-83 | A string comes back up to its first NUL, and the cursor is behind all of it |
| TargetData.ReadCand | moses/src/PhraseDictionaryTree.cpp:51-71 | A written candidate is read back, its alignments cut at NUL |
| TargetData.ReadCands | moses/src/PhraseDictionaryTree.cpp:99-109 | Round trip of a whole list from any place in the file, ending behind it |
| PhraseTable.AnswerIsComplete | moses/src/PhraseDictionaryTree.cpp:588-599 | What the table answers for a phrase is all its candidates in input order if and only if none of them stands before a later block with the same first word; otherwise the earlier block is lost |
| PhraseTable.SplitBlock | moses/src/PhraseDictionaryTree.cpp:588-599 | Three entries, the middle one with another first word: the first candidate is lost |
| PhraseTable.AnswerAppend | moses/src/PhraseDictionaryTree.cpp:549-613 | What one more input line does to the answer of every phrase |
| PhraseTable.AnswerRenamed | moses/src/PhraseDictionaryTree.cpp:491-497 | Numbering words and converting candidates commutes with answering, if different words have different numbers |
| PhraseTable.NextPhrase | moses/src/PhraseDictionaryTree.cpp:572-611 | Writing the pending candidates and inserting the new phrase with the file position keeps every phrase served by the trees on disk or in memory |
| PhraseTable.NextBlock | moses/src/PhraseDictionaryTree.cpp:588-599 | The same when the first word changes and the tree of the block goes to disk |
| PhraseTableCreate.AnswersAgree | moses/src/PhraseDictionaryTree.cpp:487-497 | The answer in words is the answer in labels, spelled out |
| PhraseTableCreate.RepeatsAgree | moses/src/PhraseDictionaryTree.cpp:601-610 | A repeated phrase is recognised in labels exactly when it is one in words |
| PhraseTableCreate.AddWords | moses/src/PhraseDictionaryTree.cpp:491-497 | Labelling a phrase extends the vocabulary and keeps all earlier labels |
| PhraseTableCreate.FromMoreLines | moses/src/PhraseDictionaryTree.cpp:451-560 | The vocabularies hold words of the lines only, and no more source words than there are |
| PhraseTableCreate.Flush | moses/src/PhraseDictionaryTree.cpp:590-595 | The tree of a block is stored at the end of the tree file, its place is entered, and all other trees stay on disk |
| PhraseTableCreate.InsertPhrase | moses/src/PhraseDictionaryTree.cpp:601-610 | The phrase gets the current file position exactly if it had none |
| PhraseTableCreate.AddRow | moses/src/PhraseDictionaryTree.cpp:555-612 | An entry is accepted exactly if it does not repeat a phrase inside its block, and then all phrases are answered as the lines so far demand |
| PhraseTableCreate.Finish | moses/src/PhraseDictionaryTree.cpp:615-649 | After the last line the files answer every phrase; without any entry there is nothing to write |
| PhraseTableCreate.AddLine | moses/src/PhraseDictionaryTree.cpp:451-614 | A line either raises the error it is due or is accounted for |
| PhraseTableCreate.Create | moses/src/PhraseDictionaryTree.cpp:422-655 | Creation fails exactly at the first malformed, alignment-less or repeating line, or when there is no entry; otherwise the files hold, for every phrase, its answer |
| PhraseTableCreate.SplitBlockLoses | moses/src/PhraseDictionaryTree.cpp:560-614 | Three lines that creation accepts, with first words a, b, a: the table answers with the last candidate only |
| PhraseTableLines.AnswerIsLines | moses/src/PhraseDictionaryTree.cpp:439-620 | Every answered candidate has the target words of its line, the alignments of it cut at NUL, and its scores, of which those that are not positive are replaced by 1e-38; exactly the lines of the phrase answer behind which no other first word stands before a later line with the same first word |
| PhraseTableLines.BehindStays | moses/src/PhraseDictionaryTree.cpp:588-599 | Which lines still count after each further line |
| PhraseTableLines.RepeatsMeans | moses/src/PhraseDictionaryTree.cpp:564-612 | A source phrase is repeated exactly if the line before, of those with a source phrase, begins with the same word and has another phrase, and an earlier line of the block has this one |
| PhraseTableLines.FailsMeans | moses/src/PhraseDictionaryTree.cpp:457-612 | The error of a line, by the number of its fields, the alignments that are asked for, and repetition |
| PhraseTableRead.PDTimp.constructor | moses/src/PhraseDictionaryTree.cpp:253-309 | Opening the files gives a reader of the table that was created, with nothing loaded |
| PhraseTableRead.PDTimp.OffsetOf | moses/src/PhraseDictionaryTree.cpp:156-161 | The offset found by way of the index and the lazily loaded tree is that of the stored trees, for every phrase |
| PhraseTableRead.PDTimp.ByLabels | moses/src/PhraseDictionaryTree.cpp:154-166 | The candidates of a phrase in labels, or none |
| PhraseTableRead.PDTimp.GetTargetCandidates | moses/src/PhraseDictionaryTree.cpp:366-380 | Exactly the candidates that the table holds for the phrase, in input order; none for a phrase with an unknown word |
| PhraseTableRead.PDTimp.FreeMemory | moses/src/PhraseDictionaryTree.cpp:146-150 | Forgetting everything that was loaded leaves the table and its answers as they are |
| PhraseTableRead.PDTimp.ValidByEntry | moses/src/PhraseDictionaryTree.cpp:113-116 | A pointer is valid exactly when its words have an entry |
| PhraseTableRead.PDTimp.ByPtr | moses/src/PhraseDictionaryTree.cpp:170-179 | Asking at a pointer gives the answer of the whole phrase |
| PhraseTableRead.PDTimp.Extend | moses/src/PhraseDictionaryTree.cpp:221-243 | An empty word or the empty symbol stays, an unknown word leads nowhere, and otherwise the pointer stands for the phrase with the new word, valid exactly if that has an entry |
| PhraseTableRead.PDTimp.Walk | moses/src/PhraseDictionaryTree.cpp:216-243 | Extending word by word and asking at the end equals the lookup of the whole phrase |
| PhraseTablePipeline.StoreAndLookUp | moses/src/PhraseDictionaryTree.cpp:647-652 | From the text to the answer: what Create leaves, written out, opened and asked, gives the candidates of the text in order, and gives them again after memory has been freed |
| PhraseTablePipeline.CreateAndLookUp | moses/src/PhraseDictionaryTree.cpp:221-655 | From the lines of a table to answers, in terms of the lines: creation fails exactly at the first line that must fail, or when no line has a source phrase; otherwise a phrase gets the candidates of all its lines that are not cut off by a later block, in input order, before and after memory is freed |
| PhraseTablePipeline.NothingChanged | moses/src/PhraseDictionaryTree.cpp:57-71 | A list of candidates comes back unchanged if and only if no stored alignment holds a NUL, and there are none where none are stored |
| PhraseTablePipeline.StringsUnchanged | moses/src/File.h:77-83 | Strings are read back as they were written exactly if none holds a NUL |
| Envelope.Intersect | mert/Optimizer.cpp:63-67 | MAX_FLOAT for parallel lines, otherwise the point up to which the flatter line is above and from which on the steeper one is |
| Envelope.LeftmostBest | mert/Optimizer.cpp:113-129 | The best candidate towards minus infinity: least slope and, among those, highest value |
| Envelope.NextChange | mert/Optimizer.cpp:134-155 | The leftmost intersection with a steeper line, the steepest candidate among equal ones |
| Envelope.WalkStep | mert/Optimizer.cpp:133-205 | A turn of the walk proves the current candidate best on its whole interval and makes the next one current |
| LineSearch.AddThreshold | mert/Optimizer.cpp:69-84 | One diff is joined at its threshold, sorting is kept and no other threshold changes |
| LineSearch.SentenceThresholds | mert/Optimizer.cpp:97-205 | The changes of one sentence describe the upper envelope of its candidates, and the threshold map holds exactly the changes of all sentences so far; thresholds would have to be merged, and the walk is given up, if and only if some candidate is best on an interval shorter than min_int and nowhere else |
| LineSearch.AllThresholds | mert/Optimizer.cpp:94-206 | The same for all sentences, given up if and only if some sentence has such a candidate |
| LineSearch.SelectionFollows | mert/Optimizer.cpp:222-228 | Applying the merged diffs in order gives each sentence what its own changes give it |
| LineSearch.CandidateIsCurrent | mert/Optimizer.cpp:222-228 | After k thresholds a sentence has the candidate of the interval just right of the k-th |
| LineSearch.CloseChanges | mert/Optimizer.cpp:165-167 | Two changes closer than min_int enclose the whole interval on which some candidate is best |
| LineSearch.SameLine | mert/Optimizer.cpp:62-68 | Candidates that tie at two places tie everywhere |
| LineSearch.BestBetweenChanges | mert/Optimizer.cpp:97-205 | A candidate that is best on a finite interval only is best exactly between two successive thresholds of its sentence |
| LineSearch.NoBriefBest | mert/Optimizer.cpp:165-167 | If no two thresholds are closer than min_int, no candidate is best on so short an interval only |
| LineSearch.CellIsBest | mert/Optimizer.cpp:206-228 | Everywhere between two thresholds the recorded candidate of every sentence is a best one |
| LineSearch.ChooseBest | mert/Optimizer.cpp:230-268 | The first cell with the greatest score, and the point in it that is chosen: half way between two thresholds, 1000 left of the first, 0.1 right of the last |
| LineSearch.LineOptimize | mert/Optimizer.cpp:87-283 | The returned score is the greatest regularised score; before regularisation the scores are those, computed from scratch, of the selections that are best on their cells; the position lies inside the first such cell unless it is snapped to 0 |
| Point.Times | mert/Point.cpp:59-72 | The weighted sum of all features |
| Point.Move | mert/Point.cpp:73-88 | The point at position x of the line |
| Point.DotOnLine | mert/Point.cpp:59-88 | Scores are linear along the line: what turns candidates into lines |
| Point.Get1best | mert/Optimizer.cpp:291-303 | The first candidate of greatest score |
| Point.UniqueSelection | mert/Optimizer.cpp:286-305 | Without ties the best selection at a point is unique, so scoring afresh uses what the line search recorded |
| Point.OptimizeLine | mert/Optimizer.cpp:87-283 | Over all positions of the line, bestscore is attained by a best selection at the chosen position and is not exceeded: everywhere some best selection scores at most that. This holds unless, and the search is given up exactly if, a sentence has a candidate that is best on an interval shorter than min_int only |
| Scorer.FieldUpdate | mert/Scorer.cpp:60-67 | Replacing one candidate changes each field sum by the difference of the two candidates, whichever sentence it is |
| Scorer.InitialTotals | mert/Scorer.cpp:39-53 | The sums of the initial selection, or an error exactly if a sentence has another number of fields |
| Scorer.ApplyDiffs | mert/Scorer.cpp:59-69 | The running totals stay those of the current selection, even if a sentence occurs several times |
| Scorer.RawScores | mert/Scorer.cpp:27-71 | Every score is the score from scratch of the selection after that many lists of diffs; the three errors occur exactly when they should |
| Scorer.ScoreMin | mert/Scorer.cpp:4-12 | The least score of the window |
| Scorer.ScoreAverage | mert/Scorer.cpp:14-25 | The mean of the window, 0 for an empty one |
| Scorer.Regularise | mert/Scorer.cpp:73-93 | Every smoothed value is computed from the unsmoothed scores of the clipped window around it |
| Scorer.Score | mert/Scorer.cpp:27-94 | The whole of score: errors exactly when due, otherwise the scores from scratch of all selections, each smoothed over its clipped window |
| Scorer.SmoothedInRange | mert/Scorer.cpp:4-25 | Neither the mean nor the minimum of a window leaves the range of the scores |
| Powell.OneRound | mert/Optimizer.cpp:370-394 | The first of the best line searches along all axes, if it beats what was known |
| Powell.TrueRun | mert/Optimizer.cpp:348-404 | The search ends when scores are bounded: every round but the last gains more than eps, the last does not, and every round starts from the best point so far |
| Powell.ScoresRise | mert/Optimizer.cpp:384-396 | The best score never falls, so the result is not below the start |
| Powell.RoundsAreFew | mert/Optimizer.cpp:396 | The number of rounds is bounded by the gain over eps |
| Powell.EndsAtLocalOptimum | mert/Optimizer.cpp:348-404 | If the line searches of the run are exact, the returned score is that of the returned point, at least that of the start, and not exceeded on any axis through the point before the last round, which is at most eps worse |
| LocalOptimum.FirstBestExists | mert/Optimizer.cpp:286-305 | Every sentence has a first best candidate at every point |
| LocalOptimum.UntiedScore | mert/Optimizer.cpp:286-341 | Where best candidates do not tie, any best selection has the score that scoring the point afresh gives |
| LocalOptimum.SearchAxis | mert/Optimizer.cpp:375-379 | The line search along an axis finds an optimum of the line, unless thresholds are merged, the point is snapped to the start or its best candidates tie |
| LocalOptimum.OnAxisIs | mert/Optimizer.cpp:375-378 | Along an axis one coordinate moves |
| LocalOptimum.FoundIsExact | mert/Optimizer.cpp:375-394 | Such a point has its score, and no untied point of the line has a greater one |
| LocalOptimum.EndsAtOptimumOfAxes | mert/Optimizer.cpp:348-404 | The search with this line search in its place returns a point with its score; on every axis through a point that is at most eps worse, some best selection scores at most that everywhere, and so does every untied point |
| LanguageModel.CalcScore | moses/src/LanguageModel.cpp:52-88 | The in-phrase score is the sum over the windows inside the phrase; the full score adds the shorter contexts at its start |
| LanguageModel.GetWord | moses/src/Hypothesis.h:186-195 | Walking back finds the word at that position of the whole text |
| LanguageModel.FirstWindow | moses/src/LanguageModel.cpp:128-136 | The window of the first new word, padded with the start symbol |
| LanguageModel.LastWindow | moses/src/LanguageModel.cpp:158-168 | The window of the end symbol, padded likewise |
| LanguageModel.WindowIs | moses/src/LanguageModel.cpp:130-140 | Windows near the start are filled up with start symbols, the others are part of the text |
| LanguageModel.EndWindowIs | moses/src/LanguageModel.cpp:155-171 | The end window is the last window of the text with the end symbol behind it |
| LanguageModel.Evaluate | moses/src/LanguageModel.cpp:114-181 | The boundary score is the sum over exactly the windows that cross the phrase boundary, plus the end window at completion, and the state is that of the last window |
| LanguageModel.StepScore | moses/src/LanguageModel.cpp:137-169 | From bigrams on, in-phrase and boundary score together charge each window of the new words once |
| LanguageModel.SegmentationIndependence | moses/src/LMList.cpp:45-49 | From bigrams on, the score along any chain of non-empty phrases is the sum over all windows of the text, plus the end window |
| LanguageModel.SameTextSameScore | moses/src/LMList.cpp:45-49 | Two chains with the same words have the same score, however they are cut into phrases |
| LanguageModel.UnigramStep | moses/src/LanguageModel.cpp:141-153 | For unigrams, what exactly is charged twice |
| LanguageModel.UnigramsDependOnSegmentation | moses/src/LanguageModel.cpp:141-153 | Three words in one phrase or in two: the unigram scores differ by the value of the last word |
| LanguageModel.SegmentationMatters | moses/src/LanguageModel.cpp:52-181 | All segmentations of every text score alike if and only if the order is at least 2 or every unigram is worth 0 |
| BackOff.LongestIsSuffix | moses/src/LanguageModelInternal.cpp:198-269 | The context that counts is the longest suffix that is an n-gram |
| BackOff.ProbByEntries | moses/src/LanguageModelInternal.cpp:138-269 | The probability is the score of the longest known suffix of the window plus the back-off fields of all known contexts that were passed over; there is none if the last word is unknown |
| BackOff.ValueByEntries | moses/src/LanguageModelInternal.cpp:138-269 | The value is that sum, but not less than -100, which it is for an unknown last word |
| BackOff.UnknownBigram | moses/src/LanguageModelInternal.cpp:156-196 | An unknown bigram scores its last word, plus the back-off field of its first word if that is known |
| BackOff.UnknownTrigram | moses/src/LanguageModelInternal.cpp:198-269 | An unknown trigram, by its last two words, or its last one and the back-off field of the middle one, plus the back-off field of its first two words if known |
| BackOff.ProbByContext | moses/src/LanguageModelInternal.cpp:198-269 | In a model closed under prefixes and suffixes the probability of a word depends on the longest known context only |
| BackOff.LongestByContext | moses/src/LanguageModelInternal.cpp:198-269 | So does the next longest known context |
| BackOff.SameStateStep | moses/src/LanguageModelInternal.cpp:198-269 | Windows with the same state give the next word the same score and lead to the same state |
| InternalLm.LanguageModelInternal.GetOrCreate | moses/src/NGramCollection.cpp:40-51 | The child for the word, made if it was missing; no other node changes |
| InternalLm.LanguageModelInternal.AddPath | moses/src/LanguageModelInternal.cpp:69-80 | The path of the n-gram from its last word to its first exists, and only nodes of its suffixes are new |
| InternalLm.LanguageModelInternal.LoadLine | moses/src/LanguageModelInternal.cpp:61-103 | One line updates one entry; all others are still carried by their nodes |
| InternalLm.LanguageModelInternal.Load | moses/src/LanguageModelInternal.cpp:57-116 | After loading a file in which unigrams come first, the reversed tree holds exactly the entries of the file |
| InternalLm.LanguageModelInternal.NodesAreEntries | moses/src/LanguageModelInternal.cpp:69-80 | In a closed model the tree has no node that is not an n-gram |
| InternalLm.LanguageModelInternal.GetNGram | moses/src/NGramCollection.cpp:59-63 | The longer n-gram's node, or none |
| InternalLm.LanguageModelInternal.GetValue1 | moses/src/LanguageModelInternal.cpp:138-155 | The floored probability and the longest known context |
| InternalLm.LanguageModelInternal.GetValue2 | moses/src/LanguageModelInternal.cpp:156-196 | The same for bigrams |
| InternalLm.LanguageModelInternal.GetValue3 | moses/src/LanguageModelInternal.cpp:198-269 | The same for trigrams: the branching lookup is the back-off probability, and the state is the longest known suffix |
| InternalLm.LanguageModelInternal.GetValue | moses/src/LanguageModelInternal.cpp:119-134 | The lookup by length gives the back-off value, as a sum over entries of the file, and the state of the longest known context |
| InternalLm.LanguageModelInternal.StatesTellContexts | moses/src/LanguageModelInternal.cpp:151-258 | Two final states are the same pointer exactly when the contexts are the same |
| Recombination.SameBoundary | moses/src/LanguageModel.cpp:114-169 | Equivalent hypotheses pay the same language model score for the same option |
| Recombination.DistanceMeans | moses/src/InputType.cpp:41-51 | The distance is the number of words that are jumped over, forward or back, and none exactly for the phrase right behind the last one |
| Recombination.JumpsAndWordsCost | moses/src/DummyScoreProducers.cpp:48-114 | With positive weights a longer jump and every further word cost |
| Recombination.ScoreMeans | moses/src/Hypothesis.cpp:265-300 | The score of a derivation is what its phrases bring along plus the weighted sums of boundary scores, jumped words and target words |
| Recombination.CoverageMeans | moses/src/Hypothesis.cpp:78-106 | The phrases of a hypothesis translate no word twice, and its coverage says which are translated |
| Recombination.ApplicableMeans | moses/src/Hypothesis.cpp:78-106 | An option may follow exactly if it has target words and its source words lie in the sentence and are not translated |
| Recombination.CompleteMeans | moses/src/Hypothesis.cpp:78-106 | A complete hypothesis translates every word once |
| Recombination.SameNextState | moses/src/LanguageModel.cpp:170-177 | And reach the same language model state |
| Recombination.EquivalentStep | moses/src/Hypothesis.cpp:239-257 | Hypotheses that compare equal have the same applicable options, gain the same by each and compare equal afterwards |
| Recombination.Bisimulation | moses/src/Hypothesis.cpp:239-303 | The same for every sequence of extensions |
| Recombination.NothingLost | moses/src/Hypothesis.cpp:239-257 | Keeping the better of two equal hypotheses never loses the best completion |
| Recombination.CompareBitmaps | moses/src/WordsBitmap.h:158-172 | Zero exactly for equal coverage, otherwise the order by size and first difference |
| Recombination.RecombineCompare | moses/src/Hypothesis.cpp:239-257 | Zero exactly for hypotheses with the same coverage, distortion state and language model state |
| Recombination.OrderIsTotal | moses/src/Hypothesis.cpp:239-257 | The comparison is reversed by exchange, transitive, and 0 for equal ranks only, as a sorted set needs it |
| FloydWarshall.PivotStable | moses/src/FloydWarshall.cpp:28-32 | A phase leaves the pivot's row and column alone, which is why one matrix suffices |
| FloydWarshall.AllPairs | moses/src/FloydWarshall.cpp:10-33 | The in-place loops compute the recurrence, and no sum leaves the 32-bit range |
| FloydWarshall.DistIsLowerBound | moses/src/FloydWarshall.cpp:28-32 | No path with inner vertices below k is shorter than the entry of phase k |
| FloydWarshall.DistIsAttained | moses/src/FloydWarshall.cpp:28-32 | Every finite entry is the length of a path that exists |
| FloydWarshall.ShortestPaths | moses/src/FloydWarshall.cpp:10-33 | The final entry is the length of a shortest non-empty path without self-loops, of a shortest cycle on the diagonal, and "infinity" exactly if there is none |
| Fisher.StartingProbability | sigtest-filter/filter-pt.cpp:158 | The quotient of factorials is the probability of the first table |
| Fisher.NextProbability | sigtest-filter/filter-pt.cpp:165-167 | The coefficient carries one table's probability to the next table's |
| Fisher.FisherExact | sigtest-filter/filter-pt.cpp:147-170 | The recurrence sums exactly the upper tail of the hypergeometric distribution |
| Fisher.TailIsProbability | sigtest-filter/filter-pt.cpp:147-170 | The tail lies between 0 and 1 and is 1 when no shared line is demanded |
| Fisher.UpperTailSymmetric | sigtest-filter/filter-pt.cpp:221 | Exchanging the two marginals changes nothing, so that the call with exchanged arguments is harmless |
| Fisher.Vandermonde | sigtest-filter/filter-pt.cpp:147-170 | All tables together are all placements |
| Fisher.CountShared | sigtest-filter/filter-pt.cpp:211-220 | Walking the smaller set counts the common sentences |
| Fisher.CoocSignificance | sigtest-filter/filter-pt.cpp:199-222 | The statistics of a phrase pair are the size of the intersection and its tail probability |
| Mbr.ExtractNgrams | moses-cmd/src/mbr.cpp:38-53 | Every n-gram up to the order with its number of occurrences, and nothing else |
| Mbr.TableIsCounts | moses-cmd/src/mbr.cpp:38-53 | There is exactly one such table for a sentence |
| Mbr.OrderTotal | moses-cmd/src/mbr.cpp:62-66 | The counts of one order sum to the number of windows, which is the total that the score uses |
| Mbr.MatchesBounded | moses-cmd/src/mbr.cpp:71-79 | Clipped matches never exceed the total of their order |
| Mbr.MatchesBoundedByReference | moses-cmd/src/mbr.cpp:71-79 | Nor the number of n-grams of the reference |
| Mbr.ClippedIsLess | moses-cmd/src/mbr.cpp:77 | An n-gram counts as often as in the sentence that has it less often |
| Mbr.MatchesSelf | moses-cmd/src/mbr.cpp:71-79 | A sentence matches itself completely |
| Mbr.CountMatches | moses-cmd/src/mbr.cpp:71-79 | The loop over the table computes the clipped matches of every order |
| Mbr.CalculateScore | moses-cmd/src/mbr.cpp:55-96 | The smoothed score with its early return and brevity penalty |
| Mbr.BleuIsFraction | moses-cmd/src/mbr.cpp:82-95 | The score is between 0 and 1, so no loss is negative |
| Mbr.BleuOfSelf | moses-cmd/src/mbr.cpp:82-95 | A non-empty sentence scored against itself gets exp(0), an empty one 0 |
| Mbr.BrevityPenalty | moses-cmd/src/mbr.cpp:92-95 | A hypothesis at least as long as the reference gets the exponential of the mean of its log ratios; a shorter one gets that of the mean plus 1 - refLength/length, which is less than against a reference of its own length |
| Mbr.BleuOfFour | moses-cmd/src/mbr.cpp:82-95 | The score for four orders written out: all ratios but the first are smoothed by one |
| Mbr.ExactArithmetic | moses-cmd/src/mbr.cpp:82-149 | Multiplication and division of real numbers, with any increasing logarithm and any exponential, meet all assumptions made about arithmetic |
| Mbr.RiskGrows | moses-cmd/src/mbr.cpp:146-154 | The running loss never falls, which justifies the early exit |
| Mbr.RiskBounded | moses-cmd/src/mbr.cpp:146-154 | The loss is at most the probability mass, far below the initial minimum |
| Mbr.RiskOfTwo | moses-cmd/src/mbr.cpp:145-154 | With two candidates each risks its loss against the other times the share of the other |
| Mbr.GainIsOfFirst | moses-cmd/src/mbr.cpp:148 | Candidate i is scored as the hypothesis against candidate j: the penalty falls on i exactly if it is the shorter one |
| Mbr.RunningLoss | moses-cmd/src/mbr.cpp:145-154 | The inner loop returns the full loss, or one that already exceeds the best |
| Mbr.MinimiseRisk | moses-cmd/src/mbr.cpp:143-161 | Despite the early exits the chosen index is the first minimiser of the full expected loss under the shares joint probability over marginal |
| Mbr.Prepare | moses-cmd/src/mbr.cpp:118-135 | Exponentials of the scores relative to the greatest, their sum, and every n-gram table |
| Mbr.SharesSumToOne | moses-cmd/src/mbr.cpp:149 | Joint probabilities over their sum are not negative and sum up to 1 |
| Mbr.ShiftIsHarmless | moses-cmd/src/mbr.cpp:108-121 | Subtracting the greatest score, which avoids underflow, changes no share |
| Mbr.MaxScore | moses-cmd/src/mbr.cpp:108-116 | The greatest score, or the initial one if none is greater |
| Mbr.DoMbr | moses-cmd/src/mbr.cpp:98-164 | From scores and sentences to the choice: the first sentence of least expected loss when each candidate has the probability exp(score) over the sum of all |
| CubeGrid.KeyIsInjective | moses/src/BitmapContainer.cpp:232-245 | The int key tells positions apart if and only if the grid has at most 65536 rows, and at most 65536 columns or a single row |
| CubeGrid.BitmapContainer.Initialize | moses/src/BitmapContainer.cpp:186-198 | The corner of a non-empty grid is enqueued |
| CubeGrid.BitmapContainer.InitializeEdges | moses/src/BitmapContainer.cpp:423-435 | Every non-empty grid is started |
| CubeGrid.BitmapContainer.PushSuccessors | moses/src/BitmapContainer.cpp:261-282 | Both successors are enqueued unless they are outside or their key has been seen; nothing is enqueued twice |
| CubeGrid.BitmapContainer.Dequeue | moses/src/BitmapContainer.cpp:335-350 | An item of greatest score leaves the queue |
| CubeGrid.BitmapContainer.ProcessBestHypothesis | moses/src/BitmapContainer.cpp:447-487 | One best waiting item is popped, once and for all, and its successors are enqueued |
| CubeGrid.BitmapContainer.EnsureMinStackHyps | moses/src/BitmapContainer.cpp:437-444 | It goes on exactly as long as there are too few insertions and something to pop, and pops best first on ordered grids |
| CubeGrid.BitmapContainer.Frontier | moses/src/BitmapContainer.cpp:261-282 | Every position not yet popped is dominated by one that waits |
| CubeGrid.BitmapContainer.Exhausted | moses/src/BitmapContainer.cpp:232-282 | Run until nothing waits, all positions of a grid have been popped if and only if the keys tell its positions apart |
| CubeGrid.BitmapContainer.LargeGridLosesPositions | moses/src/BitmapContainer.cpp:232-246 | With more than 65536 rows, which the assertions admit, some position is never popped |
| CubeGrid.BitmapContainer.WaitingBound | moses/src/BitmapContainer.cpp:447-487 | No position that is still to come scores more than the best waiting one |
| CubeGrid.BitmapContainer.StillBestFirst | moses/src/BitmapContainer.cpp:447-487 | The popped items are in non-increasing order and are the best of all positions; one more pop keeps this |
| CubeGrid.BitmapContainer.BestIsNext | moses/src/BitmapContainer.cpp:447-487 | This holds whichever of several best items is popped |
| HypothesisPruning.Hypothesis.AddArc | moses/src/Hypothesis.cpp:125-148 | The loser's arcs change hands, the loser becomes an arc, and the lists stay flat |
| HypothesisPruning.ChooseDiverse | moses/src/HypothesisStackNormal.cpp:168-188 | Exactly the best hypotheses of every coverage, as many as demanded, and their worst scores |
| HypothesisPruning.ChooseOthers | moses/src/HypothesisStackNormal.cpp:190-206 | Exactly the hypotheses that the specification keeps, in size and beam, and the score of the last place |
| HypothesisPruning.WorstIsDivth | moses/src/HypothesisStackNormal.cpp:184-185 | The worst score noted for a coverage is that of its last guaranteed place |
| HypothesisPruning.Threshold | moses/src/HypothesisStackCubePruning.cpp:171-178 | The score at the last of the best places |
| HypothesisPruning.ThresholdRank | moses/src/HypothesisStackCubePruning.cpp:154-178 | The heap lists the scores above the cut as the sorted stack does |
| HypothesisPruning.SortAndThresholdAgree | moses/src/HypothesisStackCubePruning.cpp:150-213 | With distinct scores and no diversity both ways of pruning keep the same hypotheses |
| HypothesisPruning.ThresholdKeepsTies | moses/src/HypothesisStackCubePruning.cpp:180-196 | With equal scores the threshold keeps, beyond the best places, exactly those that tie with the last |
| HypothesisStack.HypothesisStack.GetSortedList | moses/src/HypothesisStackNormal.cpp:259-266 | All members, once each, by falling score |
| HypothesisStack.HypothesisStack.PruneToSize | moses/src/HypothesisStackNormal.cpp:152-217 | Exactly the hypotheses that survive stay, the others are freed with their arcs; the worst score is that of the last place filled, or the threshold, and the worst scores of coverages are those of the last guaranteed places |
| HypothesisStack.HypothesisStack.Choose | moses/src/HypothesisStackNormal.cpp:152-206 | The choice of the normal stack or of the cube-pruning one |
| HypothesisStack.HypothesisStack.AddNew | moses/src/HypothesisStackNormal.cpp:50-90 | A hypothesis of a new class enters, and the stack is pruned only beyond its tolerated size |
| HypothesisStack.HypothesisStack.UpdateScores | moses/src/HypothesisStackNormal.cpp:57-72 | On a new best the worst score becomes the greater of itself and the end of the new beam; with a diversity of one, the worst score of a coverage becomes that of its best hypothesis |
| HypothesisStack.HypothesisStack.Enter | moses/src/HypothesisStackNormal.cpp:50-72 | A hypothesis enters, and as long as nothing has been pruned the worst score is where the beam of the best one ends |
| HypothesisStack.HypothesisStack.Replace | moses/src/HypothesisStackNormal.cpp:121-139 | A better hypothesis takes over the place and the arcs of the one of its class |
| HypothesisStack.HypothesisStack.AddLoser | moses/src/HypothesisStackNormal.cpp:140-149 | A worse hypothesis becomes an arc |
| HypothesisStack.HypothesisStack.AddPrune | moses/src/HypothesisStackNormal.cpp:86-150 | As long as nothing has been pruned, a hypothesis of a new class is kept exactly if it is inside the beam of the best one or its coverage guarantees it a place; one that is known already is replaced by a better one or becomes an arc or is freed; pruning happens exactly when the stack is overfull |
| HypothesisStack.RoomDoubles | moses/src/HypothesisStackNormal.cpp:76-79 | The room for diversity is the diversity, doubled for every word of the distortion limit |
| HypothesisStack.HypothesisStack.NeverLoses | moses/src/HypothesisStackNormal.cpp:50-231 | After any sequence of offers a member scores at least as high as everything ever offered, no class is doubled, and every hypothesis is a member, an arc of one winner of its class that scores at least as high, or freed |
| Reordering.GetFirstGapPos | moses/src/WordsBitmap.h:91-102 | The least open position, or NOT_FOUND |
| Reordering.GetLastPos | moses/src/WordsBitmap.h:105-116 | The greatest translated position, or NOT_FOUND |
| Reordering.ReorderingConstraint.InitializeWalls | moses/src/ReorderingConstraint.cpp:31-42 | No walls |
| Reordering.ReorderingConstraint.SetWall | moses/src/ReorderingConstraint.cpp:46-51 | One wall changes, and constraints become active |
| Reordering.ReorderingConstraint.SetZone | moses/src/ReorderingConstraint.cpp:94-102 | One zone more, and constraints become active |
| Reordering.ReorderingConstraint.FinalizeWalls | moses/src/ReorderingConstraint.cpp:54-70 | Exactly the walls inside some zone, but not at its last word, become local |
| Reordering.ReorderingConstraint.CheckZone | moses/src/ReorderingConstraint.cpp:140-241 | The branches and counters for one zone decide the declarative condition |
| Reordering.ReorderingConstraint.CheckLocalWalls | moses/src/ReorderingConstraint.cpp:223-239 | The scan finds a local wall with an open word of the zone before it, if there is one |
| Reordering.ReorderingConstraint.Check | moses/src/ReorderingConstraint.cpp:105-247 | Accepts exactly the permitted phrases; the early exit for monotone phrases never changes the answer |
| Reordering.MonotoneIsPermitted | moses/src/ReorderingConstraint.cpp:130-137 | A phrase at the first gap with nothing translated behind it breaks no constraint |
| Reordering.PermittedMeans | moses/src/ReorderingConstraint.cpp:112-241 | A phrase is permitted if and only if the coverage after it keeps every global wall and respects every zone |
| Reordering.SafeStep | moses/src/ReorderingConstraint.cpp:105-247 | Every accepted phrase keeps all global walls, all local walls and the reach of all zones |
| Reordering.RunIsSafe | moses/src/ReorderingConstraint.cpp:105-247 | So does every derivation |
| Reordering.WallOrder | moses/src/ReorderingConstraint.cpp:112-128 | In every derivation no word behind a global wall is translated before a word up to it |
| Reordering.LocalWallOrder | moses/src/ReorderingConstraint.cpp:223-239 | The same for a local wall and the words of its zone |
| Reordering.ZoneNotLeft | moses/src/ReorderingConstraint.cpp:139-188 | While a zone is partly translated every phrase overlaps it |
| Reordering.ZoneInOneRun | moses/src/ReorderingConstraint.cpp:139-188 | In every derivation the phrases that overlap a zone are consecutive |
| ReorderingProgress.OpenMeetStep | moses/src/ReorderingConstraint.cpp:170-221 | After every accepted phrase, any two partly translated zones have a word in common |
| ReorderingProgress.NeverStuck | moses/src/ReorderingConstraint.cpp:105-247 | Without crossing zones and traps, with any walls and distortion limit, after any derivation that has not covered the sentence some open word can be translated next |
| ReorderingProgress.WallMeansTrap | moses/src/ReorderingConstraint.cpp:223-239 | Where a local wall refuses the next word of the innermost open zone, the constraints have a trap |
| ReorderingProgress.TrapIsDeadEnd | moses/src/ReorderingConstraint.cpp:184-239 | Every trap lets some derivation end in a dead end |
| ReorderingProgress.StuckIffTrap | moses/src/ReorderingConstraint.cpp:105-247 | Without crossing zones, with any walls and distortion limit, a derivation can get stuck if and only if there is a trap |
| ReorderingProgress.CrossingIsDeadEnd | moses/src/ReorderingConstraint.cpp:184-221 | Translating what a narrowest crossing pair has in common leads to a dead end |
| ReorderingProgress.StuckIffCrossing | moses/src/ReorderingConstraint.cpp:105-247 | Without local walls and distortion limit a derivation can get stuck if and only if two zones cross |
| ReorderingProgress.CrossingZonesGetStuck | moses/src/ReorderingConstraint.cpp:184-221 | An instance with four words |
| ReorderingProgress.NestedZonesGetStuck | moses/src/ReorderingConstraint.cpp:184-239 | An instance with three words: a zone within a zone, with a wall |
| SearchGraph.GetConnectedGraph | moses/src/Manager.cpp:354-400 | Lists exactly the non-empty hypotheses reachable backwards from the final stack over back pointers and arcs, each once |
| SearchGraph.ClosedListIsAll | moses/src/Manager.cpp:371-399 | A list closed under stepping back holds everything connected |
| SearchGraph.CompletionIsConnected | moses/src/Manager.cpp:371-399 | Whatever can be completed is connected |
| SearchGraph.ValueTelescopes | moses/src/Manager.cpp:541-560 | A completion is worth the score of its end less that of its beginning less what the losers on it are worse than the winners: without arcs the scores between cancel out, and an arc is charged its own score |
| SearchGraph.ConnectedMeansCompletes | moses/src/Manager.cpp:371-399 | A stack hypothesis is connected if and only if it can be completed |
| ForwardScores.Play | moses/src/Manager.cpp:539-567 | A play raises the previous hypothesis to the new score if that is better, and keeps the next-pointers true |
| ForwardScores.PlayIsSound | moses/src/Manager.cpp:541-548 | Every score stays the value of some completion |
| ForwardScores.PlayIsBounded | moses/src/Manager.cpp:541-548 | Every score stays an upper bound of the completions whose first edge has made its play |
| ForwardScores.ScoreIsFinal | moses/src/Manager.cpp:528-541 | When a stack's turn comes, the scores of its connected hypotheses are the best there are |
| ForwardScores.GetForwardScores | moses/src/Manager.cpp:505-571 | Exactly the stack hypotheses that can be completed get a score, it is the maximum over all their completions with arcs, and the forward pointer leads along one that attains it |
| Lines.LinesJoin | lmserver/lmserver.c:963-979 | The lines and the rest of a stream make up the stream, and no line holds a newline |
| Lines.JoinedLines | lmserver/lmserver.c:963-979 | Cutting is the inverse of joining |
| Lines.LinesAppend | lmserver/lmserver.c:963-979 | Complete lines are not affected by what follows |
| Lines.CommandIs | lmserver/lmserver.c:968-974 | The command of a line without NULs is the line, without a carriage return at its end that has something before it |
| Framing.Conn.MoveToFront | lmserver/lmserver.c:1037-1041 | The window moves to the front of the buffer byte by byte and keeps its contents |
| Framing.Conn.Reallocate | lmserver/lmserver.c:1044-1056 | The window survives a change of the buffer's size |
| Framing.Conn.Shrink | lmserver/lmserver.c:458-478 | Exactly a big buffer with little in it becomes small, and nothing unread is lost |
| Framing.Conn.TryReadCommand | lmserver/lmserver.c:957-984 | A command is handed out exactly if the window holds a newline; received bytes stay consumed bytes plus window |
| Framing.Conn.CutCommand | lmserver/lmserver.c:968-979 | The command is the line without its carriage return, unless it is nothing else, up to the first NUL; the window begins behind the line |
| Framing.Conn.Read | lmserver/lmserver.c:1067-1074 | A read appends to the window what it received |
| Framing.Conn.TryReadNetwork | lmserver/lmserver.c:1031-1094 | Whatever the sizes of the reads, no byte is lost, doubled or moved; when the connection ends, nothing was read since the last look at the window or the last read filled the buffer, and whether lines will be lost is decided by the arrivals |
| Framing.Conn.DriveMachine | lmserver/lmserver.c:1242-1257 | When it stops on an open connection no complete line is left in the window; when the connection ends without a closing command, complete lines are left exactly if the arrivals lose them |
| Framing.Conn.Serve | lmserver/lmserver.c:957-1094 | Unless a command closes the connection, the commands handed out are those of all bytes sent, in whatever pieces they arrived, if and only if the arrivals do not lose lines; while it is open they never do; a closing command is the last of the first ones |
| Framing.OneCommandLess | lmserver/lmserver.c:458-478 | Handing out one command and shrinking the buffer does not change whether lines will be lost |
| Framing.LosesOnlyFull | lmserver/lmserver.c:1069-1094 | Lines are lost only after at least 2048 bytes, and only where the end comes directly behind data |
| Framing.FullThenClosed | lmserver/lmserver.c:1069-1085 | 2048 bytes with a newline in a new buffer, then the end: the lines are lost |
| Messages.FragmentAdded | lmserver/lmserver.c:595-601 | Adding a fragment to the last message keeps the tiling and the size limits |
| Messages.MessageAdded | lmserver/lmserver.c:215-229 | A new message begins where the fragments end |
| ReplyList.Conn.AddMsghdr | lmserver/lmserver.c:201-237 | A message is begun, a datagram with room for its header; the payload stays |
| ReplyList.Conn.PointAtNewList | lmserver/lmserver.c:543-547 | The cumulative counts put every message back on its own range |
| ReplyList.Conn.EnsureIovSpace | lmserver/lmserver.c:531-551 | There is room for a fragment, every message points into the current list, and nothing else has changed |
| ReplyList.Conn.AddPiece | lmserver/lmserver.c:570-605 | The first part of the bytes that fits is queued and the rest returned; a message is begun exactly if the current one is full, and bytes are left over only if it has become full |
| ReplyList.Conn.AddIov | lmserver/lmserver.c:561-608 | The payload grows by exactly the given bytes in order; messages tile the fragments, have at most IOV_MAX of them, and datagrams and the first TCP message at most 1400 bytes |
| ReplyList.HeadersDiffer | lmserver/lmserver.c:636-643 | The headers tell the datagrams of a reply apart if and only if there are at most 65536 |
| ReplyList.HeaderReads | lmserver/lmserver.c:636-643 | Each pair of header bytes, high byte first, gives back the request id, the number and the count |
| ReplyList.Conn.BuildUdpHeaders | lmserver/lmserver.c:614-648 | Every datagram becomes its header and its payload, at most 1400 bytes |
| ReplyList.Conn.DropSent | lmserver/lmserver.c:1160-1174 | The fragments that are out go and the one that is out in part is cut; none that is out completely is left |
| ReplyList.Conn.SendPart | lmserver/lmserver.c:1157-1177 | A partial send moves its bytes from what remains to what is sent |
| ReplyList.Conn.Transmit | lmserver/lmserver.c:1145-1201 | Sent and unsent bytes stay what was queued; each of the four outcomes is reported exactly when it is due, and a message that is out has no fragment left |
| ReplyList.QueueReply | lmserver/lmserver.c:549-608 | All pieces of a reply are queued, in order |
| ReplyList.ReplyByTcp | lmserver/lmserver.c:549-608 | What a TCP reply will send is its pieces, one behind the other |
| ReplyList.ReplyByUdp | lmserver/lmserver.c:549-660 | What a UDP reply will send is its pieces, cut into parts of at most 1392 bytes in order, each behind its header; all datagrams but the last are full |
| ReplyList.ReplyIsPacked | lmserver/lmserver.c:575-583 | Every datagram but the last has 1400 bytes or 1024 fragments |
| ReplyList.AllIsRest | lmserver/lmserver.c:1145-1201 | Message by message, everything that is queued is sent |
| ReplyList.RestIsDatagrams | lmserver/lmserver.c:614-660 | With headers filled in, the messages are datagrams, from any of them on |
| ConnQueue.CQ.Push | lmserver/thread.c:142-153 | The item becomes the last of the linked queue |
| ConnQueue.CQ.Peek | lmserver/thread.c:124-137 | The first item, or none; head and tail stay sound |
| ConnQueue.CQ.Pop | lmserver/thread.c:104-117 | The first item |
| ConnQueue.Freelist.Take | lmserver/thread.c:161-164 | The first free item, if there is one |
| ConnQueue.Freelist.AddBlock | lmserver/thread.c:175-186 | Items 1 to 63 of a new block come in front of whatever is free by then |
| ConnQueue.Freelist.Free | lmserver/thread.c:196-201 | The item becomes the first free one |
| Dispatch.Server.BeginDispatch | lmserver/thread.c:370-381 | The next thread in turn and an item that nobody else has |
| Dispatch.Server.AllocateBlock | lmserver/thread.c:167-189 | The new items are nobody's; one is used, the others become free |
| Dispatch.Server.PushItem | lmserver/thread.c:383 | The connection is queued last for its thread; no other queue changes |
| Dispatch.Server.WritePipe | lmserver/thread.c:386 | The wake-up is written |
| Dispatch.Server.ReadPipe | lmserver/thread.c:337 | A wake-up is read |
| Dispatch.Server.PeekQueue | lmserver/thread.c:341 | The woken worker always finds an item, and it is the oldest connection pending for its thread |
| Dispatch.Server.FreeItem | lmserver/thread.c:358 | The item goes from the worker to the freelist |
| Dispatch.EveryThreadIsServed | lmserver/thread.c:373-375 | Among any n dispatches in a row each of the n threads gets exactly one |
| Dispatch.NothingForgotten | lmserver/thread.c:332-389 | When no wake-up is left for a thread it has taken all its connections, in the order of arrival |
| PopLoop.Less | moses/src/SearchCubePruning.cpp:13-41 | A container orders before another only if no hypothesis of it scores more than the best ones of the other; containers without hypotheses come last |
| PopLoop.BestContainer | moses/src/SearchCubePruning.cpp:11-42 | On top waits a container whose best hypothesis no hypothesis of any container surpasses; it is empty only if all are |
| PopLoop.StillAllBest | moses/src/SearchCubePruning.cpp:123-130 | One more pop keeps the pops of all containers in non-increasing order and best of all positions |
| PopLoop.PopOne | moses/src/SearchCubePruning.cpp:125-129 | One turn pops a hypothesis that keeps the pops of all containers distinct and best first, nothing exactly if no container has one, and all containers that have more still wait |
| PopLoop.PopHypotheses | moses/src/SearchCubePruning.cpp:108-130 | The loop ends at the limit or when all containers are exhausted; if scores fall along rows and columns and keys are unique, its pops are the best positions of all containers of the stack, in non-increasing order |

## Left out

- LineSearch.SentenceThresholds: reports `merged` and stops where two thresholds of a sentence are closer than `min_int`, which it proves to happen exactly if some candidate is best on such a short interval only; the merging branch (mert/Optimizer.cpp:167-200) trades exactness for stability and can reorder diffs.
- Point.OptimizeLine: covers optimisation of all weights; partial optimisation adds the fixed part to the direction too. It uses the scores without regularisation (`LineSearch.LineOptimize` has it), and intersections inside the float range.
- LineSearch.AllThresholds: inherits the missing merging branch from `LineSearch.SentenceThresholds`.
- LineSearch.LineOptimize: inherits it as well; it says nothing about a line on which thresholds would be merged, except when this is so.
- Powell.TrueRun: the line search is a parameter with bounded scores, since a search that merges thresholds says nothing; `LocalOptimum.EndsAtOptimumOfAxes` is about runs whose searches are those of `LocalOptimum.SearchAxis`.
- LocalOptimum.EndsAtOptimumOfAxes: for runs in which no point is snapped to the start or has ties; a tie or a snapped point can have another score than the line search reports.
- Scorer.RawScores: totals are unbounded integers, and every diff names an existing sentence and candidate with the right number of fields.
- LanguageModel.Evaluate: an empty target phrase returns early without an end-of-sentence score; the theorems are about non-empty phrases.
- InternalLm.LanguageModelInternal.Load: takes the lines of the file as parsed n-grams; splitting at tabs, skipped header lines and the last line without a newline are not part of the model. It asks for unigrams to come first, without which the code dereferences a null pointer at lookup.
- Recombination.RecombineCompare: distortion and language model are the stateful features; lexical reordering returns a null state although its score reads the previous hypothesis, so it is not covered.
- Recombination.NothingLost: scores are those of the features, without the future score, which depends on the coverage only.
- CubeGrid.BitmapContainer.ProcessBestHypothesis: the answer of the stack is a parameter, and every pair gives a hypothesis (linked translation options, which give none, are left out).
- CubeGrid.BitmapContainer.Initialize: the order of hypotheses and options on the axes is a parameter; the sorting and the distortion filter of the constructor are left out.
- PopLoop.PopHypotheses: one stack; the answers of the stack are a parameter, and the loop over stacks, the time limit and `CheckDistortion` are left out.
- HypothesisStack.HypothesisStack.AddPrune: with a negative beam and a positive size, as the settings demand; comparison of hypotheses is equality of a recombination class, and a negative distortion limit as a shift count is not modelled. `CleanupArcList` is left out.
- PhraseTableCreate.Create: lines come tokenised; replacing and stripping the parentheses of alignments is not part of the model. Sizes and labels do not wrap at 32 bits.
- PhraseTablePipeline.CreateAndLookUp: words hold no white space, as tokenising leaves them, and there are fewer source words than labels of 32 bits.
- TargetData.ReadCands: a cell holds one scalar whatever its width in bytes.
- PrefixTreeReader.PrefixTreeF.ChangeHere: positions are counted in such cells, so the arithmetic with sizeof is not modelled.
- LVoc.LVoc.Read: signs and overflow of the numbers in a text vocabulary are not modelled.
- Reordering.ReorderingConstraint.Check: for spans that are free and inside the sentence, which its callers ensure; zones lie inside the sentence. `SetMonotoneAtPunctuation` only sets walls and is left out.
- ForwardScores.GetForwardScores: relies on what the search leaves behind: back pointers lead to stack hypotheses, arcs are in no stack and have no arcs. Printing is left out.
- ReorderingProgress.StuckIffCrossing: with crossing zones, local walls or a distortion limit can keep a derivation from the dead end; constraints that have both are covered in one direction only, by `ReorderingProgress.NeverStuck`.
- Framing.Conn.TryReadNetwork: memory never runs out, and UDP requests, which replace the buffer, are left out.
- ReplyList.Conn.AddIov: fragments carry their bytes instead of pointers to them, and the wrap-around of int counters is not modelled.
- ReplyList.Conn.Transmit: the answer of sendmsg is a parameter; the change of the connection's state after an error is left out.
- Dispatch.Server.ReadPipe: reads and writes of the pipe succeed; what a worker does with the connection is left out.
- Fisher.FisherExact: factorials and reals stand for lgamma, exp and double; the filter by p(f|e) and the significance threshold are left out.
- Mbr.DoMbr: for a non-empty list, as the code demands at its end. Rounding, scaling and the extraction of target words are left out; logarithm, exponential and arithmetic are parameters with their laws.
- FloydWarshall.AllPairs: a non-empty square matrix, as its assertion demands.
- Not modelled: the reordering tables and their cache, `PartialTranslOptColl`, confusion networks and lattices, external language models, statistics, parameter files, n-best lists and other output, sockets, libevent and allocation failures.
