# Verification model of the similarity tester SIM and of the judge's output checker

SIM finds stretches of equal tokens in a set of source files. It reads all files into one token
array, builds an index of forward references over it, walks that index to find, for each position,
the longest acceptable stretch that occurs again later, and reports the runs it has found: with
line numbers, largest first, or as percentages of one file that are found in another. The judge's
output checker decides whether the output of a program is right, wrong, or wrong in its white
space only.

Both are modelled in the form they have in the source: objects and static state as classes whose
methods update them, loops as loops, linked structures as linked structures. Each method is proved
against a specification that does not mention the machinery, and the lemmas beside it say what that
specification means.

| file | what it holds |
|---|---|
| `Basics.dfy` | an option type and a constant that several parts share |
| `Tokens.dfy`, `Language.dfy` | tokens; the Algol-like languages: token sets, the largest routine, cutting the tail of a run |
| `Corpus.dfy`, `FirstPass.dfy`, `Growable.dfy` | texts as a partition of the token array, and the pass that builds it |
| `HashIndex.dfy` | the forward references: built by a first hash, refined in place by a second |
| `Search.dfy`, `Compare.dfy` | the search for the longest run, and the greedy comparison of all texts |
| `RunTree.dfy` | the self-adjusting threaded tree that sorts the runs |
| `TextReader.dfy`, `ListSort.dfy`, `LineRecovery.dfy` | the cache of line ends, the list sort, and the pass that recovers line numbers |
| `Percentages.dfy` | the ledger of matches and the report that destroys it |
| `Pipeline.dfy` | the program from files to lines and percentages |
| `Verdict.dfy` | the judge's output checker |
| `Fname.dfy` | file names in UTF-8 and UTF-16 |
| `MemoryLedger.dfy` | the leak detector's ledger of blocks |

The main results:

* The index never loses an answer. `Search.Lcs` walks a chain of references; its answer is that of
  a search through all positions, for every table size and every language (`Search.IsLongest`). So the runs that are found do not depend on the hash table at all
  (`Comparison.FindRuns`).
* The comparison is sound and complete: every run is genuine, and for any two texts that the options
  allow, a position that no run covers starts none (`Comparison.CompareFiles`).
* Insertion into the tree terminates although a rotation does not descend, after at most twice as
  many accesses as there are nodes, keeps list and tree in step, keeps the access mark within 8 times
  the size, and amounts to a stable sort.
* The lines that are shown are those of the tokens, through sorting, cache and second pass
  (`Pipeline.ShowRuns`); with memory the cache survives if and only if no line has more than 65535
  tokens; with and without the cache they agree exactly
  except for last tokens on a line that is not terminated.
* Match totals are conserved, the destructive report visits every entry once, in groups, and its lines
  are true of the texts and their runs (`Percentages.ShowPercentages`).
* The output checker computes a verdict on words and white space, for all bytes, and where
  returns only occur in line ends it accepts exactly what is the same up to the kind of line ends and
  white space at the end.
* A language accepts again what it has accepted, if and only if no closer that has an opener is barred
  from ending a run; in the languages that come with the program none is.
* Converting to UTF-16 and back gives back exactly the strings that are well-formed UTF-8.

## Model

| member | source | states |
|---|---|---|
| Language.ConvertToTable | sim/sim_2_89/algollike.c:21-33 | a token set becomes a table that gives each member the position of its last occurrence, as far as a `char` holds it, and all others 0; for fewer than 128 tokens the table has exactly the members; it fails exactly if a token is not regular |
| Language.TableLooksUp | sim/sim_2_89/algollike.c:49-54 | looking a token up in the table of a short list gives its last position in the list, or 0 if it is not in it |
| Language.MayStartUnlessListed | sim/sim_2_89/algollike.c:56-59 | a run may start with a token if and only if it is not a listed non-initial, or the language has no sets |
| Language.LargestRoutine | sim/sim_2_89/algollike.c:62-115 | the scan with its imbalance counter finds the longest prefix that balances every kind of parenthesis and of which no prefix has a closer too many |
| Language.SurplusEnds | sim/sim_2_89/algollike.c:98-101 | behind a closer too many no longer prefix can be routine-like, so leaving early loses nothing |
| Language.BestRunSize | sim/sim_2_89/algollike.c:117-137 | the accepted length: the largest routine if so asked, without the tokens at the end that are non-finals; a language without sets accepts every run whole |
| Language.BestSizeMonotone | sim/sim_2_89/algollike.c:117-137 | offering a longer run never gets less accepted |
| Language.BestSizeLocal | sim/sim_2_89/algollike.c:117-137 | the accepted length depends on the tokens of the run only |
| Language.IdempotentIff | sim/sim_2_89/algollike.c:117-137 | a step towards the theorem on languages: an accepted run is accepted again unchanged exactly if the tail that was cut balances by itself |
| Language.BestSizeIdempotent | sim/sim_2_89/algollike.c:117-137 | in a language without a bad pair, an opener and a closer of one kind of which the closer is a non-final, every accepted run is accepted again unchanged |
| Language.IdempotenceFails | sim/sim_2_89/algollike.c:117-137 | any bad pair, of which neither token both opens and closes, gives a run of three tokens of which the accepted part is refused altogether |
| Language.IdempotentLanguage | sim/sim_2_89/algollike.c:35-137 | so a language whose openers and closers are disjoint accepts every accepted run again if and only if it has no bad pair, or does not look for routines |
| Corpora.OwnerExists | sim/sim_2_89/compare.c:128-131 | every used position lies in a text, so looking for the text of a match finds one |
| Corpora.OwnerUnique | sim/sim_2_89/pass1.c:37-109 | no position lies in two texts |
| GrowableArrays.Growable.Store | sim/sim_2_89/tokenarray.c:29-51 | an element is appended behind all others, across reallocations; it fails only when full and without memory |
| FirstPass.ReadInputFiles | sim/sim_2_89/pass1.c:25-114 | the token array holds the tokens of all files in order behind the unused slot 0, each text its segment; the number of new texts is the position of the last separator, or the number of files if there is none; the cache has the line ends of each text or is gone, and with memory for both it is there if and only if no line has more than 65535 tokens |
| FirstPass.CorpusIsValid | sim/sim_2_89/pass1.c:37-109 | the segments partition the token array from position 1, separators being empty |
| FirstPass.TextHoldsFile | sim/sim_2_89/pass1.c:37-109 | each segment holds exactly the tokens of its own file |
| HashIndex.XorBound | sim/sim_2_89/hash.c:240-292 | an exclusive or of values below a power of two stays below it |
| HashIndex.SameWindowSameCode | sim/sim_2_89/hash.c:240-351 | equal windows of the minimum run size have equal hash codes, whatever the table size |
| HashIndex.ForwardIndex.Hash1 | sim/sim_2_89/hash.c:240-292 | the loop over the samples computes a bucket of the table |
| HashIndex.ForwardIndex.Hash2 | sim/sim_2_89/hash.c:325-351 | the second code, of five samples in 64 bits |
| HashIndex.ForwardIndex.MakeForwardReferences | sim/sim_2_89/hash.c:204-238 | after the first pass each startable position refers to the next one in its bucket, or to 0 |
| HashIndex.ForwardIndex.CleanForwardReferences | sim/sim_2_89/hash.c:296-323 | after the second pass, which overwrites what it reads, each refers to the next one with both codes the same, or to 0 |
| HashIndex.ForwardIndex.constructor | sim/sim_2_89/hash.c:71-84 | the index is complete for every corpus and every table size from 1 |
| HashIndex.NextByCode | sim/sim_2_89/hash.c:204-323 | what a complete index says about one reference: it leads to the least later eligible position with the same codes |
| HashIndex.ChainIsComplete | sim/sim_2_89/hash.c:204-323 | a chain contains every later position with the same code |
| HashIndex.ChainIsPure | sim/sim_2_89/hash.c:204-323 | a chain ascends, and contains only positions with the same code |
| HashIndex.ChainsNeverMerge | sim/sim_2_89/hash.c:204-323 | no two positions refer to the same next one |
| HashIndex.SameWindowOnChain | sim/sim_2_89/hash.c:204-323 | the chain from a position contains every later eligible position with an identical window |
| Search.Lcs | sim/sim_2_89/compare.c:101-199 | walking the chain with pruning gives the answer of the exhaustive search; in terms of the tokens: of all stretches that occur again in the range, later and without overlap, within single texts, none gets more than the result accepted, none nearer gets as much, the result is at least the minimum size and is accepted of a stretch to the position and text returned; it is 0 exactly if no stretch gets the minimum size accepted |
| Search.ScoreIsLargest | sim/sim_2_89/compare.c:159-195 | what is compared of two candidates is the largest size that the language accepts between the two positions, or 0 if that is below the minimum |
| Search.BestIsLongest | sim/sim_2_89/compare.c:101-199 | the best candidate is the largest acceptable run, and the nearest of those |
| Search.ExhaustiveBestIsBest | sim/sim_2_89/compare.c:101-199 | the exhaustive search finds the first of the best among all later positions, or 0 if none is acceptable |
| Search.BestIsUnique | sim/sim_2_89/compare.c:101-199 | there is only one such answer |
| Search.LongestGetsMost | sim/sim_2_89/compare.c:159-185 | extending a stretch as far as it goes before it is offered to the language gets the most accepted |
| Search.SameAtBothEnds | sim/sim_2_89/compare.c:178-185 | the language accepts as much of a stretch at the later place as at the earlier one, where it is offered |
| Search.ScoreNeedsCode | sim/sim_2_89/compare.c:118-124 | a position that is not on the chain can give no acceptable run |
| Search.FollowLink | sim/sim_2_89/compare.c:118-124 | following one reference skips no position that could be better |
| Comparison.CompareOneText | sim/sim_2_89/compare.c:68-99 | the loop takes the best run where there is one and goes on behind it |
| Comparison.CompareFiles | sim/sim_2_89/compare.c:33-66 | every run leads from a new text to one that the options allow: under -S behind the separator, else under -s to a later one, else to itself or a later one; and for every such two texts, and every position where a run could start, a run that covers it is reported, under -e one to that text, or there is no acceptable run from it to that text |
| Comparison.FindRuns | sim/sim_2_89/sim.c:111-117 | the runs that are found are the same for every size of the hash table, and are sound and complete as above |
| Comparison.RunsAreGenuine | sim/sim_2_89/compare.c:68-99 | each run has equal tokens, at least the minimum size, chunks within single texts, no overlap with itself, and is the best at its position; runs follow one another without overlap |
| Comparison.RunsAreComplete | sim/sim_2_89/compare.c:68-99 | a position where a run could start and that no run covers starts no acceptable run at all |
| Comparison.AllRunsAdmissible | sim/sim_2_89/compare.c:33-66 | every run is genuine and leads from a new text to a text that the options allow |
| Comparison.AllRunsComplete | sim/sim_2_89/compare.c:33-66 | for every two texts that the options allow nothing is left out |
| RunTree.InsertedAllIsStableSort | sim/sim_2_89/runs.c:13-26 | inserting runs one by one gives the same runs, largest first, those of one size in the order of insertion |
| RunTree.RotationKeepsWalk | sim/sim_2_89/aiso.bdy:58-82 | a rotation changes neither the nodes nor their in-order walk |
| RunTree.PacedStep | sim/sim_2_89/aiso.bdy:48-87 | a step down without a rotation keeps the bound on the access mark |
| RunTree.Aiso.RotateRight | sim/sim_2_89/aiso.bdy:59-66 | the links that are rewritten make the rotated shape, in place, with the same walk |
| RunTree.Aiso.RotateLeft | sim/sim_2_89/aiso.bdy:75-82 | the same for the other side |
| RunTree.Aiso.FindPlace | sim/sim_2_89/aiso.bdy:48-87 | the way down terminates, at the empty place where the new value belongs, with the node before it in the list, after no more accesses than twice the nodes |
| RunTree.Aiso.AccessDoesNotWrap | sim/sim_2_89/aiso.bdy:24-32 | below 2^60 nodes no doubling of the mark exceeds 64 bits |
| RunTree.Aiso.MarkWithinBounds | sim/sim_2_89/aiso.bdy:24-32 | between insertions the mark is at least 1 and at most 8 times the size, or 8 |
| RunTree.Aiso.Thread | sim/sim_2_89/aiso.bdy:91-94 | the new node is linked into the list directly behind that node |
| RunTree.Aiso.Insert | sim/sim_2_89/aiso.bdy:34-99 | tree, threaded list, size and mark agree again; the contents are the old ones with the run behind all that are at least as large and before all smaller ones; it takes at most twice as many accesses as there are nodes; without memory nothing changes |
| RunTree.Aiso.Iterate | sim/sim_2_89/aiso.bdy:142-156 | iterating over the list gives the in-order walk of the tree |
| RunTree.CollectRuns | sim/sim_2_89/runs.c:11-26 | runs that are added one by one come out with the largest first, those of one size in the order in which they were added, and all of them for which there was memory; the overflow flag tells whether there was one that was not kept |
| TextReading.LineEndsBefore | sim/sim_2_89/text.c:95-115 | the line of a token is the number of line ends that have no more tokens before them, plus one |
| TextReading.Reader.StoreNewline | sim/sim_2_89/text.c:161-195 | a 16-bit difference is appended, or the whole cache is abandoned because it does not fit or there is no memory |
| TextReading.Reader.NextToken | sim/sim_2_89/text.c:85-93 | reading on counts tokens and lines, and keeps the cache equal to the line ends read so far; with memory the cache survives exactly the lines that are short enough |
| TextReading.Reader.CloseFirst | sim/sim_2_89/text.c:117-133 | the cache entries of the text add up to its line ends, with one closing entry if its last line is not terminated; with memory the cache survives exactly if what is behind the last line end is short enough |
| TextReading.Reader.NextEol | sim/sim_2_89/text.c:95-115 | the second pass comes behind the next line end, be it from the cache or from the file |
| LinkedLists.Sort | sim/sim_2_89/sortlist.bdy:17-64 | the result is an acyclic list of the same nodes with their payloads, none of which should come before its predecessor; the recursion terminates |
| LinkedLists.Split | sim/sim_2_89/sortlist.bdy:24-40 | taking elements alternately gives two lists of the same elements, whose lengths differ by at most one |
| LinkedLists.Merge | sim/sim_2_89/sortlist.bdy:46-63 | merging two ordered lists in place gives an ordered list of the elements of both |
| LineRecovery.FillIn | sim/sim_2_89/pass2.c:77-112 | the parallel scan gives every position, however many share a line or a token, its line number |
| LineRecovery.LineFound | sim/sim_2_89/pass2.c:80-109 | behind the first line end that lies behind a token, the old and new line counts are what a first and a last token need |
| LineRecovery.Pass2Text | sim/sim_2_89/pass2.c:36-120 | all positions of a text get their lines, sorted or not before; a file that has disappeared leaves them alone |
| LineRecovery.RetrieveRuns | sim/sim_2_89/pass2.c:20-27 | all positions of all texts get their lines, and no text disturbs another |
| LineRecovery.CacheAgreesWithFile | sim/sim_2_89/pass2.c:80-100 | a corollary on the lines that the second pass computes: cache and file give a position the same line unless it is the last of a chunk on a line that is not terminated, where they always differ |
| LineRecovery.CacheDiffersFromFile | sim/sim_2_89/pass2.c:80-109 | a text of one token on a line that is not terminated, where they differ |
| LineRecovery.TerminatedTextsAgree | sim/sim_2_89/text.c:95-115 | so for texts that end in a newline they always agree |
| LineRecovery.AddRun | sim/sim_2_89/add_run.c:30-76 | four positions, relative to their texts, are put on the lists of the two texts, which may be one and the same |
| Percentages.Ledger.Enter | sim/sim_2_89/percentages.c:30-68 | a run within one file adds nothing, any other adds its size to one entry in each direction, existing or new |
| Percentages.LedgerIsInOrder | sim/sim_2_89/percentages.c:39-68 | there is one entry for two files in one order, and it holds the token count of the first of them |
| Percentages.EntriesHoldTotals | sim/sim_2_89/percentages.c:30-68 | both entries for two files hold the total of the runs between them |
| Percentages.MatchesAreConserved | sim/sim_2_89/percentages.c:30-68 | under -p that total is at most the token count of the earlier file, so only the reverse direction can exceed 100 % |
| Percentages.ReportedEntriesSized | sim/sim_2_89/percentages.c:80-83 | no share is a division by zero |
| Percentages.AtLeastTransitive | sim/sim_2_89/percentages.c:84-88 | having a share that is no lower is transitive, so a list that is ordered between neighbours descends throughout |
| Percentages.Ledger.SortMatches | sim/sim_2_89/percentages.c:84-88 | the same entries, in descending order of share |
| Percentages.Ledger.RemoveTop | sim/sim_2_89/percentages.c:106-132 | exactly the entries for the first file of the top one are taken off the list, and their lines printed; under -P only that of the top one |
| Percentages.Ledger.Show | sim/sim_2_89/percentages.c:134-169 | the lines tell, file by file and with the exact percentage, of the entries that reach the threshold, each as often as it is in the ledger, in groups with descending shares; under -P of the one with the highest share of each first file; the list is empty at the end |
| Percentages.LineForTells | sim/sim_2_89/percentages.c:90-104 | there is a line for an entry exactly if its share reaches the threshold, and it names its two files in their order with the percentage rounded down, at most 100 |
| Percentages.EntryIs | sim/sim_2_89/percentages.c:39-68 | an entry holds the total of the runs between its two texts, and the token count of the first |
| Percentages.ToldIsTruthful | sim/sim_2_89/percentages.c:90-169 | so what the report says of entries is true of the texts and the runs |
| Percentages.ReportVisitsAll | sim/sim_2_89/percentages.c:106-140 | the report visits every entry exactly once |
| Percentages.ReportIsGrouped | sim/sim_2_89/percentages.c:70-77 | the entries for one first file stand together in descending order, and no group holds a higher share than the top of one before it |
| Percentages.MainReportIsMain | sim/sim_2_89/percentages.c:106-132 | under -P there is one line for each first file, that of its highest share |
| Percentages.ShowPercentages | sim/sim_2_89/percentages.c:159-169 | a line says of the tokens in runs that the first text shares with the second what percentage of its tokens they are, rounded down, or 100; without -P every two texts whose share reaches the threshold have exactly one line for each direction; lines are in groups, shares descend within a group and from each top line on; under -P each text that must be shown has one line, for the text that it shares most with |
| Pipeline.ReportedInFiles | sim/sim_2_89/add_run.c:37-38 | the chunks of a run lie within their files, relative to the starts of their texts |
| Pipeline.ShowRuns | sim/sim_2_89/sim.c:229-232 | from files to runs with their lines: exactly the runs that are kept, a larger one before a smaller one, of two of one size the one found first before the other, each with its own lines; when the cache survives these are the lines of the tokens, and with memory it survives if and only if no line is too long |
| Pipeline.AllShown | sim/sim_2_89/sim.c:229-232 | without an overflow all runs are shown, the largest first, those of one size as they were found |
| Pipeline.CachedLines | sim/sim_2_89/pass2.c:102-109 | a corollary: with the cache, a chunk gets the line of its first token, and the one behind the line of its last, whether or not the file can still be read |
| Pipeline.ShowShares | sim/sim_2_89/sim.c:224-227 | from files to the lines of the percentage report, which are true, complete and in order as above |
| OutputVerdict.FindNextNonspace | Cjudger/runner.cc:133-161 | white space is skipped in both files; a presentation error is noted if and only if the two stretches do not agree, where a file that ends may have less of it |
| OutputVerdict.CompareWords | Cjudger/runner.cc:190-226 | the files are compared word by word, up to the end or to a NUL in both of them (white space, newlines included, has been skipped before the test) |
| OutputVerdict.Compare | Cjudger/runner.cc:170-236 | it terminates with the verdict on the words and the white space of the two files, for all bytes; in terms of bytes: files that differ only in the kind and amount of bytes 32 and 9 to 13 are never wrong, files without zeros that differ in more always are, and where each byte 13 stands before a 10 the verdict is accepted exactly if the files are the same after folding 13 10 to 10, up to such bytes at the end of one of them; a file that cannot be opened is a runtime error |
| OutputVerdict.StepwiseIsJudgement | Cjudger/runner.cc:182-228 | deciding stretch by stretch comes to the same as comparing the sequences of all words and of all stretches of white space |
| OutputVerdict.TextIsWoven | Cjudger/runner.cc:193-211 | a text consists of white space and words in turns, the words being as long as they can be |
| OutputVerdict.WovenIsUnique | Cjudger/runner.cc:193-211 | there is no other way to take it apart, so the words are the maximal stretches without white space, a NUL being one by itself |
| OutputVerdict.WrongIffWordsDiffer | Cjudger/runner.cc:200-222 | a corollary: the verdict is wrong answer exactly if the word sequences differ; otherwise it is accepted or a presentation error |
| OutputVerdict.BareDecides | Cjudger/runner.cc:193-211 | two texts have the same words if they are the same with every stretch of bytes 32 and 9 to 13 reduced to one space; for texts without zeros if and only if |
| OutputVerdict.JudgementMeans | Cjudger/runner.cc:170-236 | the verdict in terms of the values of the bytes |
| OutputVerdict.JudgementReflexive | Cjudger/runner.cc:170-236 | a file compared to itself is accepted |
| OutputVerdict.JudgementSymmetric | Cjudger/runner.cc:133-236 | swapping the files does not change the verdict |
| OutputVerdict.FoldedIsAccepted | Cjudger/runner.cc:133-161 | files that are the same after folding CR LF to LF, up to white space at the end of one of them, are accepted |
| OutputVerdict.AcceptedIffSameLines | Cjudger/runner.cc:133-161 | files in which every return stands before a newline are accepted if and only if they are the same after folding, up to white space at the end of one of them |
| FileNames.Decode8 | sim/sim_2_89/fname.c:63-121 | the loops over leading ones, tail bytes and skipped bytes compute the code point of a sequence, and never read behind the terminator; behind an error the next byte is the first one below 0x80 |
| FileNames.BadStretch | sim/sim_2_89/fname.c:110-120 | a byte that no sequence starts with gives one question mark, together with all bytes behind it that are not below 0x80 |
| FileNames.GoesOnAtHead | sim/sim_2_89/fname.c:110-120 | behind an error the decoder goes on at the next head, as its comment says, if and only if that is a byte below 0x80 |
| FileNames.CharacterLost | sim/sim_2_89/fname.c:110-120 | behind a stray tail byte a character of two bytes is lost |
| FileNames.Decode16 | sim/sim_2_89/fname.c:138-175 | the same for one unit or a surrogate pair |
| FileNames.Decoded8Stays | sim/sim_2_89/fname.c:88-121 | every step uses at least one byte, and none passes the terminator, for any input |
| FileNames.Decoded16Stays | sim/sim_2_89/fname.c:138-175 | the same for UTF-16 |
| FileNames.GoesOnWhereAcceptable | sim/sim_2_89/fname.c:165-174 | behind an error the decoder goes on at the next acceptable unit, as its comment says, if and only if the error is a high surrogate or that unit is in the basic plane |
| FileNames.PairLost | sim/sim_2_89/fname.c:165-174 | behind a stray low surrogate a valid pair is lost |
| FileNames.Encode8IsUTF8 | sim/sim_2_89/fname.c:178-215 | the bytes for a character are its UTF-8 form, section 3 of RFC 3629 |
| FileNames.Encode16IsUTF16 | sim/sim_2_89/fname.c:217-239 | the units for a character are its UTF-16 form, section 2.1 of RFC 2781 |
| FileNames.Decode8Inverts | sim/sim_2_89/fname.c:88-121 | decoding the UTF-8 form of a character gives the character back |
| FileNames.Decode16Inverts | sim/sim_2_89/fname.c:138-175 | the same for UTF-16 |
| FileNames.Str2Fname | sim/sim_2_89/fname.c:275-307 | the whole string is converted, a question mark standing for what cannot be |
| FileNames.Fname2Str | sim/sim_2_89/fname.c:241-273 | the same in the other direction |
| FileNames.ConversionsAgree | sim/sim_2_89/fname.c:241-307 | the two conversions map the UTF-8 and UTF-16 forms of the same characters to each other |
| FileNames.RoundTrip | sim/sim_2_89/fname.c:241-307 | to UTF-16 and back is the identity exactly on well-formed UTF-8 |
| FileNames.UTF16Fits | sim/sim_2_89/fname.c:275-307 | a string in UTF-8 never becomes longer in UTF-16 |
| FileNames.UTF8Fits | sim/sim_2_89/fname.c:241-273 | a string in UTF-16 never becomes more than three times as long in UTF-8 |
| MemoryLedger.Ledger.RecordAlloc | sim/sim_2_89/Malloc.c:74-94 | a block is put on top of those at its address, others stay; the counters follow |
| MemoryLedger.Ledger.PlaceOf | sim/sim_2_89/Malloc.c:97-107 | the first record for an address on its chain, or the end of the chain |
| MemoryLedger.Ledger.RecordFree | sim/sim_2_89/Malloc.c:109-120 | the most recent block at the address is removed and its size returned, if there is one; the balance follows |
| MemoryLedger.Replay | sim/sim_2_89/Malloc.c:74-120 | after any sequence of calls each address has the blocks that are in use there, the balance is what was allocated less what was freed and the sum over all chains, and balance <= maximum <= total |
| MemoryLedger.SizesChanged | sim/sim_2_89/Malloc.c:87-117 | changing one chain changes the sum over all chains by as much |
| MemoryLedger.Ledger.CompactedLeaks | sim/sim_2_89/Malloc.c:145-193 | one entry for each place, with the number of its blocks and their bytes, of varying size exactly if the sizes differ; all bytes together are the balance |
| MemoryLedger.UpdatedSums | sim/sim_2_89/Malloc.c:164-175 | counting in one more block keeps an entry right, also when it switches from one size to a sum of sizes |

## Left out

- Scanners: a file is the finite sequence of tokens and line ends that its scanner delivers, the same in both passes; a file that cannot be opened is an empty one, as in the source. The token sets of the languages are parameters.
- Extraction from the tree (`ExtractAiso`), which is not compiled in, and closing an iterator, which does nothing.
- The choice of the size of the hash table from a table of primes, with smaller ones when memory is short: the size is a parameter, and the results do not depend on it.
- `size_t` and buffer limits: counts and positions are unbounded, except for the access mark of the tree, which is taken modulo 2^64, the 16-bit line differences, and the 32- and 64-bit hash codes. The `unsigned int` block counts of the leak report do not wrap.
- The largest routine keeps its counters in an array, but `LargestRoutine` has its two steps, opener and closer, in methods of their own.
- Files are known by their numbers, not by the addresses of their names.
- Percentages.Ledger.SortMatches: orders by exact fractions, because the rounding of `float` is not modelled; shares that `float` does not tell apart count as equal in the source.
- Percentages.Ledger.RemoveTop: the percentage is the exact quotient; with the rounding of `float` the source can print one less, for 29 tokens out of 100 for instance 28, or one more for very large files, and the test against the threshold differs with it.
- Percentages.Ledger.Show: the same holds for the whole report.
- Percentages.ShowPercentages: the same holds for the whole report.
- Pipeline.ShowShares: the same holds for the whole report.
- The loop at the end of the second pass that drains the scanner, and the messages on changed or disappeared files, which depend on whether a text was terminated.
- Printing of the runs and their texts (`pass3.c`), options, command line and directories, the two-round mode that compares one file at a time against old ones, and debug code.
- White space is that of the "C" locale in the output checker. A NUL in a file is a word by itself, and where both files have one the code starts afresh; so it is in the model.
- A comment in the UTF-8 decoder says that it skips to a new head after an error. The code skips all bytes from 0x80, so also the heads of longer sequences. The model follows the code: `FileNames.CharacterLost` gives a string for which this loses a character, and `FileNames.GoesOnAtHead` says exactly when the comment is right.
- A comment in the UTF-16 decoder says that it skips to the next acceptable unit after an error. The code tests the first unit again instead, and so behind a stray low surrogate it also skips surrogate pairs. The model follows the code: `FileNames.PairLost` gives a string for which this loses a character, and `FileNames.GoesOnWhereAcceptable` says exactly when the comment is right.
- File name strings are values; that the source returns static buffers of fixed size, which the next call overwrites, is not modelled, only how much room is needed.
- The chains of the leak ledger and the list of leaks are sequences that are reassigned, in an array of fixed size; their linking is not modelled, as the list operations are the same as elsewhere. Addresses are numbers, and the place of an allocation is the address of a file name and a line.
- Reallocation in the leak ledger is a free followed by an allocation, and has no member of its own.
- Process control, system calls, the database and the queue of the judge.
- The source keeps one array of text descriptors for all passes, and the nodes of the tree refer to the runs into which the second pass writes. `Pipeline.dfy` hands the descriptors on by copying them, and the nodes of the tree hold the sizes and the numbers of the runs.
