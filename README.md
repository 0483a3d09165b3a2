# KOMORAN lattice population, modelled in Dafny

KOMORAN is a Korean morphological analyzer. Its orchestrator, `Komoran`, turns a sentence
into a string of normalised units ("jaso"). It then scans that string one unit at a time.
At every unit it runs six population passes, and each pass proposes candidate morpheme
spans to a `Lattice`:

- the continuous-symbol run detector (runs of Latin or foreign letters, digits, Chinese
  characters);
- the generic symbol classifier (a one-unit `SW` span);
- the user-dictionary overlay;
- the regular dictionary lookup;
- the irregular dictionary lookup;
- the irregular extension.

After the scan, `Komoran` flushes the pending run and finalises the lattice. It then asks
the lattice for the best path and reverses that path into `(morpheme, tag)` pairs.
`analyze` builds one lattice per space-separated token. `analyzeWithSpacing` builds one
lattice per sentence and finalises it at every space.

This project models that orchestrator and the `LatticeNode` record it fills in:

- `lattice_node.dfy`: `LatticeNode` as a class with its constructors, getters and setters.
  It is extended with the `prevNodeIdx` field that `Komoran` sets.
- `lattice.dfy`: the `Lattice`. Its source is not part of this model. Here a lattice
  records every call made on it (`put`, the irregular `put`, `appendNode`, `setLastIdx`,
  `appendEndNode`). It answers `getNodeList`, `appendEndNode` and `findPath` through an
  oracle, as a function of those calls. So every property below holds for any
  deterministic lattice implementation.
- `komoran_types.dfy`: the values passed around (`MorphTag`, `ScoredTag`, `Pair`, the
  node value a lattice holds). It also gives the collaborators as data: dictionary tries
  (exact entries plus a cursor oracle), the character classifiers, the tag table, the
  unit parser, and the iteration orders of `HashMap.keySet()` and `HashSet`.
- `symbol_runs.dfy`: the run detector's three-field buffer on its own. It proves the
  buffer invariant, and that a whole scan plus the final flush emits exactly the maximal
  SL/SN/SH runs.
- `passes.dfy`: each pass as a function from the scan state (lattice calls, run buffer,
  trie cursors) to the next scan state, with what it inserts proved about it.
- `scanning.dfy`: the unit loop, `analyze`'s per-token loop and `analyzeWithSpacing`'s
  sentence loop with its NA fallback, as functions, with lemmas about them.
- `komoran.dfy`: the `Komoran` class itself. Its fields are `lattice`, `prevPos`,
  `prevMorph`, `prevBeginIdx` and the three trie cursors. Every method is proved to leave
  the state that the matching function of `passes.dfy` / `scanning.dfy` computes.
- `dictionary_files.dfy`: the per-line logic of `setUserDic` and the line filter of
  `setFWDic`.
- `java_text.dfy`: `String.trim`, `String.split`, `String.lastIndexOf` and
  `Collections.reverse`, written out with the JDK's documented behaviour.
- `unicode_blocks.dfy`, `orders.dfy`, `wrappers.dfy`: the Unicode blocks
  `symbolParsing` tests, facts about iteration orders, and `Option`/`Result`.

Three behaviours of the code a reader may not expect. The model follows the code in each
case.

- A forward-dictionary hit in `analyze` does not skip the lattice. The stored pairs are
  appended, and the token is still scanned and decoded. Its pairs follow the stored ones
  (`Scanning.FwdHitStillAnalysed`).
- `analyzeWithSpacing` does not reset the trie cursors. Its result is stated as a function
  of the cursors the previous call left (`Scanning.SpacingResult`).
- In `analyzeWithSpacing`, when no node reaches a space or the end, the NA fallback node
  takes its score from `getNodeList(prevStartSymbolIdx).get(0)`. At the first chunk that
  index is -1. The model returns the Java exception that the null or empty list raises
  (`Wrappers.Result.Thrown`) instead of guessing a score.

## Model

| member | source | states |
|---|---|---|
| `LatticeNodes.LatticeNode.Blank` | src/kr/co/shineware/nlp/komoran/core/model/LatticeNode.java:11-13 | the no-argument constructor leaves every field at Java's default: 0, null, 0.0, and prevNodeIdx 0 |
| `LatticeNodes.LatticeNode.constructor` | src/kr/co/shineware/nlp/komoran/core/model/LatticeNode.java:15-21 | the four-argument constructor stores beginIdx, endIdx, morphTag and score exactly as given |
| `LatticeNodes.LatticeNode.GetBeginIdx` | src/kr/co/shineware/nlp/komoran/core/model/LatticeNode.java:22-24 | returns the current beginIdx and changes nothing |
| `LatticeNodes.LatticeNode.SetBeginIdx` | src/kr/co/shineware/nlp/komoran/core/model/LatticeNode.java:25-27 | sets beginIdx; every other field keeps its value |
| `LatticeNodes.LatticeNode.GetEndIdx` | src/kr/co/shineware/nlp/komoran/core/model/LatticeNode.java:28-30 | returns the current endIdx and changes nothing |
| `LatticeNodes.LatticeNode.SetEndIdx` | src/kr/co/shineware/nlp/komoran/core/model/LatticeNode.java:31-33 | sets endIdx; every other field keeps its value |
| `LatticeNodes.LatticeNode.GetMorphTag` | src/kr/co/shineware/nlp/komoran/core/model/LatticeNode.java:34-36 | returns the current morphTag and changes nothing |
| `LatticeNodes.LatticeNode.SetMorphTag` | src/kr/co/shineware/nlp/komoran/core/model/LatticeNode.java:37-39 | sets morphTag; every other field keeps its value |
| `LatticeNodes.LatticeNode.GetScore` | src/kr/co/shineware/nlp/komoran/core/model/LatticeNode.java:40-42 | returns the current score and changes nothing |
| `LatticeNodes.LatticeNode.SetScore` | src/kr/co/shineware/nlp/komoran/core/model/LatticeNode.java:43-45 | sets score; every other field keeps its value |
| `LatticeNodes.LatticeNode.SetPrevNodeIdx` | src/kr/co/shineware/nlp/komoran/core/Komoran.java:338 | the setter Komoran calls on a node: sets prevNodeIdx; every other field keeps its value |
| `LatticeNodes.LatticeNode.GetPrevNodeIdx` | src/kr/co/shineware/nlp/komoran/core/Komoran.java:338 | returns the current prevNodeIdx and changes nothing |
| `Lattices.Lattice.Put` | src/kr/co/shineware/nlp/komoran/core/Komoran.java:417-420 | put(begin, end, morph, tag, tagId, score) records exactly that insertion after the earlier calls |
| `Lattices.Lattice.PutIrregular` | src/kr/co/shineware/nlp/komoran/core/Komoran.java:383-386 | the irregular put records the span and the IrregularNode after the earlier calls |
| `Lattices.Lattice.AppendNode` | src/kr/co/shineware/nlp/komoran/core/Komoran.java:92 | appendNode records the node's begin, end, morph/tag, score and prevNodeIdx |
| `Lattices.Lattice.AppendEndNode` | src/kr/co/shineware/nlp/komoran/core/Komoran.java:86-87 | appendEndNode answers, from the calls made so far, whether a node reached the last index, and records the finalisation |
| `Lattices.Lattice.constructor` | src/kr/co/shineware/nlp/komoran/core/Komoran.java:68 | `new Lattice(resources)` starts with no calls recorded, over the resources' oracle |
| `Lattices.Lattice.SetLastIdx` | src/kr/co/shineware/nlp/komoran/core/Komoran.java:86 | setLastIdx(i) appends exactly that call to the log and nothing else |
| `Lattices.Lattice.GetNodeList` | src/kr/co/shineware/nlp/komoran/core/Komoran.java:320 | getNodeList(idx) returns the oracle's node list for the calls made so far, None standing for null, and records no call |
| `Lattices.Lattice.FindPath` | src/kr/co/shineware/nlp/komoran/core/Komoran.java:116 | findPath() returns the oracle's path for the calls made so far, None standing for null, and records no call |
| `KomoranTypes.GetValue` | src/kr/co/shineware/nlp/komoran/core/Komoran.java:343 | getValue returns the entry stored under exactly the key, and null exactly when there is none |
| `JavaText.Trim` | src/kr/co/shineware/nlp/komoran/core/Komoran.java:135 | trim() removes exactly the leading and the trailing characters up to U+0020: the result is the substring between two all-trimmable ends, and it starts and ends with a kept character; it is empty exactly when every character is trimmable |
| `JavaText.TrimIdempotent` | src/kr/co/shineware/nlp/komoran/core/Komoran.java:485-493 | trimming an already trimmed line changes nothing (why the no-tab morph is the trimmed line) |
| `JavaText.SplitAll` | src/kr/co/shineware/nlp/komoran/core/Komoran.java:132 | the pieces between separators contain no separator, and joined with it give back the string |
| `JavaText.DropTrailingEmpty` | src/kr/co/shineware/nlp/komoran/core/Komoran.java:132 | split removes only trailing empty pieces: the result is a prefix whose last piece is non-empty, and every piece removed is empty |
| `JavaText.OnlySeparatorsSplitToNothing` | src/kr/co/shineware/nlp/komoran/core/Komoran.java:132-133 | a string made only of spaces splits into no token at all |
| `JavaText.LeadingSeparatorGivesEmptyToken` | src/kr/co/shineware/nlp/komoran/core/Komoran.java:132-138 | a leading space followed by a word yields an empty first token |
| `JavaText.LastIndexOf` | src/kr/co/shineware/nlp/komoran/core/Komoran.java:487 | lastIndexOf is -1 exactly when the character is absent, and otherwise the position of its last occurrence |
| `JavaText.Reverse` | src/kr/co/shineware/nlp/komoran/core/Komoran.java:185 | Collections.reverse puts element k at position n-1-k |
| `SymbolRuns.FlushRun` | src/kr/co/shineware/nlp/komoran/core/Komoran.java:307-317 | the final flush emits the span [prevBeginIdx, len) with the buffered morph exactly when the buffered class is SL, SN or SH, and nothing for the class "" |
| `SymbolRuns.StepKeepsBuffer` | src/kr/co/shineware/nlp/komoran/core/Komoran.java:289-304 | after continiousSymbolParsing(c, i), prevMorph is the unit substring [prevBeginIdx, i+1), every unit in it has class prevPos, and the unit before it has another class |
| `SymbolRuns.RunScanInvariant` | src/kr/co/shineware/nlp/komoran/core/Komoran.java:277-305 | after any number of units the buffer invariant holds, and every span emitted so far is a maximal run before the buffer, in order, with no such run missing |
| `SymbolRuns.AllRunsAreMaximalRuns` | src/kr/co/shineware/nlp/komoran/core/Komoran.java:277-317 | a whole scan plus the flush emits exactly the maximal runs of one SL/SN/SH class, left to right, pairwise disjoint, each morph equal to its unit substring |
| `SymbolRuns.AllRunsShape` | src/kr/co/shineware/nlp/komoran/core/Komoran.java:293-299 | every emitted span is non-empty, inside the unit string, and of class SL, SN or SH, never "" |
| `Passes.ContinuousClass` | src/kr/co/shineware/nlp/komoran/core/Komoran.java:278-287 | the class of a unit is "", SL, SN or SH |
| `Passes.ContinuousStep` | src/kr/co/shineware/nlp/komoran/core/Komoran.java:289-304 | continiousSymbolParsing puts exactly one span, [prevBeginIdx, i) with the buffered morph and class, when the class changes away from SL/SN/SH, and nothing otherwise; the buffer moves as the run detector says |
| `Passes.ConsumeStep` | src/kr/co/shineware/nlp/komoran/core/Komoran.java:307-317 | the flush puts exactly one span [prevBeginIdx, n) when the buffered class is SL, SN or SH, and nothing otherwise |
| `Passes.IsGenericSymbol` | src/kr/co/shineware/nlp/komoran/core/Komoran.java:193-243 | the classifier accepts a unit exactly when it is not a digit, an ASCII letter, a space, an ASCII single-unit dictionary entry, or a Hangul, Katakana or CJK unit |
| `Passes.SymbolStep` | src/kr/co/shineware/nlp/komoran/core/Komoran.java:193-243 | symbolParsing inserts exactly one SW span [i, i+1) holding the unit when the unit is not excluded, and nothing otherwise |
| `Passes.TagCallsMeaning` | src/kr/co/shineware/nlp/komoran/core/Komoran.java:262-265 | one put per scored tag over the same span and morph: nothing else is put and no tag is missed |
| `Passes.DictCallsAreMatchSpans` | src/kr/co/shineware/nlp/komoran/core/Komoran.java:400-409 | every put of a dictionary pass ends at curIndex+1, spans |m| units and carries a tag stored for its match m |
| `Passes.DictCallsCoverMatches` | src/kr/co/shineware/nlp/komoran/core/Komoran.java:400-409 | every scored tag of every match gets its put over [curIndex-|m|+1, curIndex+1) |
| `Passes.UserDicStep` | src/kr/co/shineware/nlp/komoran/core/Komoran.java:245-268 | userDicParsing feeds the user cursor and inserts nothing without a user dictionary or when the trie answers null; otherwise it only adds match spans, and every scored tag of every match has its put |
| `Passes.UserDicStepExact` | src/kr/co/shineware/nlp/komoran/core/Komoran.java:257-265 | with matches, the calls userDicParsing adds are, as a multiset, exactly the order-free bag of the matches' puts |
| `Passes.RegularStep` | src/kr/co/shineware/nlp/komoran/core/Komoran.java:388-411 | regularParsing feeds the regular cursor and inserts nothing when the trie answers null; otherwise it only adds match spans, and every scored tag of every match has its put |
| `Passes.RegularStepExact` | src/kr/co/shineware/nlp/komoran/core/Komoran.java:400-409 | with matches, the calls regularParsing adds are, as a multiset, exactly the order-free bag of the matches' puts |
| `Passes.DictCallsBag` | src/kr/co/shineware/nlp/komoran/core/Komoran.java:400-409 | visiting the keys of a match map in any enumeration order puts exactly the bag of the matches' puts, so the keySet order changes only the order of the puts |
| `Passes.DictBagCount` | src/kr/co/shineware/nlp/komoran/core/Komoran.java:400-409 | in that bag, the put of scored tag t over the span of match m occurs exactly as often as t is stored under m: one put per scored tag |
| `Passes.NodeCallsMeaning` | src/kr/co/shineware/nlp/komoran/core/Komoran.java:375-377 | one irregular put per IrregularNode over the same span: nothing else and none missed |
| `Passes.IrregularCallsAreSpans` | src/kr/co/shineware/nlp/komoran/core/Komoran.java:371-378 | every irregular put ends at curIndex+1 and spans as many units as its match, carrying one of its nodes |
| `Passes.IrregularCallsCover` | src/kr/co/shineware/nlp/komoran/core/Komoran.java:371-378 | every IrregularNode of every match gets its put over [curIndex-|m|+1, curIndex+1) |
| `Passes.IrregularStep` | src/kr/co/shineware/nlp/komoran/core/Komoran.java:362-381 | irregularParsing feeds the irregular cursor and inserts nothing when the trie answers null; otherwise it only adds irregular spans of matches, and every node of every match has its put |
| `Passes.IrregularStepExact` | src/kr/co/shineware/nlp/komoran/core/Komoran.java:370-378 | with matches, the calls irregularParsing adds are, as a multiset, exactly one irregular put per node of every match, as the order-free bag gives them |
| `Passes.IrregularCallsBag` | src/kr/co/shineware/nlp/komoran/core/Komoran.java:370-378 | visiting the keys of an irregular match map in any enumeration order puts exactly the bag of one put per node of every match |
| `Passes.IrregularBagCount` | src/kr/co/shineware/nlp/komoran/core/Komoran.java:370-378 | in the irregular bag, the put of node nd over the span of match m occurs at least as often as m lists nd, and exactly as often when no other match has the same length |
| `Passes.PendingSound` | src/kr/co/shineware/nlp/komoran/core/Komoran.java:328-341 | every pending extension copies begin, prevNodeIdx and score of an irregular node that can grow, ends at curIndex+1 and holds morph+unit |
| `Passes.PendingComplete` | src/kr/co/shineware/nlp/komoran/core/Komoran.java:328-341 | every irregular node whose morph+unit has a continuation in the regular trie gets its pending extension |
| `Passes.ResolvedSound` | src/kr/co/shineware/nlp/komoran/core/Komoran.java:342-352 | every direct put of irregularExtends resolves an irregular node of the list getNodeList(curIndex) returns: same begin, end curIndex+1, morph+unit, a tag stored for morph+unit |
| `Passes.ResolvedComplete` | src/kr/co/shineware/nlp/komoran/core/Komoran.java:342-352 | every tag the regular dictionary stores for an irregular node's morph+unit gets its direct put |
| `Passes.AppendsArePermutation` | src/kr/co/shineware/nlp/komoran/core/Komoran.java:355-357 | whatever order the HashSet iterates in, every pending node is appended exactly once |
| `Passes.ExtendStep` | src/kr/co/shineware/nlp/komoran/core/Komoran.java:319-360 | irregularExtends does nothing without a node list at curIndex; otherwise it puts the direct resolutions first and appends exactly the pending extensions after them |
| `Passes.UnitStep` | src/kr/co/shineware/nlp/komoran/core/Komoran.java:166-171 | the six passes only add lattice calls, starting with the run the detector closes; the buffer follows the run detector and each trie cursor takes the unit |
| `Scanning.ScanFollowsRuns` | src/kr/co/shineware/nlp/komoran/core/Komoran.java:165-172 | over the unit loop the Komoran buffer is the run detector's buffer and every run it closed has been put into the lattice |
| `Scanning.EveryRunIsPut` | src/kr/co/shineware/nlp/komoran/core/Komoran.java:165-177 | every maximal SL/SN/SH run of a token becomes a put over exactly that run, whatever the other passes put |
| `Scanning.LookupFwd` | src/kr/co/shineware/nlp/komoran/core/Komoran.java:270-275 | lookupFwd returns the stored pairs for the token, and null exactly when there is no forward dictionary or no entry |
| `Scanning.PathPairs` | src/kr/co/shineware/nlp/komoran/core/Komoran.java:179-187 | a null path gives the single pair (token, "NA"); otherwise the path's pairs in reverse order |
| `Scanning.FwdHitStillAnalysed` | src/kr/co/shineware/nlp/komoran/core/Komoran.java:141-144 | a forward-dictionary hit puts the stored pairs in front of exactly what the token yields without it, and the lattice is still built |
| `Scanning.TokenOuts` | src/kr/co/shineware/nlp/komoran/core/Komoran.java:133-138 | a token stops the analysis exactly when it is blank after trimming |
| `Scanning.NullStays` | src/kr/co/shineware/nlp/komoran/core/Komoran.java:136-138 | once analyze has returned null the later tokens change nothing |
| `Scanning.AnalyzeNullIffBlank` | src/kr/co/shineware/nlp/komoran/core/Komoran.java:133-190 | analyze's loop returns null exactly when some token is blank, and otherwise every token's pairs in order |
| `Scanning.AnalyzeNullIffBlankToken` | src/kr/co/shineware/nlp/komoran/core/Komoran.java:132-138 | analyze(sentence) returns null exactly when some space-split token trims to empty |
| `Scanning.EmptySentenceIsNull` | src/kr/co/shineware/nlp/komoran/core/Komoran.java:132-137 | analyze("") returns null and changes nothing |
| `Scanning.SpacesOnlyIsEmpty` | src/kr/co/shineware/nlp/komoran/core/Komoran.java:132-133 | a sentence of spaces only returns an empty list and changes nothing |
| `Scanning.LeadingSpaceIsNull` | src/kr/co/shineware/nlp/komoran/core/Komoran.java:132-138 | a leading space before a word makes analyze return null |
| `Scanning.BlankFirstTokenStops` | src/kr/co/shineware/nlp/komoran/core/Komoran.java:136-137 | a blank first token returns null at once, leaving the state as it was |
| `Scanning.AnalyzeIgnoresEarlierState` | src/kr/co/shineware/nlp/komoran/core/Komoran.java:146-158 | because cursors, lattice and buffer are reset for every token, analyze's result does not depend on the cursors, lattice and buffer earlier calls left, given the same iteration orders |
| `Scanning.NaNode` | src/kr/co/shineware/nlp/komoran/core/Komoran.java:90-91 | the fallback node spans [prevStartSymbolIdx+1, i), holds that unit substring, is tagged NA and has prevNodeIdx 0 |
| `Scanning.Finalise` | src/kr/co/shineware/nlp/komoran/core/Komoran.java:86-94 | finalising sets the last index and appends the end node; when nothing reached it, a null getNodeList(prevStartSymbolIdx) throws NullPointerException and an empty one IndexOutOfBoundsException, with only those two calls made; otherwise the NA node over the units since the last space, scored like the list's first node, is appended and the end node appended again |
| `Scanning.SpacingUnit` | src/kr/co/shineware/nlp/komoran/core/Komoran.java:82-103 | one iteration of the sentence loop: at a space prevStartSymbolIdx becomes the space's index, otherwise it is unchanged |
| `Scanning.SpacingPrefix` | src/kr/co/shineware/nlp/komoran/core/Komoran.java:80-103 | throughout the sentence loop prevStartSymbolIdx is the index of the last space seen, or -1 |
| `Scanning.ThrownStays` | src/kr/co/shineware/nlp/komoran/core/Komoran.java:89-90 | once an exception is raised the rest of the sentence changes nothing |
| `Scanning.PrevStartIsLastSpace` | src/kr/co/shineware/nlp/komoran/core/Komoran.java:84-95 | prevStartSymbolIdx equals lastIndexOf(' ') of the units seen, so a fallback NA node never covers a space |
| `Analyzer.Komoran.constructor` | src/kr/co/shineware/nlp/komoran/core/Komoran.java:60-64 | a Komoran over loaded resources, with an optional user and forward dictionary, starts with an empty lattice, an empty run buffer and empty trie cursors (`State() == Start`) |
| `Analyzer.Komoran.ContinuousSymbolParsing` | src/kr/co/shineware/nlp/komoran/core/Komoran.java:277-305 | the method changes the buffer fields and the lattice exactly as `Passes.ContinuousStep` says |
| `Analyzer.Komoran.ConsumeBuffer` | src/kr/co/shineware/nlp/komoran/core/Komoran.java:307-317 | the method changes the lattice exactly as `Passes.ConsumeStep` says |
| `Analyzer.Komoran.SymbolParsing` | src/kr/co/shineware/nlp/komoran/core/Komoran.java:193-243 | returns true exactly when the unit is not excluded, and changes the lattice as `Passes.SymbolStep` says |
| `Analyzer.Komoran.InsertMatches` | src/kr/co/shineware/nlp/komoran/core/Komoran.java:400-409 | the nested loops put, in the keySet iteration order they are given, one span per scored tag of every match |
| `Analyzer.Komoran.InsertTags` | src/kr/co/shineware/nlp/komoran/core/Komoran.java:406-408 | the inner loop puts one span per scored tag, in list order |
| `Analyzer.Komoran.UserDicParsing` | src/kr/co/shineware/nlp/komoran/core/Komoran.java:245-268 | returns whether the user trie reported matches, and changes the state as `Passes.UserDicStep` says |
| `Analyzer.Komoran.RegularParsing` | src/kr/co/shineware/nlp/komoran/core/Komoran.java:388-411 | returns whether the regular trie reported matches, and changes the state as `Passes.RegularStep` says |
| `Analyzer.Komoran.IrregularParsing` | src/kr/co/shineware/nlp/komoran/core/Komoran.java:362-381 | returns whether the irregular trie reported matches, and changes the state as `Passes.IrregularStep` says |
| `Analyzer.Komoran.InsertIrregularMatches` | src/kr/co/shineware/nlp/komoran/core/Komoran.java:370-378 | the nested loops put, in the keySet iteration order they are given, one irregular span per node of every match |
| `Analyzer.Komoran.InsertNodes` | src/kr/co/shineware/nlp/komoran/core/Komoran.java:375-377 | the inner loop puts one irregular span per node, in list order |
| `Analyzer.Komoran.IrregularExtends` | src/kr/co/shineware/nlp/komoran/core/Komoran.java:319-360 | the method changes the lattice exactly as `Passes.ExtendStep` says |
| `Analyzer.Komoran.ExtendNodes` | src/kr/co/shineware/nlp/komoran/core/Komoran.java:326-354 | the loop over the node list makes the direct puts in list order and builds, through the setters, exactly the pending extensions |
| `Analyzer.Komoran.ExtendNode` | src/kr/co/shineware/nlp/komoran/core/Komoran.java:328-353 | for one node: a fresh extended node exactly when it is irregular and can grow, plus the direct puts that resolve it |
| `Analyzer.Komoran.AppendPending` | src/kr/co/shineware/nlp/komoran/core/Komoran.java:355-357 | every pending node is appended, in the HashSet's iteration order |
| `Analyzer.Komoran.RunPasses` | src/kr/co/shineware/nlp/komoran/core/Komoran.java:166-171 | the six passes in their fixed order change the state as `Passes.UnitStep` says |
| `Analyzer.Komoran.ScanUnits` | src/kr/co/shineware/nlp/komoran/core/Komoran.java:165-172 | the unit loop runs the passes on every unit in order |
| `Analyzer.Komoran.ResetForToken` | src/kr/co/shineware/nlp/komoran/core/Komoran.java:146-158 | every trie cursor is reset, the lattice is new and the run buffer is cleared |
| `Analyzer.Komoran.FinishToken` | src/kr/co/shineware/nlp/komoran/core/Komoran.java:174-177 | the flush, setLastIdx(length) and appendEndNode, in that order |
| `Analyzer.Komoran.ScanToken` | src/kr/co/shineware/nlp/komoran/core/Komoran.java:165-177 | from the reset state, the unit loop and the flush and finalisation leave exactly `Scanning.TokenScan` of the token's units |
| `Analyzer.Komoran.AnalyzeOneToken` | src/kr/co/shineware/nlp/komoran/core/Komoran.java:141-187 | one token yields its forward pairs, if any, then its reversed path or (token, "NA") |
| `Analyzer.Komoran.Analyze` | src/kr/co/shineware/nlp/komoran/core/Komoran.java:129-191 | analyze returns null at the first blank token, and otherwise each token's pairs in order |
| `Analyzer.Komoran.FinaliseAt` | src/kr/co/shineware/nlp/komoran/core/Komoran.java:86-94 | the finalisation with its NA fallback, as `Scanning.Finalise` says, with the exception a null or empty node list raises |
| `Analyzer.Komoran.SpacingLoop` | src/kr/co/shineware/nlp/komoran/core/Komoran.java:80-103 | the sentence loop, stopped by the first exception, leaves the state `Scanning.SpacingPrefix` computes |
| `Analyzer.Komoran.SpacingIteration` | src/kr/co/shineware/nlp/komoran/core/Komoran.java:82-103 | one iteration of the sentence loop advances `Scanning.SpacingPrefix` by one unit: the state, prevStartSymbolIdx and any exception are its value at i+1 |
| `Analyzer.Komoran.SpacingFinish` | src/kr/co/shineware/nlp/komoran/core/Komoran.java:105-113 | after the loop, the flush and the finalisation at the end of the units with the same NA fallback |
| `Analyzer.Komoran.AnalyzeWithSpacing` | src/kr/co/shineware/nlp/komoran/core/Komoran.java:66-127 | one lattice for the whole sentence, finalised at every space; a null path gives (sentence, "NA") |
| `DictionaryFiles.UserDicLineMeaning` | src/kr/co/shineware/nlp/komoran/core/Komoran.java:485-499 | a line gives no entry exactly when it is blank or a comment after trimming; a line without a tab is (line, NNP); otherwise the morph is the text before the last tab and the tag the tab-free text after it; the score is always 0.0 |
| `DictionaryFiles.UserDicEntriesAreLines` | src/kr/co/shineware/nlp/komoran/core/Komoran.java:484-504 | every entry put comes from one line of the file, and every line that is neither blank nor a comment gives its entry |
| `DictionaryFiles.ReadUserDic` | src/kr/co/shineware/nlp/komoran/core/Komoran.java:484-504 | the read loop collects the entries of the lines in file order |
| `DictionaryFiles.FwdLineAsWritten` | src/kr/co/shineware/nlp/komoran/core/Komoran.java:449-454 | the guard throws exactly on a two-field line with an empty first field, and hands a line to the parser exactly when the intended filter accepts it |
| `DictionaryFiles.FwdLoadAsWritten` | src/kr/co/shineware/nlp/komoran/core/Komoran.java:442-476 | the load is cut short exactly when some line is a two-field line with an empty first field |
| `DictionaryFiles.EmptyKeyStopsLoading` | src/kr/co/shineware/nlp/komoran/core/Komoran.java:449-476 | the line "\tX" ends the load, so a well-formed line after it is never parsed |
| `DictionaryFiles.FwdParsedIsFilter` | src/kr/co/shineware/nlp/komoran/core/Komoran.java:448-467 | with the corrected guard, a line is parsed exactly when it is in the file and the filter accepts it |
| `DictionaryFiles.AsWrittenAgreesWithoutEmptyKeys` | src/kr/co/shineware/nlp/komoran/core/Komoran.java:448-476 | on a file without an empty first field, the code as written parses the same lines as the corrected loop |

## Left out

- The `Lattice` implementation (predecessor search, cumulative scoring, pruning,
  `appendEndNode`, `findPath`). Its source is not part of this model. Its answers come
  from an oracle over the calls made on it. So the model states which spans are inserted,
  not which path is chosen. Decode properties (minimum cost, coverage of the decoded path,
  monotone scores) are not stated.
- The dictionary tries (`get(jaso)` cursor walking, fail links, `initCurrentNode`,
  `buildFailLink`), `Resources.load` and `KoreanUnitParser.parse`. These are foreign
  code. A trie is its exact entries plus an oracle that answers `get` from the units fed
  since the last reset. The parser is a function parameter.
- `Character.isDigit` and `StringUtil.isEnglish/isNumeric/isChinese/isForeign` are
  uninterpreted predicates. `Character.UnicodeBlock.of` is written out for the blocks
  `symbolParsing` tests. Units are Unicode scalar values, not UTF-16 code units. A
  supplementary character such as a CJK Extension B ideograph is therefore one unit here,
  while Java sees two surrogate units.
- Scores are Java doubles that `Komoran` only copies. They are `real`, never computed
  on. The `SCORE.*` and `SYMBOL.IRREGULAR*` constants are resource fields.
- The iteration orders of `HashMap.keySet()` and `HashSet` are unspecified. They are
  oracles required to visit each key or node exactly once. Every property about one call
  holds for all such orders. `LatticeNode` keeps `Object`'s identity equality, so the
  set merges no two extensions.
- AnalyzeIgnoresEarlierState (`Scanning.AnalyzeIgnoresEarlierState`): holds only when
  both calls use the same iteration orders. The `HashSet` of pending extensions in
  `irregularExtends` orders nodes by identity hash codes, which differ from call to
  call. Two calls may therefore append the pending extensions in different orders, and
  the lattice may decode them differently. So the source does not promise the same
  result for the same sentence twice, and neither does the model.
- ResolvedSound (`Passes.ResolvedSound`): does not state that the resolved node ends at
  curIndex. The `Lattice` source is not part of this model, and its `getNodeList`
  oracle is not tied to end indices. The lemma holds for any node list.
- File I/O in `setUserDic` and `setFWDic` (`BufferedReader`, `printStackTrace`). The
  loaders work on the lines already read. The user and forward dictionaries are given to
  the `Komoran` constructor as loaded values. `CorpusParser`, which turns an accepted
  forward line into pairs, is not part of this model. The forward loader yields the lines
  it would hand to it. `userDic.put` into the trie is left out as well.
- `Komoran(String modelPath)` and `load` read model files. The constructor here takes the
  loaded resources.
- `MorphAnalyzeService` (web-service glue) and `SpeedValidation` (a wall-clock benchmark)
  are not part of this model.
- Concurrency: the analyzer is single-threaded, and the model has no concurrent calls.

## Findings

| source | as written | input that shows it | evidently intended | confidence | as-written member | corrected member |
|---|---|---|---|---|---|---|
| src/kr/co/shineware/nlp/komoran/core/Komoran.java:449-454 | `tmp[0].charAt(0)` is read even when the first tab field is empty. The `StringIndexOutOfBoundsException` is caught outside the read loop, so the rest of the forward dictionary is never loaded. | the lines `"\tX"` then `"a\tb"`: the second line is never parsed | skip a line whose first field is empty, like any other malformed line, and keep loading | not executed | `DictionaryFiles.EmptyKeyStopsLoading` | `DictionaryFiles.FwdParsedIsFilter` |
