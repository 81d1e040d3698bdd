# Zeek's data structures and codecs, modelled and verified

This project models eight components of Zeek in Dafny and proves what they are relied on for.
To verify: `dafny verify dfyconfig.toml`.

* **The clustered hash dictionary** (`DictTable`, `DictState`, `DictRun`, `DictHistory`, `Dict`, `DictLoss`). An
  open-addressing table that keeps entries sorted by bucket, with displacement chains on insertion, pull-back chains on
  removal, doubling, and an incremental remap that leaves entries of several table sizes mixed. The table
  operations are functions on sequences of slots; the class `Dictionary` carries them out in place on an
  array and is proved to do exactly one step of the functional model. Every run of operations refines a
  finite map, together with the order of first insertion. The claim is false of the code in one case: a
  lookup that eagerly moves an old entry can push another entry to where no lookup finds it. That case is
  shown reachable (`DictLoss.LookupLosesKey`), and the exact condition for it is proved in both directions
  (`DictState.LosesExact`); it cannot happen with at most one unfinished doubling or while an iteration is
  under way (`DictState.SafeLookup`), so a run that keeps to this refines the map from construction on
  (`DictRun.NewRefines`). `DictHistory` says what such a map answers, and in what order it lists its keys, from the
  operations of the run alone.
* **Equivalence classes and the lazy automaton** (`EquivClass`, `Nfa`, `DfaSpec`, `Dfa`, `DfaMachine`, `ReMatcher`).
  Partition refinement on doubly linked lists inside arrays, conversion of character classes, epsilon
  closures, classes of classes per state, memoised transitions and a state cache. Whatever was asked before,
  a transition reaches the set of states that direct simulation reaches, and the three matchers return what
  the paths of the automaton say.
* **Address anonymisers** (`AnonBits`, `AnonTree`, `AnonRun`, `Anon`, `AnonPrefix`). The prefix-preserving tree with
  random tails and the keyed bit-by-bit scheme. Random numbers and the keyed hash are parameters. Every bit of every
  answer is accounted for: in a run of the tree from the run alone (`AnonRun.RunAnswers`), in the scheme from the
  input and the hash (`AnonPrefix.ImageScrambled`).
* **Composite hash keys** (`HashBytes`, `CompVals`, `CompRound`, `CompOrder`, `CompKeys`, `CompGap`, `CompCanon`,
  `CompWhole`, `CompLoose`, `CompAgain`, `CompPass`, `CompFound`, `CompMade`, `CompCases`, `CompSteps`, `HashKey`,
  `CompReserve`, `CompRecover`, `CompHash`). The three recursive functions that reserve, write and recover a key are
  proved to agree. Keys are compared over all the bytes reserved (src/Hash.cc:518-529). For the flag of a vector's
  element more bytes are reserved than written, and unless a later aligned write takes up the difference the key ends in
  bytes nobody wrote; `CompGap.SlackIsGap` gives their number as a structural function of type and value. Such
  bytes matter in four ways. They are compared with the key. They decide the order of a table's entries, which
  is that of the stored keys (`CompLoose.SetWrittenTwoWays`). The yield of an entry is looked up by a new key, which
  may not be found (`CompCases.YieldNotFound`). And a table inside an index is made anew by each pass over a key, so
  that one pass can reserve for one order and another write in a different one, past what was reserved
  (`CompCases.KeyOverruns`). A pass over a key is modelled by the unwritten bytes it meets in stored keys and in
  those it makes (`CompPass.Form`). What it writes is an equal value (`CompPass.FormIsAlike`), and equal whole keys
  always come from equal values (`CompWhole.KeysTell`). `CompMade.KeysDetermined` is exact: in all runs, whatever the
  hash function and the bytes left over, keys can be made of equal values and are the same, if and only if no
  unwritten bytes are in the key, nor in the indices of a table inside that has two or more entries, or any
  entries and a yield. Index types without vectors always meet this (`CompMade.PlainDetermined`). Where
  unwritten bytes decide no order of a table inside an index, what is written always fits (`CompMade.SettledFits`),
  and the key can be made in all runs exactly when no stored key of a table with a yield has unwritten bytes, whatever
  the key itself has (`CompMade.MadeExactly`): so a set of vectors with holes can always be made and recovered, and
  the same with yields cannot (`CompCases.PairsMade`). For all other values the half about yields is exact
  (`CompMade.YieldsFound`).
* **IP fragment reassembly** (`FragBlocks`, `Frag`, `FragReassembler`, `FragChain`), for section 3.2 of RFC 791 and
  section 4.5 of RFC 8200: the block list, when a packet is complete, and the packet rebuilt, with its length and, in
  version 6, the type of what follows the headers.
* **Streaming Base64** (`Base64Codec`, `Base64Text`, `Base64`), for section 4 of RFC 4648. `Base64Text` says group by
  group what a text means and what in it is an error.
* **Expansion of constructor lists** (`ExpandSpec`, `ExpandMeaning`, `Expand`). The rows of well-placed elements are
  exactly the Cartesian products of the alternatives at each position, and an alternative is what a way down through
  lists and sets leads to. Two findings, both about an element with a yield in
  a constructor given a type that is not a table. It is dropped when some other element is expanded
  (`Expand.MisplacedIsLost`), and `Expand.LosesRows` says exactly when the result stands for other rows than the
  list. If nothing else is expanded the list is returned as it is, and that element with it, lists in its index
  and all (`Expand.MisplacedIsKept`); `Expand.ResultIs` says exactly when something is left to expand.
* **Scheduling of asynchronous DNS lookups** (`DnsRun`, `DnsTold`, `Dns`). What the resolver library and the cache
  answer are inputs of the steps. In every run of these steps the counts balance, every callback is called at most
  once and told what its reply says, and requests are made first come, first served;
  they are the source's steps as long as the queue lists no request that is gone. Lookups for
  AAAA records and for PTR records by name are answered under another key than their own: such a request is
  never removed (`DnsRun.IrregularStays`), and its reply can remove another request that is still queued
  (`DnsRun.QueuedButGone`). `DnsRun.RunStaysLive` says exactly in which runs the queue never lists a request that is
  gone, and `DnsRun.RegularFromStart` that runs of the other lookups are such.

`Options`, `Seqs` and `Octet` hold what several components share. References between objects are modelled by
positions: automaton states by their number, deterministic states by the order in
which they are made. The byte order of words in a hash key is least byte first.
Hash functions, random numbers and addresses of functions are arbitrary inputs. The digest that keys the
automaton's state cache is taken to be collision-free, so the cache is keyed by the tag itself.

Where code and comments disagree, the code is followed: the comment at src/Dict.h:531 presents the move made by
a lookup as a harmless speed-up, while the code can lose another key by it (above).

## Model

| member | source | states |
|---|---|---|
| `DictTable.HomeDoubles` | src/Dict.h:1027-1053 | when the table doubles, the bucket of a hash stays or moves up by the old size |
| `DictTable.RunBelow` | src/Dict.h:805-840 | in a clustered table every slot from an entry's bucket to its position is occupied, by entries of no later bucket |
| `DictTable.ProbeFinds` | src/Dict.h:1190-1211 | the search bounded to one bucket finds an entry of that bucket |
| `DictTable.SearchExact` | src/Dict.h:1142-1188 | the search over current and earlier sizes finds an entry exactly when it is in its current bucket or not above remap_end |
| `DictTable.SearchIsScan` | src/Dict.h:1132-1211 | under the invariant the bucket search returns what the linear scan returns, for every key |
| `DictTable.InsertedKeeps` | src/Dict.h:1240-1270 | a displacement chain keeps the table clustered and without duplicates and adds exactly the new item |
| `DictTable.InsertedFresh` | src/Dict.h:1240-1270 | entries above remap_end stay in their current buckets if and only if the chain does not carry an old entry across |
| `DictTable.RemovedKeeps` | src/Dict.h:1307-1328 | a pull-back chain keeps the table clustered and without duplicates and removes exactly one item |
| `DictTable.RemovedFresh` | src/Dict.h:1307-1328 | a pull-back chain leaves every entry above remap_end in its current bucket |
| `DictState.FindIsContents` | src/Dict.h:1142-1188 | a lookup finds a key exactly when it is in the table's contents, with its value |
| `DictState.SizedUpKeeps` | src/Dict.h:1414-1445 | doubling keeps the invariant and the contents |
| `DictState.PutKeeps` | src/Dict.h:1240-1270 | insertion with a possible doubling in mid-chain puts the entry where it was to go and keeps every other item |
| `DictState.AddedKeeps` | src/Dict.h:1214-1237 | after an insertion and the adjustment of remap_end the invariant holds and the contents gain exactly one mapping |
| `DictState.WithoutKeeps` | src/Dict.h:1307-1328 | after a removal the invariant holds and the contents lose exactly one key |
| `DictState.MovedKeeps` | src/Dict.h:1385-1412 | moving an old entry to its current bucket keeps the contents, and keeps the invariant if and only if it strands no other entry |
| `DictState.SweepNeverStrands` | src/Dict.h:1359-1412 | the bottom-up sweep, which moves the entry at remap_end, never strands an entry |
| `DictState.OneSizeUpNeverStrands` | src/Dict.h:1385-1412 | with at most one unfinished doubling no move strands an entry |
| `DictState.StrandingLosesKey` | src/Dict.h:1142-1188 | the invariant holds if and only if every key in the table can be found |
| `DictState.LookedKeeps` | src/Dict.h:1142-1188 | a lookup returns the position of the key with its value or reports its absence, keeps the contents, and keeps the invariant unless it loses a key |
| `DictState.LosesExact` | src/Dict.h:1155-1188 | a lookup loses a key exactly when some key still in the table is no longer found after it |
| `DictState.SafeLookup` | src/Dict.h:1155-1188 | with at most one unfinished doubling, or an iteration under way, a lookup loses nothing |
| `DictState.OverwrittenKeeps` | src/Dict.h:589-604 | overwriting keeps the invariant and changes the value of that key only |
| `DictRun.Swept` | src/Dict.h:1359-1380 | the sweep terminates, by the entries left to move and then remap_end, and never shrinks the table |
| `DictRun.LoweredKeeps` | src/Dict.h:1359-1380 | lowering remap_end past an entry in its current bucket, and forgetting the old sizes when it falls below 0, loses no key |
| `DictRun.SweptKeeps` | src/Dict.h:1359-1380 | the whole sweep keeps the invariant and the contents |
| `DictRun.InsertKeeps` | src/Dict.h:558-651 | insertion keeps the invariant, maps the key to the value, and appends the key to the order only if it is new |
| `DictRun.RemoveKeeps` | src/Dict.h:666-704 | removal keeps the invariant, removes the key from map and order, and keeps the rest of the order |
| `DictRun.StepRefines` | src/Dict.h:534-749 | each operation that loses no key does to map and order, and returns, what a finite map does; the entry count is the map's size |
| `DictRun.RunRefines` | src/Dict.h:534-749 | every run of such operations, with doublings and partial remaps anywhere in it, returns what the finite map returns throughout |
| `DictRun.NewIsGood` | src/Dict.h:513-523 | a new dictionary, whatever its initial size, is the empty map |
| `DictRun.SafeWhen` | src/Dict.h:1155-1188 | with at most one unfinished doubling, or an iteration under way, every operation loses nothing |
| `DictRun.QuietIsSafe` | src/Dict.h:1155-1188 | neither does any run whose operations all start so |
| `DictRun.NewRefines` | src/Dict.h:513-749 | from construction on, every such run returns what the finite map returns, and ends with its contents, its order and its size |
| `DictHistory.AnswerIs` | src/Dict.h:534-640 | told from the run: an insertion, removal or lookup answers with the value inserted last under the key and not removed since, or nothing |
| `DictHistory.OrderIsByAge` | src/Dict.h:534-749 | told from the run: an ordered dictionary lists its keys, each once, by the operation that brought them in; an overwritten key keeps its place |
| `DictRun.ReachableIsGood` | src/Dict.h:513-749 | every dictionary reached by operations that lose nothing satisfies the invariant |
| `DictRun.OrderLength` | src/Dict.h:739-749 | in an ordered dictionary the order lists each live key once |
| `DictLoss.LookupLosesKey` | src/Dict.h:1155-1188 | a reachable dictionary with two unfinished doublings in which one lookup makes a present key unfindable |
| `Dictionaries.Dictionary.constructor` | src/Dict.h:513-523 | the new object is the model's new dictionary |
| `Dictionaries.Dictionary.Init` | src/Dict.h:1124-1130 | allocates an empty table of the model's capacity |
| `Dictionaries.Dictionary.SizeUp` | src/Dict.h:1414-1445 | the array is replaced by the doubled table, and remaps, remap_end and the distance samples are updated |
| `Dictionaries.Dictionary.TailOfClusterByPosition` | src/Dict.h:1087-1096 | finds the last position of the entry's bucket |
| `Dictionaries.Dictionary.EndOfClusterByBucket` | src/Dict.h:1063-1071 | finds where a bucket's entries end |
| `Dictionaries.Dictionary.InsertAndRelocate` | src/Dict.h:1240-1270 | the loop carries the entry and its displaced successors to where the chain ends, doubling the table if it must |
| `Dictionaries.Dictionary.InsertRelocateAndAdjust` | src/Dict.h:1214-1237 | insertion and the adjustment of remap_end and of the distance samples |
| `Dictionaries.Dictionary.RemoveAndRelocate` | src/Dict.h:1307-1328 | the loop pulls the chain back in place and returns the removed entry |
| `Dictionaries.Dictionary.RemapAt` | src/Dict.h:1385-1412 | moves an entry to its current bucket if it is not there, and reports where it went |
| `Dictionaries.Dictionary.Remap` | src/Dict.h:1359-1380 | the sweep of up to sixteen entries, nothing at all while an iteration is under way |
| `Dictionaries.Dictionary.LookupIndexFrom` | src/Dict.h:1190-1211 | the search of one bucket range, with the position where a new entry would go |
| `Dictionaries.Dictionary.LookupIndex` | src/Dict.h:1142-1188 | the search of all sizes and the eager move of an old entry |
| `Dictionaries.Dictionary.Lookup` | src/Dict.h:534-539 | the model's lookup, state and result |
| `Dictionaries.Dictionary.Insert` | src/Dict.h:558-651 | the model's insertion, state and previous value |
| `Dictionaries.Dictionary.Remove` | src/Dict.h:666-704 | the model's removal, state and removed value |
| `Dictionaries.Dictionary.NthEntry` | src/Dict.h:739-749 | the entry at a place of the insertion order |
| `EquivClasses.SplitLabels` | src/EquivClass.cc:78-147 | splitting every block by a set gives the partition by one more used set |
| `EquivClasses.WalkStarts` | src/EquivClass.cc:92-97 | a walk along the block of the smallest member of the class begins in order |
| `EquivClasses.WalkIn` | src/EquivClass.cc:104-118 | a member of the class is hooked to the new block |
| `EquivClasses.WalkOut` | src/EquivClass.cc:126-132 | any other symbol goes back to the old block |
| `EquivClasses.WalkEnds` | src/EquivClass.cc:135-140 | closing the open ends leaves two correctly linked blocks |
| `EquivClasses.Coarsest` | src/EquivClass.cc:61-76 | any partition whose blocks respect every used set is at least as fine as this one |
| `EquivClasses.NumberedSame` | src/EquivClass.cc:61-76 | numbers and representatives are equal exactly for symbols no used set tells apart, and ascend together |
| `EquivClasses.HeadsOnto` | src/EquivClass.cc:61-76 | every number below the count belongs to a block |
| `EquivClasses.EquivClass.constructor` | src/EquivClass.cc:10-33 | all symbols form one correctly linked block and nothing is used |
| `EquivClasses.EquivClass.UniqueChar` | src/EquivClass.cc:149-161 | the partition is refined by the singleton of the symbol |
| `EquivClasses.EquivClass.Companion` | src/EquivClass.cc:98-119 | the scan stops at the place of a symbol in the sorted class |
| `EquivClasses.EquivClass.SplitBlock` | src/EquivClass.cc:92-140 | one block is split in two, and the later members of the class in it are flagged and no others |
| `EquivClasses.EquivClass.SplitBlocks` | src/EquivClass.cc:88-146 | every block is split by the class and all flags end clear |
| `EquivClasses.EquivClass.CCLUse` | src/EquivClass.cc:78-147 | the partition is refined by the sorted class, with all flags clear afterwards |
| `EquivClasses.EquivClass.BuildECs` | src/EquivClass.cc:61-76 | representatives are block minima, numbers ascend with them, and two symbols get one number exactly when no used set tells them apart |
| `EquivClasses.EquivClass.ConvertCCL` | src/EquivClass.cc:43-59 | the ascending list of the numbers of the blocks whose representative is in the class; for a used class, a symbol is in it exactly when its number is in the list |
| `Nfa.EpsilonClosure` | src/NFA.cc:82-122 | the walk lists, once each, exactly the significant states reached through epsilons |
| `Nfa.SimulateIsPaths` | src/DFA.cc:105-157 | simulating sets of states finds exactly the states that some path spelling the input ends in |
| `Nfa.DigitsInjective` | src/DFA.cc:276-280 | different IDs have different reversed decimals |
| `Nfa.JoinedInjective` | src/DFA.cc:273-283 | the marked list of decimals determines the list of IDs |
| `Nfa.TagExact` | src/DFA.cc:266-303 | two lists share a tag exactly when they agree on their significant states |
| `Nfa.SharedTag` | src/DFA.cc:266-308 | lists with the same tag have the same accepting numbers and the same follow set on every symbol |
| `DfaSpec.TakesClassIs` | src/DFA.cc:105-153 | a converted transition takes the class of a symbol exactly when the original takes the symbol |
| `DfaSpec.FollowClassIs` | src/DFA.cc:105-157 | following a symbol's class is following the symbol |
| `DfaSpec.AlikeFollow` | src/DFA.cc:36-66 | classes no state of the list tells apart lead to the same states |
| `DfaSpec.HitIsEqual` | src/DFA.cc:266-303 | a cache hit is a state made of exactly the same automaton states |
| `DfaSpec.XtionKeeps` | src/DFA.cc:34-34 | recording a transition keeps every state and every recorded transition right |
| `DfaSpec.StateKeeps` | src/DFA.cc:370-387 | adding a state keeps every state and every recorded transition right |
| `DfaSpec.TerminalJams` | src/DFA.h:37-41 | a state flagged terminal has no transition on any byte |
| `Dfa.Compile` | src/RE.cc:125-126 | telling the classes about every transition, numbering them and converting makes classes stand exactly for the symbols they held |
| `Dfa.Holds` | src/DFA.cc:117-143 | both searches of a sorted class decide membership |
| `Dfa.SymFollowSet` | src/DFA.cc:105-157 | collects exactly the states that the list leads to on a class |
| `Dfa.SymPartition` | src/DFA.cc:36-66 | no state of the list tells a class from its representative, and the byte flag is set exactly when some transition is not on an anchor |
| `DfaMachines.LeadsToNext` | src/DFA.cc:68-95 | a transition on the class of a symbol is one step of the direct simulation |
| `DfaMachines.Machine.constructor` | src/DFA.cc:328-349 | the start state stands for the closure of the first state |
| `DfaMachines.Machine.EpsilonClosure` | src/NFA.cc:284-310 | the sorted list of exactly the significant states reached, one closure per state being computed once |
| `DfaMachines.Machine.StateSetToDFAState` | src/DFA.cc:363-388 | a state for exactly the list given, without changing what any state stands for |
| `DfaMachines.Machine.ComputeXtion` | src/DFA.cc:68-95 | the transition through the representative is right for the class itself and remembered for both |
| `DfaMachines.Machine.Xtion` | src/DFA.h:151-156 | memoised or not, the transition reaches the closure of the follow set, and jams exactly when that set is empty |
| `DfaMachines.Machine.Advance` | src/DFA.cc:68-95 | in any state of the memo and cache, a transition on a symbol gives the states and accepting numbers of direct simulation; terminal states jam on bytes |
| `ReMatchers.AcceptedIsPath` | src/RE.cc:226-252 | a number is accepted exactly when a path spelling the input ends in a state accepting it |
| `ReMatchers.MatchAll` | src/RE.cc:226-252 | returns exactly the numbers accepted after anchor, text and anchor, for any machine state |
| `ReMatchers.Match` | src/RE.cc:254-282 | returns the end of the shortest accepted prefix, else the text's length if the closing anchor accepts, else 0 |
| `ReMatchers.LongestMatch` | src/RE.cc:433-469 | returns the text's length if the closing anchor accepts, else the longest accepted prefix or -1 |
| `AnonBits.BiFfsLeads` | src/Anon.cc:28-54 | the position of the first set bit, counted from the top |
| `AnonBits.LcpIs` | src/Anon.cc:28-54 | two addresses agree on their first n bits exactly when n is at most their common-prefix length |
| `AnonTree.MakeOutputFlips` | src/Anon.cc:237-248 | the new output shares the bits before the swivel and differs at it, whatever the random tail |
| `AnonTree.MakeOutputTail` | src/Anon.cc:237-248 | behind the swivel the new output has a zero and then the random word from its second bit on |
| `AnonTree.PeerKeeps` | src/Anon.cc:250-291 | making a peer keeps the tree's order and adds exactly one pair |
| `AnonTree.InsertKeeps` | src/Anon.cc:293-340 | finding an address keeps the tree's order and every pair already given, and adds the pair found |
| `AnonTree.InvPreserves` | src/Anon.cc:237-340 | any two pairs of an ordered tree have outputs with the inputs' common-prefix length |
| `AnonTree.FoundBranches` | src/Anon.cc:250-340 | an address not in the tree, with s - 1 bits in common with the nearest inputs and no more: its output has the s - 1 bits of their outputs, the next flipped, then a zero, then bits 2 to 32 - s of that call's random word |
| `AnonRun.StepKeeps` | src/Anon.cc:58-68 | each anonymisation keeps the invariant and every output already given |
| `AnonRun.RunKeeps` | src/Anon.cc:58-68 | over any run outputs never change once given |
| `AnonRun.RunPreservesPrefixes` | src/Anon.cc:189-340 | in every run, for every random stream, outputs of ordinary addresses have the common-prefix length of the inputs |
| `AnonRun.StepAnswers` | src/Anon.cc:58-68 | every answer in any state: as before, the special output, the output the address has in the tree, the random word in an empty tree, or a branch off the nearest outputs |
| `AnonRun.RunAnswers` | src/Anon.cc:150-340 | every answer of every run from the start, told from the run: repeated addresses as before, the two special ones themselves, the first other one the random word, and any later one every bit of it from the nearest earlier ones and its random word |
| `AnonRun.MaskedSpecial` | src/Anon.cc:162-187 | the masked preset is the zero address exactly when the preset's leading bits are zero, and never the all-ones address |
| `AnonRun.PresetLeaf` | src/Anon.cc:162-187 | the preset's one input has the given bits and zeros, its output the given bits and those of the random word |
| `AnonRun.PresetHolds` | src/Anon.cc:162-187 | a single initial preset fixes, in every later run, the first min(k, common prefix) bits of every ordinary address |
| `AnonRun.PresetExactly` | src/Anon.cc:162-187 | it does so for all random numbers and addresses if and only if the masked preset is not the zero address |
| `Anonymizers.Node.MakePeer` | src/Anon.cc:250-291 | the node becomes an inner node over its copy and the new peer |
| `Anonymizers.Node.FindFrom` | src/Anon.cc:306-337 | the walk returns the node of the address, inserting it where the tree says |
| `Anonymizers.A50.constructor` | src/Anon.cc:150-160 | the tree is empty and the two special addresses map to themselves |
| `Anonymizers.A50.FindNode` | src/Anon.cc:293-340 | special addresses have their own nodes; any other is found or inserted |
| `Anonymizers.A50.PreservePrefix` | src/Anon.cc:162-187 | the first preset on an empty tree, refused once anonymisation has begun |
| `Anonymizers.A50.Anonymize` | src/Anon.cc:58-68 | memoised or not, the model's step, whose answer `StepAnswers` describes bit by bit |
| `AnonPrefix.Anonymize32` | src/Anon.cc:359-381 | bit j of the output is that of the input, flipped as the last bit of the hash of j and the one word that has the j - 1 bits before it, a one and zeros |
| `AnonPrefix.SchemeBits` | src/Anon.cc:359-381 | after n rounds bit j is the input's bit flipped by the hash of the bits before it, for j up to n |
| `AnonPrefix.ImageScrambled` | src/Anon.cc:359-381 | so is every bit of an image, for any keyed function |
| `AnonPrefix.PaddedOnce` | src/Anon.cc:366-368 | there is just one word that is hashed for a bit |
| `AnonPrefix.PreservesLcp` | src/Anon.cc:359-381 | for any keyed function the scheme keeps common-prefix lengths exactly and is injective |
| `AnonPrefix.Onto` | src/Anon.cc:359-381 | for any keyed function every address is the image of one: with injectivity, a permutation |
| `AnonPrefix.Memo.Anonymize` | src/Anon.cc:58-68 | the memo always agrees with the direct function, bit by bit as above |
| `HashBytes.StepFits` | src/Hash.cc:302-310 | for puts whose room covers their data, the running reservation is at every step at least the write offset |
| `HashKeys.HashKey.Reserve` | src/Hash.cc:302-310 | aligns the running size and adds to it |
| `HashKeys.HashKey.Allocate` | src/Hash.cc:312-323 | a fresh buffer of the reserved size, contents arbitrary |
| `HashKeys.HashKey.Set` | src/Hash.cc:260-300 | a key of exactly the value's bytes, without a buffer of its own |
| `HashKeys.HashKey.Copy` | src/Hash.cc:160-174 | a copy holds all the bytes, written or not, in a buffer of its own |
| `HashKeys.HashKey.AlignWrite` | src/Hash.cc:392-410 | pads with zeros up to the alignment |
| `HashKeys.HashKey.Write` | src/Hash.cc:372-383 | padding and data are appended to what was written |
| `HashKeys.HashKey.Read` | src/Hash.cc:445-500 | an aligned read within the key, an error past its end or if the key has no buffer of its own |
| `CompRound.RoundTrip` | src/CompHash.cc:126-620 | recovering a value from any key that begins with what was written for it gives the value and stops where the writing stopped, also with a larger function table |
| `CompRound.FieldsRound` | src/CompHash.cc:265-302 | the same for records with optional fields |
| `CompRound.ElemsRound` | src/CompHash.cc:332-354 | the same for vectors with holes |
| `CompRound.ListRound` | src/CompHash.cc:356-371 | the same for lists |
| `CompRound.EntriesRound` | src/CompHash.cc:304-330 | the same for tables and sets |
| `CompOrder.BeforeIs` | src/CompHash.cc:22-30 | stored keys are ordered by hash, then by length, then by the first byte in which they differ |
| `CompOrder.BeforeTotal` | src/CompHash.cc:20-30 | the key comparison is total and irreflexive for any hash function |
| `CompOrder.BeforeTransitive` | src/CompHash.cc:20-30 | and transitive |
| `CompOrder.SortedOrdered` | src/CompHash.cc:35-56 | entries with different keys come out strictly ordered |
| `CompOrder.OrderedUnique` | src/CompHash.cc:35-56 | ordered lists of the same entries are equal |
| `CompCanon.CanonAlike` | src/CompHash.cc:526-548 | values written in the same form are equal |
| `CompCanon.CanonIsAlike` | src/CompHash.cc:107-124 | the form recovered is equal to the original value |
| `CompKeys.OpsSound` | src/CompHash.cc:405-801 | every write of a value has room reserved for it, exactly as much where no vector occurs |
| `CompKeys.WritesFit` | src/CompHash.cc:405-801 | at every step of writing a list of values the running reservation is at least the write offset |
| `CompKeys.NoVectorsNoSlack` | src/CompHash.cc:645-801 | without vectors reserved and written sizes are equal |
| `CompGap.SlackIsGap` | src/CompHash.cc:405-801 | for every value, and whatever the function ids, the bytes reserved and never written are those of a structural function of type and value |
| `CompGap.VectorGap` | src/CompHash.cc:742-757 | for a vector of scalars these are three bytes exactly when it ends in a hole, none otherwise |
| `CompGap.GapOutlives` | src/CompHash.cc:645-801 | a hole inside leaves four bytes although the key ends in a whole address |
| `CompKeys.OpsRelated` | src/CompHash.cc:459-482 | reservations do not depend on function ids, and a larger function table gives the same writes |
| `CompKeys.KeyRecovers` | src/CompHash.cc:107-124 | recovering a key gives the values it was made from, after the function table has grown and whatever its unwritten bytes hold |
| `CompWhole.KeysTell` | src/CompHash.cc:63-105 | equal whole keys, unwritten bytes included, come from equal values |
| `CompWhole.AlikeCanon` | src/CompHash.cc:526-548 | equal values, whatever the order of their tables at any depth, have the same canonical form if no unwritten bytes decide an order in one of them, or it is the same run |
| `CompWhole.KeysEqual` | src/CompHash.cc:63-105 | then, and without unwritten bytes in the key, whole keys of canonical forms are equal exactly when the values are |
| `CompWhole.PlainKeysEqual` | src/CompHash.cc:63-105 | so for all index types without vectors, whatever the order in which tables were filled |
| `CompAgain.CanonAgain` | src/CompHash.cc:35-56 | writing a canonical form again, in the same run or with fixed tables in any like it, changes nothing |
| `CompAgain.KeyedAgain` | src/CompHash.cc:35-56 | neither does it make two indices of a table equal |
| `CompPass.HitsOwn` | src/Val.cc:2114-2162 | the lookup of a yield by a new key finds that of its own entry or none |
| `CompPass.FormIsCanon` | src/CompHash.cc:526-548 | a pass writes the canonical form if unwritten bytes decide no order, or are the same throughout |
| `CompPass.FormsAgree` | src/CompHash.cc:526-548 | two passes over the same stored keys write the same, unless unwritten bytes decide the order of a table inside an index |
| `CompPass.FormIsAlike` | src/CompHash.cc:526-548 | what a pass writes is an equal value with the stored yields |
| `CompFound.Finds` | src/CompHash.cc:536-546 | every pass finds every yield if the indices of tables with yields have no unwritten bytes, nor tables inside whose order these decide |
| `CompFound.Misses` | src/CompHash.cc:536-546 | if some yield is stored under one key in a run and looked up by another in a run like it, at any depth of tables inside indices, a pass that meets the bytes of both does not find it |
| `CompMade.YieldsFound` | src/CompHash.cc:536-546 | for every value: all passes of all runs find every yield if and only if in all runs each index of a table with a yield has no unwritten bytes, nor a table inside whose order these decide |
| `CompMade.MadeExactly` | src/CompHash.cc:63-105 | where unwritten bytes decide no order of a table inside an index, any two passes over the same stored keys make the key, in all runs, if and only if no index of a table with a yield has unwritten bytes |
| `CompMade.SettledFits` | src/CompHash.cc:405-801 | what one pass writes fits what the other reserved, unless unwritten bytes decide the order of a table inside an index |
| `CompMade.FirmMakes` | src/CompHash.cc:63-105 | without unwritten bytes that matter any two passes make the key, in canonical form |
| `CompMade.KeysDetermined` | src/CompHash.cc:20-105 | in all runs keys can be made of equal values and whole keys are equal, if and only if the key, and the indices of every inner table of two or more entries or of any and a yield, have no unwritten bytes |
| `CompMade.PlainDetermined` | src/CompHash.cc:20-105 | so always for index types without vectors |
| `CompMade.LoosePasses` | src/CompHash.cc:20-105 | otherwise some pass cannot make the key, or two make different ones |
| `CompCases.YieldNotFound` | src/CompHash.cc:541-546 | a table of one entry whose yield is not found, though its key has no unwritten bytes |
| `CompCases.PairsMade` | src/CompHash.cc:521-548 | the key of the set { [hole], [hole, hole] } is made by all passes; that of the table with the same indices and yields is missed by some |
| `CompCases.KeyOverruns` | src/CompHash.cc:726-735 | a set of sets for which one pass reserves sixty bytes and the other writes sixty-four |
| `CompLoose.LooseKey` | src/CompHash.cc:20-105 | otherwise two runs that differ only in unwritten bytes give one value two keys |
| `CompLoose.TableDiffers` | src/CompHash.cc:35-56 | a table with unwritten bytes in an index, and with two entries, is written in two ways by two such runs |
| `CompLoose.SetWrittenTwoWays` | src/CompHash.cc:35-56 | a set of two vectors of counts that is written in two ways |
| `CompReserve.OrderedHashkeys` | src/CompHash.cc:35-56 | the positions of the entries in the order of their stored keys |
| `CompReserve.ReserveSingleTypeKeySize` | src/CompHash.cc:645-801 | reserves for what the pass writes, and fails exactly for a yield not found or a missing value of a type without fixed size |
| `CompReserve.ReserveVal` | src/CompHash.cc:661-798 | reserves for what the pass writes, and fails exactly if a yield is not found |
| `CompReserve.ReserveEntry` | src/CompHash.cc:726-735 | the index made anew from the stored key, and the yield found by a new key |
| `CompRecover.RecoverOneVal` | src/CompHash.cc:126-138 | reads the flag of an optional value and then the value |
| `CompRecover.RecoverVal` | src/CompHash.cc:140-402 | the reads return what the specification of recovery returns, errors included |
| `CompHash.CompositeHash.FuncId` | src/CompHash.cc:459-482 | a function keeps its id for ever, and a new one gets the next |
| `CompHash.CompositeHash.SingleValHash` | src/CompHash.cc:405-421 | appends the flag and value the pass writes, failing exactly for a yield not found or a missing value that may not be missing |
| `CompHash.CompositeHash.WriteVal` | src/CompHash.cc:428-619 | appends exactly the script of what the pass writes, and fails exactly if a yield is not found |
| `CompHash.CompositeHash.WriteEntry` | src/CompHash.cc:533-547 | the index made anew from the stored key, and the yield found by a new key |
| `CompHash.CompositeHash.MakeHashKey` | src/CompHash.cc:63-105 | no key for a bare value where there is not one index type, or for a list of not one value where there is; otherwise, for a bare value as for the list of it, failure exactly if a yield is not found or the writes do not fit, and else the bytes the second pass writes in the room the first reserved |
| `CompHash.CompositeHash.RecoverVals` | src/CompHash.cc:107-124 | reads back the values of a key |
| `CompHash.CompositeHash.RecreateIndex` | src/CompHash.cc:63-124 | exactly if the key can be made: making it, copying it, making other keys, and recovering the copy gives what was written, an equal index; always so where unwritten bytes decide no order of a table inside an index and no index of a table with a yield has any |
| `FragBlocks.InsertedKeeps` | src/Reassem.cc:95-177 | inserting data keeps the blocks sorted, non-empty and disjoint, keeps bytes already held and adds the new ones |
| `Frag.DecideExact` | src/Frag.cc:168-215 | a packet is built if and only if the size is known and every byte below it is held; the size taken is the end of the contiguous blocks |
| `Frag.ArriveKeeps` | src/Frag.cc:66-140 | for arbitrary fragments the size never shrinks once known, and a packet built is exactly the bytes held |
| `Frag.SizeNeverShrinks` | src/Frag.cc:97-130 | over every run the size never decreases once known |
| `Frag.SizeKnown` | src/Frag.cc:97-130 | over every run the size is known exactly once a last fragment with an end above zero has been taken in |
| `Frag.SizeCovers` | src/Frag.cc:97-130 | from then on it is at least where any fragment taken in ends |
| `Frag.SizeReached` | src/Frag.cc:97-130 | and as long as nothing was emitted it is where one of these ends |
| `Frag.FirstWins` | src/Reassem.cc:95-177 | over every run a position holds the byte of the first fragment taken in that has one for it |
| `Frag.NextProtoIs` | src/Frag.cc:99-101 | over every run the protocol kept is that of the last fragment taken in with offset zero, or the one given at first |
| `Frag.EmitsWhenCovered` | src/Frag.cc:88-256 | with consistent pieces in any order, a packet appears exactly when the payload is covered, and is the payload |
| `Frag.SplitReassembles` | src/Frag.cc:88-256 | any split into disjoint pieces, each delivered once in any order, yields nothing before the last and then exactly the payload |
| `FragReassemblers.ChainedIs` | src/IP.cc:475-522 | the walk along the headers changes only bytes that named a fragment header, to the type given |
| `FragReassemblers.ChainedOnce` | src/IP.cc:475-522 | for an unfragmentable part and what follows it: exactly the field that named the fragment header changes, and what follows stays, or is walked along by itself if it begins with another extension header |
| `FragReassemblers.HeadedIs` | src/Frag.cc:256-266 | in version 4 the rebuilt packet is the first header, changed in its length field only, and the payload |
| `FragReassemblers.HeadedSix` | src/Frag.cc:268-274 | in version 6 the same, but for the field that named the fragment header, and the walk along extension headers the payload begins with |
| `FragReassemblers.RebuiltSix` | src/Frag.cc:88-274 | pieces of one payload that cover it are rebuilt into the header with length and protocol, that of the last piece from the start, where the fragment header was named, and the payload |
| `FragChain.FieldFound` | src/IP.cc:475-522 | for every base header and extension headers that others can follow, with the lengths their formats say: the field is found that names the fragment header behind them |
| `FragReassemblers.FragReassembler.AddFragment` | src/Frag.cc:66-140 | one arrival of the model, with the rebuilt packet behind the header; `RebuiltSix` and `HeadedIs` say what that is |
| `FragReassemblers.FragReassembler.NewBlock` | src/Reassem.cc:293-327 | inserts non-empty data and then decides |
| `FragReassemblers.FragReassembler.Insert` | src/Reassem.cc:107-177 | the recursive insertion around existing blocks |
| `FragReassemblers.FragReassembler.InitChain` | src/IP.cc:475-522 | the loop along the headers does that walk |
| `FragReassemblers.FragReassembler.BlockInserted` | src/Frag.cc:168-281 | the packet is built exactly when the model says, from blocks that tile it, with length and following type in the headers; none for another IP version |
| `FragReassemblers.FragReassembler.BuildPacket` | src/Frag.cc:217-256 | every copy is in bounds and the bad-reassembly branch cannot be taken |
| `Base64Codec.TableInverts` | src/Base64.cc:71-86 | the decoding table inverts any alphabet of 64 distinct characters |
| `Base64Codec.DecodedConcat` | src/Base64.cc:113-192 | decoding a concatenation is decoding one part after the other |
| `Base64Codec.CallIsPartOf` | src/Base64.cc:113-192 | a call with a short buffer is the beginning of the whole decoding and stops only for lack of room |
| `Base64Codec.ChunksAgree` | src/Base64.cc:113-192 | any input, valid or not, over any sequence of calls and buffer sizes gives the output and state of one call |
| `Base64Codec.RoomSuffices` | src/Base64.cc:124-133 | the computed buffer size takes the whole input |
| `Base64Codec.TerminatorFits` | src/Base64.cc:226-246 | the size computed for a whole string leaves room after finishing |
| `Base64Codec.RoundTrip` | src/Base64.cc:17-52 | decoding an encoding gives the data back without a new error |
| `Base64Codec.UnpaddedRoundTrip` | src/Base64.cc:194-209 | so does decoding the encoding without its padding and finishing |
| `Base64Text.EncodedGroup` | src/Base64.cc:35-51 | each four characters of an encoding carry the 24 bits of three bytes, missing ones zero; characters without a bit of a byte that is there are '=' |
| `Base64Text.ErrorsAre` | src/Base64.cc:137-187 | from any state the error count grows by the illegal characters and the groups after a padded one |
| `Base64Text.CallErrors` | src/Base64.cc:113-192 | so it does in a call with limited room, for the characters taken |
| `Base64Text.DropsWhen` | src/Base64.cc:138-144 | a group is dropped exactly if one follows a padded one |
| `Base64Text.DecodedSpells` | src/Base64.cc:135-192 | legal text of whole groups decodes to the bits of its characters, group by group up to the first with padding, which gives a byte less for each '=' |
| `Base64.DefaultAlphabet` | src/Base64.cc:14-15 | the default alphabet is Table 1 of RFC 4648, 64 distinct characters |
| `Base64.InitTable` | src/Base64.cc:54-89 | fills a table that inverts the alphabet |
| `Base64.Encode` | src/Base64.cc:17-52 | the encoding in a new buffer of its size, or as much of it as the caller's buffer takes, the rest of which stays |
| `Base64.Converter.constructor` | src/Base64.cc:91-106 | a fresh decoder with the default alphabet if none is given |
| `Base64.Converter.Decode` | src/Base64.cc:113-192 | one call of the model: state, characters taken and bytes written; the error count grows by the illegal characters taken and the groups dropped after a padded one |
| `Base64.Converter.DecodeAll` | src/Base64.cc:113-134 | without a buffer from the caller, all input is decoded and a byte is left, with the error count as above |
| `Base64.Converter.Done` | src/Base64.cc:194-209 | completes an unfinished group with padding and reports it |
| `Base64.EncodeBase64` | src/Base64.cc:249-261 | the encoding, and nothing for an alphabet of the wrong length |
| `Base64.WholeDecodeIs` | src/Base64.cc:220-247 | a whole string decodes to nothing exactly if a character is illegal or a group follows a padded one, and otherwise to what it spells when filled up with '=' |
| `Base64.DecodeBase64` | src/Base64.cc:220-247 | nothing exactly for an alphabet of the wrong length, an illegal character, or a group after a padded one; otherwise what the string spells, and so the data of any padded or stripped encoding |
| `ExpandSpec.ProductMembers` | src/Expr.cc:3082-3191 | the rows of an index are exactly the choices of one alternative at each position |
| `ExpandMeaning.AltsMean` | src/Expr.cc:3124-3191 | the alternatives of a position are what ways down through lists and unwanted sets lead to; none are known exactly if a way leads to an unwanted set that cannot be evaluated |
| `ExpandMeaning.RowsMean` | src/Expr.cc:3097-3191 | the rows of an element take something each position leads to, and keep the yield; they fail exactly at a stuck position behind positions that lead somewhere |
| `ExpandMeaning.StaysWhole` | src/Expr.cc:3137-3157 | an element without lists, and with sets only where they are wanted, is its only row |
| `ExpandMeaning.RowAt` | src/Expr.cc:3166-3191 | rows are listed by the first position, then the second, and so on |
| `ExpandMeaning.AltsInOrder` | src/Expr.cc:3185-3191 | the alternatives of a list or set are those of its parts, in their order |
| `Expand.ExpandKeeps` | src/Expr.cc:3120-3191 | expanding the first expandable position does not change the rows, and an unevaluable set there means there are none |
| `Expand.ExpandOneElem` | src/Expr.cc:3082-3095 | one position replaced, the yield carried along |
| `Expand.FindOffset` | src/Expr.cc:3124-3153 | the first list, or set that is not what is expected there |
| `Expand.ExpandOpElem` | src/Expr.cc:3097-3191 | an element is dropped, kept, in error, or replaced by elements with the same rows and strictly fewer expandable nodes |
| `Expand.ExpandOp` | src/Expr.cc:3193-3211 | terminates; fails exactly when a well-placed element does; otherwise returns the rows of the well-placed elements if one of them has a position to open, and the list itself if none does; elements with sets of the table's own index types come out unchanged |
| `Expand.RowsAre` | src/Expr.cc:3097-3191 | the rows of a list have nothing left to expand, and are those of its well-placed elements |
| `Expand.ResultIs` | src/Expr.cc:3193-3211 | what the result consists of; it has nothing left to expand exactly when something was expanded or no misplaced element has anything to expand |
| `Expand.LosesRows` | src/Expr.cc:3102-3211 | the result stands for the rows of the list, misplaced elements counted, exactly when nothing is expanded or no misplaced element stands for any row |
| `Expand.MisplacedIsLost` | src/Expr.cc:3102-3107 | a list in which a misplaced element is lost |
| `Expand.MisplacedIsKept` | src/Expr.cc:3207-3210 | a list returned with a list left in an index |
| `DnsRun.CheckedAccount` | src/DNS_Mgr.cc:1311-1342 | a reply calls everyone waiting under the key, once, and nobody else |
| `DnsRun.IssuedKeeps` | src/DNS_Mgr.cc:1139-1162 | issuing keeps the balance and the account, and stops only when the queue is empty or all slots are taken |
| `DnsRun.StepKeeps` | src/DNS_Mgr.cc:697-808 | every lookup, reply and round of processing keeps the counts balanced and bounded, and the account of callbacks |
| `DnsRun.EveryRun` | src/DNS_Mgr.cc:697-808 | in every run requests issued and in flight are bounded, issued and queued make up all requests, and each callback is called at most once, for its own key |
| `DnsTold.ReplyTells` | src/DNS_Mgr.cc:1164-1234 | a reply with something to tell is told to everyone waiting, in the order in which they asked: a timeout exactly if it timed out, and otherwise its answer |
| `DnsTold.EveryFiring` | src/DNS_Mgr.cc:1164-1234 | every callback called in a run was told in one event of it, of the reply in that event or of the answer known at its lookup |
| `DnsTold.FirstComeFirstServed` | src/DNS_Mgr.cc:1139-1162 | in every run the requests made and those queued are the requests begun, in order |
| `DnsRun.RegularFromStart` | src/DNS_Mgr.cc:697-808 | in runs of lookups answered under their own key the queue lists each request once, and none that is gone or in flight |
| `DnsRun.QueueStaysLive` | src/DNS_Mgr.cc:1164-1234 | a reply leaves no request that is gone in the queue exactly when the key it looks under is not queued, or it has nothing to tell |
| `DnsRun.RunStaysLive` | src/DNS_Mgr.cc:1139-1234 | throughout a run the queue lists no request that is gone, exactly when no reply with something to tell, at once or later, looks under a key still queued |
| `DnsRun.QueuedButGone` | src/DNS_Mgr.cc:1139-1184 | with all slots taken, the reply to an AAAA lookup removes the queued request for the same name's A records |
| `DnsRun.IrregularStays` | src/DNS_Mgr.cc:1149-1155 | a lookup whose reply comes under another key is never answered |
| `DnsRun.ReplyFindsItsRequest` | src/DNS_Mgr.cc:1149-1155 | a reply looks under the request's own key exactly for the lookups the run properties cover |
| `Dns.DnsMgr.CallAll` | src/DNS_Mgr.cc:1311-1342 | the callbacks of a request are called in order, each once |
| `Dns.DnsMgr.CheckAsyncRequest` | src/DNS_Mgr.cc:1164-1234 | on a time-out or a cached answer the waiting callbacks are called and the request is forgotten, otherwise nothing changes |
| `Dns.DnsMgr.IssueAsyncRequests` | src/DNS_Mgr.cc:1139-1162 | requests leave the queue while slots are free, with replies that arrive while they are made |
| `Dns.DnsMgr.Lookup` | src/DNS_Mgr.cc:697-808 | an answer at once, or a place in the one request of the key |
| `Dns.DnsMgr.ProcessAsyncResult` | src/DNS_Mgr.cc:159-169 | a reply to a request in flight |
| `Dns.DnsMgr.ProcessFd` | src/DNS_Mgr.cc:1260-1268 | afterwards the queue is empty or all slots are taken |

## Left out

- Dictionary: robust iterators and their adjustment, reuse after Clear, key ownership and key-size errors, 16-bit distance overflow, statistics and 32-bit overflow of sizes.
- Dictionaries.Dictionary.NthEntry: requires that an ordered dictionary lists at least as many keys as it has entries, which the invariant gives.
- NFA construction, pattern parsing, deep copies of automata and the streaming matcher that keeps a state between calls.
- Dfa.Compile: the classes are told about the transitions in the order of the states, where the parser does it in the order of the text; the resulting partition is the same.
- DfaMachines.Machine: reference counting, statistics and dumping; the machine keeps the values of the equivalence classes, which never change after they are numbered.
- Anonymizers.A50.PreservePrefix: only the first preset, on an empty tree and with fewer than 32 bits; repeated presets and the undefined shift by 32 are not modelled.
- Anonymizers.Node.FindFrom: the walk down the tree calls itself where the source loops; the nodes visited and changed are the same.
- Anonymisers: sequential, random and MD5 variants, byte order, node pools, preserve tables and logging.
- Composite hash keys: opaque and pattern values, the layout of doubles (taken as eight bytes), type checking of ill-typed values, the masking of subnet prefixes, and the prefix tree in which tables indexed by subnets are looked up.
- CompPass.Form: what a table with a default writes, and inserts, in place of a yield it does not find; the model fails there. The keys stored in a table are taken to be those of one run, with the same bytes left over for the same index.
- CompReserve.ReserveEntry: fails where a table with a default would use that for a yield not found.
- CompHash.CompositeHash.WriteEntry: the same.
- CompMade.SettledFits: one way only; where unwritten bytes decide the order of a table inside an index, when the writes fit in all runs is open (`CompCases.KeyOverruns` shows that they may not).
- CompWhole.Keyed: a table that holds equal indices twice, under keys that differ in unwritten bytes, is not covered.
- CompHash.CompositeHash.ListKey: that the writes fit is decided before the first, where the source checks each.
- CompReserve.ReserveSingleTypeKeySize: the static size computed without a value, and the check of a value's type, are not modelled.
- CompHash.CompositeHash.MakeHashKey: the values in an argument of the right shape are well typed; the rejection of others is not modelled.
- Fragment reassembly: timers, expiry, weird and overlap reports, the fragment table, options in header chains and trimming of delivered blocks.
- Base64: error messages, is_valid_base64 and the shared default table.
- Base64.InitTable: takes any 64 bytes; for characters of 128 and more the source indexes its table with a negative number.
- Base64.DecodeBase64: takes the alphabet as given; the source passes it on as a C string, so that one holding a zero byte arrives shorter.
- Expand.ExpandOp: types are compared by number, evaluation of a set is given with the expression, and locations and error messages are not modelled.
- DnsRun.EveryRun: callbacks do not start lookups, and a queued request that is gone is still issued under its key, where the source would use a deleted object.
- DNS: synchronous lookups, the mapping cache, sockets and polling, telemetry, and liveness, since a reply without a cached result leaves its request in place.
- Events, event registry, integer sets, notifiers and attributes would only add easy members.
