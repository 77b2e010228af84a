# BIRD data structures, modelled and verified

BIRD is an Internet routing daemon. This project models the parts of its
library and filter layers in which an elaborate data structure must agree with
a simple specification, and proves that agreement with Dafny 4.11. Nothing of
BIRD itself is executed.

- **Prefix-set trie** (`Prefix`, `TrieTree`, `TriePattern`, `TrieExplicit`,
  `Trie`, `TrieLongest`, `TrieWalk`, `TrieOrder`, `TrieOverrun`). Linked 16-way nodes with
  `accept` and `local` masks are kept in step with a tree value; every case of
  the insertion keeps the upward propagation of accepted lengths. Matching is
  membership in the set of added patterns. For tries of explicit prefixes,
  longest match, the walk to the root and the resumable walk are proved
  against the set of prefixes. Addresses are bit sequences of 128 bits, of
  which IPv4 uses the first 32; masks are sets of positions.
- **AS paths** (`PathMatch`, `PathExpand`, `AsPath`). The matcher is an in-place
  simulation of a nondeterministic automaton with an early cut-off, and a path
  with sets matches iff one of the sequences of AS numbers it stands for does.
  The other operations work on the wire format, related to lists of segments by
  an encoding.
- **Flowspec** (`FlowOps`, `FlowExplicate`, `FlowFormat`, `FlowScan`,
  `FlowStates`, `FlowDecode`, `FlowBuild`, `FlowBuilder`, `FlowParts`). A grammar
  of components with its encoding and normal form is the reference for the
  decoder, the validator, the builder and the iterators. What operators, types
  and bits mean is stated with numbers, not with the masks of the code.
- **Bitmaps** (`Words`, `Lmap`, `Hmap`). A u32 buffer is represented by its
  bits, lowest first. Summary levels agree with a set of numbers.
- **Timers, slab allocator, interval trees, safe lists** (`Timers`, `Slab`,
  `IntervalTree`, `SafeList`). Invariants over every sequence of calls.
- **Fletcher-16 and IPv6 text** (`Fletcher`, `Ip6Text`, `Ip6Grammar`).

Library sorting is represented by a method whose contract promises a sorted
permutation and nothing about the order of equal keys. The page delivered by
the page allocator, the current time and random numbers are parameters or
arbitrary choices.

Where the code does not do what its documentation says, the model follows the
code:

- `trie_match_longest_ip4/6` treat a node of full length specially without
  comparing it with the length of the query (filter/trie.c:652-659). A query
  one bit shorter than an address can then be answered with its own address at
  full length, whether or not that is stored.
  `TrieLongest.MatchLongest` and `TrieLongest.WalkToRoot` are right if and only
  if this does not happen, `TrieOverrun.OverrunIff` says from the prefixes held
  when it does, and `TrieLongest.OverrunExample` shows it happening.
- `hmap_max` is a 32-bit number and wraps when the bitmap reaches 2^29 bytes. A
  number just set is seen iff it is below the wrapped value
  (`Hmap.HierMap.SetAndTest`); from a size that has not wrapped, iff the size
  computed for it stays below 2^29 (`Hmap.SeenIffFits`). Numbers below 2^31
  always fit (`Hmap.GrowFits`); with 2^28 bytes no others do (`Hmap.GrowWraps`).
  `hmap_first_zero` is right iff some 32-bit number is absent
  (`Hmap.HierMap.FirstAbsent`).
- The doubling loop of `hmap_grow` ends iff the size is neither 0 nor 2^31
  (`Hmap.GrowEnds`), and its assertion fails iff the size is above 2^31 - 4096
  and the loop ends (`Hmap.HierMap.Grow`). Four calls of `hmap_set` are enough
  to get from a map of 2^28 bytes to the endless loop (`Hmap.WrapAndHang`).
- Setting a flowspec type twice before adding an operator makes the builder
  continue the component before it (`FlowBuilder.SetTwice`,
  `FlowBuilder.SetTwiceExample`). `FlowBuilder.Builder.AddOp` is right if and
  only if that has not happened and the type allows the operator and the value.
- `fletcher16_final` multiplies a length by a sum in an `int`, which wraps around
  (configure.ac:167). What it signs passes the check iff the result fits
  (`Fletcher.SignAndCheck`), which is so for every context iff the checksum stands
  no more than 8454660 bytes before the last byte (`Fletcher.FinalFits`);
  `Fletcher.OverflowExample` names data for which it does not.
- `trie_add_prefix` takes a prefix with host bits set. Aligned lengths ignore
  them; otherwise the nodes written stand for the pattern iff none of the host
  bits up to the next node length, or the upper bound if that is less, is set
  (`TriePattern.HostBitsIff`, `TriePattern.HostBitsExample`).
- `ip4_pton` takes a missing number for 0, so that three dots are 0.0.0.0. An
  embedded IPv4 address, on the other hand, is refused if its first number has
  more than four digits, since it is first read as a word
  (`Ip6Grammar.DottedIff`, `Ip6Grammar.ParseIff`).
- In a path mask the flag set by a plus is not reset by an asterisk
  (nest/a-path.c:928-936). `PathMatch.LoopAfterMany` shows that no mask is
  affected, so `PathMatch.PathMatches` needs no assumption about masks.

## Model

| member | source | states |
|---|---|---|
| Prefix.RoundDownIs | filter/trie.c:445 | rounding a length down to the trie step is clearing its low bits, and node lengths are the multiples of the step |
| Prefix.GetBitsEqual | lib/ip.h:330-337 | two addresses have the same bit group iff they agree on every bit of it |
| Prefix.LocalPosEqual | filter/trie.c:226-240 | two prefixes get the same position in the `local` mask of a node iff they have the same length and agree on the bits behind the node's own |
| TrieTree.AmaskToLocalHas | filter/trie.c:248-263 | the bits derived from an `accept` mask are exactly the positions of the prefix at the accepted lengths of the node's range |
| TrieTree.InsertGrows | filter/trie.c:281-382 | the result of an insertion hangs in the slot it came from, and accepts no lengths but the old ones and those of the item |
| TrieTree.InsertValid | filter/trie.c:281-382 | all four cases of the insertion keep the shape of the trie and the upward propagation of `accept` into `accept` and `local` |
| TrieTree.LeafMatch | filter/trie.c:375-381 | a new node matches exactly the prefixes of its item |
| TrieTree.BranchMatch | filter/trie.c:309-332 | splitting a path at a new branch node adds exactly the prefixes of the item to those matched before |
| TrieTree.AboveMatch | filter/trie.c:334-346 | inserting a node above another one adds exactly the prefixes of the item |
| TrieTree.PassMatch | filter/trie.c:363-373 | if the subtree below has gained exactly the prefixes of the item, so has the node passed, with lengths propagated into its masks |
| TrieTree.InsertMatch | filter/trie.c:281-566 | after any insertion a prefix is matched iff it was matched before or the inserted item covers it |
| TrieTree.InsertAllMatch | filter/trie.c:281-566 | the same for any list of insertions: a prefix is matched iff some item covers it |
| TriePattern.LevelsHas | filter/trie.c:265-279 | the level masks select exactly the local positions of the given lengths |
| TriePattern.NodeItemHits | filter/trie.c:281-296 | the item written for lengths l to h covers exactly the prefixes with such a length that agree with it as far as both go, and those given by extra local bits |
| TriePattern.PrimaryLocalHas | filter/trie.c:463-480 | the `local` mask of the primary node of an unaligned pattern has exactly the positions of prefixes that the pattern accepts in the node's range |
| TriePattern.SetBitsGet | lib/ip.h:351-355 | writing a bit group into clear bits reads back as written, and changes neither the bits before it nor those behind |
| TriePattern.SecondaryCover | filter/trie.c:482-490 | all secondary nodes together cover exactly the prefixes of lengths l to h within the pattern's own prefix |
| TriePattern.PrimaryCover | filter/trie.c:463-480 | the primary node covers exactly the accepted prefixes up to the end of its range |
| TriePattern.LowerCover | filter/trie.c:482-490 | the secondary nodes of a pattern cover exactly the prefixes it matches that are longer than the primary node's range |
| TriePattern.PatternCover | filter/trie.c:400-493 | the nodes added for a pattern, aligned or not, truncated or not, cover a prefix iff the pattern matches it by the definition at lines 22-26, unless a host bit they depend on is set |
| TriePattern.HostBitsIff | filter/trie.c:438-493 | for any address: the nodes cover exactly the prefixes of the pattern iff no such host bit is set or the range is empty |
| TriePattern.HostBitsExample | filter/trie.c:463-476 | a pattern with a host bit whose nodes miss one of its prefixes |
| TriePattern.SameItems | filter/trie.c:438-493 | other host bits change no node |
| TriePattern.AddPatternMatch | filter/trie.c:400-566 | adding a pattern makes exactly its prefixes match in addition |
| TriePattern.EmptyDenotes | filter/trie.c:143-152 | a new trie matches nothing |
| TriePattern.DenotesMore | filter/trie.c:400-595 | if a trie stands for a set of patterns, adding one makes it stand for the set with that pattern, length 0 included |
| TrieExplicit.NothingToPropagate | filter/trie.c:248-263 | in a trie of explicit prefixes no accepted length reaches from a child into its parent |
| TrieExplicit.InsertStored | filter/trie.c:281-382 | in such a trie a prefix is stored after an insertion iff it was stored before or is the inserted one |
| TrieExplicit.AddsNewIff | filter/trie.c:281-382 | the test by which `prefix_count` is incremented holds iff the prefix was not stored yet |
| TrieExplicit.InSetIff | filter/trie.c:92-95 | for explicit patterns membership in the set is being one of the patterns |
| TrieExplicit.StoresMore | filter/data.h:210 | a trie that stores exactly a set of explicit prefixes does so after one more is added, and the count grows iff it is new |
| Trie.AmaskToLocalMask | filter/trie.c:248-263 | the loop computes the mask characterised by TrieTree.AmaskToLocalHas |
| Trie.FillLevels | filter/trie.c:292-295 | the loop computes the mask characterised by TriePattern.LevelsHas |
| Trie.PrefixTrie.constructor | filter/trie.c:143-152 | a new trie is valid and stands for the empty set of patterns |
| Trie.PrefixTrie.NewNode | filter/trie.c:154-184 | a fresh node with the given prefix, masks and no children |
| Trie.PrefixTrie.AttachTop | filter/trie.c:187-206 | links a node under the root keeping the tree the objects stand for in step |
| Trie.PrefixTrie.AttachBelow | filter/trie.c:187-206 | the same below any other node |
| Trie.PrefixTrie.AddBranch | filter/trie.c:309-332 | the objects stand for the specification's branch |
| Trie.PrefixTrie.AddAbove | filter/trie.c:334-346 | the objects stand for the specification's node inserted above |
| Trie.PrefixTrie.AddToNode | filter/trie.c:348-361 | the objects stand for the specification's extended node, and the count grows iff a local bit is new |
| Trie.PrefixTrie.AddTail | filter/trie.c:375-381 | the objects stand for the specification's new leaf |
| Trie.PrefixTrie.StepDown | filter/trie.c:363-372 | the node passed is updated and the rest of the insertion is that of the child |
| Trie.PrefixTrie.Descend | filter/trie.c:281-382 | the loop performs the recursive insertion of the specification on the linked nodes |
| Trie.PrefixTrie.AddNode | filter/trie.c:281-382 | the linked nodes stand for the old tree with the item inserted |
| Trie.PrefixTrie.AddSecondaries | filter/trie.c:487-489 | the loop inserts all secondary items |
| Trie.PrefixTrie.AddPattern | filter/trie.c:438-492 | keeps the relation between nodes, flags, count and the set of patterns when one is added, and returns the node that was added last |
| Trie.PrefixTrie.AddPrefix | filter/trie.c:400-493 | keeps the invariant that matching is membership in the set of patterns added, and that for explicit patterns the trie stores exactly them and counts them, for every prefix whose host bits do no harm; returns the node of the prefix (the root for length 0), or the last of those below it when there are such, with its exact length and address, and none iff no node was needed; a pattern of the other address family is refused without effect |
| Trie.PrefixTrie.MatchPrefix | filter/trie.c:496-566 | true iff some added pattern matches, length 0 included |
| Trie.PrefixTrie.MatchNet | filter/trie.c:577-595 | true iff the family is that of the trie and some added pattern accepts the length and agrees on the shorter of both prefixes |
| TrieLongest.AcceptGap | filter/trie.c:618-689 | a compressed path holds no explicit prefix: nothing is found on it |
| TrieLongest.LocalLevels | filter/trie.c:618-689 | after the levels of a node everything stored on the path up to its range is recorded |
| TrieLongest.WalkPath | filter/trie.c:618-689 | the recorded lengths are exactly those of the stored covering prefixes shorter than an address, and the last is the longest unless the walk overruns |
| TrieLongest.MatchLongest | filter/trie.c:618-689 | delivers the longest stored prefix covering the query, or none iff there is none, if and only if the special case for full-length nodes does not reach beyond the query; also the exact set of found lengths |
| TrieLongest.MatchNextLongest | filter/data.h:243-271 | the next shorter found length, none skipped, false iff there is none |
| TrieLongest.WalkToRoot | filter/data.h:274-288 | lists every covering stored prefix in strictly decreasing length, if and only if the special case does not reach beyond the query |
| TrieLongest.SingleHostOverrun | filter/trie.c:652-659 | a trie holding one host prefix and a query one bit shorter that agrees with it always meet that case |
| TrieLongest.OverrunExample | filter/trie.c:652-659 | a concrete query answered with a prefix longer than itself |
| TrieExplicit.InsertCompressed | filter/trie.c:281-382 | every node below the root stores a prefix or has two children |
| TrieOverrun.NotAlone | filter/trie.c:652-659 | a node just above the hosts holds something besides any one host |
| TrieOverrun.HostEndIff | filter/trie.c:618-689 | the walk ends in a full-length node iff the first host of the query is stored, or its second one alone among the prefixes of its last node |
| TrieOverrun.OverrunIff | filter/trie.c:618-689 | the failing case told from the prefixes held: the query is one bit shorter than an address, and its first host is held, or its second one is and no other prefix within the same four bits |
| TrieWalk.WalkState.constructor | filter/trie.c:799-853 | an unrestricted walk starts with all output of the trie ahead |
| TrieWalk.WalkState.In | filter/trie.c:799-853 | a restricted walk starts with exactly the output of the subtree of the net ahead |
| TrieWalk.WalkState.FindStart | filter/trie.c:814-852 | finds the node and position where the walk of a net starts |
| TrieWalk.StepDownLeft | filter/trie.c:980-999 | delivering a local position and stepping down from it leaves exactly the rest ahead |
| TrieWalk.EnterLeft | filter/trie.c:971-977 | entering a child does not change the output ahead |
| TrieWalk.UpLeft | filter/trie.c:926-969 | stepping up and on to the next position does not change the output ahead, and ends only when there is none; the work left shrinks |
| TrieWalk.StackDepth | filter/data.h:214-222 | the node at depth i of the stack is at least 4 i long, so 33 entries are enough |
| TrieWalk.WalkState.NextAccepted | filter/trie.c:905-917 | the next accepted length on a compressed path |
| TrieWalk.WalkState.Pop | filter/trie.c:940-958 | going up finds the position of the node left, with the same output behind it, and the parent's child there is that very node |
| TrieWalk.WalkState.StepUp | filter/trie.c:929-967 | moving on from a finished position keeps the rest of the output ahead |
| TrieWalk.WalkState.Bottom | filter/trie.c:919-978 | goes down to the child or on to the next position, or ends the walk; the nodes on the stack stay linked to each other |
| TrieWalk.WalkState.Local | filter/trie.c:980-999 | delivers a local position iff it is in the mask, and steps down; the output ahead loses just that |
| TrieWalk.WalkState.Find | filter/trie.c:901-1000 | finds the next output or shows that there is none |
| TrieWalk.WalkState.Next | filter/trie.c:873-1000 | delivers the first of the output ahead and keeps the rest; once it has failed it fails forever |
| TrieOrder.UnderHas | filter/trie.c:86-95 | the output of a subtree contains a prefix iff the subtree stores it |
| TrieOrder.UnderSorted | filter/trie.c:86-95 | the output of a subtree is strictly increasing in the lexicographic order of prefixes |
| TrieOrder.SubWalkHas | filter/trie.c:86-95 | a restricted walk contains a prefix iff it is stored and a subnet of the net |
| TrieOrder.SubWalkSorted | filter/trie.c:86-95 | a restricted walk is strictly increasing |
| TrieOrder.Collect | filter/data.h:291-297 | calling next until it fails delivers the whole restricted walk |
| TrieOrder.Walk | filter/trie.c:799-1000 | on a trie of explicit prefixes the walk delivers exactly the added prefixes that are subnets of the net, in strictly increasing order |
| TrieOrder.SortedOnce | filter/trie.c:88-90 | strictly increasing output contains nothing twice |
| PathMatch.MarkFrom | nest/a-path.c:955-966 | following one marked position, again and again after a plus, until a position already swept, leaves the marks of a sweep from there |
| PathMatch.ClosedRun | nest/a-path.c:881-902 | a mark inside a run of sets implies marks on the rest of the run |
| PathMatch.CutOff | nest/a-path.c:881-902 | a mark set in a run of adjacent sets by an earlier position may be trusted: stopping there loses no state |
| PathMatch.SweptAll | nest/a-path.c:950-974 | a finished sweep has marked exactly the states reachable by the item |
| PathMatch.Sweep | nest/a-path.c:950-974 | the in-place descending sweep neither loses nor invents a state |
| PathMatch.Mark | nest/a-path.c:860-879 | marks exactly the positions one transition leads to, and widens the bounds to them |
| PathMatch.AsteriskStep | nest/a-path.c:928-932 | an asterisk marks every state from the lowest marked one on |
| PathMatch.StepStep | nest/a-path.c:947-975 | one item advances the marks by one step, or by one or more after a plus |
| PathMatch.LoopAfterMany | nest/a-path.c:928-936 | a plus that an asterisk follows keeps its effect on the next item without changing what is accepted |
| PathMatch.EndsIff | nest/a-path.c:903-980 | the set of end states computed item by item is acceptance |
| PathExpand.WalksExpand | nest/a-path.c:881-902 | the numbers taken on a walk of the automaton are a sequence the positions stand for: one or more members of the first set of a run, any number of those of the others, in order |
| PathExpand.ExpandWalks | nest/a-path.c:881-902 | every such sequence is taken on some walk |
| PathExpand.AcceptsRead | nest/a-path.c:881-980 | whatever mask is accepted, some sequence that the path stands for matches it by plain wildcard matching |
| PathExpand.ReadAccepts | nest/a-path.c:881-980 | a mask that matches the numbers of a walk is accepted |
| PathExpand.AcceptsIff | nest/a-path.c:881-886 | a path matches a mask iff one of the sequences of AS numbers it stands for does |
| PathExpand.AllMasksIff | nest/a-path.c:70-71 | that holds of all masks iff no run of sets starts with an empty one, which `as_path_valid` excludes |
| PathExpand.PlainAccepts | nest/a-path.c:903-980 | on paths without sets acceptance is wildcard matching of the sequence of AS numbers |
| PathMatch.PathMatches | nest/a-path.c:903-980 | true iff some walk over the positions consumes the whole mask and ends behind the last position, for every mask |
| AsPath.GetLen | nest/a-path.c:421-448 | the path metric of section 9.1.2.2 of RFC 4271: the number of sets and of AS numbers in sequences |
| AsPath.LenIs | nest/a-path.c:421-448 | a set counts one, a sequence as many as it has AS numbers, confederation segments nothing |
| AsPath.NetworkOrder | nest/a-path.c:87-105 | AS numbers are written in network order in either width |
| AsPath.WireFormat | nest/a-path.c:87-133 | a segment is its kind, its number of AS numbers and these in network order |
| AsPath.Cut | nest/a-path.c:304-353 | the encoding of the segments cut to the given metric |
| AsPath.CutLen | nest/a-path.c:300-353 | a path cut to n has metric n, unless it was shorter |
| AsPath.CutNoneEmpty | nest/a-path.c:300-353 | cutting leaves no empty segment |
| AsPath.CutKeeps | nest/a-path.c:300-353 | segments within the metric are kept, those of confederations on the edge included |
| AsPath.CutWalked | nest/a-path.c:300-353 | the AS numbers of a cut path are the first ones of the path |
| AsPath.Merge | nest/a-path.c:355-373 | the encoding of one list of segments after the other |
| AsPath.MergeLen | nest/a-path.c:355-373 | joining adds metrics and concatenates the AS numbers |
| AsPath.Prepend | nest/a-path.c:230-266 | the encoding of the path with one AS number prepended, in the first segment or in a new one when that is of another type or full |
| AsPath.PrependLen | nest/a-path.c:230-266 | prepending puts one AS number in front and adds one to the metric in a sequence, nothing in a confederation sequence |
| AsPath.ConvertAsns | nest/a-path.c:99-105 | the inner loop re-encodes every AS number of a segment |
| AsPath.Convert | nest/a-path.c:87-133 | the same segments re-encoded, each AS number unchanged or cut to its low 16 bits |
| AsPath.ToOld | nest/a-path.c:269-298 | the encoding with AS_TRANS for every AS number above 65535 and everything else unchanged |
| AsPath.OldKept | nest/a-path.c:269-298 | such a path loses nothing in 16 bits |
| AsPath.OldRoundTrip | nest/a-path.c:87-133 | 16to32 after 32to16 is the identity on the result of to_old |
| AsPath.Walk | nest/a-path.c:716-743 | the AS number at an index of the walk, or false iff there are fewer |
| AsPath.StandsIff | nest/a-path.c:757-802 | the positions stand for exactly the AS numbers that the segments stand for: those of each sequence, and members of each set, at least one unless another set is just before it |
| AsPath.SequencesFor | nest/a-path.c:881-886 | a path of sequences stands for its AS numbers only |
| AsPath.ParsePath | nest/a-path.c:757-802 | one position per AS number of a sequence and one per set, in order; they stand for what the segments stand for |
| AsPath.Match | nest/a-path.c:903-980 | a path without empty segments matches iff one of the sequences of AS numbers its segments stand for matches the mask as a wildcard; a path of sequences iff its AS numbers do |
| AsPath.MatchOne | nest/a-path.c:803-858 | one AS number against one item: equal, within the range with both ends, in the set, or anything |
| FlowOps.SatIsSomeSequence | lib/flowspec.c:1186-1202 | evaluating the operator list from left to right is an OR over its AND-sequences (section 4.2.1.1 of RFC 8955) |
| FlowOps.GetValueIs | lib/flowspec.c:299-312 | operands of 1, 2 and 4 bytes are read in network order, those of 8 bytes as 0 |
| FlowOps.LengthIs | lib/flowspec.c:110-114 | the length of a value is 2 to the power of the number in bits 4 and 5 of the operator |
| FlowOps.AndIs | lib/flowspec.c:122 | the AND bit is the second highest |
| FlowExplicate.BufferSize | lib/flowspec.c:1134-1165 | the number of AND-sequences and of not-equal operators |
| FlowExplicate.CompareIs | lib/flowspec.c:1229-1231 | an operator accepts exactly an interval, less one value for the not-equal operator |
| FlowExplicate.SortRange | lib/flowspec.c:1250-1251 | sorting a range by lower bounds permutes it and leaves the rest alone |
| FlowExplicate.DumpNeqs | lib/flowspec.c:1253-1273 | the intervals written and the one left over cover exactly the interval without the excluded values, even though they overwrite them |
| FlowExplicate.CloseSequence | lib/flowspec.c:1245-1288 | an AND-sequence is replaced by intervals that cover exactly what it accepts |
| FlowExplicate.TakeOp | lib/flowspec.c:1229-1243 | what the current sequence accepts is restricted by exactly one operator |
| FlowExplicate.Collect | lib/flowspec.c:1220-1294 | the records cover exactly the values the list accepts, and no write leaves the buffer |
| FlowExplicate.Merge | lib/flowspec.c:1299-1321 | one pass over sorted records makes them increasing and separated without changing what they cover |
| FlowExplicate.ExplicatePart | lib/flowspec.c:1182-1322 | the intervals hold exactly the 32-bit values accepted by some AND-sequence, are increasing, disjoint and do not touch, and fit the buffer of the announced size |
| FlowExplicate.OneCanonical | lib/flowspec.c:1167-1322 | increasing intervals that do not touch are determined by the values they hold |
| FlowExplicate.ExplicateOne | lib/flowspec.c:1182-1322 | the records for a list of one operator: those of the comparison that its last three bits stand for as a number |
| FlowFormat.CleanAllFacts | lib/flowspec.c:428-566 | normalising keeps a component list well-formed and ordered, and doing it twice is doing it once |
| FlowScan.Parsed | lib/flowspec.c:428-566 | bytes accepted by the lenient check are the encoding of the component list found in them |
| FlowScan.Encoded | lib/flowspec.c:428-566 | the encoding of any well-formed ordered component list is accepted, and that list is found: the format is unambiguous |
| FlowScan.OpFaultIff | lib/flowspec.c:703-724 | the strict check has no complaint about an operator iff normalising leaves it as it is |
| FlowScan.ScanStrict | lib/flowspec.c:600-743 | the strict check accepts iff the lenient one does and the components are in normal form |
| FlowStates.OperatorStates | lib/flowspec.c:488-731 | the state reported for a rule of one operator, told from the numbers of type, operator and value: known types, lengths, bits that must be zero |
| FlowStates.PrefixStates | lib/flowspec.c:445-659 | the state reported for a rule of one prefix, told from its length, offset and last byte |
| FlowDecode.AcceptsIff | lib/flowspec.c:428-566 | the decoder accepts exactly the encodings of ordered component lists |
| FlowDecode.ValidIff | lib/flowspec.c:600-743 | the validator accepts exactly the encodings of ordered component lists in normal form |
| FlowDecode.NormalisedValid | lib/flowspec.c:428-743 | what the decoder leaves behind is accepted by the validator and holds the same components, normalised |
| FlowDecode.CleanBoundary | lib/flowspec.c:428-566 | normalising moves no component boundary |
| FlowDecode.ValidIffFixed | lib/flowspec.c:428-743 | the validator accepts exactly what the decoder accepts and leaves unchanged |
| FlowDecode.NormalisedTwice | lib/flowspec.c:428-566 | decoding is idempotent |
| FlowDecode.ValidatePrefix | lib/flowspec.c:617-659 | the first complaint about a prefix component, or the position behind it |
| FlowDecode.ValidateOps | lib/flowspec.c:686-731 | the first complaint about an operator list, or the position behind it |
| FlowDecode.Validate | lib/flowspec.c:600-743 | the state reported is that of the first fault; valid iff the bytes encode an ordered component list in normal form; for rules of one component the state is told from the numbers |
| FlowDecode.DecodePrefix | lib/flowspec.c:445-486 | the same without complaints about padding, which is cleared |
| FlowDecode.DecodeOps | lib/flowspec.c:513-554 | the same for operator lists, whose meaningless bits are cleared |
| FlowDecode.Decode | lib/flowspec.c:428-566 | reports the first fault of the bytes received, for rules of one component told from the numbers; if there is none, leaves them in normal form; in any case only clears bits |
| FlowBuild.PushedValue | lib/flowspec.c:964-979 | the value of a pushed operator reads back |
| FlowBuild.PushedOp | lib/flowspec.c:961-979 | a pushed operator keeps its comparison and AND bit, has the end bit and tells the length of its value |
| FlowBuild.PrefixBit | lib/flowspec.c:897-926 | bit k of the bytes of a prefix, by division, is bit k of the address behind the offset |
| FlowBuild.ReadBack | lib/flowspec.c:271-297 | an address read from the bytes of a prefix is the one written, with the bits before the offset cleared |
| FlowBuild.PushedIff | lib/flowspec.c:961-979 | an operator and its value are encoded in normal form iff the type allows both, told from the bits of the operator and the range of the value |
| FlowBuild.PrefixNormal | lib/flowspec.c:890-930 | normalised prefixes are encoded in normal form, also behind an offset |
| FlowBuilder.Builder.constructor | lib/flowspec.c:818-824 | a new builder holds no component |
| FlowBuilder.Builder.SetType | lib/flowspec.c:1023-1028 | only the two types change, all components stay |
| FlowBuilder.Builder.AddPrefix | lib/flowspec.c:890-930 | adds exactly the component for the prefix: type, length, offset and the bits of the address behind it; or fails without effect iff there is one of that type |
| FlowBuilder.Builder.AddOp | lib/flowspec.c:943-983 | fails without effect iff the type was completed before; otherwise the operator begins a component or joins the last one, and the buffer encodes that iff the type was set once since the last component or is still that of it, and it allows the operator and the value; if the type was set twice, the buffer encodes the component before it with the operator added |
| FlowBuilder.SetTwice | lib/flowspec.c:943-1028 | with any type set twice the operator is accepted and goes to the component before |
| FlowBuilder.SetTwiceExample | lib/flowspec.c:943-1028 | the bytes built for a port and a protocol whose type is set twice |
| FlowBuilder.Builder.Continue | lib/flowspec.c:949-981 | moving the end bit to one more operator is right iff the last component is of this type and the operator is in normal form |
| FlowBuilder.Builder.BeginOps | lib/flowspec.c:954-981 | a new component is right iff its operator is in normal form |
| FlowBuilder.ContinueIff | lib/flowspec.c:949-981 | the same for the buffer and the index as values |
| FlowBuilder.IndexNew | lib/flowspec.c:850-874 | a new component gets the index entry of its type, all others stay right |
| FlowBuilder.IndexLast | lib/flowspec.c:850-874 | the entry of the last component follows its growth, all others stay right |
| FlowBuilder.Builder.WriteParts | lib/flowspec.c:1030-1041 | lists the components added, each once and in increasing order of type, with the total length of the buffer |
| FlowParts.LengthReadBack | lib/flowspec.h:59-63 | a written length is read back with the right header size |
| FlowParts.LengthWritten | lib/flowspec.c:97-108 | one byte up to 239, and two from there on with the first four bits set |
| FlowParts.NextPart | lib/flowspec.c:164-208 | the position behind a component of any known type in either family, none iff the rule ends there or the type is unknown |
| FlowParts.PartEndIs | lib/flowspec.c:164-208 | for components that the decoder accepts it is the position at which the decoder goes on |
| FlowParts.GetPart | lib/flowspec.c:240-252 | finds a component iff there is one of the type, and delivers its position |
| FlowParts.OrderedValid | lib/flowspec.c:1030-1041 | ordered components in normal form encode to bytes the validator accepts |
| FlowParts.ReadPrefix | lib/flowspec.c:271-297 | the address and length of a prefix component |
| FlowParts.Finalize | lib/flowspec.c:1051-1101 | the rule starts with its exact length, validates, and consists of exactly the components added, in order of type; its network address is that of the destination prefix, or none |
| FlowParts.AddAndFinalize | lib/flowspec.c:890-1101 | a destination prefix added is the network address of the finished rule, with the bits before the offset cleared |
| FlowParts.FindAdded | lib/flowspec.c:240-252 | searching the finished rule finds a type iff a component of it was added, and then that component |
| Words.FirstZeroInRange | lib/bitmap.c:323-352 | the least clear bit of a range of a word buffer, found with word masks; the end of the range if there is none |
| Words.LastOneInRange | lib/bitmap.c:411-439 | the greatest set bit of a range; the end of the range if there is none |
| Words.FirstZero | lib/bitmap.c:303-311 | the least clear bit of a buffer, or its size |
| Words.LastOne | lib/bitmap.c:401-409 | the greatest set bit of a buffer, or its size |
| Words.AndAll | lib/bitmap.c:114-122 | true iff all bits are set |
| Words.OrAll | lib/bitmap.c:244-252 | true iff some bit is set |
| Lmap.LabelMap.constructor | lib/bitmap.c:204-211 | the map is empty |
| Lmap.LabelMap.Test | lib/bitmap.c:254-261 | membership |
| Lmap.LabelMap.Grow | lib/bitmap.c:213-224 | enough room, nothing else changes |
| Lmap.LabelMap.Set | lib/bitmap.c:263-279 | adds one label and keeps the invariant: root bits mark the full blocks, allocated blocks are not empty, the bits are the set |
| Lmap.LabelMap.Clear | lib/bitmap.c:281-301 | removes one label and keeps the invariant |
| Lmap.LabelMap.FirstAbsent | lib/bitmap.c:313-321 | the least label that is absent |
| Lmap.LabelMap.FirstAbsentInRange | lib/bitmap.c:354-399 | the least absent label of a range, or its end |
| Lmap.LabelMap.LastPresentInRange | lib/bitmap.c:441-474 | the greatest present label of a range, or its end |
| Hmap.HierMap.constructor | lib/bitmap.c:68-82 | the map is empty for any 32-bit size; its levels are right iff the aligned size is at most 2^32 - 8192, and hmap_max iff it is below 2^29 |
| Hmap.HierMap.Test | lib/bitmap.h:50-54 | true iff the number is in the map and below the 32-bit hmap_max; unless that has wrapped, membership |
| Hmap.HierMap.Grow | lib/bitmap.c:84-102 | ends well, does not end or fails its assertion, exactly told from the size; if it ends well, all levels grow by zeros to the size computed and every summary bit stays right, wrapped or not |
| Hmap.HierMap.Set | lib/bitmap.c:124-139 | unless growing goes wrong, adds one number and keeps every summary bit set iff its block below is full, in any map; hmap_max is above the number iff it fits |
| Hmap.HierMap.SetAndTest | lib/bitmap.c:124-139 | in any map, a number just set is seen by hmap_test iff it fits |
| Hmap.SeenIffFits | lib/bitmap.c:84-89 | after growing for any number the 32-bit hmap_max is above it iff it has not wrapped |
| Hmap.GrowEnds | lib/bitmap.c:87-89 | the doubling loop with 32-bit sizes ends iff the size is neither 0 nor 2^31 |
| Hmap.GrownSize | lib/bitmap.c:86-89 | the loop ends iff the size is neither 0 nor 2^31, with a doubled size that is enough, and below the old one iff it has wrapped |
| Hmap.SetWrapped | lib/bitmap.c:84-139 | a map whose hmap_max has wrapped to 0 doubles its size with every call, until that does not end |
| Hmap.WrapAndHang | lib/bitmap.c:84-139 | from 2^28 bytes the fourth call does not end |
| Hmap.HierMap.Clear | lib/bitmap.c:141-152 | removes one number below hmap_max and keeps the summaries |
| Hmap.HierMap.FirstAbsent | lib/bitmap.c:164-180 | delivers the least absent number iff some 32-bit number is absent, in any map, wrapped or not |
| Hmap.SetLevels | lib/bitmap.c:130-139 | the loop over levels stops at the first block that is not full and leaves all summaries right |
| Hmap.ClearLevels | lib/bitmap.c:147-151 | clearing at all levels leaves all summaries right |
| Hmap.GrowFits | lib/bitmap.c:84-89 | for numbers below 2^31 the maximum stays below 2^32 |
| Hmap.GrowWraps | lib/bitmap.c:84-89 | from 2^28 bytes, growing for any number from 2^31 on gives 2^29 bytes, whose hmap_max is 0 |
| Timers.FirstIsLeast | lib/heap.h:32-37 | the first element of a heap expires no later than any other |
| Timers.TimeLoop.constructor | lib/timer.c:189-196 | no timer is active |
| Timers.TimeLoop.Swap | lib/timer.c:92-93 | two elements change places and keep their back-indices right |
| Timers.TimeLoop.BubbleUp | lib/heap.h:60-69 | a heap with one element too small becomes a heap, elements behind it stay |
| Timers.TimeLoop.BubbleDown | lib/heap.h:45-57 | a heap with one element too great becomes a heap, elements behind it stay |
| Timers.TimeLoop.Delete | lib/heap.h:137-151 | the element goes behind the heap and the rest is a heap |
| Timers.TimeLoop.ActiveIff | lib/timer.h:61-65 | a timer is active iff it is in the heap, and then it is there once |
| Timers.TimeLoop.Set | lib/timer.c:136-165 | the timer expires at the given time, the invariant holds and no other timer changes |
| Timers.TimeLoop.Stop | lib/timer.c:173-187 | the timer is inactive, the invariant holds and no other timer changes |
| Timers.TimeLoop.NextTime | lib/timer.c:216-222 | a recurrent timer expires next a period after the last time or, if that is over, a period from now, and later by no more than the random part |
| Timers.TimeLoop.Fire | lib/timer.c:200-236 | calls a hook iff its timer had expired, each once and in the order of expiry, and leaves no expired timer; single timers stop, recurrent ones expire next a period after the last time or, if that is over, a period from now, up to the random part; other timers stay; it ends |
| Slab.Layout | lib/slab.c:212-238 | the loop ends, header, bitfield and objects fit in a page, and an object is called too large only if it does not fit beside a header with one word of bitfield |
| Slab.SlotPage | lib/slab.c:194 | the page is recovered from the address of an object |
| Slab.SlotIndex | lib/slab.c:331-334 | the slot number is recovered from the address of an object |
| Slab.SlotsApart | lib/slab.c:266 | objects in different slots do not overlap |
| Slab.SlabAllocator.constructor | lib/slab.c:235-237 | nothing is handed out |
| Slab.SlabAllocator.Alloc | lib/slab.c:247-295 | hands out a slot that was free and changes no other; the retry ends |
| Slab.SlabAllocator.Free | lib/slab.c:321-357 | takes back exactly that slot; no assertion fires |
| Slab.SlabAllocator.Unmark | lib/slab.c:336-357 | keeps counters, page states and lists right, with at most one empty page kept |
| IntervalTree.FindLinear | filter/tree.c:50-59 | the first node of the list that contains the value, or none iff there is none |
| IntervalTree.Find | filter/tree.c:27-39 | the node of the tree that contains the value, or none iff there is none |
| IntervalTree.BuildRec | filter/tree.c:61-75 | relinks the nodes of a sorted array as a balanced tree over it |
| IntervalTree.Compact | filter/tree.c:115-147 | with merging, disjoint increasing intervals that cover the same values; without, success iff no two intervals overlap, and nothing changes |
| IntervalTree.Build | filter/tree.c:89-156 | a balanced tree over such intervals |
| IntervalTree.SearchBoth | filter/tree.c:27-156 | searching the merged tree succeeds iff searching the list did; an unmerged tree exists iff no intervals overlap and delivers the same node |
| SafeList.Put | lib/slists.c:70-82 | the iterator is first in the chain of the node |
| SafeList.FindNode | lib/slists.c:48-57 | walking back along the chain finds the node an iterator stands on, even if it was forgotten |
| SafeList.Get | lib/slists.c:42-68 | delivers that node and takes the iterator out of the chain |
| SafeList.Merge | lib/slists.c:14-40 | one chain is appended to another and its iterators forget their node, so that forgetful ones form a suffix |
| SafeList.SList.constructor | lib/slists.c:131-138 | an empty list |
| SafeList.SList.PutAt | lib/slists.c:70-82 | the cursor stands on the node, all others stay |
| SafeList.SList.GetFrom | lib/slists.c:42-68 | delivers the node the cursor stands on, all others stay |
| SafeList.SList.Remove | lib/slists.c:120-129 | all cursors on the node move to its successor or the end, all others stay |
| SafeList.SList.Insert | lib/slists.c:108-118 | the node is in its place and no cursor moves |
| SafeList.SList.AddTailList | lib/slists.c:140-152 | the nodes of the other list follow those of this one, also if it is empty; cursors at its end move to the end of this list, all others stay |
| SafeList.SList.Join | lib/slists.c:143-150 | the links written make one list of both, and for an empty second list leave the first as it was |
| Fletcher.RunIs | lib/fletcher16.h:58-97 | the running sums are the sum of the bytes and the sum weighted by the distance to the end |
| Fletcher.RunCong | lib/fletcher16.h:58-97 | sums started from congruent values stay congruent modulo 255 |
| Fletcher.BlockFits | lib/fletcher16.h:65-71 | 3 + 4096 steps without reduction stay within a signed 32-bit integer, as the comment claims |
| Fletcher.Context.Step | lib/fletcher16.h:78-91 | one step, without overflow |
| Fletcher.Context.Update | lib/fletcher16.h:58-97 | the context holds the sums of all data modulo 255 |
| Fletcher.Context.UpdateN32 | lib/fletcher16.h:114-145 | the context holds the sums of all data with the bytes of each new word reversed |
| Fletcher.SwappedTwice | lib/fletcher16.h:106-112 | reversing the bytes of each word twice gives the data back |
| Fletcher.Context.OnlyData | lib/fletcher16.h:54-56 | the context depends on the data only, not on its division among calls |
| Fletcher.Context.Final | lib/fletcher16.h:167-179 | two nonzero bytes congruent to what is missing in both sums, as far as `int` arithmetic goes |
| Fletcher.FinalFits | lib/fletcher16.h:170 | the computation fits an int for every context iff the checksum stands no more than 8454660 bytes before the last byte |
| Fletcher.Context.Compute | lib/fletcher16.h:190-194 | both sums modulo 255 in one number, zero iff both are |
| Fletcher.Checksum | lib/fletcher16.h:147-179 | storing the two bytes in zeroed places makes the sum zero modulo 255, and the weighted sum what the first byte lacks |
| Fletcher.ChecksumIff | lib/fletcher16.h:167-179 | with `int` arithmetic both sums are zero modulo 255 iff the computation does not overflow |
| Fletcher.SignAndCheck | lib/fletcher16.h:16-24 | data signed and checked, each time in any pieces, passes iff signing does not overflow |
| Fletcher.OverflowExample | lib/fletcher16.h:167-179 | data for which it does |
| Ip6Text.LongestRun | lib/ip.c:297-319 | the first of the longest runs of zero words |
| Ip6Text.PrintWords | lib/ip.c:336-352 | the printing loop writes the words with the run compressed |
| Ip6Text.Ntop | lib/ip.c:291-353 | the words in full iff no two zeros stand side by side; otherwise the first longest run of zeros replaced by two colons, or the forms with an embedded IPv4 address; and it parses back to the address |
| Ip6Text.ParseDotted | lib/ip.c:355-378 | a printed IPv4 address parses back |
| Ip6Text.Ip4Pton | lib/ip.c:355-378 | the loop parses exactly what the specification accepts |
| Ip6Text.Fill | lib/ip.c:450-457 | the words behind the gap move to the end and zeros fill the gap |
| Ip6Text.Pton | lib/ip.c:380-467 | the parser computes the specification on every text |
| Ip6Text.RoundTrip | lib/ip.c:291-467 | whatever run of zeros is compressed, the text parses back to the address, embedded IPv4 forms included |
| Ip6Text.PrintAndRead | lib/ip.c:291-467 | every 128-bit address survives printing and parsing |
| Ip6Grammar.HexValIs | lib/ip.c:413-425 | a digit has the value of its place in the list of digits, in lower or upper case |
| Ip6Grammar.HexIs | lib/ip.c:349 | words are printed in lower case without leading zeros |
| Ip6Grammar.DottedIff | lib/ip.c:355-378 | the texts accepted as IPv4 addresses are four numbers of decimal digits up to 255 with dots between them |
| Ip6Grammar.ParseIff | lib/ip.c:380-467 | the texts accepted as IPv6 addresses, and the words they spell: groups of up to four digits with colons between them, one gap, and a dotted address in place of the last two groups |
| Ip6Grammar.ParseLower | lib/ip.c:413-425 | upper and lower case are read alike |

## Left out

- `trie_same`, `trie_format`, `tree_format`, `flow*_net_format` and other text output, and the data attached to trie nodes (`data_size`): not modelled.
- Trie.PrefixTrie.AddPrefix: requires that no host bit within reach is set, without which the nodes do not stand for the pattern; what such a pattern adds to a trie is told by TriePattern.HostBitsIff only as far as it is wrong.
- The compact 4-way variant of the trie (ENABLE_COMPACT_TRIES): the model fixes the step at 4 bits.
- TrieOrder.Collect: the loop of TRIE_WALK is written as a recursion over the calls of `trie_walk_next`.
- PathMatch.PathMatches: the fixed array of 2048 positions is a sequence of any length here, so its overflow is not modelled.
- AsPath.Merge, AsPath.Cut and the other operations on paths take well-formed paths, as `as_path_valid` checks; error texts of `as_path_valid` are not modelled.
- `as_path_filter`, `as_path_get_first/last`, `as_path_contains`, `as_path_strip_confed`, `as_path_compare`: they would only add single loops.
- FlowBuilder.Builder.AddPrefix: takes a normalised prefix, and the buffer must stay below 64 KiB, the range of its 16-bit offsets; FlowParts.Finalize requires a rule of at most 4095 bytes.
- FlowParts.NextPart: the header of a prefix and the operators up to the end bit must be there, since the source reads them unchecked.
- `flow_builder_add_val_mask`: not modelled.
- Lmap.LabelMap.Set: labels have 20 bits and ranges lie within them, as in the callers; blocks are values, their allocation from a slab is not modelled.
- Hmap.HierMap.Set: sizes above 2^32 - 8192 bytes have no upper levels and are left out, since the source writes beyond their memory; so is the state after a failed assertion.
- Timers.TimeLoop.Fire: hooks touch no timer and do not change the time; wake-up of BFD loops and logging are not modelled. Timers.TimeLoop.Set takes times above 0, since 0 stands for an inactive timer.
- Slab.SlabAllocator.Free: takes only addresses that were handed out; poisoning, dumping and freeing a whole slab are not modelled. Slab.Layout requires a nonzero object size and a page with room for more than the header.
- IntervalTree.Build: intervals have their lower bound not above their upper bound; values are integers and the void value. The array of node pointers is a sequence.
- SafeList.SList.Insert also stands for `s_add_head` and `s_add_tail`. The two overlaid sentinels of a list are separate nodes here, so that a write to `tail` does not show in the readers of the head, which are never used.
- Fletcher.Context.Final: lengths are those of an `int`.
- Fletcher.Context.UpdateN32: the little-endian variant; on a big-endian host the function is the same as Fletcher.Context.Update.
- Ip6Text.Pton: texts hold no NUL characters; overflow of `bstrtoul10` is not modelled, any such number is above 255.
