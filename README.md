# LabelMaker: a single-label Aho–Corasick matcher, modelled and verified in Dafny

`LabelMaker` keeps a byte trie of patterns, each pattern carrying one label, and works in
three operations:

- `insert(pattern, label)` walks the pattern's bytes from the root. It creates the missing
  children and then sets the label of the node it reached. It refuses a label that differs
  from the one already stored there, and it refuses every insertion once the automaton is
  finalized.
- `finalize()` computes a fail link for every non-root node. It goes breadth first: each
  child of the root fails to the root; for each dequeued node and each of its children in
  byte order, it walks fail links from the node's own fail link until it reaches a node with
  a child for that byte, or the root. Then it raises the finalized flag.
- `categorize(text)` scans the text one byte at a time. It follows fail links while the
  current node has no child for the byte, takes the child if there is one, and records the
  label of the node it reached. It returns the label recorded last.

The model is a class `Categorosaurus.LabelMaker` over an arena of nodes:

- `nodes: seq<Node>`, where a `Node` has a sparse `children: map<byte, nat>` and `tag: Option<string>`;
- `failLink: seq<Option<nat>>`, parallel to `nodes`;
- `finalized: bool`.

Ghost fields track the meaning of the arena:

- `words[n]` is the string node `n` spells;
- `index` is the inverse of `words`;
- `parent[n]` is the parent of node `n`;
- `ext[n]` is a labelled node whose pattern extends `words[n]`.

The object invariant `Valid` says four things:

- the arena is a trie (`IsTrie`);
- every node lies on the path of some labelled node;
- before finalization no fail link is set;
- after finalization, each non-root node fails to the node spelling the longest proper
  suffix of its string that the trie spells (`LinkTarget`).

Module `Reference` states what a scan means using only the dictionary of (pattern, label)
pairs, with no nodes or links:

- `State(d, text)` is the longest suffix of `text` that is a prefix of some pattern.
- `Categorize(d, text)` is the label of the last state, among the states after each byte,
  that is itself a pattern.

`LabelMaker.Categorize` is proved equal to `Reference.Categorize`. The properties of a scan
are proved on the reference.

Module `ByteStrings` holds byte strings, prefixes and suffixes, and the longest suffix
belonging to a set.

## Model

| member | source | states |
|---|---|---|
| Categorosaurus.LabelMaker.constructor | src/lib.rs:28-33 | A new automaton is valid, not finalized, spells only the empty string and has an empty dictionary. |
| Categorosaurus.LabelMaker.Insert | src/lib.rs:35-61 | The result is `AlreadyFinalized` exactly when the automaton is finalized. Otherwise it is `LabelConflict(pattern, tag, existing)` exactly when the pattern already has a different label, and `Ok` otherwise. On `Ok`, the dictionary gains `pattern := tag`, the spelled strings gain exactly the pattern's prefixes, and following the pattern's bytes from the root reaches a node labelled `tag`. An error, or repeating an existing (pattern, label), leaves nodes and fail links unchanged. Existing edges are always kept, and the invariant is preserved. |
| Categorosaurus.LabelMaker.InsertPattern | src/lib.rs:40-60 | The same as `Insert` for an automaton that is not finalized. A label conflict is detected after the walk, and the walk changed nothing then. |
| Categorosaurus.LabelMaker.MakePath | src/lib.rs:40-47 | The walk ends at a node spelling the pattern. It adds exactly the pattern's missing prefixes, as unlabelled nodes, and keeps every old node and edge. It leaves the dictionary unchanged, and it changes nothing at all if the pattern was already spelled. |
| Categorosaurus.LabelMaker.Descend | src/lib.rs:41-46 | One byte of the walk keeps the walk invariant `PathInv` and advances the cursor to the node spelling one more byte of the pattern. |
| Categorosaurus.LabelMaker.DescendNew | src/lib.rs:43-46 | The same as `Descend` when the slot for the byte is empty. |
| Categorosaurus.LabelMaker.AddChild | src/lib.rs:43-44 | The new empty node is appended to the arena and hung in the empty slot. It gets no fail link. It spells the parent's string plus the byte, and the arena stays a trie. |
| Categorosaurus.ExtendTrie | src/lib.rs:43-44 | Hanging a new empty node in an empty slot keeps the arena a trie and keeps every existing edge. |
| Categorosaurus.ExtendIndex | src/lib.rs:43-44 | After a node is added, `words` and `index` are still inverse to each other. |
| Categorosaurus.ExtendSlots | src/lib.rs:43-44 | After a node is added, a slot is occupied exactly when the trie spells the extended string, by the node in that slot. |
| Categorosaurus.ExtendParents | src/lib.rs:43-44 | After a node is added, every non-root node still spells its parent's string plus one byte. |
| Categorosaurus.LabelMaker.SetLabel | src/lib.rs:49-58 | Exactly the reached node's label changes. The dictionary gains the reached string with `tag`. The new nodes of the walk now lie on a labelled path, and following the string from the root reaches the node. |
| Categorosaurus.RelabelTrie | src/lib.rs:58 | Writing a label keeps the arena a trie. |
| Categorosaurus.DictionaryLabel | src/lib.rs:58 | Labelling the node of `w` sets exactly the dictionary entry of `w`. |
| Categorosaurus.LabelCovers | src/lib.rs:58 | After labelling the reached node, every node created by the walk lies on the path of a labelled node. |
| Categorosaurus.DictionaryGrows | src/lib.rs:40-47 | Growing the trie by unlabelled nodes leaves the dictionary unchanged. |
| Categorosaurus.LabelMaker.PrefixInTrie | src/lib.rs:40-47 | Every prefix of a spelled string is spelled. |
| Categorosaurus.LabelMaker.LookupAgreesWithWords | src/lib.rs:40-47 | Following child slots from node `n` along `w` reaches the node spelling `words[n] + w`, and it fails exactly when that string is not spelled. |
| Categorosaurus.LabelMaker.TrieIsPrefixes | src/lib.rs:40-58 | In a valid automaton, the spelled strings are exactly the empty string and the prefixes of the inserted patterns. |
| Categorosaurus.LabelMaker.DictionaryAt | src/lib.rs:49-58 | A node's string is in the dictionary exactly when the node is labelled, and then with that label. |
| Categorosaurus.LabelMaker.Finalize | src/lib.rs:91-131 | Only fail links and the flag change. Afterwards the automaton is valid and finalized. Every non-root node fails to the node spelling the longest proper suffix of its string that the trie spells, and the root's fail link stays unset. |
| Categorosaurus.LabelMaker.LinkBreadthFirst | src/lib.rs:92-130 | Every non-root node is dequeued exactly once, in order of depth, and afterwards every fail link is set correctly. |
| Categorosaurus.LabelMaker.LinkRootChildren | src/lib.rs:95-100 | Every child of the root fails to the root. The queue is the root's children in byte order, and no other fail link changes. |
| Categorosaurus.LabelMaker.RootChildren | src/lib.rs:95-100 | The root's children, in byte order, are without repetition exactly the nodes of depth one, and their link target is the root. |
| Categorosaurus.LabelMaker.BfsStart | src/lib.rs:95-102 | After the root's children are linked and enqueued, the queue loop invariant `BfsInv` holds with nothing dequeued. |
| Categorosaurus.LabelMaker.VisitNext | src/lib.rs:102-128 | One round of the queue loop keeps `BfsInv`. It dequeues the head and enqueues the head's children in byte order. |
| Categorosaurus.LabelMaker.ChildLinks | src/lib.rs:103-126 | The head's children are collected in byte order, and each is linked to its link target. Every other node keeps its fail link. |
| Categorosaurus.LabelMaker.SlotsLinkedStep | src/lib.rs:104-125 | Linking the child in an occupied slot to the node that spells the longest suffix of its string without the first byte keeps the slot loop's invariant. |
| Categorosaurus.LabelMaker.SlotsLinkedSkip | src/lib.rs:104 | An empty slot keeps the slot loop's invariant. |
| Categorosaurus.LabelMaker.BfsStep | src/lib.rs:102-128 | The links the slot loop leaves for the head's children extend the queue loop invariant by one round. |
| Categorosaurus.LabelMaker.BfsHead | src/lib.rs:102 | The head of the queue is a non-root node that has not been dequeued, and no waiting node is shallower. |
| Categorosaurus.LabelMaker.BfsLinkedBelow | src/lib.rs:102-106 | When a node is dequeued, every node no deeper than it has its correct fail link. This is why its own link and the walk from it can be trusted. |
| Categorosaurus.LabelMaker.UnvisitedIsDeep | src/lib.rs:102-128 | A node that is neither dequeued nor waiting lies deeper than every waiting node. |
| Categorosaurus.LabelMaker.BfsDone | src/lib.rs:102 | When the queue is empty, every non-root node has been dequeued exactly once, and every fail link is correct. |
| Categorosaurus.LayeredStep | src/lib.rs:102-124 | Dequeuing the head and enqueueing nodes one level deeper keeps queue and dequeued nodes disjoint, free of repetition and ordered by depth. |
| Categorosaurus.LayeredQueue | src/lib.rs:102-124 | After a round, the queue holds no node twice and is ordered by depth. |
| Categorosaurus.Dequeue | src/lib.rs:102 | Dequeuing a node not dequeued before strictly shrinks the set of nodes left to dequeue, which is why the queue loop ends. |
| Categorosaurus.LabelMaker.ChildListSpec | src/lib.rs:103-104 | The children met by a byte loop over slots below `i` are, without repetition, exactly the nodes hanging from `n` whose last byte is below `i`. |
| Categorosaurus.LabelMaker.ChildListMembers | src/lib.rs:103-104 | The children met by a byte loop over slots below `i` are exactly the nodes hanging from `n` whose last byte is below `i`. |
| Categorosaurus.LabelMaker.ChildListDistinct | src/lib.rs:103-104 | A byte loop over the slots of `n` meets no node twice. |
| Categorosaurus.LabelMaker.ChildListParents | src/lib.rs:103-124 | Every node the byte loop enqueues hangs from the dequeued node. |
| Categorosaurus.LabelMaker.SlotOwner | src/lib.rs:103-104 | A node hanging from `n` ends in byte `b` exactly when it is the child in slot `b`. |
| Categorosaurus.LabelMaker.HeadLinked | src/lib.rs:106 | A dequeued node's fail link is set, to the node spelling the longest suffix of its string without the first byte. |
| Categorosaurus.LabelMaker.ChildLinkTarget | src/lib.rs:117-121 | The link target of the child in slot `b` is the node spelling the longest suffix of the parent's string, minus its first byte, plus `b`. |
| Categorosaurus.LabelMaker.LinkTargetIs | src/lib.rs:117-121 | Any node spelling the longest proper suffix of a node's string in the trie is that node's link target. |
| Categorosaurus.LabelMaker.Step | src/lib.rs:74-80 | From the node spelling the longest suffix of `s` in the trie, the fail-link walk and the child step reach the node spelling the longest suffix of `s + [b]`. |
| Categorosaurus.LabelMaker.WalkStart | src/lib.rs:74 | At the start of the walk, no longer suffix of `s` that the trie spells has a child for `b`. |
| Categorosaurus.LabelMaker.WalkStep | src/lib.rs:74-76 | Following one fail link keeps the walk invariant and strictly shortens the spelled string. |
| Categorosaurus.LabelMaker.WalkExit | src/lib.rs:78-80 | Where the walk stops, taking the child or staying at the root reaches the longest suffix of `s + [b]`. |
| Categorosaurus.LabelMaker.Categorize | src/lib.rs:63-88 | The result is the reference scan result, `Reference.Categorize(Dictionary(), text)`, and it is `None` on empty text. |
| Categorosaurus.LabelMaker.ScanStep | src/lib.rs:82-84 | The node reached after a byte is the reference state, and recording its label gives the reference result. |
| Categorosaurus.LabelMaker.FailChainReachesRoot | src/lib.rs:106-114 | After finalization, following fail links from any node reaches the root within as many steps as the node's depth. |
| Categorosaurus.LabelMaker.RootChildrenFailToRoot | src/lib.rs:95-98 | After finalization, the root's children fail to the root. |
| Reference.TrieWords | src/lib.rs:40-47 | The trie strings of a dictionary contain the empty string and every pattern. |
| Reference.InTrieWords | src/lib.rs:40-47 | A string is a trie string exactly when it is empty or a prefix of some pattern. |
| Reference.CategorizeStep | src/lib.rs:82-84 | One more byte records the new state's label if the state is a pattern, and keeps the previous result otherwise. |
| Reference.CategorizeIsLabel | src/lib.rs:68-87 | A result other than `None` is the label of some pattern. |
| Reference.CategorizeSticky | src/lib.rs:82-84 | Once a label is recorded, reading more bytes never resets the result to `None`. |
| Reference.CategorizePattern | src/lib.rs:71-85 | Scanning exactly a non-empty pattern returns that pattern's label. |
| Reference.LastMatchWins | src/lib.rs:71-87 | The result is the label of the last state that is a pattern. This is the "triceratops" test at src/lib.rs:182-193. |
| Reference.NoMatchNone | src/lib.rs:68-87 | If no state after any byte is a pattern, the result is `None`. |
| Reference.NoneNoMatch | src/lib.rs:68-87 | If the result is `None`, no state after any byte is a pattern. |
| Reference.CategorizeNone | src/lib.rs:68-87 | The result is `None` exactly when no state after any byte is a pattern. |
| Reference.NoOccurrenceNone | src/lib.rs:68-87 | A text in which no pattern occurs is categorized as `None`. |
| ByteStrings.LongestSuffixFromIsSuffix | src/lib.rs:108-121 | The longest suffix searched from position `k` is a suffix of the string. |
| ByteStrings.LongestSuffixFromMaximal | src/lib.rs:108-121 | No suffix in the set that starts at position `k` or later is longer than the one found. |
| ByteStrings.LongestSuffixIsSuffix | src/lib.rs:108-121 | The longest suffix in the set is a suffix of the string. |
| ByteStrings.LongestSuffixMaximal | src/lib.rs:108-121 | No suffix of the string that belongs to the set is longer than `LongestSuffix`. |
| ByteStrings.LongestSuffixUnique | src/lib.rs:108-121 | A suffix in the set that no other suffix in the set exceeds is the longest one. |
| ByteStrings.LongerSuffixNotIn | src/lib.rs:108-121 | No suffix longer than the longest one belongs to the set. |
| ByteStrings.LongestSuffixOfMember | src/lib.rs:71-85 | A member of the set is its own longest suffix in it. |

## Left out

- Raw pointers and `unsafe` aliasing: nodes live in an arena indexed by `nat`. A fail link is an index, and a child edge is an index in a map. Whether the pointer code is memory-safe is not part of this model.
- The `else` branch for a missing fail link on a non-root node (src/lib.rs:111-113) cannot be reached. The queue loop invariant proves every node on the walk has its fail link set, so the model has no such branch.
- Error text built with `format!` and `Box<dyn Error>` is modelled as the `InsertError` datatype. `LabelConflict` carries the pattern, the new label and the existing label.
- The `panic!` of `categorize` before finalization is the precondition `finalized` of `Categorize`.
- `&str` and UTF-8 are left out. Patterns and text are byte sequences, since the source uses only `as_bytes()`. Labels stay `string`.
- The test-only `println!` is left out.
- A node's 256 child slots are a sparse `map<byte, nat>`. The byte loops still run over `0..256` in order, so the enqueue order is the source's.
- `ChildLinks` collects the new fail links of the dequeued node's children in a local sequence, and `VisitNext` stores them once the slot loop ends. The source writes each link as it goes. The walks in that loop only read links of shallower nodes, which do not change.
- Repeated `finalize` is allowed, as in the source, which has no guard. Running it again recomputes the same links.
- The source returns `None` for empty text even when the empty pattern carries a label, because the root's label is never read before the first byte. The model follows the source. A description of the library that returns the root's label for empty text disagrees with the code here.
