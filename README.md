# String algorithms: suffix tree, Aho-Corasick, suffix arrays

A Dafny model of four string-algorithm classes and proofs about them:

- **`SuffixTree.dfy`**: Ukkonen's online suffix-tree construction (`UkkonenAlgorithm.SuffixTree`).
  - The tree is a node arena (`seq<Node>`), and a node index stands for a `Node` reference.
  - Every leaf's end is the shared `currentEnd` cell, modelled as the `Shared` end.
  - The class keeps the text, the active point, `lastNewNode` and the pending-leaf counter as fields, which its methods update.
  - The exception that signals Rule 3 becomes an `Extension` result.
  - Where the Java code would dereference null, the model returns a `Failure` instead.
- **`AhoCorasick.dfy`**: the Aho-Corasick automaton (`AhoCorasick`).
  - The trie is a node arena inside a `Trie` object.
  - `insertWord` is a recursive method.
  - Each of the two link passes is a recursive method, with a loop over a node's children.
  - The search is a method with a loop.
  - Each method is proved against a specification function: `Word`, `SuffixLinkRule`, `FirstWordEnd`, `ChainReports` and `Scan`.
  - What the search prints is returned as a sequence of words.
- **`SuffixArray.dfy`**: the prefix-doubling suffix array (`SuffixArray`).
  - The `Suffix[]` and `int[]` arrays are Dafny arrays, updated in place by the loops of `buildSuffixArray`.
  - Each loop is specified by a function on sequences: `Initial`, `DenseRanks`, `Scatter`, `Refresh`, `Sort` and `Doubling`.
  - The result is proved to be the suffix array of the text when no character lies below `'a'`.
- **`SuffixArraySanders.dfy`**: the start of the Kärkkäinen–Sanders (DC3) construction (`SuffixArraySanders`).
  - It covers the mod-3 sizes, the loop that writes the sample positions into `s12`, and the three `radixPass` counting sorts.
  - The Java array exceptions are modelled as a `Fault` result.
- **`Wrappers.dfy`**: the `Option` type shared by the modules.

The model follows the code as written, including its defects. The "Findings" section lists the defects the model exhibits on a concrete input. Other points where the model keeps a questionable reading of the code, such as the degenerate split and the `text[activeLength]` comparison, are under "Left out". Where the code and its own comments disagree, the code decides:

- `SuffixArraySanders.java` names a suffix-array construction, but as written it never completes.
- `AhoCorasick.java` promises every occurrence, but as written it prints only a sound subset of them.
- `SuffixTree.java` builds a suffix tree, but as written it dereferences null on the input "aaa".

## Model

| member | source | states |
|---|---|---|
| SuffixTree.LengthAfterAdvance | algorithms/string-algorithms/ukkonen/src/UkkonenAlgorithm/SuffixTree.java:29-31 | Advancing the shared end cell by one lengthens every leaf edge by exactly one and leaves an edge with its own end cell unchanged, which is how one increment of `currentEnd` extends all leaves at once |
| SuffixTree.WithTerminator | algorithms/string-algorithms/ukkonen/src/UkkonenAlgorithm/SuffixTree.java:182-184 | The text gains exactly one character, U+FE89, at its end, the original text is its prefix, and when the input does not contain U+FE89 the terminator occurs only at the last position |
| SuffixTree.ChildInArena | algorithms/string-algorithms/ukkonen/src/UkkonenAlgorithm/SuffixTree.java:15-25 | In a well-formed arena every child key is a text position, and every child is a non-root node other than its parent whose edge has an end cell |
| SuffixTree.SplitArena | algorithms/string-algorithms/ukkonen/src/UkkonenAlgorithm/SuffixTree.java:161-180 | A split adds exactly two nodes to the arena: the new internal node and the new leaf |
| SuffixTree.SplitArenaShape | algorithms/string-algorithms/ukkonen/src/UkkonenAlgorithm/SuffixTree.java:161-180 | The new internal node takes the old child's key, keeps the first `len` characters of the edge in an end cell of its own, links to the root and has two children: the old child under its new begin and the new leaf under the new character. The old child's begin advances by `len`, the two edge lengths add up to the old one, the previous `lastNewNode` links to the new node, and nothing else changes |
| SuffixTree.RootLeafWellFormed | algorithms/string-algorithms/ukkonen/src/UkkonenAlgorithm/SuffixTree.java:110-113 | Hanging a new shared-end leaf for the current character under the root keeps the arena well formed |
| SuffixTree.SplitArenaWellFormed | algorithms/string-algorithms/ukkonen/src/UkkonenAlgorithm/SuffixTree.java:161-180 | Splitting an edge strictly inside its length keeps the arena well formed, with every begin and end inside the text and every child link within the arena |
| SuffixTree.SuffixTree.ActiveChild | algorithms/string-algorithms/ukkonen/src/UkkonenAlgorithm/SuffixTree.java:130 | The node the active edge leads to is a non-root node of the arena with an end cell |
| SuffixTree.SuffixTree.constructor | algorithms/string-algorithms/ukkonen/src/UkkonenAlgorithm/SuffixTree.java:51-56 | The object holds the input followed by the terminator, and when no phase failed the shared end has reached the last character |
| SuffixTree.SuffixTree.GetText | algorithms/string-algorithms/ukkonen/src/UkkonenAlgorithm/SuffixTree.java:58-60 | Returns the stored text, terminator included |
| SuffixTree.SuffixTree.AddTerminalCharToText | algorithms/string-algorithms/ukkonen/src/UkkonenAlgorithm/SuffixTree.java:182-184 | The text becomes the old text followed by the terminator |
| SuffixTree.SuffixTree.BuildSuffixTree | algorithms/string-algorithms/ukkonen/src/UkkonenAlgorithm/SuffixTree.java:62-72 | Appends the terminator, starts from a lone root, and runs one phase per character; without a failure the shared end reaches the last character, otherwise it stops inside the text |
| SuffixTree.SuffixTree.ExecutePhase | algorithms/string-algorithms/ukkonen/src/UkkonenAlgorithm/SuffixTree.java:74-90 | The shared end advances by one. The pending-leaf counter grows by one and drops by the number of explicit (Rule 2) extensions; it is zero exactly when the phase ends with every pending leaf inserted. Each Rule 2 extension adds one or two nodes (a root leaf, or a split node and its leaf), so the arena grows by between one and two nodes per extension, and is unchanged when no extension happened. A Rule 3 stop leaves a positive active length. An aborted phase stops in the state the failing extension met: no active node, a missing active edge, or an active point at the edge's end with no matching grandchild |
| SuffixTree.SuffixTree.Extend | algorithms/string-algorithms/ukkonen/src/UkkonenAlgorithm/SuffixTree.java:81-85 | One extension from the root or the active point: Rule 2 inserts one pending leaf and adds one or two nodes, Rule 3 and failures leave the tree, the counter and the last new node unchanged, and a failure stops in the state that caused it |
| SuffixTree.SuffixTree.IsSuffixInTreeAlready | algorithms/string-algorithms/ukkonen/src/UkkonenAlgorithm/SuffixTree.java:117-155 | With length 0: present exactly when some root child's first character equals the new one, and then the active edge is that child and the length becomes 1. Mid edge: present exactly when `text[activeLength]` equals the new character, and then the length grows by one. At the edge's end: present exactly when some child of the edge's node starts with the new character, and then the active point moves onto it with length 1. A missing edge is not present, a null active node is a failure, and when not present the active point is unchanged |
| SuffixTree.SuffixTree.ExtendFromRoot | algorithms/string-algorithms/ukkonen/src/UkkonenAlgorithm/SuffixTree.java:106-115 | Rule 3 fires exactly when some root child starts with the new character, and then the tree is unchanged. Otherwise a new leaf for the new character hangs under the root, the last node of the arena, and one fewer leaf is pending |
| SuffixTree.SuffixTree.ExtendFromActivePoint | algorithms/string-algorithms/ukkonen/src/UkkonenAlgorithm/SuffixTree.java:92-104 | A null active node fails, and only it. A missing active edge is a `MissingEdge` failure exactly when the key is absent. Mid edge: Rule 3 exactly when `text[activeLength]` equals the new character (the length grows by one), otherwise Rule 2. At the edge's end: Rule 3 exactly when a grandchild starts with the new character (the active point moves onto it with length 1), otherwise the split is degenerate. Rule 3 and failures leave the tree, the counter and (for failures) the active point unchanged. A Rule 2 extension splits the active edge at the active length, decrements the pending count, and moves the active point: at the root the edge key moves one position right and the length shrinks by one, elsewhere the active node follows its suffix link |
| SuffixTree.SuffixTree.SplitAndAdvance | algorithms/string-algorithms/ukkonen/src/UkkonenAlgorithm/SuffixTree.java:96-102 | The arena becomes the split of the active edge at the active length, one pending leaf is inserted, the new internal node is the last new node, and the active point moves as the root or suffix-link branch says |
| SuffixTree.EdgeByCharacter | algorithms/string-algorithms/ukkonen/src/UkkonenAlgorithm/SuffixTree.java:130 | A child found by character starts with the character at the given position, and none is found only when no child does |
| SuffixTree.AaaPhaseLosesEdge | algorithms/string-algorithms/ukkonen/src/UkkonenAlgorithm/SuffixTree.java:97-99 | For "aaa", when the last phase starts the arena is well formed with one root leaf under key 0, the active point lies inside that edge and the compared characters differ; the split leaves the root with key 0 only, so key 1, which the root branch moves the active edge to, is missing |
| SuffixTree.AaaCharacterLookupFindsEdge | algorithms/string-algorithms/ukkonen/src/UkkonenAlgorithm/SuffixTree.java:162 | After that split, a lookup by the character at position 1 finds the root's key 0, the split node |
| SuffixTree.SuffixTree.SplitEdge | algorithms/string-algorithms/ukkonen/src/UkkonenAlgorithm/SuffixTree.java:161-180 | The arena becomes the split of the active edge at the active length, the new internal node becomes `lastNewNode`, and one fewer leaf is pending |
| AhoCorasick.FirstWithChild | algorithms/string-algorithms/aho-corasick/src/AhoCorasick.java:76-87 | The node it returns has a child under the character |
| AhoCorasick.FirstWithChildIsFirst | algorithms/string-algorithms/aho-corasick/src/AhoCorasick.java:78-80 | The search loop of `findLongestSuffix` stops at the first node on the longest-suffix chain that has a child under the character: the result lies on the chain, and it is found whenever some node of the chain has such a child, no later than that node |
| AhoCorasick.FirstWithChildSuffix | algorithms/string-algorithms/aho-corasick/src/AhoCorasick.java:78-80 | The node the search loop stops at spells a suffix of the word it started from |
| AhoCorasick.SuffixLinkRule | algorithms/string-algorithms/aho-corasick/src/AhoCorasick.java:76-87 | `findLongestSuffix` always sets a link: the root when no node on the parent's chain continues with the node's character |
| AhoCorasick.SuffixLinkRuleSound | algorithms/string-algorithms/aho-corasick/src/AhoCorasick.java:76-87 | The longest-suffix link `findLongestSuffix` sets spells a proper suffix of the node's word |
| AhoCorasick.SuffixRelinked | algorithms/string-algorithms/aho-corasick/src/AhoCorasick.java:76-87 | Resetting one node's longest-suffix link by that rule keeps every link of the trie a proper-suffix link |
| AhoCorasick.FirstWordEnd | algorithms/string-algorithms/aho-corasick/src/AhoCorasick.java:98-106 | The node it returns, if any, is a word end |
| AhoCorasick.FirstWordEndIsFirst | algorithms/string-algorithms/aho-corasick/src/AhoCorasick.java:99-103 | The loop of `findDictionarySuffixLink` stops at the first word end on the longest-suffix chain: the result lies on the chain, and it is found whenever the chain holds a word end, no later than that one |
| AhoCorasick.FirstWordEndSuffix | algorithms/string-algorithms/aho-corasick/src/AhoCorasick.java:99-103 | The word end the loop stops at spells a suffix of the word it started from |
| AhoCorasick.DictionaryLinkSound | algorithms/string-algorithms/aho-corasick/src/AhoCorasick.java:98-106 | The dictionary-suffix link `findDictionarySuffixLink` sets spells a proper suffix of the node's word |
| AhoCorasick.DictionaryRelinked | algorithms/string-algorithms/aho-corasick/src/AhoCorasick.java:98-106 | Resetting one node's dictionary link keeps every link of the trie a proper-suffix link |
| AhoCorasick.ChildWord | algorithms/string-algorithms/aho-corasick/src/AhoCorasick.java:44-54 | A child under key `k` spells its parent's word followed by `k` |
| AhoCorasick.EmptyWordIsRoot | algorithms/string-algorithms/aho-corasick/src/AhoCorasick.java:44-54 | Only the root spells the empty word |
| AhoCorasick.WordInjective | algorithms/string-algorithms/aho-corasick/src/AhoCorasick.java:44-54 | Two nodes of a trie that spell the same word are the same node |
| AhoCorasick.WordStable | algorithms/string-algorithms/aho-corasick/src/AhoCorasick.java:57-74 | Adding nodes after the existing ones leaves every existing node's word as it was |
| AhoCorasick.AttachCells | algorithms/string-algorithms/aho-corasick/src/AhoCorasick.java:69-71 | Creating a child appends one node with that character and the parent as its parent, adds it under the character to the parent's children, and changes no other node |
| AhoCorasick.AttachWords | algorithms/string-algorithms/aho-corasick/src/AhoCorasick.java:69-71 | The new child spells the parent's word followed by the character, and every older node keeps its word |
| AhoCorasick.AttachShaped | algorithms/string-algorithms/aho-corasick/src/AhoCorasick.java:69-71 | Creating a child for a character the parent does not have keeps the arena a trie and keeps all older words |
| AhoCorasick.AttachLinked | algorithms/string-algorithms/aho-corasick/src/AhoCorasick.java:69-71 | Creating a child keeps every link a proper-suffix link and keeps all older words |
| AhoCorasick.MarkInserted | algorithms/string-algorithms/aho-corasick/src/AhoCorasick.java:58-61 | Inserting the empty word at a node marks that node a word end and changes nothing else |
| AhoCorasick.DescendInserted | algorithms/string-algorithms/aho-corasick/src/AhoCorasick.java:66-67 | Inserting `[c] + rest` where the child under `c` exists is inserting `rest` at that child |
| AhoCorasick.AttachInserted | algorithms/string-algorithms/aho-corasick/src/AhoCorasick.java:68-73 | Inserting `[c] + rest` where the child under `c` is missing is creating that child and inserting `rest` there |
| AhoCorasick.SuffixLinkTurn | algorithms/string-algorithms/aho-corasick/src/AhoCorasick.java:92-95 | One turn of the loop in `findAllLongestSuffixes`, linking a child and then its whole subtree, extends the set of children whose subtrees are linked by that child; only longest-suffix links change |
| AhoCorasick.SuffixLinksDone | algorithms/string-algorithms/aho-corasick/src/AhoCorasick.java:89-96 | After every child has had its turn, every node below the parent has a longest-suffix link and nothing else changed; below the root, every child of the root links to the root |
| AhoCorasick.ChainsStable | algorithms/string-algorithms/aho-corasick/src/AhoCorasick.java:108-115 | Changing only dictionary links leaves every node's first word end on its longest-suffix chain as it was, so the dictionary pass reads the same chains throughout |
| AhoCorasick.DictionaryLinkTurn | algorithms/string-algorithms/aho-corasick/src/AhoCorasick.java:111-114 | One turn of the loop in `findAllDictionarySuffixLinks` extends the set of children whose subtrees carry their dictionary links by that child; only dictionary links change |
| AhoCorasick.DictionaryLinksDone | algorithms/string-algorithms/aho-corasick/src/AhoCorasick.java:108-115 | After every child has had its turn, every node below the starting node links to the first word end on its longest-suffix chain, and nothing else changed |
| AhoCorasick.InsertExtendsDictionary | algorithms/string-algorithms/aho-corasick/src/AhoCorasick.java:120-122 | Inserting the next dictionary word extends the set of spelled word ends by exactly that word: a node is a word end exactly when its word is one of the words inserted so far |
| AhoCorasick.LinkPassesBuildAutomaton | algorithms/string-algorithms/aho-corasick/src/AhoCorasick.java:117-128 | A trie of exactly the dictionary words, after both link passes, is the automaton: links are proper suffixes, every non-root node has a longest-suffix link, the root's children link to the root, and each dictionary link is the first word end on the node's chain |
| AhoCorasick.LinkPassesKeepDictionary | algorithms/string-algorithms/aho-corasick/src/AhoCorasick.java:124-125 | The link passes change no word and no word end, so the trie still holds exactly the dictionary words |
| AhoCorasick.LinkPassesSetLinks | algorithms/string-algorithms/aho-corasick/src/AhoCorasick.java:124-125 | After the link passes the root has no links, every other node has a longest-suffix link, the root's children link to the root, and each dictionary link is the first word end on the longest-suffix chain |
| AhoCorasick.ChainStep | algorithms/string-algorithms/aho-corasick/src/AhoCorasick.java:140-148 | Following a dictionary link reaches a strictly shorter word, prints this node's word if it is a word end followed by what the linked node's chain prints, and ends where the linked node's chain ends |
| AhoCorasick.ChainEnd | algorithms/string-algorithms/aho-corasick/src/AhoCorasick.java:140-145 | The printing loop stops at a node with no dictionary link |
| AhoCorasick.ChainEndSuffix | algorithms/string-algorithms/aho-corasick/src/AhoCorasick.java:140-145 | The node the printing loop stops at spells a suffix of the node it started from |
| AhoCorasick.ChainReportsSound | algorithms/string-algorithms/aho-corasick/src/AhoCorasick.java:140-148 | Every word the printing loop prints is a dictionary word (a word-end node spells it) and a suffix of the node it started from |
| AhoCorasick.Step | algorithms/string-algorithms/aho-corasick/src/AhoCorasick.java:134-151 | Stepping on one character leaves the iterator at a node of the arena |
| AhoCorasick.StepCases | algorithms/string-algorithms/aho-corasick/src/AhoCorasick.java:134-151 | When no node of the iterator's chain continues with the character, the iterator returns to the root and nothing is printed. Otherwise it moves to that child and prints the word ends of the child's dictionary chain, stopping where that chain ends |
| AhoCorasick.StepSound | algorithms/string-algorithms/aho-corasick/src/AhoCorasick.java:134-151 | If the iterator spells a suffix of the text read so far, then after one step it spells a suffix of the extended text, and every printed word is a dictionary word ending at the new character |
| AhoCorasick.Scan | algorithms/string-algorithms/aho-corasick/src/AhoCorasick.java:130-153 | The scan leaves the iterator at a node of the arena |
| AhoCorasick.ScanSnoc | algorithms/string-algorithms/aho-corasick/src/AhoCorasick.java:133-152 | Scanning one more character is scanning the prefix and then taking one step; the printed words are concatenated |
| AhoCorasick.ScanSound | algorithms/string-algorithms/aho-corasick/src/AhoCorasick.java:130-153 | Every word the search prints is a dictionary word that occurs in the searched string, and the iterator always spells a suffix of the text read |
| AhoCorasick.DocShaped | algorithms/string-algorithms/aho-corasick/src/AhoCorasick.java:11-17 | The trie for the dictionary {a, ab} has the root, a node spelling "a" and a node spelling "ab" |
| AhoCorasick.DocLinked | algorithms/string-algorithms/aho-corasick/src/AhoCorasick.java:11-17 | Its links are proper-suffix links |
| AhoCorasick.DocDictionary | algorithms/string-algorithms/aho-corasick/src/AhoCorasick.java:11-17 | Its word ends are exactly "a" and "ab" |
| AhoCorasick.DocAutomaton | algorithms/string-algorithms/aho-corasick/src/AhoCorasick.java:11-17 | It is the automaton the preparation builds for {a, ab} |
| AhoCorasick.DocExample | algorithms/string-algorithms/aho-corasick/src/AhoCorasick.java:11-17 | Searching "aba" with the dictionary {a, ab} prints a, ab, a, as the class comment says |
| AhoCorasick.MissWords | algorithms/string-algorithms/aho-corasick/src/AhoCorasick.java:117-128 | The trie for the dictionary {abd, b} spells "a", "ab", "abd" and "b" at nodes 1 to 4 |
| AhoCorasick.MissShaped | algorithms/string-algorithms/aho-corasick/src/AhoCorasick.java:117-128 | That arena is a trie |
| AhoCorasick.MissLinked | algorithms/string-algorithms/aho-corasick/src/AhoCorasick.java:117-128 | Its links are proper-suffix links |
| AhoCorasick.MissDictionary | algorithms/string-algorithms/aho-corasick/src/AhoCorasick.java:117-128 | Its word ends are exactly "abd" and "b" |
| AhoCorasick.MissDictionaryLinks | algorithms/string-algorithms/aho-corasick/src/AhoCorasick.java:98-106 | Each dictionary link is the first word end on the node's longest-suffix chain |
| AhoCorasick.MissAutomaton | algorithms/string-algorithms/aho-corasick/src/AhoCorasick.java:117-128 | It satisfies everything the preparation promises for {abd, b} |
| AhoCorasick.MissChains | algorithms/string-algorithms/aho-corasick/src/AhoCorasick.java:140-148 | The dictionary chains from "a", "ab" and "abd" print nothing, "b" and "abd", and the chain from "ab" ends at "b" |
| AhoCorasick.MissWalks | algorithms/string-algorithms/aho-corasick/src/AhoCorasick.java:134-136 | Where the longest-suffix walk finds each character of "abd", and that from "b" no node has a child for 'd' |
| AhoCorasick.ScanAppend | algorithms/string-algorithms/aho-corasick/src/AhoCorasick.java:133-152 | Scanning a text extended by one character is scanning the text and taking one step |
| AhoCorasick.ScanAbd | algorithms/string-algorithms/aho-corasick/src/AhoCorasick.java:133-152 | Three given steps over "a", "b", "d" compose into the scan of "abd" |
| AhoCorasick.MissExample | algorithms/string-algorithms/aho-corasick/src/AhoCorasick.java:130-153 | With the automaton for {abd, b}, "abd" occurs in "abd" but the search prints only "b" |
| AhoCorasick.CorrectedStepAgrees | algorithms/string-algorithms/aho-corasick/src/AhoCorasick.java:138-148 | A step that keeps the iterator at the reached child prints what the step as written prints; the step as written ends where that child's dictionary chain ends |
| AhoCorasick.CorrectedScanAppend | algorithms/string-algorithms/aho-corasick/src/AhoCorasick.java:133-152 | Scanning one more character with the corrected step is scanning the text and taking one corrected step |
| AhoCorasick.CorrectedScanSnoc | algorithms/string-algorithms/aho-corasick/src/AhoCorasick.java:133-152 | The same, one position of a text at a time |
| AhoCorasick.CorrectedStepSound | algorithms/string-algorithms/aho-corasick/src/AhoCorasick.java:134-151 | If the iterator spells a suffix of the text read, after one corrected step it spells a suffix of the extended text |
| AhoCorasick.CorrectedScanSound | algorithms/string-algorithms/aho-corasick/src/AhoCorasick.java:130-153 | Every word the corrected search prints is a dictionary word that occurs in the text, and its iterator spells a suffix of the text read |
| AhoCorasick.MissCorrectedSteps | algorithms/string-algorithms/aho-corasick/src/AhoCorasick.java:134-151 | The corrected steps over "abd" from the root reach "a", "ab" and "abd", printing nothing, "b" and "abd" |
| AhoCorasick.CorrectedScanAb | algorithms/string-algorithms/aho-corasick/src/AhoCorasick.java:133-152 | Two given corrected steps over "a", "b" compose into the corrected scan of "ab" |
| AhoCorasick.CorrectedScanAbd | algorithms/string-algorithms/aho-corasick/src/AhoCorasick.java:133-152 | Three given corrected steps over "a", "b", "d" compose into the corrected scan of "abd" |
| AhoCorasick.CorrectedMissExample | algorithms/string-algorithms/aho-corasick/src/AhoCorasick.java:130-153 | With the automaton for {abd, b}, the corrected search of "abd" prints "b" and then "abd" |
| AhoCorasick.Reversed | algorithms/string-algorithms/aho-corasick/src/AhoCorasick.java:52 | The reversal has the same length and holds the characters in reverse order |
| AhoCorasick.ReversedSnoc | algorithms/string-algorithms/aho-corasick/src/AhoCorasick.java:47-53 | Reversing a word with one more appended character puts that character first, which is why walking parent links and reversing spells the word from the root |
| AhoCorasick.Trie.constructor | algorithms/string-algorithms/aho-corasick/src/AhoCorasick.java:32-36 | A trie holding only the root: character `\0`, no children, no links, no parent, not a word end |
| AhoCorasick.Trie.GetNodeWord | algorithms/string-algorithms/aho-corasick/src/AhoCorasick.java:44-54 | Returns the word the node spells on its path from the root |
| AhoCorasick.Trie.InsertWord | algorithms/string-algorithms/aho-corasick/src/AhoCorasick.java:57-74 | Inserting a word walks existing children and creates missing ones. The returned node spells the start node's word followed by the inserted word, and it is the one new word end. Older nodes keep their character, parent, links and children, new nodes carry no links, and the trie stays linked |
| AhoCorasick.Trie.FindLongestSuffix | algorithms/string-algorithms/aho-corasick/src/AhoCorasick.java:76-87 | Sets exactly the node's longest-suffix link, to the child under its character of the first node on the parent's chain that has one, or to the root |
| AhoCorasick.Trie.FindDictionarySuffixLink | algorithms/string-algorithms/aho-corasick/src/AhoCorasick.java:98-106 | Sets exactly the node's dictionary link, to the first word end on its longest-suffix chain, or to null |
| AhoCorasick.Trie.FindAllLongestSuffixes | algorithms/string-algorithms/aho-corasick/src/AhoCorasick.java:89-96 | Every node below the given one gets a longest-suffix link, nothing else changes, and below a node without a link (the root) every child links to the root |
| AhoCorasick.Trie.LinkSuffixSubtree | algorithms/string-algorithms/aho-corasick/src/AhoCorasick.java:92-95 | Each loop turn consumes one pending child key and keeps the pass invariant |
| AhoCorasick.Trie.FindAllDictionarySuffixLinks | algorithms/string-algorithms/aho-corasick/src/AhoCorasick.java:108-115 | Every node below the given one gets, as its dictionary link, the first word end on its longest-suffix chain, and nothing else changes |
| AhoCorasick.Trie.LinkDictionarySubtree | algorithms/string-algorithms/aho-corasick/src/AhoCorasick.java:111-114 | Each loop turn consumes one pending child key and keeps the pass invariant |
| AhoCorasick.Trie.Report | algorithms/string-algorithms/aho-corasick/src/AhoCorasick.java:141-143 | Prints the node's word exactly when the node is a word end |
| AhoCorasick.Trie.PrintDictionaryChain | algorithms/string-algorithms/aho-corasick/src/AhoCorasick.java:140-148 | Prints exactly the word ends along the node's dictionary chain, in order, and leaves the iterator at the chain's end |
| AhoCorasick.Trie.FollowDictionaryLink | algorithms/string-algorithms/aho-corasick/src/AhoCorasick.java:144 | Following one dictionary link reaches a shorter word and keeps the printed words a prefix of the chain's reports |
| AhoCorasick.Trie.SearchInString | algorithms/string-algorithms/aho-corasick/src/AhoCorasick.java:130-153 | Prints exactly what the scan model prints for the searched string |
| AhoCorasick.Trie.SearchStep | algorithms/string-algorithms/aho-corasick/src/AhoCorasick.java:134-151 | One character of the search: the new iterator and the printed words are exactly those of one step of the scan model |
| AhoCorasick.PrepareAhoCorasickAutomaton | algorithms/string-algorithms/aho-corasick/src/AhoCorasick.java:117-128 | Returns a fresh automaton for the dictionary words |
| AhoCorasick.SearchInString | algorithms/string-algorithms/aho-corasick/src/AhoCorasick.java:20-22 | Every printed word is one of the dictionary words and occurs in the searched string |
| SuffixArray.IntegerCompare | algorithms/string-algorithms/suffix-array/src/SuffixArray.java:9-11 | `Integer.compare`: negative exactly when the first is smaller, zero exactly when they are equal |
| SuffixArray.Compare | algorithms/string-algorithms/suffix-array/src/SuffixArray.java:6-14 | `SuffixComparator`: zero exactly when both ranks agree, and non-positive exactly when the rank pair is lexicographically at most the other, so it is a total preorder on rank pairs |
| SuffixArray.CharIndices | algorithms/string-algorithms/suffix-array/src/SuffixArray.java:77-79 | The start positions in array order |
| SuffixArray.Sort | algorithms/string-algorithms/suffix-array/src/SuffixArray.java:48 | `Arrays.sort` permutes its input |
| SuffixArray.SortSorted | algorithms/string-algorithms/suffix-array/src/SuffixArray.java:48 | The result is ordered by the comparator |
| SuffixArray.SortStable | algorithms/string-algorithms/suffix-array/src/SuffixArray.java:48 | The sort is stable: the suffixes with any one rank pair keep their relative order |
| SuffixArray.SortKeepsStarts | algorithms/string-algorithms/suffix-array/src/SuffixArray.java:48 | Sorting keeps the multiset of start positions |
| SuffixArray.Initial | algorithms/string-algorithms/suffix-array/src/SuffixArray.java:41-46 | Suffix i starts at i, has first rank `text[i] - 'a'` and second rank `text[i+1] - 'a'`, or -1 at the last position |
| SuffixArray.InitialFaithful | algorithms/string-algorithms/suffix-array/src/SuffixArray.java:41-46 | When no character is below the base, the initial rank pairs order the suffixes by their first two characters |
| SuffixArray.CharRanksFaithful | algorithms/string-algorithms/suffix-array/src/SuffixArray.java:43 | When no character is below the base, character codes order the suffixes by their first character |
| SuffixArray.DenseRanks | algorithms/string-algorithms/suffix-array/src/SuffixArray.java:52-67 | One new rank per suffix |
| SuffixArray.DenseRankAt | algorithms/string-algorithms/suffix-array/src/SuffixArray.java:57-65 | The renumbering loop: rank 0 first, then the previous rank plus one exactly when the rank pair changes |
| SuffixArray.DenseRanksBounds | algorithms/string-algorithms/suffix-array/src/SuffixArray.java:52-67 | The new ranks lie between 0 and n-1 and never decrease along the array |
| SuffixArray.DenseRankSteps | algorithms/string-algorithms/suffix-array/src/SuffixArray.java:57-65 | On a sorted array two suffixes get the same new rank exactly when their rank pairs are equal |
| SuffixArray.DenseRanksOrder | algorithms/string-algorithms/suffix-array/src/SuffixArray.java:52-67 | On a sorted array the new ranks compare exactly as the rank pairs do |
| SuffixArray.DenseRankPair | algorithms/string-algorithms/suffix-array/src/SuffixArray.java:52-67 | On a sorted array, one suffix's new rank is at most another's exactly when its rank pair is at most the other's |
| SuffixArray.Relabel | algorithms/string-algorithms/suffix-array/src/SuffixArray.java:52-67 | Renumbering keeps every suffix's start |
| SuffixArray.Scatter | algorithms/string-algorithms/suffix-array/src/SuffixArray.java:55 | `indicesRanks` keeps its length |
| SuffixArray.ScatterAt | algorithms/string-algorithms/suffix-array/src/SuffixArray.java:55-66 | After the loop, `indicesRanks` at each suffix's start holds that suffix's new rank |
| SuffixArray.Refresh | algorithms/string-algorithms/suffix-array/src/SuffixArray.java:69-72 | Refreshing second ranks keeps every suffix's start |
| SuffixArray.RefreshPairedAt | algorithms/string-algorithms/suffix-array/src/SuffixArray.java:69-72 | After the refresh, a suffix's first rank is its start's rank and its second rank is the rank of the suffix `k/2` positions later, or -1 past the end |
| SuffixArray.SecondOrder | algorithms/string-algorithms/suffix-array/src/SuffixArray.java:70-71 | Comparing second ranks compares the next `k/2` characters after each start |
| SuffixArray.PairOrder | algorithms/string-algorithms/suffix-array/src/SuffixArray.java:69-74 | Comparing (rank, second rank) pairs compares the first `k` characters of the two suffixes |
| SuffixArray.Combine | algorithms/string-algorithms/suffix-array/src/SuffixArray.java:69-74 | Rank pairs built from ranks faithful to length `k/2` are faithful to length `k` |
| SuffixArray.NextSuffixes | algorithms/string-algorithms/suffix-array/src/SuffixArray.java:52-74 | A round keeps the start positions |
| SuffixArray.Start | algorithms/string-algorithms/suffix-array/src/SuffixArray.java:41-48 | The first sorted array holds each start position exactly once |
| SuffixArray.RerankFaithful | algorithms/string-algorithms/suffix-array/src/SuffixArray.java:52-67 | After renumbering a sorted array whose pairs are faithful to length `len`, `indicesRanks` orders the starts by their first `len` characters |
| SuffixArray.RefreshedFaithful | algorithms/string-algorithms/suffix-array/src/SuffixArray.java:52-72 | Renumbering and refreshing turn keys faithful to `len` characters into keys faithful to `2*len` characters, keeping each start once |
| SuffixArray.SortStage | algorithms/string-algorithms/suffix-array/src/SuffixArray.java:74 | Sorting by faithful keys orders the suffixes by their first `len` characters |
| SuffixArray.RoundStage | algorithms/string-algorithms/suffix-array/src/SuffixArray.java:51-75 | One round takes an array ordered by `k/2` characters to one ordered by `k` characters |
| SuffixArray.FinalStage | algorithms/string-algorithms/suffix-array/src/SuffixArray.java:51 | Once the compared length reaches the text length, the array is in suffix order |
| SuffixArray.DoublingPermutes | algorithms/string-algorithms/suffix-array/src/SuffixArray.java:51-75 | The doubling rounds keep each start position exactly once |
| SuffixArray.DoublingSorts | algorithms/string-algorithms/suffix-array/src/SuffixArray.java:51-75 | The doubling rounds, from an array ordered by `k/2` characters, end in suffix order with each start once |
| SuffixArray.DoublingRound | algorithms/string-algorithms/suffix-array/src/SuffixArray.java:51-75 | The same, when at least one more round runs |
| SuffixArray.BuildPermutes | algorithms/string-algorithms/suffix-array/src/SuffixArray.java:40-80 | The result holds each start position 0..n-1 exactly once |
| SuffixArray.BuildIsSuffixArray | algorithms/string-algorithms/suffix-array/src/SuffixArray.java:40-80 | When no character is below the base, the result is the suffix array: a permutation of 0..n-1 listing the suffixes in strictly increasing lexicographic order |
| SuffixArray.OrderedStarts | algorithms/string-algorithms/suffix-array/src/SuffixArray.java:77-79 | Copying out the starts of an array in suffix order gives the suffix array |
| SuffixArray.SuffixArrayUnique | algorithms/string-algorithms/suffix-array/src/SuffixArray.java:36-38 | A text has only one suffix array |
| SuffixArray.BuildIsTheSuffixArray | algorithms/string-algorithms/suffix-array/src/SuffixArray.java:40-80 | For texts without characters below 'a', `getArray` returns the one suffix array of the text |
| SuffixArray.BananaOrdered | algorithms/string-algorithms/suffix-array/src/SuffixArrayTest.java:10-13 | [5, 3, 1, 0, 4, 2] is the suffix array of "banana" |
| SuffixArray.BananaExample | algorithms/string-algorithms/suffix-array/src/SuffixArrayTest.java:10-13 | The build returns [5, 3, 1, 0, 4, 2] for "banana", as the unit test expects |
| SuffixArray.BelowLetterMisordered | algorithms/string-algorithms/suffix-array/src/SuffixArray.java:43-45 | For "AA" the build returns [0, 1], though the suffix "A" comes before "AA" |
| SuffixArray.UpperPairStart | algorithms/string-algorithms/suffix-array/src/SuffixArray.java:43-45 | For "AA" both first ranks are -32; the second ranks are -32 and the end marker -1, so the end marker sorts after a real character |
| SuffixArray.CorrectedIsSuffixArray | algorithms/string-algorithms/suffix-array/src/SuffixArray.java:43-45 | Ranking characters by their codes, without subtracting 'a', gives the suffix array of every text |
| SuffixArray.ArraysSort | algorithms/string-algorithms/suffix-array/src/SuffixArray.java:48 | The array becomes the stable sort of its old contents |
| SuffixArray.SuffixArray.constructor | algorithms/string-algorithms/suffix-array/src/SuffixArray.java:30-34 | The object keeps the text, and `charIndexSuffixArray` holds the result of the build for it |
| SuffixArray.SuffixArray.GetArray | algorithms/string-algorithms/suffix-array/src/SuffixArray.java:36-38 | Returns `charIndexSuffixArray`, which holds the build's result for the text |
| SuffixArray.SuffixArray.BuildSuffixArray | algorithms/string-algorithms/suffix-array/src/SuffixArray.java:40-80 | `charIndexSuffixArray` holds the result of the build |
| SuffixArray.SuffixArray.InitSuffixes | algorithms/string-algorithms/suffix-array/src/SuffixArray.java:41-46 | The suffix array holds the initial rank pairs |
| SuffixArray.SuffixArray.DoublingRounds | algorithms/string-algorithms/suffix-array/src/SuffixArray.java:50-75 | The suffix array holds the result of the doubling rounds for k = 4, 8, ... while k < 2n, starting from its old contents |
| SuffixArray.SuffixArray.Round | algorithms/string-algorithms/suffix-array/src/SuffixArray.java:52-74 | One round advances the doubling: what is left to do from the new state with 2k is what was left from the old state with k |
| SuffixArray.SuffixArray.CopyCharIndices | algorithms/string-algorithms/suffix-array/src/SuffixArray.java:77-79 | `charIndexSuffixArray` holds the start positions in array order |
| SuffixArray.SuffixArray.Rerank | algorithms/string-algorithms/suffix-array/src/SuffixArray.java:52-67 | The suffixes get their dense new ranks, and `indicesRanks` maps each start to its new rank, other cells unchanged |
| SuffixArray.SuffixArray.RerankAt | algorithms/string-algorithms/suffix-array/src/SuffixArray.java:58-66 | One step of the renumbering loop: suffix i gets its dense rank, `indicesRanks` records it, and the loop's `rank` and `prev_rank` advance |
| SuffixArray.SuffixArray.RefreshSecondRanks | algorithms/string-algorithms/suffix-array/src/SuffixArray.java:69-72 | Every suffix's second rank becomes the rank `h` positions after its start, or -1 past the end |
| SuffixArraySanders.SizesOf | algorithms/string-algorithms/suffix-array/src/SuffixArraySanders.java:24-27 | `n0`, `n1` and `n2` count the positions with residues 0, 1 and 2 modulo 3 and add up to n; `n0 - n1` is 1 exactly when n % 3 == 1 |
| SuffixArraySanders.ResiduesLength | algorithms/string-algorithms/suffix-array/src/SuffixArraySanders.java:24-26 | There are (n + 2 - k) / 3 positions below n with residue k |
| SuffixArraySanders.Mod12Exact | algorithms/string-algorithms/suffix-array/src/SuffixArraySanders.java:37 | The positions the loop writes are increasing, each below the loop bound and not divisible by 3, and every such position is written |
| SuffixArraySanders.Mod12Length | algorithms/string-algorithms/suffix-array/src/SuffixArraySanders.java:37 | The loop writes m - (m + 2) / 3 positions for bound m |
| SuffixArraySanders.Mod12Last | algorithms/string-algorithms/suffix-array/src/SuffixArraySanders.java:37 | For a bound of at least 2 the last position written is within 2 of the bound |
| SuffixArraySanders.Mod12Count | algorithms/string-algorithms/suffix-array/src/SuffixArraySanders.java:27-37 | With the dummy mod-1 suffix the loop writes exactly `n02` positions |
| SuffixArraySanders.SampleEnd | algorithms/string-algorithms/suffix-array/src/SuffixArraySanders.java:36-37 | For a nonempty text the last sample position plus 2 reaches the text's length, so the first pass reads past an unpadded text |
| SuffixArraySanders.HistogramFault | algorithms/string-algorithms/suffix-array/src/SuffixArraySanders.java:47 | The histogram loop raises no exception exactly when every key position lies in the text and every key is below K; it never reads past `counts` at K, and never reads past `a` when n fits |
| SuffixArraySanders.FirstFault | algorithms/string-algorithms/suffix-array/src/SuffixArraySanders.java:47 | The loop raises the fault of its first failing step |
| SuffixArraySanders.SomeFault | algorithms/string-algorithms/suffix-array/src/SuffixArraySanders.java:47 | A failing step inside the positions makes the loop raise a text or key overrun |
| SuffixArraySanders.NoKeyOverrun | algorithms/string-algorithms/suffix-array/src/SuffixArraySanders.java:47 | When every character is below K, no key overruns `counts` |
| SuffixArraySanders.NoTextOverrun | algorithms/string-algorithms/suffix-array/src/SuffixArraySanders.java:47 | When every key position lies in the text, there is no text overrun |
| SuffixArraySanders.FirstPassFaults | algorithms/string-algorithms/suffix-array/src/SuffixArraySanders.java:40 | The first pass (offset 2 over the unpadded text) raises nothing on the empty text and a text or key overrun on every other text, a text overrun when all characters are below 256 |
| SuffixArraySanders.Keys | algorithms/string-algorithms/suffix-array/src/SuffixArraySanders.java:47 | One key per position |
| SuffixArraySanders.Counts | algorithms/string-algorithms/suffix-array/src/SuffixArraySanders.java:46-47 | One count per character below K |
| SuffixArraySanders.StartMonotone | algorithms/string-algorithms/suffix-array/src/SuffixArraySanders.java:48-52 | A character's bucket ends at or before the next character's bucket starts |
| SuffixArraySanders.StartTotal | algorithms/string-algorithms/suffix-array/src/SuffixArraySanders.java:48-52 | When every key is below K, the buckets below K hold all positions |
| SuffixArraySanders.SumCounts | algorithms/string-algorithms/suffix-array/src/SuffixArraySanders.java:48-52 | The prefix sum of the counts below c is the number of keys below c, the start of c's bucket |
| SuffixArraySanders.BucketLength | algorithms/string-algorithms/suffix-array/src/SuffixArraySanders.java:53 | A character's bucket holds as many positions as there are keys equal to it |
| SuffixArraySanders.BucketsLength | algorithms/string-algorithms/suffix-array/src/SuffixArraySanders.java:53 | The buckets below c hold as many positions as there are keys below c |
| SuffixArraySanders.BucketsBag | algorithms/string-algorithms/suffix-array/src/SuffixArraySanders.java:53 | The buckets below c hold exactly the positions whose keys are below c |
| SuffixArraySanders.BagsBelowAll | algorithms/string-algorithms/suffix-array/src/SuffixArraySanders.java:53 | When every key is below K, the positions with keys below K are all positions |
| SuffixArraySanders.BucketsPermutes | algorithms/string-algorithms/suffix-array/src/SuffixArraySanders.java:53 | When every key is below K, the distribution pass permutes its input |
| SuffixArraySanders.BucketKeys | algorithms/string-algorithms/suffix-array/src/SuffixArraySanders.java:53 | Every position in character d's bucket has key d |
| SuffixArraySanders.BucketsSorted | algorithms/string-algorithms/suffix-array/src/SuffixArraySanders.java:53 | The output is ordered by key, and every key in the buckets below c is below c |
| SuffixArraySanders.BucketsStable | algorithms/string-algorithms/suffix-array/src/SuffixArraySanders.java:53 | The pass is stable: the positions with key d appear in the output in their input order |
| SuffixArraySanders.TripleFrom | algorithms/string-algorithms/suffix-array/src/SuffixArraySanders.java:40-42 | The part of a triple from index `lo` has 3 - lo characters |
| SuffixArraySanders.LexStep | algorithms/string-algorithms/suffix-array/src/SuffixArraySanders.java:40-42 | Triples compare by the character at `lo`, then by the rest |
| SuffixArraySanders.BucketSortedFrom | algorithms/string-algorithms/suffix-array/src/SuffixArraySanders.java:53 | A bucket of an array sorted by the characters from `lo` on is itself so sorted |
| SuffixArraySanders.BucketsSortedFrom | algorithms/string-algorithms/suffix-array/src/SuffixArraySanders.java:40-42 | A stable pass on the character at `lo`, over an array sorted by the characters after `lo`, sorts it by the characters from `lo` on |
| SuffixArraySanders.Padded | algorithms/string-algorithms/suffix-array/src/SuffixArraySanders.java:28-31 | The text followed by three character-0 cells, as DC3 pads it |
| SuffixArraySanders.PaddedFits | algorithms/string-algorithms/suffix-array/src/SuffixArraySanders.java:28-31 | Padding adds no character at or above 256 |
| SuffixArraySanders.SampleInside | algorithms/string-algorithms/suffix-array/src/SuffixArraySanders.java:37-40 | On the padded text every triple of a sample position lies inside the text |
| SuffixArraySanders.PassOutcome | algorithms/string-algorithms/suffix-array/src/SuffixArraySanders.java:45-54 | A pass over positions inside the text raises at most a key overrun, none when all characters are below 256; without a fault it permutes its input, and it extends the sort by one character |
| SuffixArraySanders.CountStep | algorithms/string-algorithms/suffix-array/src/SuffixArraySanders.java:47 | One histogram step adds one to exactly the count of its key |
| SuffixArraySanders.Assemble | algorithms/string-algorithms/suffix-array/src/SuffixArraySanders.java:53 | Once every bucket below c has been laid out in its slice, the output's prefix is the concatenated buckets |
| SuffixArraySanders.PlaceBound | algorithms/string-algorithms/suffix-array/src/SuffixArraySanders.java:53 | Each position written by the distribution loop lies inside its key's bucket and inside the output |
| SuffixArraySanders.FilledStep | algorithms/string-algorithms/suffix-array/src/SuffixArraySanders.java:53 | Writing a position to its key's next free cell extends that bucket's filled slice by it and leaves every other bucket's slice as it was |
| SuffixArraySanders.FilledAll | algorithms/string-algorithms/suffix-array/src/SuffixArraySanders.java:53 | After the last position, each bucket's slice holds exactly the bucket |
| SuffixArraySanders.KeysFit | algorithms/string-algorithms/suffix-array/src/SuffixArraySanders.java:47 | When the keys fit, every key indexes `counts` |
| SuffixArraySanders.SuffixArraySanders.constructor | algorithms/string-algorithms/suffix-array/src/SuffixArraySanders.java:17-19 | The object holds the text and its character array |
| SuffixArraySanders.SuffixArraySanders.Histogram | algorithms/string-algorithms/suffix-array/src/SuffixArraySanders.java:46-47 | Raises the loop's first fault; without one, `counts` holds the number of keys equal to each character |
| SuffixArraySanders.SuffixArraySanders.PrefixSums | algorithms/string-algorithms/suffix-array/src/SuffixArraySanders.java:48-52 | The loop raises the counts overrun exactly when it runs past `counts`; otherwise each cell holds the sum of the counts below it |
| SuffixArraySanders.SuffixArraySanders.Place | algorithms/string-algorithms/suffix-array/src/SuffixArraySanders.java:53 | The output's first n cells hold the stable bucket order of the positions, the rest is unchanged, and each cell of `counts` ends at its bucket's end |
| SuffixArraySanders.SuffixArraySanders.PlaceAt | algorithms/string-algorithms/suffix-array/src/SuffixArraySanders.java:53 | One step of the distribution loop keeps every bucket's slice filled with its positions so far and advances its key's cursor |
| SuffixArraySanders.SuffixArraySanders.RadixPass | algorithms/string-algorithms/suffix-array/src/SuffixArraySanders.java:45-54 | As written the pass never completes: it raises the histogram's fault, or else the counts overrun of its prefix loop |
| SuffixArraySanders.SuffixArraySanders.RadixPassCorrected | algorithms/string-algorithms/suffix-array/src/SuffixArraySanders.java:45-54 | With the prefix loop stopping below K, the pass raises only the histogram's fault; without one, the output's first n cells hold the positions in stable bucket order and the rest is unchanged |
| SuffixArraySanders.SuffixArraySanders.SamplePositions | algorithms/string-algorithms/suffix-array/src/SuffixArraySanders.java:24-37 | `s12` holds exactly the sample positions followed by three zeros |
| SuffixArraySanders.SuffixArraySanders.GeneratePositions | algorithms/string-algorithms/suffix-array/src/SuffixArraySanders.java:37 | The loop writes exactly the positions below the bound that are not divisible by 3, in increasing order, and leaves the rest of the array alone |
| SuffixArraySanders.SuffixArraySanders.BuildSuffixArray | algorithms/string-algorithms/suffix-array/src/SuffixArraySanders.java:23-43 | As written the build always raises: the counts overrun on the empty text, a text or key overrun on any other text, a text overrun when all characters are below 256 |
| SuffixArraySanders.SuffixArraySanders.BuildCorrected | algorithms/string-algorithms/suffix-array/src/SuffixArraySanders.java:23-43 | On the padded text with the corrected pass the build raises at most a key overrun, none when all characters are below 256, and without one `SA12` holds the sample positions sorted by their triples |
| SuffixArraySanders.SuffixArraySanders.SortTriples | algorithms/string-algorithms/suffix-array/src/SuffixArraySanders.java:39-42 | The three passes, on offsets 2, 1 and 0, sort the sample positions by their whole triples |
| SuffixArraySanders.SuffixArraySanders.TriplePass | algorithms/string-algorithms/suffix-array/src/SuffixArraySanders.java:40-42 | One pass on offset `lo` takes positions sorted by their characters after `lo` to positions sorted from `lo` on |
| SuffixArraySanders.Construct | algorithms/string-algorithms/suffix-array/src/SuffixArraySanders.java:17-21 | `new SuffixArraySanders(text)` as written always ends in an exception, of the kind `BuildSuffixArray` states |

## Left out

- SuffixTree.SuffixTree.ExtendFromActivePoint: when the active length reaches or passes the active edge's length and no grandchild matches, `splitEdge` would cut the edge at or past its end and build a malformed node; the model stops the phase with the `DegenerateSplit` failure instead of building that node.
- SuffixTree.SuffixTree.ExecutePhase: states the counter, the shared end and the growth of the arena, not that the finished tree holds exactly the suffixes of the text (global correctness of the construction is not proved).
- SuffixTree.EdgeByCharacter: the character-keyed lookup is shown to find the edge that "aaa" loses; the builder itself keeps the code's position-keyed lookup, and a character-keyed builder together with a proof that it builds the suffix tree is not modelled.
- SuffixTree.SuffixTree.IsSuffixInTreeAlready: the `findAny` over a `HashMap`'s entries is modelled as the choice of any matching key; which one Java picks is not modelled.
- SuffixTree: the mid-edge comparison reads `text[activeLength]`, as the code does, rather than the character `activeLength` places into the edge; the model keeps the code's reading.
- SuffixTree: the `MutableInteger` end cells are modelled as the `Shared` end (the one `currentEnd` object every leaf holds) or an `Own` value; no other aliasing of end cells occurs in the code.
- AhoCorasick.SearchInString: states soundness only (every printed word is in the dictionary and occurs in the text). Completeness does not hold as written. Take the dictionary {abd, b} and the text "abd". After "ab" the printing loop follows the dictionary link of the node for "ab" and leaves the iterator on the node for "b". That node has no child "d", so the next step falls back to the root, and "abd" is never printed; only "b" is (`MissExample`, listed under "Findings").
- AhoCorasick.CorrectedScanSound: the corrected search, which keeps the iterator at the reached child, is proved sound and shown to print "abd" on that input; it is not proved complete in general, because completeness needs every longest-suffix link to be the longest one, which the depth-first preparation does not guarantee (next line).
- AhoCorasick.Trie.FindAllLongestSuffixes: the depth-first order sets a child's link before every shallower node of other branches has its own; the model states what each link is computed from and that it is a proper suffix, not that it is the longest one.
- AhoCorasick.Trie.LinkSuffixSubtree: the iteration order of `children.values()` is any order; the model walks the pending keys in an unspecified order.
- AhoCorasick: `System.out.println` is modelled as appending the word to the returned sequence; nothing is printed.
- AhoCorasick: the `@NotNull` annotation on `insertWord` is a type-level guarantee; a null word is not modelled.
- SuffixArray.ArraysSort: `Arrays.sort` on objects is a stable sort; it is modelled by a stable insertion sort, which gives the same result, and its running time is not modelled.
- SuffixArray.SuffixArray.RefreshSecondRanks: the bound `text.length()` is read as `indicesRanks.Length`, which equals it.
- SuffixArray: Java `int` arithmetic is modelled as unbounded; the ranks and `k` stay far below 2^31 for any text that fits in memory, and `k * 2` overflowing on huge texts is not modelled.
- SuffixArray: `Suffix` objects are values in the model; no two array cells alias one object in the code, so updating a cell updates one suffix.
- SuffixArraySanders: the arrays `s0` and `SA0` are allocated and never used; they are not modelled.
- SuffixArraySanders.SuffixArraySanders.RadixPassCorrected: requires `n <= b.Length` and distinct arrays, which every call in the code meets; the aliasing of `a` and `b` is not modelled.
- SuffixArraySanders.SuffixArraySanders.Place: requires distinct arrays and `n <= b.Length`, as above.
- SuffixArraySanders.SuffixArraySanders.BuildCorrected: states the sorted order of the sample triples, the stage the code reaches; the recursion and merge of the full DC3 algorithm are not in the code and not modelled.
- SuffixArraySanders: `KeyAt` reads -1 outside the text; this never reaches a count, since every read outside the text is a fault first.
- SuffixArraySanders: negative lengths and a negative `K` cannot arise from the code's calls and are not modelled.
- Strings: `char` is a UTF-16 code unit in Java and a Unicode scalar value in Dafny; surrogate pairs are not modelled.

## Findings

| source | as written | input that shows it | evidently intended | confidence | as-written member | corrected member |
|---|---|---|---|---|---|---|
| algorithms/string-algorithms/suffix-array/src/SuffixArray.java:43-45 | ranks are character codes minus `'a'`, so characters below `'a'` get ranks at or below the end marker -1 | "AA": both first ranks are -32, the second ranks are -32 and -1, and the result is [0, 1] though "A" < "AA" | ranks of real characters above the end marker | not executed | SuffixArray.BelowLetterMisordered | SuffixArray.CorrectedIsSuffixArray |
| algorithms/string-algorithms/suffix-array/src/SuffixArraySanders.java:48 | the prefix-sum loop runs `i <= K` over `counts` of length K | every call, e.g. the empty text, where the histogram has nothing to read and the prefix loop reads `counts[256]` | `i < K` | not executed | SuffixArraySanders.SuffixArraySanders.RadixPass | SuffixArraySanders.SuffixArraySanders.RadixPassCorrected |
| algorithms/string-algorithms/suffix-array/src/SuffixArraySanders.java:40-42 | the passes read `r[a[i] + offset]` from the unpadded text | "a": the sample is [1], and the first pass reads position 3 of a one-character text | the text padded with three zero characters, as DC3 requires | not executed | SuffixArraySanders.Construct | SuffixArraySanders.SuffixArraySanders.BuildCorrected |
| algorithms/string-algorithms/ukkonen/src/UkkonenAlgorithm/SuffixTree.java:97-99 | children are keyed by the text position of their edge's first character; after a split at the root the active edge becomes the next position, which no root key need name, and `splitEdge` (line 162) then gets null and dereferences it at line 165 | "aaa": the last phase splits the root's key 0 at length 2, the active edge becomes 1 with length 1, the root keys are {0}, and the next extension meets a missing edge | the next edge looked up by the character at that position | not executed | SuffixTree.AaaPhaseLosesEdge | SuffixTree.AaaCharacterLookupFindsEdge |
| algorithms/string-algorithms/aho-corasick/src/AhoCorasick.java:140-145 | the printing loop walks the dictionary chain on the iterator itself, so the next character continues from the chain's last node | dictionary {abd, b}, text "abd": after "ab" the iterator sits on "b", which has no child 'd', and only "b" is printed | print along the chain with a separate variable and keep the iterator at the reached child | not executed | AhoCorasick.MissExample | AhoCorasick.CorrectedMissExample |
