/**
 * The Aho-Corasick automaton: a trie of dictionary words with longest-suffix
 * (failure) links and dictionary-suffix links, and the scan of a text.
 *
 * The trie nodes live in an arena, `Trie.nodes`; an index plays the part of
 * a `TrieNode` reference and the root is index 0. What the scan prints is
 * returned as a sequence of words.
 */
module AhoCorasick {
  import opened Wrappers

  /** Index of the root node in the arena. */
  const Root: nat := 0

  datatype TrieNode = TrieNode(character: char, wordEnd: bool, children: map<char, nat>,
                               longestSuffix: Option<nat>, dictionarySuffixLink: Option<nat>,
                               parent: Option<nat>)

  /** `new TrieNode(character)`: no children, no links, no parent yet, not a word end. */
  function NewNode(character: char): TrieNode
  {
    TrieNode(character, false, map[], None, None, None)
  }

  /** `a` is a suffix of `b`. */
  predicate IsSuffix(a: string, b: string)
  {
    |a| <= |b| && b[|b| - |a|..] == a
  }

  /** `a` is a suffix of `b` and shorter than `b`. */
  predicate IsProperSuffix(a: string, b: string)
  {
    |a| < |b| && b[|b| - |a|..] == a
  }

  /** `w` ends at some position of `s`, so it occurs in `s`. */
  ghost predicate Occurs(w: string, s: string)
  {
    exists j :: 0 <= j <= |s| && IsSuffix(w, s[..j])
  }

  lemma SuffixTransitive(a: string, b: string, c: string)
    requires IsSuffix(a, b) && IsSuffix(b, c)
    ensures IsSuffix(a, c)
    ensures IsProperSuffix(a, b) || IsProperSuffix(b, c) ==> IsProperSuffix(a, c)
  {
    assert c[|c| - |a|..] == c[|c| - |b|..][|b| - |a|..];
  }

  lemma SuffixAppend(a: string, b: string, x: char)
    requires IsSuffix(a, b)
    ensures IsSuffix(a + [x], b + [x])
    ensures IsProperSuffix(a, b) ==> IsProperSuffix(a + [x], b + [x])
  {
    assert (b + [x])[|b| + 1 - |a| - 1..] == b[|b| - |a|..] + [x];
  }

  /** Every parent comes before its children in the arena. */
  ghost predicate ParentsFirst(nodes: seq<TrieNode>)
  {
    forall i :: 0 <= i < |nodes| && nodes[i].parent.Some? ==> nodes[i].parent.value < i
  }

  /**
   * The word a node spells: the characters on its path from the root, which
   * is what `TrieNode.getNodeWord` collects by walking `parent` links.
   */
  function Word(nodes: seq<TrieNode>, i: nat): string
    requires ParentsFirst(nodes) && i < |nodes|
    decreases i
  {
    match nodes[i].parent
    case None => []
    case Some(p) => Word(nodes, p) + [nodes[i].character]
  }

  /** The child under key `k` of node `i` is a node whose parent is `i` and whose character is `k`. */
  ghost predicate ChildOk(nodes: seq<TrieNode>, i: nat, k: char)
    requires i < |nodes| && k in nodes[i].children
  {
    var c := nodes[i].children[k];
    0 < c < |nodes| && nodes[c].parent == Some(i) && nodes[c].character == k
  }

  /** Node `i` is listed among its parent's children under its own character. */
  ghost predicate ParentOk(nodes: seq<TrieNode>, i: nat)
    requires i < |nodes|
  {
    && nodes[i].parent.Some?
    && nodes[i].parent.value < |nodes|
    && nodes[i].character in nodes[nodes[i].parent.value].children
    && nodes[nodes[i].parent.value].children[nodes[i].character] == i
  }

  /** The arena is a trie: the root has no parent, and parent and children links agree. */
  ghost predicate Shaped(nodes: seq<TrieNode>)
  {
    && |nodes| >= 1
    && nodes[Root].parent.None?
    && ParentsFirst(nodes)
    && (forall i :: 0 < i < |nodes| ==> ParentOk(nodes, i))
    && (forall i, k :: 0 <= i < |nodes| && k in nodes[i].children ==> ChildOk(nodes, i, k))
  }

  /** A link from node `i` names a node whose word is a proper suffix of `i`'s word. */
  ghost predicate LinkOk(nodes: seq<TrieNode>, link: Option<nat>, i: nat)
    requires ParentsFirst(nodes) && i < |nodes|
  {
    link.Some? ==> link.value < |nodes| && IsProperSuffix(Word(nodes, link.value), Word(nodes, i))
  }

  /** A trie whose longest-suffix and dictionary-suffix links all lead to proper suffixes. */
  ghost predicate Linked(nodes: seq<TrieNode>)
  {
    && Shaped(nodes)
    && (forall i :: 0 <= i < |nodes| ==> LinkOk(nodes, nodes[i].longestSuffix, i))
    && (forall i :: 0 <= i < |nodes| ==> LinkOk(nodes, nodes[i].dictionarySuffixLink, i))
  }

  /** Decreases along any link of a linked trie. */
  ghost function LinkMeasure(nodes: seq<TrieNode>, x: Option<nat>): nat
    requires ParentsFirst(nodes) && (x.Some? ==> x.value < |nodes|)
  {
    if x.Some? then |Word(nodes, x.value)| + 1 else 0
  }

  /** The `longestSuffix` chain starting at `x`, up to the null link. */
  ghost function Chain(nodes: seq<TrieNode>, x: Option<nat>): (r: seq<nat>)
    requires Linked(nodes) && (x.Some? ==> x.value < |nodes|)
    ensures forall j :: 0 <= j < |r| ==> r[j] < |nodes|
    decreases LinkMeasure(nodes, x)
  {
    match x
    case None => []
    case Some(y) => [y] + Chain(nodes, nodes[y].longestSuffix)
  }

  /** The first node on the `longestSuffix` chain from `x` that has a child for `c`. */
  function FirstWithChild(nodes: seq<TrieNode>, x: Option<nat>, c: char): (r: Option<nat>)
    requires Linked(nodes) && (x.Some? ==> x.value < |nodes|)
    ensures r.Some? ==> r.value < |nodes| && c in nodes[r.value].children
    decreases LinkMeasure(nodes, x)
  {
    match x
    case None => None
    case Some(y) => if c in nodes[y].children then x else FirstWithChild(nodes, nodes[y].longestSuffix, c)
  }

  /** The first node on the `longestSuffix` chain from `x` that ends a word. */
  function FirstWordEnd(nodes: seq<TrieNode>, x: Option<nat>): (r: Option<nat>)
    requires Linked(nodes) && (x.Some? ==> x.value < |nodes|)
    ensures r.Some? ==> r.value < |nodes| && nodes[r.value].wordEnd
    decreases LinkMeasure(nodes, x)
  {
    match x
    case None => None
    case Some(y) => if nodes[y].wordEnd then x else FirstWordEnd(nodes, nodes[y].longestSuffix)
  }

  /**
   * `findLongestSuffix`'s choice for `node`, a child of `parent`: the root when
   * no node on the parent's chain has a child for `node.character`, else that
   * child of the first node that has one.
   */
  function SuffixLinkRule(nodes: seq<TrieNode>, parent: nat, node: nat): (r: Option<nat>)
    requires Linked(nodes) && parent < |nodes| && node < |nodes|
    ensures r.Some?
  {
    var c := nodes[node].character;
    match FirstWithChild(nodes, nodes[parent].longestSuffix, c)
    case None => Some(Root)
    case Some(y) => Some(nodes[y].children[c])
  }

  /** Node `i` lies strictly below node `p`: `p`'s word is a proper prefix of `i`'s. */
  ghost predicate Below(nodes: seq<TrieNode>, i: nat, p: nat)
    requires ParentsFirst(nodes) && i < |nodes| && p < |nodes|
  {
    |Word(nodes, p)| < |Word(nodes, i)| && Word(nodes, i)[..|Word(nodes, p)|] == Word(nodes, p)
  }

  /** Two arenas agree on every field `Word` reads. */
  ghost predicate SameWords(a: seq<TrieNode>, b: seq<TrieNode>)
  {
    |a| == |b| && forall i :: 0 <= i < |a| ==> a[i].parent == b[i].parent && a[i].character == b[i].character
  }

  /** `Word` depends only on the parent links and characters of the nodes at or before `i`. */
  lemma {:induction false} WordStable(a: seq<TrieNode>, b: seq<TrieNode>, i: nat)
    requires ParentsFirst(a) && ParentsFirst(b) && i < |a| <= |b|
    requires forall j :: 0 <= j < |a| ==> a[j].parent == b[j].parent && a[j].character == b[j].character
    ensures Word(b, i) == Word(a, i)
    decreases i
  {
    if a[i].parent.Some? {
      WordStable(a, b, a[i].parent.value);
    }
  }

  /** Every node but the root spells a non-empty word, one character longer than its parent's. */
  lemma ChildWord(nodes: seq<TrieNode>, i: nat, k: char)
    requires Shaped(nodes) && i < |nodes| && k in nodes[i].children
    ensures ChildOk(nodes, i, k)
    ensures Word(nodes, nodes[i].children[k]) == Word(nodes, i) + [k]
  {
  }

  /** Only the root spells the empty word. */
  lemma EmptyWordIsRoot(nodes: seq<TrieNode>, i: nat)
    requires Shaped(nodes) && i < |nodes|
    ensures Word(nodes, i) == [] <==> i == Root
  {
    if i > 0 {
      assert ParentOk(nodes, i);
    }
  }

  /** Distinct nodes of a trie spell distinct words. */
  lemma {:induction false} WordInjective(nodes: seq<TrieNode>, i: nat, j: nat)
    requires Shaped(nodes) && i < |nodes| && j < |nodes|
    requires Word(nodes, i) == Word(nodes, j)
    ensures i == j
    decreases i + j
  {
    EmptyWordIsRoot(nodes, i);
    EmptyWordIsRoot(nodes, j);
    if i > 0 && j > 0 {
      assert ParentOk(nodes, i) && ParentOk(nodes, j);
      var p, q := nodes[i].parent.value, nodes[j].parent.value;
      assert Word(nodes, p) == Word(nodes, i)[..|Word(nodes, i)| - 1];
      assert Word(nodes, q) == Word(nodes, j)[..|Word(nodes, j)| - 1];
      WordInjective(nodes, p, q);
    }
  }

  /**
   * A node strictly below `p` hangs, through `p`'s child for the next
   * character of its word, below or at that child.
   */
  lemma {:induction false} BelowChild(nodes: seq<TrieNode>, i: nat, p: nat)
    requires Shaped(nodes) && i < |nodes| && p < |nodes| && Below(nodes, i, p)
    ensures Word(nodes, i)[|Word(nodes, p)|] in nodes[p].children
    ensures var c := nodes[p].children[Word(nodes, i)[|Word(nodes, p)|]];
            c == i || Below(nodes, i, c)
    decreases i
  {
    var wp, wi := Word(nodes, p), Word(nodes, i);
    if i == 0 {
      assert false;
    }
    assert ParentOk(nodes, i);
    var q := nodes[i].parent.value;
    assert Word(nodes, q) == wi[..|wi| - 1];
    if |Word(nodes, q)| == |wp| {
      assert Word(nodes, q) == wp;
      WordInjective(nodes, q, p);
      assert nodes[i].character == wi[|wp|];
    } else {
      assert Word(nodes, q)[..|wp|] == wp;
      BelowChild(nodes, q, p);
      var k := wi[|wp|];
      assert Word(nodes, q)[|wp|] == k;
      var c := nodes[p].children[k];
      ChildWord(nodes, p, k);
      if c != q {
        assert Word(nodes, q)[..|Word(nodes, c)|] == Word(nodes, c);
      }
      assert wi[..|Word(nodes, c)|] == Word(nodes, c);
    }
  }

  /** The first node on the chain with a child for `c` spells a suffix of the chain's first node. */
  lemma {:induction false} FirstWithChildSuffix(nodes: seq<TrieNode>, x: Option<nat>, c: char)
    requires Linked(nodes) && x.Some? && x.value < |nodes|
    ensures FirstWithChild(nodes, x, c).Some? ==>
              IsSuffix(Word(nodes, FirstWithChild(nodes, x, c).value), Word(nodes, x.value))
    decreases LinkMeasure(nodes, x)
  {
    var y := x.value;
    var next := nodes[y].longestSuffix;
    if c !in nodes[y].children && next.Some? {
      assert LinkOk(nodes, next, y);
      FirstWithChildSuffix(nodes, next, c);
      if FirstWithChild(nodes, next, c).Some? {
        SuffixTransitive(Word(nodes, FirstWithChild(nodes, next, c).value), Word(nodes, next.value), Word(nodes, y));
      }
    }
  }

  /** The first word end on the chain spells a suffix of the chain's first node. */
  lemma {:induction false} FirstWordEndSuffix(nodes: seq<TrieNode>, x: Option<nat>)
    requires Linked(nodes) && x.Some? && x.value < |nodes|
    ensures FirstWordEnd(nodes, x).Some? ==>
              IsSuffix(Word(nodes, FirstWordEnd(nodes, x).value), Word(nodes, x.value))
    decreases LinkMeasure(nodes, x)
  {
    var y := x.value;
    var next := nodes[y].longestSuffix;
    if !nodes[y].wordEnd && next.Some? {
      assert LinkOk(nodes, next, y);
      FirstWordEndSuffix(nodes, next);
      if FirstWordEnd(nodes, next).Some? {
        SuffixTransitive(Word(nodes, FirstWordEnd(nodes, next).value), Word(nodes, next.value), Word(nodes, y));
      }
    }
  }

  /**
   * `FirstWithChild` finds a node of the `longestSuffix` chain, and no later
   * one than the first node of the chain that has a child for `c`; it finds
   * nothing only when no node of the chain has one.
   */
  lemma FirstWithChildIsFirst(nodes: seq<TrieNode>, x: Option<nat>, c: char)
    requires Linked(nodes) && (x.Some? ==> x.value < |nodes|)
    ensures FirstWithChild(nodes, x, c).Some? ==> FirstWithChild(nodes, x, c).value in Chain(nodes, x)
    ensures forall j :: 0 <= j < |Chain(nodes, x)| && c in nodes[Chain(nodes, x)[j]].children ==>
              FirstWithChild(nodes, x, c).Some? && FirstWithChild(nodes, x, c).value in Chain(nodes, x)[..j + 1]
  {
    FirstWithChildOnChain(nodes, x, c);
    forall j | 0 <= j < |Chain(nodes, x)| && c in nodes[Chain(nodes, x)[j]].children
      ensures FirstWithChild(nodes, x, c).Some? && FirstWithChild(nodes, x, c).value in Chain(nodes, x)[..j + 1]
    {
      FirstWithChildNoLater(nodes, x, c, j);
    }
  }

  /** What `FirstWithChild` finds lies on the chain. */
  lemma {:induction false} FirstWithChildOnChain(nodes: seq<TrieNode>, x: Option<nat>, c: char)
    requires Linked(nodes) && (x.Some? ==> x.value < |nodes|)
    ensures FirstWithChild(nodes, x, c).Some? ==> FirstWithChild(nodes, x, c).value in Chain(nodes, x)
    decreases LinkMeasure(nodes, x)
  {
    if x.Some? {
      var y := x.value;
      var next := nodes[y].longestSuffix;
      assert LinkOk(nodes, next, y);
      var chain, rest := Chain(nodes, x), Chain(nodes, next);
      assert chain == [y] + rest;
      if c in nodes[y].children {
        assert chain[0] == y;
      } else {
        FirstWithChildOnChain(nodes, next, c);
        if FirstWithChild(nodes, next, c).Some? {
          InAfter(y, rest, FirstWithChild(nodes, next, c).value);
        }
      }
    }
  }

  /** When the chain's node `j` has a child for `c`, `FirstWithChild` finds one of the chain's first `j + 1` nodes. */
  lemma {:induction false} FirstWithChildNoLater(nodes: seq<TrieNode>, x: Option<nat>, c: char, j: nat)
    requires Linked(nodes) && (x.Some? ==> x.value < |nodes|)
    requires j < |Chain(nodes, x)| && c in nodes[Chain(nodes, x)[j]].children
    ensures FirstWithChild(nodes, x, c).Some? && FirstWithChild(nodes, x, c).value in Chain(nodes, x)[..j + 1]
    decreases j
  {
    assert x.Some?;
    var y := x.value;
    var next := nodes[y].longestSuffix;
    assert LinkOk(nodes, next, y);
    var chain, rest := Chain(nodes, x), Chain(nodes, next);
    assert chain == [y] + rest;
    if c in nodes[y].children {
      assert chain[..j + 1][0] == y;
    } else {
      assert j > 0 && chain[j] == rest[j - 1];
      FirstWithChildNoLater(nodes, next, c, j - 1);
      assert chain[..j + 1] == [y] + rest[..j];
      InAfter(y, rest[..j], FirstWithChild(nodes, next, c).value);
    }
  }


  /**
   * `FirstWordEnd` finds a node of the `longestSuffix` chain, and no later
   * one than the first node of the chain that ends a word; it finds nothing
   * only when no node of the chain ends one.
   */
  lemma FirstWordEndIsFirst(nodes: seq<TrieNode>, x: Option<nat>)
    requires Linked(nodes) && (x.Some? ==> x.value < |nodes|)
    ensures FirstWordEnd(nodes, x).Some? ==> FirstWordEnd(nodes, x).value in Chain(nodes, x)
    ensures forall j :: 0 <= j < |Chain(nodes, x)| && nodes[Chain(nodes, x)[j]].wordEnd ==>
              FirstWordEnd(nodes, x).Some? && FirstWordEnd(nodes, x).value in Chain(nodes, x)[..j + 1]
  {
    FirstWordEndOnChain(nodes, x);
    forall j | 0 <= j < |Chain(nodes, x)| && nodes[Chain(nodes, x)[j]].wordEnd
      ensures FirstWordEnd(nodes, x).Some? && FirstWordEnd(nodes, x).value in Chain(nodes, x)[..j + 1]
    {
      FirstWordEndNoLater(nodes, x, j);
    }
  }

  /** What `FirstWordEnd` finds lies on the chain. */
  lemma {:induction false} FirstWordEndOnChain(nodes: seq<TrieNode>, x: Option<nat>)
    requires Linked(nodes) && (x.Some? ==> x.value < |nodes|)
    ensures FirstWordEnd(nodes, x).Some? ==> FirstWordEnd(nodes, x).value in Chain(nodes, x)
    decreases LinkMeasure(nodes, x)
  {
    if x.Some? {
      var y := x.value;
      var next := nodes[y].longestSuffix;
      assert LinkOk(nodes, next, y);
      var chain, rest := Chain(nodes, x), Chain(nodes, next);
      assert chain == [y] + rest;
      if nodes[y].wordEnd {
        assert chain[0] == y;
      } else {
        FirstWordEndOnChain(nodes, next);
        if FirstWordEnd(nodes, next).Some? {
          InAfter(y, rest, FirstWordEnd(nodes, next).value);
        }
      }
    }
  }

  /** When the chain's node `j` has a word end, `FirstWordEnd` finds one of the chain's first `j + 1` nodes. */
  lemma {:induction false} FirstWordEndNoLater(nodes: seq<TrieNode>, x: Option<nat>, j: nat)
    requires Linked(nodes) && (x.Some? ==> x.value < |nodes|)
    requires j < |Chain(nodes, x)| && nodes[Chain(nodes, x)[j]].wordEnd
    ensures FirstWordEnd(nodes, x).Some? && FirstWordEnd(nodes, x).value in Chain(nodes, x)[..j + 1]
    decreases j
  {
    assert x.Some?;
    var y := x.value;
    var next := nodes[y].longestSuffix;
    assert LinkOk(nodes, next, y);
    var chain, rest := Chain(nodes, x), Chain(nodes, next);
    assert chain == [y] + rest;
    if nodes[y].wordEnd {
      assert chain[..j + 1][0] == y;
    } else {
      assert j > 0 && chain[j] == rest[j - 1];
      FirstWordEndNoLater(nodes, next, j - 1);
      assert chain[..j + 1] == [y] + rest[..j];
      InAfter(y, rest[..j], FirstWordEnd(nodes, next).value);
    }
  }


  /** The link `findLongestSuffix` chooses leads to a proper suffix of the node's word. */
  lemma SuffixLinkRuleSound(nodes: seq<TrieNode>, parent: nat, node: nat)
    requires Linked(nodes) && parent < |nodes| && node < |nodes| && nodes[node].parent == Some(parent)
    ensures LinkOk(nodes, SuffixLinkRule(nodes, parent, node), node)
  {
    assert ParentOk(nodes, node);
    var c := nodes[node].character;
    assert Word(nodes, node) == Word(nodes, parent) + [c];
    var ls := nodes[parent].longestSuffix;
    match FirstWithChild(nodes, ls, c)
    case None =>
      assert Word(nodes, Root) == [];
    case Some(y) =>
      assert LinkOk(nodes, ls, parent);
      FirstWithChildSuffix(nodes, ls, c);
      SuffixTransitive(Word(nodes, y), Word(nodes, ls.value), Word(nodes, parent));
      ChildWord(nodes, y, c);
      SuffixAppend(Word(nodes, y), Word(nodes, parent), c);
  }

  /**
   * Node `i` lies below `p` through `p`'s child for key `k`: exactly the
   * child itself and the nodes below that child.
   */
  lemma BelowVia(nodes: seq<TrieNode>, i: nat, p: nat, k: char)
    requires Shaped(nodes) && i < |nodes| && p < |nodes| && k in nodes[p].children
    ensures ChildOk(nodes, p, k)
    ensures (Below(nodes, i, p) && Word(nodes, i)[|Word(nodes, p)|] == k) <==>
            (i == nodes[p].children[k] || Below(nodes, i, nodes[p].children[k]))
  {
    var c := nodes[p].children[k];
    ChildWord(nodes, p, k);
    var wp, wc, wi := Word(nodes, p), Word(nodes, c), Word(nodes, i);
    if Below(nodes, i, p) && wi[|wp|] == k {
      BelowChild(nodes, i, p);
    }
    if Below(nodes, i, c) {
      assert wi[..|wp|] == wc[..|wp|];
      assert wi[|wp|] == wc[|wp|];
    }
  }

  /** Arenas that agree on parents and characters spell the same words. */
  lemma SameWordsSpell(a: seq<TrieNode>, b: seq<TrieNode>)
    requires ParentsFirst(a) && SameWords(a, b)
    ensures ParentsFirst(b)
    ensures forall i :: 0 <= i < |a| ==> Word(b, i) == Word(a, i)
  {
    forall i | 0 <= i < |a| ensures Word(b, i) == Word(a, i) {
      WordStable(a, b, i);
    }
  }

  /**
   * Changing only word-end flags and links of a linked trie keeps it linked,
   * provided every link still leads to a proper suffix.
   */
  lemma Relabelled(a: seq<TrieNode>, b: seq<TrieNode>)
    requires Linked(a) && |a| == |b|
    requires forall i :: 0 <= i < |a| ==>
               b[i] == a[i].(wordEnd := b[i].wordEnd, longestSuffix := b[i].longestSuffix,
                              dictionarySuffixLink := b[i].dictionarySuffixLink)
    requires forall i :: 0 <= i < |a| ==>
               LinkOk(a, b[i].longestSuffix, i) && LinkOk(a, b[i].dictionarySuffixLink, i)
    ensures Linked(b)
    ensures forall i :: 0 <= i < |a| ==> Word(b, i) == Word(a, i)
  {
    assert SameWords(a, b);
    SameWordsSpell(a, b);
    forall i | 0 < i < |b| ensures ParentOk(b, i) {
      assert ParentOk(a, i);
    }
    forall i, k | 0 <= i < |b| && k in b[i].children ensures ChildOk(b, i, k) {
      assert ChildOk(a, i, k);
    }
  }

  /** Setting a node's longest-suffix link by `SuffixLinkRule` keeps the trie linked. */
  lemma SuffixRelinked(a: seq<TrieNode>, parent: nat, node: nat)
    requires Linked(a) && parent < |a| && node < |a| && a[node].parent == Some(parent)
    ensures Linked(a[node := a[node].(longestSuffix := SuffixLinkRule(a, parent, node))])
  {
    SuffixLinkRuleSound(a, parent, node);
    Relabelled(a, a[node := a[node].(longestSuffix := SuffixLinkRule(a, parent, node))]);
  }

  /** Setting a node's dictionary link to the first word end on its chain keeps the trie linked. */
  lemma DictionaryRelinked(a: seq<TrieNode>, node: nat)
    requires Linked(a) && node < |a|
    ensures Linked(a[node := a[node].(dictionarySuffixLink := FirstWordEnd(a, a[node].longestSuffix))])
  {
    DictionaryLinkSound(a, node);
    Relabelled(a, a[node := a[node].(dictionarySuffixLink := FirstWordEnd(a, a[node].longestSuffix))]);
  }

  /** The first word end on a node's chain spells a proper suffix of the node's word. */
  lemma DictionaryLinkSound(a: seq<TrieNode>, node: nat)
    requires Linked(a) && node < |a|
    ensures LinkOk(a, FirstWordEnd(a, a[node].longestSuffix), node)
  {
    var ls := a[node].longestSuffix;
    var d := FirstWordEnd(a, ls);
    if d.Some? {
      assert ls.Some?;
      assert LinkOk(a, ls, node);
      FirstWordEndSuffix(a, ls);
      SuffixTransitive(Word(a, d.value), Word(a, ls.value), Word(a, node));
    }
  }

  /** The arena after `insertWord` hangs a new node for `c` under node `at`. */
  function Attach(nodes: seq<TrieNode>, at: nat, c: char): (r: seq<TrieNode>)
    requires at < |nodes|
  {
    nodes[at := nodes[at].(children := nodes[at].children[c := |nodes|])] + [NewNode(c).(parent := Some(at))]
  }

  /** The cells of `Attach(nodes, at, c)`: the old ones, `at` with one more child, and the new node. */
  lemma AttachCells(nodes: seq<TrieNode>, at: nat, c: char)
    requires at < |nodes|
    ensures var b := Attach(nodes, at, c);
            && |b| == |nodes| + 1
            && (forall i :: 0 <= i < |nodes| && i != at ==> b[i] == nodes[i])
            && b[at] == nodes[at].(children := nodes[at].children[c := |nodes|])
            && b[|nodes|] == NewNode(c).(parent := Some(at))
  {
  }

  /** `Attach` keeps every parent ahead of its children and every old word. */
  lemma AttachWords(nodes: seq<TrieNode>, at: nat, c: char)
    requires ParentsFirst(nodes) && at < |nodes|
    ensures ParentsFirst(Attach(nodes, at, c))
    ensures forall i :: 0 <= i < |nodes| ==> Word(Attach(nodes, at, c), i) == Word(nodes, i)
    ensures Word(Attach(nodes, at, c), |nodes|) == Word(nodes, at) + [c]
  {
    var b := Attach(nodes, at, c);
    AttachCells(nodes, at, c);
    assert ParentsFirst(b);
    forall i | 0 <= i < |nodes| ensures Word(b, i) == Word(nodes, i) {
      WordStable(nodes, b, i);
    }
    assert Word(b, |nodes|) == Word(b, at) + [c];
  }

  /** After `Attach`, every node but the root is its parent's child under its own character. */
  lemma AttachParents(nodes: seq<TrieNode>, at: nat, c: char)
    requires Shaped(nodes) && at < |nodes| && c !in nodes[at].children
    ensures forall i :: 0 < i < |Attach(nodes, at, c)| ==> ParentOk(Attach(nodes, at, c), i)
  {
    var b := Attach(nodes, at, c);
    AttachCells(nodes, at, c);
    forall i | 0 < i < |b| ensures ParentOk(b, i) {
      if i < |nodes| {
        assert ParentOk(nodes, i);
      }
    }
  }

  /** After `Attach`, every child entry names a node with that parent and that character. */
  lemma AttachChildren(nodes: seq<TrieNode>, at: nat, c: char)
    requires Shaped(nodes) && at < |nodes| && c !in nodes[at].children
    ensures forall i, k :: 0 <= i < |Attach(nodes, at, c)| && k in Attach(nodes, at, c)[i].children ==>
              ChildOk(Attach(nodes, at, c), i, k)
  {
    var b := Attach(nodes, at, c);
    AttachCells(nodes, at, c);
    forall i, k | 0 <= i < |b| && k in b[i].children ensures ChildOk(b, i, k) {
      if i != at || k != c {
        assert ChildOk(nodes, i, k);
      }
    }
  }

  /** Hanging a new child under a node keeps the arena a trie and every old word. */
  lemma AttachShaped(nodes: seq<TrieNode>, at: nat, c: char)
    requires Shaped(nodes) && at < |nodes| && c !in nodes[at].children
    ensures Shaped(Attach(nodes, at, c))
    ensures forall i :: 0 <= i < |nodes| ==> Word(Attach(nodes, at, c), i) == Word(nodes, i)
    ensures Word(Attach(nodes, at, c), |nodes|) == Word(nodes, at) + [c]
  {
    AttachCells(nodes, at, c);
    AttachWords(nodes, at, c);
    AttachParents(nodes, at, c);
    AttachChildren(nodes, at, c);
  }

  /** Hanging a new, linkless child under a node keeps the trie linked. */
  lemma AttachLinked(nodes: seq<TrieNode>, at: nat, c: char)
    requires Linked(nodes) && at < |nodes| && c !in nodes[at].children
    ensures Linked(Attach(nodes, at, c))
    ensures forall i :: 0 <= i < |nodes| ==> Word(Attach(nodes, at, c), i) == Word(nodes, i)
    ensures Word(Attach(nodes, at, c), |nodes|) == Word(nodes, at) + [c]
  {
    AttachShaped(nodes, at, c);
    var b := Attach(nodes, at, c);
    forall i | 0 <= i < |b|
      ensures LinkOk(b, b[i].longestSuffix, i) && LinkOk(b, b[i].dictionarySuffixLink, i)
    {
      if i < |nodes| {
        assert b[i].longestSuffix == nodes[i].longestSuffix;
        assert b[i].dictionarySuffixLink == nodes[i].dictionarySuffixLink;
        assert LinkOk(nodes, nodes[i].longestSuffix, i) && LinkOk(nodes, nodes[i].dictionarySuffixLink, i);
      }
    }
  }

  /**
   * How the arena grows while words are inserted: old nodes keep their
   * character, parent, links and children, new children may appear, and the
   * only new word end is node `r`; new nodes are linkless.
   */
  ghost predicate Grown(a: seq<TrieNode>, b: seq<TrieNode>, r: nat)
  {
    && |a| <= |b| && r < |b|
    && (forall i :: 0 <= i < |a| ==> Kept(a[i], b[i], i == r))
    && (forall i :: |a| <= i < |b| ==> Added(b[i], i == r))
  }

  /** An old node after growth: same character, parent and links, more children, maybe a new word end. */
  ghost predicate Kept(x: TrieNode, y: TrieNode, mark: bool)
  {
    && y.character == x.character && y.parent == x.parent
    && y.longestSuffix == x.longestSuffix && y.dictionarySuffixLink == x.dictionarySuffixLink
    && y.wordEnd == (x.wordEnd || mark)
    && (forall k :: k in x.children ==> k in y.children && y.children[k] == x.children[k])
  }

  /** A node created by growth: linkless, and a word end only if it is the marked one. */
  ghost predicate Added(y: TrieNode, mark: bool)
  {
    y.wordEnd == mark && y.longestSuffix.None? && y.dictionarySuffixLink.None?
  }


  /**
   * What `insertWord(at, word)` achieves: the arena grew from `a` to `b` and
   * node `r` ends a path spelling `at`'s word followed by `word`.
   */
  ghost predicate Inserted(a: seq<TrieNode>, b: seq<TrieNode>, at: nat, word: string, r: nat)
  {
    && ParentsFirst(a) && ParentsFirst(b) && at < |a|
    && Grown(a, b, r)
    && Word(b, r) == Word(a, at) + word
    && (word == [] ==> r == at)
  }

  /** Marking a node a word end inserts the empty word there. */
  lemma MarkInserted(a: seq<TrieNode>, at: nat)
    requires Linked(a) && at < |a|
    ensures Linked(a[at := a[at].(wordEnd := true)])
    ensures Inserted(a, a[at := a[at].(wordEnd := true)], at, [], at)
  {
    Relabelled(a, a[at := a[at].(wordEnd := true)]);
  }

  /** Inserting the rest of a word below an existing child inserts the whole word. */
  lemma DescendInserted(a: seq<TrieNode>, b: seq<TrieNode>, at: nat, c: char, rest: string, r: nat)
    requires Shaped(a) && at < |a| && c in a[at].children
    requires Inserted(a, b, a[at].children[c], rest, r)
    ensures Inserted(a, b, at, [c] + rest, r)
  {
    ChildWord(a, at, c);
  }

  /** Inserting the rest of a word below a newly hung child inserts the whole word. */
  lemma AttachInserted(a: seq<TrieNode>, b: seq<TrieNode>, at: nat, c: char, rest: string, r: nat)
    requires Linked(a) && at < |a| && c !in a[at].children
    requires Inserted(Attach(a, at, c), b, |a|, rest, r)
    ensures Inserted(a, b, at, [c] + rest, r)
  {
    AttachWords(a, at, c);
    AttachGrown(a, at, c, b, r);
    AppendAssociates(Word(a, at), [c], rest);
  }

  /** Growth after hanging a new child is growth from before the child was hung. */
  lemma AttachGrown(a: seq<TrieNode>, at: nat, ch: char, c: seq<TrieNode>, r: nat)
    requires at < |a| && ch !in a[at].children && Grown(Attach(a, at, ch), c, r)
    ensures Grown(a, c, r)
  {
    var b := Attach(a, at, ch);
    assert forall i :: 0 <= i < |a| && i != at ==> b[i] == a[i];
    assert b[|a|] == NewNode(ch).(parent := Some(at));
  }

  /**
   * Node `i` lies below `p` through one of `p`'s children whose key is in
   * `keys`: the part of `p`'s subtree a walk over those children covers.
   */
  ghost predicate Through(nodes: seq<TrieNode>, i: nat, p: nat, keys: set<char>)
    requires ParentsFirst(nodes) && i < |nodes| && p < |nodes|
  {
    Below(nodes, i, p) && Word(nodes, i)[|Word(nodes, p)|] in keys
  }

  /** `b` is `a` with some longest-suffix links changed and nothing else. */
  ghost predicate OnlySuffixLinksChanged(a: seq<TrieNode>, b: seq<TrieNode>)
  {
    |a| == |b| && forall i :: 0 <= i < |a| ==> b[i] == a[i].(longestSuffix := b[i].longestSuffix)
  }

  /** `b` is `a` with some dictionary-suffix links changed and nothing else. */
  ghost predicate OnlyDictionaryLinksChanged(a: seq<TrieNode>, b: seq<TrieNode>)
  {
    |a| == |b| && forall i :: 0 <= i < |a| ==> b[i] == a[i].(dictionarySuffixLink := b[i].dictionarySuffixLink)
  }

  /**
   * From `a` to `b` only longest-suffix links of nodes below `p` changed, and
   * every node below `p` has one.
   */
  ghost predicate SuffixLinksBelow(a: seq<TrieNode>, b: seq<TrieNode>, p: nat)
    requires ParentsFirst(a) && p < |a|
  {
    && OnlySuffixLinksChanged(a, b)
    && (forall i :: 0 <= i < |a| && !Below(a, i, p) ==> b[i] == a[i])
    && (forall i :: 0 <= i < |a| && Below(a, i, p) ==> b[i].longestSuffix.Some?)
  }

  /**
   * What the loop of `findAllLongestSuffixes(p)` has done once it walked the
   * children of `p` under `keys`: only links of nodes reached through them
   * changed, all of those nodes have a link, and when `p` has no link of its
   * own the walked children are linked to the root.
   */
  ghost predicate SuffixLinksThrough(a: seq<TrieNode>, b: seq<TrieNode>, p: nat, keys: set<char>)
    requires ParentsFirst(a) && p < |a|
  {
    && OnlySuffixLinksChanged(a, b)
    && (forall i :: 0 <= i < |a| && !Through(a, i, p, keys) ==> b[i] == a[i])
    && (forall i :: 0 <= i < |a| && Through(a, i, p, keys) ==> b[i].longestSuffix.Some?)
    && (a[p].longestSuffix.None? ==>
          forall k :: k in keys && k in a[p].children && a[p].children[k] < |b| ==>
            b[a[p].children[k]].longestSuffix == Some(Root))
  }

  /**
   * One turn of the loop in `findAllLongestSuffixes(p)`: linking `p`'s child
   * for `k` and then that child's subtree extends what the earlier turns did
   * over the keys `done` to the keys `done + {k}`.
   */
  lemma SuffixLinkTurn(o: seq<TrieNode>, s0: seq<TrieNode>, s1: seq<TrieNode>, s2: seq<TrieNode>,
                       p: nat, k: char, done: set<char>)
    requires Shaped(o) && p < |o| && k in o[p].children
    requires SuffixLinksThrough(o, s0, p, done)
    requires var c := o[p].children[k];
             && c < |s0| == |s1|
             && s1 == s0[c := s0[c].(longestSuffix := s1[c].longestSuffix)] && s1[c].longestSuffix.Some?
             && (o[p].longestSuffix.None? ==> s1[c].longestSuffix == Some(Root))
    requires ParentsFirst(s1) && o[p].children[k] < |s1| && SuffixLinksBelow(s1, s2, o[p].children[k])
    ensures SuffixLinksThrough(o, s2, p, done + {k})
  {
    var c := o[p].children[k];
    BelowSame(o, s1, c);
    SuffixLinkReach(o, s0, s1, s2, p, k);
    SuffixTurnCells(o, s0, s2, p, k, done);
    OnlySuffixLinksChain(o, s0, s1, s2);
    if o[p].longestSuffix.None? {
      forall k' | k' in done + {k} && k' in o[p].children && o[p].children[k'] < |s2|
        ensures s2[o[p].children[k']].longestSuffix == Some(Root)
      {
        if k' != k {
          assert k' in done;
        }
      }
    }
  }

  /** Arenas that spell the same words have the same subtrees. */
  lemma BelowSame(a: seq<TrieNode>, b: seq<TrieNode>, c: nat)
    requires ParentsFirst(a) && |a| == |b| && c < |a|
    requires forall i :: 0 <= i < |a| ==> a[i].parent == b[i].parent && a[i].character == b[i].character
    ensures ParentsFirst(b)
    ensures forall i :: 0 <= i < |a| ==> (Below(b, i, c) <==> Below(a, i, c))
  {
    assert SameWords(a, b);
    SameWordsSpell(a, b);
  }

  /** Three steps that each change only longest-suffix links change only longest-suffix links. */
  lemma OnlySuffixLinksChain(a: seq<TrieNode>, b: seq<TrieNode>, c: seq<TrieNode>, d: seq<TrieNode>)
    requires OnlySuffixLinksChanged(a, b) && |c| == |b|
    requires forall i :: 0 <= i < |b| ==> c[i] == b[i].(longestSuffix := c[i].longestSuffix)
    requires OnlySuffixLinksChanged(c, d)
    ensures OnlySuffixLinksChanged(a, d)
  {
  }

  /** The nodes reached through `done` or through `k` are the nodes reached through `done + {k}`. */
  lemma SuffixTurnCells(o: seq<TrieNode>, s0: seq<TrieNode>, s2: seq<TrieNode>, p: nat, k: char, done: set<char>)
    requires ParentsFirst(o) && p < |o| && |s0| == |o| && |s2| == |o|
    requires forall i :: 0 <= i < |o| && !Through(o, i, p, done) ==> s0[i] == o[i]
    requires forall i :: 0 <= i < |o| && Through(o, i, p, done) ==> s0[i].longestSuffix.Some?
    requires forall i :: 0 <= i < |o| && !Through(o, i, p, {k}) ==> s2[i] == s0[i]
    requires forall i :: 0 <= i < |o| && Through(o, i, p, {k}) ==> s2[i].longestSuffix.Some?
    ensures forall i :: 0 <= i < |o| && !Through(o, i, p, done + {k}) ==> s2[i] == o[i]
    ensures forall i :: 0 <= i < |o| && Through(o, i, p, done + {k}) ==> s2[i].longestSuffix.Some?
  {
    forall i | 0 <= i < |o|
      ensures !Through(o, i, p, done + {k}) ==> s2[i] == o[i]
      ensures Through(o, i, p, done + {k}) ==> s2[i].longestSuffix.Some?
    {
      ThroughSplit(o, i, p, done, k);
    }
  }

  /** A node is reached through `done + {k}` exactly when it is reached through `done` or through `k`. */
  lemma ThroughSplit(o: seq<TrieNode>, i: nat, p: nat, done: set<char>, k: char)
    requires ParentsFirst(o) && i < |o| && p < |o|
    ensures Through(o, i, p, done + {k}) <==> Through(o, i, p, done) || Through(o, i, p, {k})
  {
  }

  /**
   * The nodes one turn of `findAllLongestSuffixes(p)` reaches through `p`'s
   * child `c` for `k` end with a link; no other node changes.
   */
  lemma SuffixLinkReach(o: seq<TrieNode>, s0: seq<TrieNode>, s1: seq<TrieNode>, s2: seq<TrieNode>,
                        p: nat, k: char)
    requires Shaped(o) && p < |o| && k in o[p].children
    requires |s0| == |o| && |s1| == |o| && |s2| == |o|
    requires var c := o[p].children[k];
             && c < |o| && (forall i :: 0 <= i < |o| && i != c ==> s1[i] == s0[i])
             && s1[c].longestSuffix.Some?
    requires forall i :: 0 <= i < |o| && !Below(o, i, o[p].children[k]) ==> s2[i] == s1[i]
    requires forall i :: 0 <= i < |o| && Below(o, i, o[p].children[k]) ==> s2[i].longestSuffix.Some?
    ensures forall i :: 0 <= i < |o| && !Through(o, i, p, {k}) ==> s2[i] == s0[i]
    ensures forall i :: 0 <= i < |o| && Through(o, i, p, {k}) ==> s2[i].longestSuffix.Some?
    ensures s2[o[p].children[k]] == s1[o[p].children[k]]
    ensures forall k' :: k' in o[p].children && k' != k ==> s2[o[p].children[k']] == s0[o[p].children[k']]
  {
    forall i | 0 <= i < |o|
      ensures !Through(o, i, p, {k}) ==> s2[i] == s0[i]
      ensures Through(o, i, p, {k}) ==> s2[i].longestSuffix.Some?
    {
      BelowVia(o, i, p, k);
    }
    forall k' | k' in o[p].children && k' != k ensures s2[o[p].children[k']] == s0[o[p].children[k']] {
      ChildWord(o, p, k');
    }
  }

  /** A loop over all of `p`'s keys has linked all of `p`'s subtree. */
  lemma SuffixLinksDone(o: seq<TrieNode>, s: seq<TrieNode>, p: nat)
    requires Shaped(o) && p < |o| && SuffixLinksThrough(o, s, p, o[p].children.Keys)
    ensures SuffixLinksBelow(o, s, p)
    ensures o[p].longestSuffix.None? ==>
              forall k :: k in o[p].children ==> s[o[p].children[k]].longestSuffix == Some(Root)
  {
    ThroughAll(o, p);
    if o[p].longestSuffix.None? {
      forall k | k in o[p].children
        ensures s[o[p].children[k]].longestSuffix == Some(Root)
      {
        assert ChildOk(o, p, k);
      }
    }
  }

  /** `FirstWordEnd` reads only longest-suffix links and word-end flags. */
  lemma {:induction false} FirstWordEndStable(a: seq<TrieNode>, b: seq<TrieNode>, x: Option<nat>)
    requires Linked(a) && Linked(b) && |a| == |b| && (x.Some? ==> x.value < |a|)
    requires forall i :: 0 <= i < |a| ==> b[i].longestSuffix == a[i].longestSuffix && b[i].wordEnd == a[i].wordEnd
    ensures FirstWordEnd(b, x) == FirstWordEnd(a, x)
    decreases LinkMeasure(a, x)
  {
    if x.Some? && !a[x.value].wordEnd {
      assert LinkOk(a, a[x.value].longestSuffix, x.value);
      FirstWordEndStable(a, b, a[x.value].longestSuffix);
    }
  }

  /** Changing only dictionary links leaves every node's first word end in place. */
  lemma ChainsStable(a: seq<TrieNode>, b: seq<TrieNode>)
    requires Linked(a) && Linked(b) && OnlyDictionaryLinksChanged(a, b)
    ensures forall i :: 0 <= i < |a| ==> FirstWordEnd(b, b[i].longestSuffix) == FirstWordEnd(a, a[i].longestSuffix)
  {
    forall i | 0 <= i < |a| ensures FirstWordEnd(b, b[i].longestSuffix) == FirstWordEnd(a, a[i].longestSuffix) {
      assert LinkOk(a, a[i].longestSuffix, i);
      FirstWordEndStable(a, b, a[i].longestSuffix);
    }
  }

  /**
   * The nodes one turn of `findAllDictionarySuffixLinks(p)` reaches through
   * `p`'s child `c` for `k` get the first word end on their longest-suffix
   * chain; the turn leaves every other node alone.
   */
  lemma DictionaryLinkReach(o: seq<TrieNode>, s0: seq<TrieNode>, s1: seq<TrieNode>, s2: seq<TrieNode>,
                            p: nat, k: char)
    requires Linked(o) && p < |o| && k in o[p].children
    requires |s0| == |o| && |s1| == |o| && |s2| == |o|
    requires var c := o[p].children[k];
             && c < |o| && (forall i :: 0 <= i < |o| && i != c ==> s1[i] == s0[i])
             && s1[c].dictionarySuffixLink == FirstWordEnd(o, o[c].longestSuffix)
    requires forall i :: 0 <= i < |o| && !Below(o, i, o[p].children[k]) ==> s2[i] == s1[i]
    requires forall i :: 0 <= i < |o| && Below(o, i, o[p].children[k]) ==>
               s2[i].dictionarySuffixLink == FirstWordEnd(o, o[i].longestSuffix)
    ensures forall i :: 0 <= i < |o| && !Through(o, i, p, {k}) ==> s2[i] == s0[i]
    ensures forall i :: 0 <= i < |o| && Through(o, i, p, {k}) ==>
              s2[i].dictionarySuffixLink == FirstWordEnd(o, o[i].longestSuffix)
  {
    forall i | 0 <= i < |o|
      ensures !Through(o, i, p, {k}) ==> s2[i] == s0[i]
      ensures Through(o, i, p, {k}) ==> s2[i].dictionarySuffixLink == FirstWordEnd(o, o[i].longestSuffix)
    {
      BelowVia(o, i, p, k);
    }
  }

  /**
   * From `a` to `b` only dictionary links of nodes below `p` changed, and
   * each node below `p` now links to the first word end on its
   * longest-suffix chain.
   */
  ghost predicate DictionaryLinksBelow(a: seq<TrieNode>, b: seq<TrieNode>, p: nat)
    requires Linked(a) && p < |a|
  {
    && OnlyDictionaryLinksChanged(a, b)
    && (forall i :: 0 <= i < |a| && !Below(a, i, p) ==> b[i] == a[i])
    && (forall i :: 0 <= i < |a| && Below(a, i, p) ==>
          b[i].dictionarySuffixLink == FirstWordEnd(a, a[i].longestSuffix))
  }

  /** What the loop of `findAllDictionarySuffixLinks(p)` has done once it walked the children under `keys`. */
  ghost predicate DictionaryLinksThrough(a: seq<TrieNode>, b: seq<TrieNode>, p: nat, keys: set<char>)
    requires Linked(a) && p < |a|
  {
    && OnlyDictionaryLinksChanged(a, b)
    && (forall i :: 0 <= i < |a| && !Through(a, i, p, keys) ==> b[i] == a[i])
    && (forall i :: 0 <= i < |a| && Through(a, i, p, keys) ==>
          b[i].dictionarySuffixLink == FirstWordEnd(a, a[i].longestSuffix))
  }

  /**
   * One turn of the loop in `findAllDictionarySuffixLinks(p)`: linking `p`'s
   * child for `k` and then that child's subtree extends what the earlier
   * turns did over the keys `done` to the keys `done + {k}`.
   */
  lemma DictionaryLinkTurn(o: seq<TrieNode>, s0: seq<TrieNode>, s1: seq<TrieNode>, s2: seq<TrieNode>,
                           p: nat, k: char, done: set<char>)
    requires Linked(o) && p < |o| && k in o[p].children
    requires Linked(s0) && Linked(s1) && DictionaryLinksThrough(o, s0, p, done)
    requires var c := o[p].children[k];
             && c < |s0| == |s1|
             && s1 == s0[c := s0[c].(dictionarySuffixLink := FirstWordEnd(s0, s0[c].longestSuffix))]
    requires o[p].children[k] < |s1| && DictionaryLinksBelow(s1, s2, o[p].children[k])
    ensures DictionaryLinksThrough(o, s2, p, done + {k})
  {
    var c := o[p].children[k];
    BelowSame(o, s1, c);
    OnlyDictionaryLinksChain(o, s0, s1);
    ChainsStable(o, s0);
    ChainsStable(o, s1);
    DictionaryLinkReach(o, s0, s1, s2, p, k);
    DictionaryTurnCells(o, s0, s2, p, k, done);
    OnlyDictionaryLinksChain(o, s1, s2);
  }

  /** Two steps that each change only dictionary links change only dictionary links. */
  lemma OnlyDictionaryLinksChain(a: seq<TrieNode>, b: seq<TrieNode>, c: seq<TrieNode>)
    requires OnlyDictionaryLinksChanged(a, b) && |c| == |b|
    requires forall i :: 0 <= i < |b| ==> c[i] == b[i].(dictionarySuffixLink := c[i].dictionarySuffixLink)
    ensures OnlyDictionaryLinksChanged(a, c)
  {
  }

  /** The nodes reached through `done` or through `k` are the nodes reached through `done + {k}`. */
  lemma DictionaryTurnCells(o: seq<TrieNode>, s0: seq<TrieNode>, s2: seq<TrieNode>, p: nat, k: char, done: set<char>)
    requires Linked(o) && p < |o| && |s0| == |o| && |s2| == |o|
    requires forall i :: 0 <= i < |o| && !Through(o, i, p, done) ==> s0[i] == o[i]
    requires forall i :: 0 <= i < |o| && Through(o, i, p, done) ==>
               s0[i].dictionarySuffixLink == FirstWordEnd(o, o[i].longestSuffix)
    requires forall i :: 0 <= i < |o| && !Through(o, i, p, {k}) ==> s2[i] == s0[i]
    requires forall i :: 0 <= i < |o| && Through(o, i, p, {k}) ==>
               s2[i].dictionarySuffixLink == FirstWordEnd(o, o[i].longestSuffix)
    ensures forall i :: 0 <= i < |o| && !Through(o, i, p, done + {k}) ==> s2[i] == o[i]
    ensures forall i :: 0 <= i < |o| && Through(o, i, p, done + {k}) ==>
              s2[i].dictionarySuffixLink == FirstWordEnd(o, o[i].longestSuffix)
  {
    forall i | 0 <= i < |o|
      ensures !Through(o, i, p, done + {k}) ==> s2[i] == o[i]
      ensures Through(o, i, p, done + {k}) ==> s2[i].dictionarySuffixLink == FirstWordEnd(o, o[i].longestSuffix)
    {
      ThroughSplit(o, i, p, done, k);
    }
  }

  /** A loop over all of `p`'s keys has linked all of `p`'s subtree. */
  lemma DictionaryLinksDone(o: seq<TrieNode>, s: seq<TrieNode>, p: nat)
    requires Linked(o) && p < |o| && DictionaryLinksThrough(o, s, p, o[p].children.Keys)
    ensures DictionaryLinksBelow(o, s, p)
  {
    ThroughAll(o, p);
  }

  /** Every node below `p` is reached through one of `p`'s keys. */
  lemma ThroughAll(nodes: seq<TrieNode>, p: nat)
    requires Shaped(nodes) && p < |nodes|
    ensures forall i :: 0 <= i < |nodes| && Below(nodes, i, p) ==> Through(nodes, i, p, nodes[p].children.Keys)
  {
    forall i | 0 <= i < |nodes| && Below(nodes, i, p) ensures Through(nodes, i, p, nodes[p].children.Keys) {
      BelowChild(nodes, i, p);
    }
  }

  /** What the printing loop of `searchInString` prints for node `m` itself. */
  function Here(nodes: seq<TrieNode>, m: nat): seq<string>
    requires ParentsFirst(nodes) && m < |nodes|
  {
    if nodes[m].wordEnd then [Word(nodes, m)] else []
  }

  /**
   * The words the printing loop of `searchInString` prints after stepping
   * to node `m`: those of the word ends on the dictionary chain from `m`.
   */
  ghost function ChainReports(nodes: seq<TrieNode>, m: nat): seq<string>
    requires Linked(nodes) && m < |nodes|
    decreases |Word(nodes, m)|
  {
    assert LinkOk(nodes, nodes[m].dictionarySuffixLink, m);
    match nodes[m].dictionarySuffixLink
    case None => Here(nodes, m)
    case Some(d) => Here(nodes, m) + ChainReports(nodes, d)
  }

  /** Appending node `current`'s report keeps the printed words a prefix of the chain's reports from `m`. */
  lemma ChainAppend(nodes: seq<TrieNode>, m: nat, current: nat, printed: seq<string>, words: seq<string>)
    requires Linked(nodes) && m < |nodes| && current < |nodes| && nodes[current].dictionarySuffixLink.Some?
    requires words == Here(nodes, current) && printed + ChainReports(nodes, current) == ChainReports(nodes, m)
    ensures nodes[current].dictionarySuffixLink.value < |nodes|
    ensures (printed + words) + ChainReports(nodes, nodes[current].dictionarySuffixLink.value) == ChainReports(nodes, m)
  {
    ChainStep(nodes, current);
    AppendAssociates(printed, words, ChainReports(nodes, nodes[current].dictionarySuffixLink.value));
  }

  /** Putting an element in front keeps every member of a sequence a member. */
  lemma InAfter<T>(y: T, s: seq<T>, r: T)
    requires r in s
    ensures r in [y] + s
  {
    var i :| 0 <= i < |s| && s[i] == r;
    assert ([y] + s)[i + 1] == r;
  }

  /** Moving one key from the pending keys to the done keys keeps them a partition of all keys. */
  lemma MoveKey<K>(pending: set<K>, done: set<K>, key: K, all: set<K>)
    requires key in pending && pending !! done && pending + done == all
    ensures (pending - {key}) !! (done + {key}) && (pending - {key}) + (done + {key}) == all
    ensures pending - {key} < pending
  {
  }

  lemma AppendAssociates<T>(a: seq<T>, b: seq<T>, c: seq<T>)
    ensures (a + b) + c == a + (b + c)
  {
  }

  /** One step along the dictionary chain: this node's report, then the rest of the chain's. */
  lemma ChainStep(nodes: seq<TrieNode>, m: nat)
    requires Linked(nodes) && m < |nodes| && nodes[m].dictionarySuffixLink.Some?
    ensures nodes[m].dictionarySuffixLink.value < |nodes|
    ensures |Word(nodes, nodes[m].dictionarySuffixLink.value)| < |Word(nodes, m)|
    ensures ChainReports(nodes, m) == Here(nodes, m) + ChainReports(nodes, nodes[m].dictionarySuffixLink.value)
    ensures ChainEnd(nodes, m) == ChainEnd(nodes, nodes[m].dictionarySuffixLink.value)
  {
    assert LinkOk(nodes, nodes[m].dictionarySuffixLink, m);
  }

  /** The last node of the dictionary chain from `m`, where the printing loop leaves the iterator. */
  ghost function ChainEnd(nodes: seq<TrieNode>, m: nat): (r: nat)
    requires Linked(nodes) && m < |nodes|
    ensures r < |nodes| && nodes[r].dictionarySuffixLink.None?
    decreases |Word(nodes, m)|
  {
    assert LinkOk(nodes, nodes[m].dictionarySuffixLink, m);
    match nodes[m].dictionarySuffixLink
    case None => m
    case Some(d) => ChainEnd(nodes, d)
  }

  /**
   * One character of `searchInString` as written: from iterator node `it`,
   * walk the longest-suffix chain to the first node with a child for `c`;
   * with none, go back to the root and print nothing; otherwise print the
   * word ends on the child's dictionary chain and stop at the chain's end.
   */
  ghost function Step(nodes: seq<TrieNode>, it: nat, c: char): (r: (nat, seq<string>))
    requires Linked(nodes) && it < |nodes|
    ensures r.0 < |nodes|
  {
    match FirstWithChild(nodes, Some(it), c)
    case None => (Root, [])
    case Some(y) =>
      var m := nodes[y].children[c];
      (ChainEnd(nodes, m), ChainReports(nodes, m))
  }

  /** The iterator node and the printed words after `searchInString` has read all of `s`. */
  ghost function Scan(nodes: seq<TrieNode>, s: string): (r: (nat, seq<string>))
    requires Linked(nodes)
    ensures r.0 < |nodes|
  {
    if s == [] then (Root, [])
    else
      var before := Scan(nodes, s[..|s| - 1]);
      var after := Step(nodes, before.0, s[|s| - 1]);
      (after.0, before.1 + after.1)
  }

  /** `Step` when the walk from `start` finds node `y` with a child for `c`, and when it finds none. */
  lemma StepCases(nodes: seq<TrieNode>, start: nat, c: char)
    requires Linked(nodes) && start < |nodes|
    ensures match FirstWithChild(nodes, Some(start), c)
            case None => Step(nodes, start, c) == (Root, [])
            case Some(y) =>
              var m := nodes[y].children[c];
              Step(nodes, start, c) == (ChainEnd(nodes, m), ChainReports(nodes, m))
  {
  }

  /** `Scan` reads a text one character at a time. */
  lemma ScanSnoc(nodes: seq<TrieNode>, s: string, i: nat)
    requires Linked(nodes) && i < |s|
    ensures var before := Scan(nodes, s[..i]);
            var after := Step(nodes, before.0, s[i]);
            Scan(nodes, s[..i + 1]) == (after.0, before.1 + after.1)
  {
    assert s[..i + 1][..i] == s[..i];
  }

  /** Exactly the words of `words` end at word-end nodes, and each of them has a node. */
  ghost predicate Dictionary(nodes: seq<TrieNode>, words: seq<string>)
    requires ParentsFirst(nodes)
  {
    && (forall i :: 0 <= i < |nodes| ==> (nodes[i].wordEnd <==> Word(nodes, i) in words))
    && (forall w :: w in words ==> exists i :: 0 <= i < |nodes| && Word(nodes, i) == w)
  }

  /** No node has a link yet. */
  ghost predicate Linkless(nodes: seq<TrieNode>)
  {
    forall i :: 0 <= i < |nodes| ==> nodes[i].longestSuffix.None? && nodes[i].dictionarySuffixLink.None?
  }

  /** Inserting the next dictionary word from the root extends the dictionary by that word. */
  lemma InsertExtendsDictionary(a: seq<TrieNode>, b: seq<TrieNode>, r: nat, words: seq<string>, j: nat)
    requires Linked(a) && Linked(b) && j < |words|
    requires Dictionary(a, words[..j]) && Linkless(a)
    requires Inserted(a, b, Root, words[j], r)
    ensures Dictionary(b, words[..j + 1]) && Linkless(b)
  {
    assert words[..j + 1] == words[..j] + [words[j]];
    forall i | 0 <= i < |a| ensures Word(b, i) == Word(a, i) {
      WordStable(a, b, i);
    }
    assert Word(a, Root) == [];
    forall i | 0 <= i < |b| ensures b[i].wordEnd <==> Word(b, i) in words[..j + 1] {
      if Word(b, i) == words[j] {
        WordInjective(b, i, r);
      }
      if i >= |a| && Word(b, i) in words[..j] {
        var i0 :| 0 <= i0 < |a| && Word(a, i0) == Word(b, i);
        WordInjective(b, i, i0);
      }
    }
    var extended := words[..j + 1];
    forall w | w in extended ensures exists i :: 0 <= i < |b| && Word(b, i) == w {
      if w != words[j] {
        var i0 :| 0 <= i0 < |a| && Word(a, i0) == w;
        assert Word(b, i0) == w;
      }
    }
  }

  /**
   * The automaton `prepareAhoCorasickAutomaton(words)` returns: a linked trie
   * of exactly the dictionary words, the root without links, every other
   * node with a longest-suffix link (the root's children to the root), and
   * each dictionary link the first word end on the node's longest-suffix chain.
   */
  ghost predicate Automaton(nodes: seq<TrieNode>, words: seq<string>)
  {
    && Linked(nodes)
    && Dictionary(nodes, words)
    && nodes[Root].longestSuffix.None? && nodes[Root].dictionarySuffixLink.None?
    && (forall i :: 0 < i < |nodes| ==> nodes[i].longestSuffix.Some?)
    && (forall k :: k in nodes[Root].children ==> nodes[nodes[Root].children[k]].longestSuffix == Some(Root))
    && (forall i :: 0 < i < |nodes| ==>
          nodes[i].dictionarySuffixLink == FirstWordEnd(nodes, nodes[i].longestSuffix))
  }

  /** Every node but the root lies below the root. */
  lemma AllBelowRoot(nodes: seq<TrieNode>)
    requires Shaped(nodes)
    ensures forall i :: 0 <= i < |nodes| ==> (Below(nodes, i, Root) <==> i != Root)
  {
    forall i | 0 <= i < |nodes| ensures Below(nodes, i, Root) <==> i != Root {
      EmptyWordIsRoot(nodes, i);
      EmptyWordIsRoot(nodes, Root);
    }
  }

  /** The two link passes over a linkless trie of the dictionary build the automaton. */
  lemma LinkPassesBuildAutomaton(o: seq<TrieNode>, n1: seq<TrieNode>, n2: seq<TrieNode>, words: seq<string>)
    requires Linked(o) && Dictionary(o, words) && Linkless(o)
    requires Linked(n1) && SuffixLinksBelow(o, n1, Root)
    requires forall k :: k in o[Root].children ==> n1[o[Root].children[k]].longestSuffix == Some(Root)
    requires Linked(n2) && DictionaryLinksBelow(n1, n2, Root)
    ensures Automaton(n2, words)
  {
    LinkPassesKeepDictionary(o, n1, n2, words);
    LinkPassesSetLinks(o, n1, n2);
  }

  /** The link passes change no word and no word end, so the dictionary stays the same. */
  lemma LinkPassesKeepDictionary(o: seq<TrieNode>, n1: seq<TrieNode>, n2: seq<TrieNode>, words: seq<string>)
    requires ParentsFirst(o) && Dictionary(o, words)
    requires OnlySuffixLinksChanged(o, n1) && OnlyDictionaryLinksChanged(n1, n2)
    ensures ParentsFirst(n2) && Dictionary(n2, words)
  {
    assert SameWords(o, n1);
    SameWordsSpell(o, n1);
    assert SameWords(n1, n2);
    SameWordsSpell(n1, n2);
    forall w | w in words ensures exists i :: 0 <= i < |n2| && Word(n2, i) == w {
      var i :| 0 <= i < |o| && Word(o, i) == w;
      assert Word(n2, i) == w;
    }
  }

  /** The link passes leave the root linkless and give every other node the links the automaton needs. */
  lemma LinkPassesSetLinks(o: seq<TrieNode>, n1: seq<TrieNode>, n2: seq<TrieNode>)
    requires Linked(o) && Linkless(o)
    requires Linked(n1) && SuffixLinksBelow(o, n1, Root)
    requires forall k :: k in o[Root].children ==> n1[o[Root].children[k]].longestSuffix == Some(Root)
    requires Linked(n2) && DictionaryLinksBelow(n1, n2, Root)
    ensures n2[Root].longestSuffix.None? && n2[Root].dictionarySuffixLink.None?
    ensures forall i :: 0 < i < |n2| ==> n2[i].longestSuffix.Some?
    ensures forall k :: k in n2[Root].children ==> n2[n2[Root].children[k]].longestSuffix == Some(Root)
    ensures forall i :: 0 < i < |n2| ==> n2[i].dictionarySuffixLink == FirstWordEnd(n2, n2[i].longestSuffix)
  {
    AllBelowRoot(o);
    assert SameWords(o, n1);
    SameWordsSpell(o, n1);
    AllBelowRoot(n1);
    ChainsStable(n1, n2);
    assert n2[Root] == n1[Root] == o[Root];
  }

  /** Every word on the dictionary chain from `m` ends a word and is a suffix of `m`'s word. */
  lemma {:induction false} ChainReportsSound(nodes: seq<TrieNode>, m: nat)
    requires Linked(nodes) && m < |nodes|
    ensures forall w :: w in ChainReports(nodes, m) ==>
              IsSuffix(w, Word(nodes, m)) && exists i :: 0 <= i < |nodes| && nodes[i].wordEnd && Word(nodes, i) == w
    decreases |Word(nodes, m)|
  {
    assert LinkOk(nodes, nodes[m].dictionarySuffixLink, m);
    assert IsSuffix(Word(nodes, m), Word(nodes, m));
    if nodes[m].dictionarySuffixLink.Some? {
      var d := nodes[m].dictionarySuffixLink.value;
      ChainReportsSound(nodes, d);
      forall w | w in ChainReports(nodes, d) ensures IsSuffix(w, Word(nodes, m)) {
        SuffixTransitive(w, Word(nodes, d), Word(nodes, m));
      }
    }
  }

  /**
   * One step of the scan from a node spelling a suffix of `t`, reading `c`:
   * the new iterator spells a suffix of `t + [c]`, and each word printed is
   * a word-end node's word and a suffix of `t + [c]`.
   */
  lemma StepSound(nodes: seq<TrieNode>, it: nat, t: string, c: char)
    requires Linked(nodes) && it < |nodes| && IsSuffix(Word(nodes, it), t)
    ensures IsSuffix(Word(nodes, Step(nodes, it, c).0), t + [c])
    ensures forall w :: w in Step(nodes, it, c).1 ==>
              IsSuffix(w, t + [c]) && exists i :: 0 <= i < |nodes| && nodes[i].wordEnd && Word(nodes, i) == w
  {
    EmptyWordIsRoot(nodes, Root);
    match FirstWithChild(nodes, Some(it), c)
    case None =>
    case Some(y) =>
      var m := nodes[y].children[c];
      FirstWithChildSuffix(nodes, Some(it), c);
      SuffixTransitive(Word(nodes, y), Word(nodes, it), t);
      SuffixAppend(Word(nodes, y), t, c);
      ChildWord(nodes, y, c);
      ChainReportsSound(nodes, m);
      ChainEndSuffix(nodes, m);
      SuffixTransitive(Word(nodes, ChainEnd(nodes, m)), Word(nodes, m), t + [c]);
      forall w | w in ChainReports(nodes, m) ensures IsSuffix(w, t + [c]) {
        SuffixTransitive(w, Word(nodes, m), t + [c]);
      }
  }

  /**
   * Soundness of the scan as written: the iterator always spells a suffix of
   * the text read so far, and every printed word is the word of a word-end
   * node and occurs in the text.
   */
  lemma {:induction false} ScanSound(nodes: seq<TrieNode>, s: string)
    requires Linked(nodes)
    ensures IsSuffix(Word(nodes, Scan(nodes, s).0), s)
    ensures forall w :: w in Scan(nodes, s).1 ==>
              Occurs(w, s) && exists i :: 0 <= i < |nodes| && nodes[i].wordEnd && Word(nodes, i) == w
    decreases |s|
  {
    EmptyWordIsRoot(nodes, Root);
    if s != [] {
      var t, c := s[..|s| - 1], s[|s| - 1];
      assert s == t + [c];
      ScanSound(nodes, t);
      var it := Scan(nodes, t).0;
      StepSound(nodes, it, t, c);
      forall w | w in Scan(nodes, t).1 ensures Occurs(w, s) {
        var j :| 0 <= j <= |t| && IsSuffix(w, t[..j]);
        assert s[..j] == t[..j];
      }
      forall w | w in Step(nodes, it, c).1 ensures Occurs(w, s) {
        assert s[..|s|] == s;
      }
    }
  }

  /** The end of the dictionary chain from `m` spells a suffix of `m`'s word. */
  lemma {:induction false} ChainEndSuffix(nodes: seq<TrieNode>, m: nat)
    requires Linked(nodes) && m < |nodes|
    ensures IsSuffix(Word(nodes, ChainEnd(nodes, m)), Word(nodes, m))
    decreases |Word(nodes, m)|
  {
    assert LinkOk(nodes, nodes[m].dictionarySuffixLink, m);
    assert Word(nodes, m)[|Word(nodes, m)| - |Word(nodes, m)|..] == Word(nodes, m);
    if nodes[m].dictionarySuffixLink.Some? {
      var d := nodes[m].dictionarySuffixLink.value;
      ChainEndSuffix(nodes, d);
      SuffixTransitive(Word(nodes, ChainEnd(nodes, d)), Word(nodes, d), Word(nodes, m));
    }
  }

  /**
   * The automaton for the dictionary {a, ab} of the class comment: the trie
   * root, a, ab, with both longest-suffix links to the root and no
   * dictionary links.
   */
  function DocArena(): seq<TrieNode>
  {
    [ TrieNode('\0', false, map['a' := 1], None, None, None),
      TrieNode('a', true, map['b' := 2], Some(Root), None, Some(Root)),
      TrieNode('b', true, map[], Some(Root), None, Some(1)) ]
  }

  lemma DocShaped()
    ensures Shaped(DocArena())
    ensures Word(DocArena(), 0) == [] && Word(DocArena(), 1) == "a" && Word(DocArena(), 2) == "ab"
  {
    var nodes := DocArena();
    assert ParentsFirst(nodes);
    assert ParentOk(nodes, 1) && ParentOk(nodes, 2);
    assert ChildOk(nodes, 0, 'a') && ChildOk(nodes, 1, 'b');
  }

  lemma DocLinked()
    ensures Linked(DocArena())
  {
    var nodes := DocArena();
    DocShaped();
    assert IsProperSuffix(Word(nodes, 0), Word(nodes, 1)) && IsProperSuffix(Word(nodes, 0), Word(nodes, 2));
  }

  lemma DocDictionary()
    ensures ParentsFirst(DocArena()) && Dictionary(DocArena(), ["a", "ab"])
  {
    var nodes := DocArena();
    DocShaped();
    assert [] !in ["a", "ab"];
    assert forall w :: w in ["a", "ab"] ==> w == Word(nodes, 1) || w == Word(nodes, 2);
  }

  /** The arena is the automaton of {a, ab}. */
  lemma DocAutomaton()
    ensures Automaton(DocArena(), ["a", "ab"])
  {
    var nodes := DocArena();
    DocLinked();
    DocDictionary();
    assert FirstWordEnd(nodes, Some(Root)) == None;
    forall i | 0 < i < |nodes|
      ensures nodes[i].longestSuffix == Some(Root)
      ensures nodes[i].dictionarySuffixLink == FirstWordEnd(nodes, nodes[i].longestSuffix)
    {
      assert i == 1 || i == 2;
    }
    forall k | k in nodes[Root].children ensures nodes[nodes[Root].children[k]].longestSuffix == Some(Root) {
      assert k == 'a';
    }
  }

  /** The class comment's example: over {a, ab} the text "aba" prints a, ab, a. */
  lemma DocExample()
    ensures Linked(DocArena())
    ensures Scan(DocArena(), "aba").1 == ["a", "ab", "a"]
  {
    var nodes := DocArena();
    DocShaped();
    DocLinked();
    var s := "aba";
    assert Step(nodes, Root, 'a') == (1, ["a"]);
    assert Step(nodes, 1, 'b') == (2, ["ab"]);
    assert FirstWithChild(nodes, Some(2), 'a') == Some(Root);
    assert Step(nodes, 2, 'a') == (1, ["a"]);
    assert Scan(nodes, []) == (Root, []);
    assert s[..1][..0] == [] && s[..1][0] == 'a';
    var b := Scan(nodes, s[..1][..0]);
    assert b == (Root, []);
    var a := Step(nodes, b.0, s[..1][0]);
    assert a == (1, ["a"]);
    assert Scan(nodes, s[..1]) == (a.0, b.1 + a.1);
    assert b.1 + a.1 == ["a"];
    assert a.0 == 1;
    assert Scan(nodes, s[..1]) == (1, ["a"]);
    assert s[..2][..1] == s[..1] && s[..2][1] == 'b';
    var a2 := Step(nodes, 1, 'b');
    assert Scan(nodes, s[..2]) == (a2.0, ["a"] + a2.1);
    assert ["a"] + a2.1 == ["a", "ab"];
    assert s[..3][..2] == s[..2] && s[..3][2] == 'a' && s[..3] == s;
    var a3 := Step(nodes, 2, 'a');
    assert Scan(nodes, s) == (a3.0, ["a", "ab"] + a3.1);
    assert ["a", "ab"] + a3.1 == ["a", "ab", "a"];
    assert Scan(nodes, s) == (1, ["a", "ab", "a"]);
  }

  /**
   * The automaton for the dictionary {abd, b}, words inserted in that order:
   * root, a, ab, abd, b. The node for "ab" has its longest suffix and its
   * dictionary link at the node for "b"; every other link goes to the root.
   */
  function MissArena(): seq<TrieNode>
  {
    [ TrieNode('\0', false, map['a' := 1, 'b' := 4], None, None, None),
      TrieNode('a', false, map['b' := 2], Some(Root), None, Some(Root)),
      TrieNode('b', false, map['d' := 3], Some(4), Some(4), Some(1)),
      TrieNode('d', true, map[], Some(Root), None, Some(2)),
      TrieNode('b', true, map[], Some(Root), None, Some(Root)) ]
  }

  lemma MissWords()
    ensures ParentsFirst(MissArena())
    ensures Word(MissArena(), 0) == [] && Word(MissArena(), 1) == "a" && Word(MissArena(), 2) == "ab"
    ensures Word(MissArena(), 3) == "abd" && Word(MissArena(), 4) == "b"
  {
    var nodes := MissArena();
    assert ParentsFirst(nodes);
    assert Word(nodes, 1) == "a";
    assert Word(nodes, 2) == "ab";
  }

  lemma MissShaped()
    ensures Shaped(MissArena())
  {
    var nodes := MissArena();
    MissWords();
    assert ParentOk(nodes, 1) && ParentOk(nodes, 2) && ParentOk(nodes, 3) && ParentOk(nodes, 4);
    assert ChildOk(nodes, 0, 'a') && ChildOk(nodes, 0, 'b') && ChildOk(nodes, 1, 'b') && ChildOk(nodes, 2, 'd');
  }

  lemma MissLinked()
    ensures Linked(MissArena())
  {
    var nodes := MissArena();
    MissShaped();
    MissWords();
    assert IsProperSuffix([], "a") && IsProperSuffix([], "abd") && IsProperSuffix([], "b");
    assert IsProperSuffix("b", "ab");
    forall i | 0 <= i < |nodes|
      ensures LinkOk(nodes, nodes[i].longestSuffix, i) && LinkOk(nodes, nodes[i].dictionarySuffixLink, i)
    {
      assert i == 0 || i == 1 || i == 2 || i == 3 || i == 4;
    }
  }

  lemma MissDictionary()
    ensures ParentsFirst(MissArena()) && Dictionary(MissArena(), ["abd", "b"])
  {
    var nodes := MissArena();
    MissWords();
    assert [] !in ["abd", "b"] && "a" !in ["abd", "b"] && "ab" !in ["abd", "b"];
    assert forall w :: w in ["abd", "b"] ==> w == Word(nodes, 3) || w == Word(nodes, 4);
  }

  /** Each dictionary link is the first word end on the node's longest-suffix chain. */
  lemma MissDictionaryLinks()
    ensures Linked(MissArena())
    ensures forall i :: 0 < i < |MissArena()| ==>
              MissArena()[i].dictionarySuffixLink == FirstWordEnd(MissArena(), MissArena()[i].longestSuffix)
  {
    var nodes := MissArena();
    MissLinked();
    assert FirstWordEnd(nodes, Some(Root)) == None;
    assert FirstWordEnd(nodes, Some(4)) == Some(4);
    forall i | 0 < i < |nodes|
      ensures nodes[i].dictionarySuffixLink == FirstWordEnd(nodes, nodes[i].longestSuffix)
    {
      assert i == 1 || i == 2 || i == 3 || i == 4;
    }
  }

  /** The arena is an automaton of {abd, b}. */
  lemma MissAutomaton()
    ensures Automaton(MissArena(), ["abd", "b"])
  {
    var nodes := MissArena();
    MissDictionaryLinks();
    MissDictionary();
    forall k | k in nodes[Root].children ensures nodes[nodes[Root].children[k]].longestSuffix == Some(Root) {
      assert k == 'a' || k == 'b';
    }
    forall i | 0 < i < |nodes| ensures nodes[i].longestSuffix.Some? {
      assert i == 1 || i == 2 || i == 3 || i == 4;
    }
  }

  /** The dictionary chains of the nodes for "a", "ab" and "abd". */
  lemma MissChains()
    ensures Linked(MissArena())
    ensures ChainReports(MissArena(), 1) == [] && ChainEnd(MissArena(), 1) == 1
    ensures ChainReports(MissArena(), 2) == ["b"] && ChainEnd(MissArena(), 2) == 4
    ensures ChainReports(MissArena(), 3) == ["abd"]
  {
    var nodes := MissArena();
    MissLinked();
    MissWords();
    assert ChainReports(nodes, 4) == ["b"];
    ChainStep(nodes, 2);
  }

  /** Reading "abd" from the root: where the longest-suffix walk finds each character. */
  lemma MissWalks()
    ensures Linked(MissArena())
    ensures FirstWithChild(MissArena(), Some(Root), 'a') == Some(Root)
    ensures FirstWithChild(MissArena(), Some(1), 'b') == Some(1)
    ensures FirstWithChild(MissArena(), Some(2), 'd') == Some(2)
    ensures FirstWithChild(MissArena(), Some(4), 'd') == None
  {
    var nodes := MissArena();
    MissLinked();
    assert FirstWithChild(nodes, Some(Root), 'd') == None;
  }

  /** `Scan` of a text extended by one character. */
  lemma ScanAppend(nodes: seq<TrieNode>, t: string, c: char)
    requires Linked(nodes)
    ensures var before := Scan(nodes, t);
            var after := Step(nodes, before.0, c);
            Scan(nodes, t + [c]) == (after.0, before.1 + after.1)
  {
    assert (t + [c])[..|t|] == t;
  }

  /** Reading "abd" through three given steps as written. */
  lemma ScanAbd(nodes: seq<TrieNode>)
    requires Linked(nodes)
    requires Step(nodes, Root, 'a') == (1, [])
    requires Step(nodes, 1, 'b') == (4, ["b"])
    requires Step(nodes, 4, 'd') == (Root, [])
    ensures Scan(nodes, "abd") == (Root, ["b"])
  {
    var e: string := [];
    var a, ab, abd := e + ['a'], e + ['a'] + ['b'], e + ['a'] + ['b'] + ['d'];
    assert a == "a" && ab == "ab" && abd == "abd";
    var r0 := Scan(nodes, e);
    assert r0.0 == Root && r0.1 == [];
    ScanAppend(nodes, e, 'a');
    var s1 := Step(nodes, r0.0, 'a');
    var r1 := Scan(nodes, a);
    assert r1.0 == s1.0 == 1 && r1.1 == r0.1 + s1.1 == [];
    ScanAppend(nodes, a, 'b');
    var s2 := Step(nodes, r1.0, 'b');
    var r2 := Scan(nodes, ab);
    assert r2.0 == s2.0 == 4 && r2.1 == r1.1 + s2.1 == ["b"];
    ScanAppend(nodes, ab, 'd');
    var s3 := Step(nodes, r2.0, 'd');
    var r3 := Scan(nodes, abd);
    assert r3.0 == s3.0 == Root && r3.1 == r2.1 + s3.1 == ["b"];
  }

  /**
   * `searchInString` as written misses a word: over {abd, b} the text "abd"
   * contains "abd", but only "b" is printed. After "ab" the printing loop
   * leaves the iterator at the node for "b", which has no child for 'd'.
   */
  lemma MissExample()
    ensures Automaton(MissArena(), ["abd", "b"])
    ensures Occurs("abd", "abd")
    ensures Scan(MissArena(), "abd").1 == ["b"]
  {
    var nodes := MissArena();
    MissAutomaton();
    MissChains();
    MissWalks();
    var s := "abd";
    assert IsSuffix("abd", s[..3]);
    assert Step(nodes, Root, 'a') == (1, []);
    assert Step(nodes, 1, 'b') == (4, ["b"]);
    assert Step(nodes, 4, 'd') == (Root, []);
    ScanAbd(nodes);
  }

  /**
   * One character of the search with the printing loop on a separate
   * variable: the iterator stays at the child it reached, and the word ends
   * on the child's dictionary chain are printed as before.
   */
  ghost function CorrectedStep(nodes: seq<TrieNode>, it: nat, c: char): (r: (nat, seq<string>))
    requires Linked(nodes) && it < |nodes|
    ensures r.0 < |nodes|
  {
    match FirstWithChild(nodes, Some(it), c)
    case None => (Root, [])
    case Some(y) =>
      var m := nodes[y].children[c];
      (m, ChainReports(nodes, m))
  }

  /**
   * The corrected step prints what the step as written prints; the step as
   * written ends at the end of the dictionary chain from where the corrected
   * one stays.
   */
  lemma CorrectedStepAgrees(nodes: seq<TrieNode>, it: nat, c: char)
    requires Linked(nodes) && it < |nodes|
    ensures CorrectedStep(nodes, it, c).1 == Step(nodes, it, c).1
    ensures Step(nodes, it, c).0 == if FirstWithChild(nodes, Some(it), c).None? then Root
                                    else ChainEnd(nodes, CorrectedStep(nodes, it, c).0)
  {
  }

  /** The iterator node and the printed words after the corrected search has read all of `s`. */
  ghost function CorrectedScan(nodes: seq<TrieNode>, s: string): (r: (nat, seq<string>))
    requires Linked(nodes)
    ensures r.0 < |nodes|
  {
    if s == [] then (Root, [])
    else
      var before := CorrectedScan(nodes, s[..|s| - 1]);
      var after := CorrectedStep(nodes, before.0, s[|s| - 1]);
      (after.0, before.1 + after.1)
  }

  /** `CorrectedScan` of a text extended by one character. */
  lemma CorrectedScanAppend(nodes: seq<TrieNode>, t: string, c: char)
    requires Linked(nodes)
    ensures var before := CorrectedScan(nodes, t);
            var after := CorrectedStep(nodes, before.0, c);
            CorrectedScan(nodes, t + [c]) == (after.0, before.1 + after.1)
  {
    assert (t + [c])[..|t|] == t;
  }

  /** `CorrectedScan` reads a text one character at a time. */
  lemma CorrectedScanSnoc(nodes: seq<TrieNode>, s: string, i: nat)
    requires Linked(nodes) && i < |s|
    ensures var before := CorrectedScan(nodes, s[..i]);
            var after := CorrectedStep(nodes, before.0, s[i]);
            CorrectedScan(nodes, s[..i + 1]) == (after.0, before.1 + after.1)
  {
    assert s[..i + 1][..i] == s[..i];
  }

  /**
   * One corrected step from a node spelling a suffix of `t`, reading `c`:
   * the new iterator spells a suffix of `t + [c]`, and the printed words are
   * those of the step as written.
   */
  lemma CorrectedStepSound(nodes: seq<TrieNode>, it: nat, t: string, c: char)
    requires Linked(nodes) && it < |nodes| && IsSuffix(Word(nodes, it), t)
    ensures IsSuffix(Word(nodes, CorrectedStep(nodes, it, c).0), t + [c])
  {
    EmptyWordIsRoot(nodes, Root);
    match FirstWithChild(nodes, Some(it), c)
    case None =>
      assert CorrectedStep(nodes, it, c).0 == Root;
    case Some(y) =>
      FirstWithChildSuffix(nodes, Some(it), c);
      SuffixTransitive(Word(nodes, y), Word(nodes, it), t);
      SuffixAppend(Word(nodes, y), t, c);
      ChildWord(nodes, y, c);
  }

  /**
   * Soundness of the corrected search: the iterator spells a suffix of the
   * text read so far, and every printed word is a word-end node's word that
   * occurs in the text.
   */
  lemma {:induction false} CorrectedScanSound(nodes: seq<TrieNode>, s: string)
    requires Linked(nodes)
    ensures IsSuffix(Word(nodes, CorrectedScan(nodes, s).0), s)
    ensures forall w :: w in CorrectedScan(nodes, s).1 ==>
              Occurs(w, s) && exists i :: 0 <= i < |nodes| && nodes[i].wordEnd && Word(nodes, i) == w
    decreases |s|
  {
    EmptyWordIsRoot(nodes, Root);
    if s != [] {
      var t, c := s[..|s| - 1], s[|s| - 1];
      assert s == t + [c];
      CorrectedScanSound(nodes, t);
      var it := CorrectedScan(nodes, t).0;
      CorrectedStepSound(nodes, it, t, c);
      StepSound(nodes, it, t, c);
      CorrectedStepAgrees(nodes, it, c);
      forall w | w in CorrectedScan(nodes, t).1 ensures Occurs(w, s) {
        var j :| 0 <= j <= |t| && IsSuffix(w, t[..j]);
        assert s[..j] == t[..j];
      }
      forall w | w in CorrectedStep(nodes, it, c).1 ensures Occurs(w, s) {
        assert s[..|s|] == s;
      }
    }
  }

  /** The corrected steps that read "abd" over {abd, b}. */
  lemma MissCorrectedSteps()
    ensures Linked(MissArena())
    ensures CorrectedStep(MissArena(), Root, 'a') == (1, [])
    ensures CorrectedStep(MissArena(), 1, 'b') == (2, ["b"])
    ensures CorrectedStep(MissArena(), 2, 'd') == (3, ["abd"])
  {
    MissChains();
    MissWalks();
  }

  /** Reading "ab" through two given corrected steps. */
  lemma CorrectedScanAb(nodes: seq<TrieNode>)
    requires Linked(nodes)
    requires CorrectedStep(nodes, Root, 'a') == (1, [])
    requires CorrectedStep(nodes, 1, 'b') == (2, ["b"])
    ensures CorrectedScan(nodes, "ab") == (2, ["b"])
  {
    var e: string := [];
    var a, ab := e + ['a'], e + ['a'] + ['b'];
    assert a == "a" && ab == "ab";
    var r0 := CorrectedScan(nodes, e);
    assert r0.0 == Root && r0.1 == [];
    CorrectedScanAppend(nodes, e, 'a');
    var s1 := CorrectedStep(nodes, r0.0, 'a');
    var r1 := CorrectedScan(nodes, a);
    assert r1.0 == s1.0 == 1 && r1.1 == r0.1 + s1.1 == [];
    CorrectedScanAppend(nodes, a, 'b');
    var s2 := CorrectedStep(nodes, r1.0, 'b');
    var r2 := CorrectedScan(nodes, ab);
    assert r2.0 == s2.0 == 2 && r2.1 == r1.1 + s2.1 == ["b"];
  }

  /** Reading "abd" through three given corrected steps. */
  lemma CorrectedScanAbd(nodes: seq<TrieNode>)
    requires Linked(nodes)
    requires CorrectedStep(nodes, Root, 'a') == (1, [])
    requires CorrectedStep(nodes, 1, 'b') == (2, ["b"])
    requires CorrectedStep(nodes, 2, 'd') == (3, ["abd"])
    ensures CorrectedScan(nodes, "abd") == (3, ["b", "abd"])
  {
    var ab: string := "ab";
    assert ab + ['d'] == "abd";
    CorrectedScanAb(nodes);
    CorrectedScanAppend(nodes, ab, 'd');
    assert ["b"] + ["abd"] == ["b", "abd"];
  }

  /** With the printing loop on its own variable, "abd" over {abd, b} prints b, then abd. */
  lemma CorrectedMissExample()
    ensures Automaton(MissArena(), ["abd", "b"])
    ensures CorrectedScan(MissArena(), "abd").1 == ["b", "abd"]
  {
    MissAutomaton();
    MissCorrectedSteps();
    CorrectedScanAbd(MissArena());
  }

  /** `StringBuilder.reverse`: the characters of `s` in the opposite order. */
  function Reversed(s: string): (r: string)
    ensures |r| == |s| && forall i :: 0 <= i < |s| ==> r[i] == s[|s| - 1 - i]
  {
    if s == [] then [] else Reversed(s[1..]) + [s[0]]
  }

  lemma ReversedSnoc(s: string, x: char)
    ensures Reversed(s + [x]) == [x] + Reversed(s)
  {
    assert forall i :: 0 <= i < |s| + 1 ==> Reversed(s + [x])[i] == ([x] + Reversed(s))[i];
  }

  /**
   * The `TrieNode` objects reachable from an automaton's root, held in an
   * arena; an index into `nodes` stands for a reference to a node.
   */
  class Trie {
    var nodes: seq<TrieNode>

    ghost predicate Valid()
      reads this
    {
      Linked(nodes)
    }

    /** A trie holding only the root, `new TrieNode()`. */
    constructor ()
      ensures Valid() && nodes == [NewNode('\0')]
    {
      nodes := [NewNode('\0')];
    }

    /** `TrieNode.getNodeWord`: collects characters up the parent links, then reverses them. */
    method GetNodeWord(node: nat) returns (word: string)
      requires Valid() && node < |nodes|
      ensures word == Word(nodes, node)
    {
      var reversed: string := [];
      var walker: nat := node;
      while nodes[walker].parent.Some?
        invariant walker < |nodes|
        invariant Word(nodes, node) == Word(nodes, walker) + Reversed(reversed)
        decreases walker
      {
        ReversedSnoc(reversed, nodes[walker].character);
        reversed := reversed + [nodes[walker].character];
        walker := nodes[walker].parent.value;
      }
      word := Reversed(reversed);
    }

    /**
     * `insertWord(at, word)`: walks down from `at` along `word`, creating the
     * missing nodes, marks the last node a word end and returns it.
     */
    method InsertWord(at: nat, word: string) returns (r: nat)
      requires Valid() && at < |nodes|
      modifies this
      decreases |word|
      ensures Valid() && Inserted(old(nodes), nodes, at, word, r)
    {
      if |word| == 0 {
        MarkInserted(nodes, at);
        nodes := nodes[at := nodes[at].(wordEnd := true)];
        return at;
      }
      var nextCharacter := word[0];
      var rest := word[1..];
      assert word == [nextCharacter] + rest;
      ghost var before := nodes;
      if nextCharacter in nodes[at].children {
        r := InsertWord(nodes[at].children[nextCharacter], rest);
        DescendInserted(before, nodes, at, nextCharacter, rest, r);
      } else {
        var newNode := |nodes|;
        AttachLinked(nodes, at, nextCharacter);
        nodes := Attach(nodes, at, nextCharacter);
        r := InsertWord(newNode, rest);
        AttachInserted(before, nodes, at, nextCharacter, rest, r);
      }
    }

    /**
     * `findLongestSuffix(parent, node)`: walks the parent's longest-suffix
     * chain to the first node with a child for `node`'s character and links
     * `node` to that child, or to the root when there is none.
     */
    method FindLongestSuffix(parent: nat, node: nat)
      requires Valid() && parent < |nodes| && node < |nodes| && nodes[node].parent == Some(parent)
      modifies this
      ensures Valid()
      ensures nodes == old(nodes)[node := old(nodes)[node].(longestSuffix := SuffixLinkRule(old(nodes), parent, node))]
    {
      var character := nodes[node].character;
      var longestSuffix: Option<nat> := nodes[parent].longestSuffix;
      while longestSuffix.Some? && character !in nodes[longestSuffix.value].children
        invariant longestSuffix.Some? ==> longestSuffix.value < |nodes|
        invariant FirstWithChild(nodes, longestSuffix, character)
               == FirstWithChild(nodes, nodes[parent].longestSuffix, character)
        decreases LinkMeasure(nodes, longestSuffix)
      {
        assert LinkOk(nodes, nodes[longestSuffix.value].longestSuffix, longestSuffix.value);
        longestSuffix := nodes[longestSuffix.value].longestSuffix;
      }
      var link := if longestSuffix.None? then Root else nodes[longestSuffix.value].children[character];
      SuffixRelinked(nodes, parent, node);
      nodes := nodes[node := nodes[node].(longestSuffix := Some(link))];
    }

    /**
     * `findDictionarySuffixLink(node)`: links `node` to the first word end on
     * its longest-suffix chain, or to nothing.
     */
    method FindDictionarySuffixLink(node: nat)
      requires Valid() && node < |nodes|
      modifies this
      ensures Valid()
      ensures nodes == old(nodes)[node := old(nodes)[node].(dictionarySuffixLink := FirstWordEnd(old(nodes), old(nodes)[node].longestSuffix))]
    {
      var suffixIterator: Option<nat> := nodes[node].longestSuffix;
      assert LinkOk(nodes, suffixIterator, node);
      while suffixIterator.Some?
        invariant suffixIterator.Some? ==> suffixIterator.value < |nodes|
        invariant FirstWordEnd(nodes, suffixIterator) == FirstWordEnd(nodes, nodes[node].longestSuffix)
        decreases LinkMeasure(nodes, suffixIterator)
      {
        if nodes[suffixIterator.value].wordEnd {
          break;
        }
        assert LinkOk(nodes, nodes[suffixIterator.value].longestSuffix, suffixIterator.value);
        suffixIterator := nodes[suffixIterator.value].longestSuffix;
      }
      assert suffixIterator == FirstWordEnd(nodes, nodes[node].longestSuffix);
      DictionaryRelinked(nodes, node);
      nodes := nodes[node := nodes[node].(dictionarySuffixLink := suffixIterator)];
    }

    /**
     * `findAllLongestSuffixes(parent)`: for each child, in the map's order,
     * links the child and then its own subtree. Only nodes below `parent`
     * change, each of them ends with a longest-suffix link, and when
     * `parent` has none (as the root has not) its children are linked to the root.
     */
    method FindAllLongestSuffixes(parent: nat)
      requires Valid() && parent < |nodes|
      modifies this
      decreases |nodes| - parent, 1
      ensures Valid() && SuffixLinksBelow(old(nodes), nodes, parent)
      ensures old(nodes)[parent].longestSuffix.None? ==>
                forall k :: k in old(nodes)[parent].children ==>
                  nodes[old(nodes)[parent].children[k]].longestSuffix == Some(Root)
    {
      ghost var o := nodes;
      var pending := nodes[parent].children.Keys;
      ghost var done: set<char> := {};
      while pending != {}
        invariant SuffixTurns(o, parent, pending, done)
        decreases pending
      {
        pending, done := LinkSuffixSubtree(parent, pending, o, done);
      }
      SuffixLinksDone(o, nodes, parent);
    }

    /** The loop of `findAllLongestSuffixes(parent)` has linked the children under `done` and has `pending` left. */
    ghost predicate SuffixTurns(o: seq<TrieNode>, parent: nat, pending: set<char>, done: set<char>)
      reads this
    {
      && Valid() && Linked(o) && |nodes| == |o| && parent < |o|
      && pending !! done && pending + done == o[parent].children.Keys
      && SuffixLinksThrough(o, nodes, parent, done)
    }

    /** One turn of the loop in `findAllLongestSuffixes(parent)`: some pending child, then its subtree. */
    method LinkSuffixSubtree(parent: nat, pending: set<char>, ghost o: seq<TrieNode>, ghost done: set<char>)
      returns (pending': set<char>, ghost done': set<char>)
      requires SuffixTurns(o, parent, pending, done) && pending != {}
      modifies this
      decreases |nodes| - parent, 0
      ensures SuffixTurns(o, parent, pending', done') && pending' < pending
    {
      var key :| key in pending;
      assert nodes[parent] == o[parent];
      assert ChildOk(nodes, parent, key);
      var child := nodes[parent].children[key];
      ghost var s0 := nodes;
      FindLongestSuffix(parent, child);
      ghost var s1 := nodes;
      FindAllLongestSuffixes(child);
      SuffixLinkTurn(o, s0, s1, nodes, parent, key, done);
      MoveKey(pending, done, key, o[parent].children.Keys);
      pending' := pending - {key};
      done' := done + {key};
    }

    /**
     * `findAllDictionarySuffixLinks(node)`: for each child, in the map's
     * order, sets the child's dictionary link and then its subtree's.
     */
    method FindAllDictionarySuffixLinks(node: nat)
      requires Valid() && node < |nodes|
      modifies this
      decreases |nodes| - node, 1
      ensures Valid() && DictionaryLinksBelow(old(nodes), nodes, node)
    {
      ghost var o := nodes;
      var pending := nodes[node].children.Keys;
      ghost var done: set<char> := {};
      while pending != {}
        invariant DictionaryTurns(o, node, pending, done)
        decreases pending
      {
        pending, done := LinkDictionarySubtree(node, pending, o, done);
      }
      DictionaryLinksDone(o, nodes, node);
    }

    /** The loop of `findAllDictionarySuffixLinks(node)` has linked the children under `done` and has `pending` left. */
    ghost predicate DictionaryTurns(o: seq<TrieNode>, node: nat, pending: set<char>, done: set<char>)
      reads this
    {
      && Valid() && Linked(o) && |nodes| == |o| && node < |o|
      && pending !! done && pending + done == o[node].children.Keys
      && DictionaryLinksThrough(o, nodes, node, done)
    }

    /** One turn of the loop in `findAllDictionarySuffixLinks(node)`: some pending child, then its subtree. */
    method LinkDictionarySubtree(node: nat, pending: set<char>, ghost o: seq<TrieNode>, ghost done: set<char>)
      returns (pending': set<char>, ghost done': set<char>)
      requires DictionaryTurns(o, node, pending, done) && pending != {}
      modifies this
      decreases |nodes| - node, 0
      ensures DictionaryTurns(o, node, pending', done') && pending' < pending
    {
      var key :| key in pending;
      assert nodes[node] == o[node];
      assert ChildOk(nodes, node, key);
      var child := nodes[node].children[key];
      ghost var s0 := nodes;
      FindDictionarySuffixLink(child);
      ghost var s1 := nodes;
      FindAllDictionarySuffixLinks(child);
      DictionaryLinkTurn(o, s0, s1, nodes, node, key, done);
      MoveKey(pending, done, key, o[node].children.Keys);
      pending' := pending - {key};
      done' := done + {key};
    }

    /** What the printing loop prints at node `m`: its word, if a word ends there. */
    method Report(m: nat) returns (words: seq<string>)
      requires Valid() && m < |nodes|
      ensures words == Here(nodes, m)
    {
      words := [];
      if nodes[m].wordEnd {
        var word := GetNodeWord(m);
        words := [word];
      }
    }

    /**
     * The printing loop of `searchInString` after stepping to node `m`:
     * prints each word end on `m`'s dictionary chain and returns the chain's
     * last node, where the iterator stays.
     */
    method PrintDictionaryChain(m: nat) returns (last: nat, printed: seq<string>)
      requires Valid() && m < |nodes|
      ensures last == ChainEnd(nodes, m) && printed == ChainReports(nodes, m)
    {
      var current: nat := m;
      printed := [];
      while nodes[current].dictionarySuffixLink.Some?
        invariant current < |nodes|
        invariant printed + ChainReports(nodes, current) == ChainReports(nodes, m)
        invariant ChainEnd(nodes, current) == ChainEnd(nodes, m)
        decreases |Word(nodes, current)|
      {
        current, printed := FollowDictionaryLink(current, printed, m);
      }
      var words := Report(current);
      printed := printed + words;
      last := current;
    }

    /** One turn of the printing loop: report node `current`, then follow its dictionary suffix link. */
    method FollowDictionaryLink(current: nat, printed: seq<string>, ghost m: nat) returns (next: nat, printed': seq<string>)
      requires Valid() && m < |nodes| && current < |nodes| && nodes[current].dictionarySuffixLink.Some?
      requires printed + ChainReports(nodes, current) == ChainReports(nodes, m)
      requires ChainEnd(nodes, current) == ChainEnd(nodes, m)
      ensures next < |nodes| && |Word(nodes, next)| < |Word(nodes, current)|
      ensures printed' + ChainReports(nodes, next) == ChainReports(nodes, m)
      ensures ChainEnd(nodes, next) == ChainEnd(nodes, m)
    {
      ChainStep(nodes, current);
      next := nodes[current].dictionarySuffixLink.value;
      var words := Report(current);
      ChainAppend(nodes, m, current, printed, words);
      printed' := printed + words;
    }

    /**
     * `searchInString(searchedString, automaton)`: scans the text from the
     * root and returns, in order, the words it prints.
     */
    method SearchInString(searchedString: string) returns (printed: seq<string>)
      requires Valid()
      ensures printed == Scan(nodes, searchedString).1
    {
      var automatonIterator: Option<nat> := Some(Root);
      printed := [];
      var i := 0;
      while i < |searchedString|
        invariant 0 <= i <= |searchedString|
        invariant automatonIterator == Some(Scan(nodes, searchedString[..i]).0)
        invariant printed == Scan(nodes, searchedString[..i]).1
      {
        ScanSnoc(nodes, searchedString, i);
        var next, words := SearchStep(automatonIterator.value, searchedString[i]);
        printed := printed + words;
        automatonIterator := Some(next);
        i := i + 1;
      }
      assert searchedString[..i] == searchedString;
    }

    /**
     * The body of `searchInString`'s loop for one character: walk the
     * longest-suffix chain to a node with a child for it (back to the root
     * when none has one), then run the printing loop from that child.
     */
    method SearchStep(start: nat, character: char) returns (next: nat, words: seq<string>)
      requires Valid() && start < |nodes|
      ensures (next, words) == Step(nodes, start, character)
    {
      StepCases(nodes, start, character);
      var automatonIterator: Option<nat> := Some(start);
      while automatonIterator.Some? && character !in nodes[automatonIterator.value].children
        invariant automatonIterator.Some? ==> automatonIterator.value < |nodes|
        invariant FirstWithChild(nodes, automatonIterator, character) == FirstWithChild(nodes, Some(start), character)
        decreases LinkMeasure(nodes, automatonIterator)
      {
        assert LinkOk(nodes, nodes[automatonIterator.value].longestSuffix, automatonIterator.value);
        automatonIterator := nodes[automatonIterator.value].longestSuffix;
      }
      if automatonIterator.Some? {
        next, words := PrintDictionaryChain(nodes[automatonIterator.value].children[character]);
      } else {
        next, words := Root, [];
      }
    }
  }

  /**
   * `prepareAhoCorasickAutomaton(dictionaryWords)`: inserts every word from
   * the root, then computes the longest-suffix links and the dictionary
   * links from the root down.
   */
  method PrepareAhoCorasickAutomaton(dictionaryWords: seq<string>) returns (automaton: Trie)
    ensures fresh(automaton) && Automaton(automaton.nodes, dictionaryWords)
  {
    automaton := new Trie();
    assert Word(automaton.nodes, Root) == [];
    for j := 0 to |dictionaryWords|
      invariant automaton.Valid() && Linkless(automaton.nodes)
      invariant Dictionary(automaton.nodes, dictionaryWords[..j])
    {
      ghost var before := automaton.nodes;
      var end := automaton.InsertWord(Root, dictionaryWords[j]);
      InsertExtendsDictionary(before, automaton.nodes, end, dictionaryWords, j);
    }
    assert dictionaryWords[..|dictionaryWords|] == dictionaryWords;
    ghost var o := automaton.nodes;
    automaton.FindAllLongestSuffixes(Root);
    ghost var n1 := automaton.nodes;
    automaton.FindAllDictionarySuffixLinks(Root);
    LinkPassesBuildAutomaton(o, n1, automaton.nodes, dictionaryWords);
  }

  /**
   * The public `searchInString(searchedString, strings)`: builds the
   * automaton of `strings` and returns what the scan of `searchedString`
   * prints. Every printed word is a dictionary word occurring in the text.
   */
  method SearchInString(searchedString: string, strings: seq<string>) returns (printed: seq<string>)
    ensures forall w :: w in printed ==> w in strings && Occurs(w, searchedString)
  {
    var automaton := PrepareAhoCorasickAutomaton(strings);
    printed := automaton.SearchInString(searchedString);
    ScanSound(automaton.nodes, searchedString);
  }
}
