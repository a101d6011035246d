/**
 * Ukkonen's online suffix-tree construction over a node arena.
 *
 * Nodes live in `nodes`; an index plays the part of an object reference and
 * the root is index 0. An edge is stored on its lower node as a begin index
 * into the text and an end cell. Every leaf aliases the one shared cell
 * `currentEnd`, so advancing that cell lengthens every leaf at once.
 */
module SuffixTree {
  import opened Wrappers

  /** The terminator appended to the text, U+FE89. */
  const TERMINATOR: char := '\U{FE89}'

  /** Index of the root node in the arena. */
  const Root: nat := 0

  /** The end cell of an edge: the shared `currentEnd` cell, a cell of the node's own, or none (the root). */
  datatype EndCell = Shared | Own(value: int) | NoCell

  /** A node: its children keyed by the text position of their edge's first character, its suffix link and its edge. */
  datatype Node = Node(children: map<int, nat>, suffixLink: Option<nat>, begin: int, end: EndCell)

  /** Where the source would dereference null, or would split an edge at or past its end. */
  datatype Failure = NullActiveNode | MissingEdge | DegenerateSplit

  /** The result of one extension; `Rule3` replaces the exception the source throws. */
  datatype Extension = Rule2 | Rule3 | Fault(failure: Failure)

  /** Why a phase stopped. */
  datatype PhaseEnd = AllInserted | Rule3Stop | Aborted(failure: Failure)

  /** A fresh leaf: its edge starts at `begin` and ends at the shared cell. */
  function Leaf(begin: int): Node
  {
    Node(map[], None, begin, Shared)
  }

  /** The value of the end cell, reading the shared cell as `currentEnd`. */
  function EndValue(n: Node, currentEnd: int): int
    requires n.end != NoCell
  {
    match n.end
    case Shared => currentEnd
    case Own(v) => v
  }

  /** `Node.getLength`: the number of characters on the edge, read through the live end cell. */
  function Length(n: Node, currentEnd: int): int
    requires n.end != NoCell
  {
    EndValue(n, currentEnd) - n.begin + 1
  }

  /** Advancing the shared cell by one lengthens a leaf's edge by one and leaves an own-cell edge as it was. */
  lemma LengthAfterAdvance(n: Node, currentEnd: int)
    requires n.end != NoCell
    ensures n.end == Shared ==> Length(n, currentEnd + 1) == Length(n, currentEnd) + 1
    ensures n.end.Own? ==> Length(n, currentEnd + 1) == Length(n, currentEnd)
  {
  }

  /** `addTerminalCharToText`: the text with exactly one terminator appended. */
  function WithTerminator(s: seq<char>): (r: seq<char>)
    ensures |r| == |s| + 1
    ensures r[..|s|] == s && r[|s|] == TERMINATOR
    ensures TERMINATOR !in s ==> forall i :: 0 <= i < |r| && r[i] == TERMINATOR ==> i == |s|
  {
    s + [TERMINATOR]
  }

  /** The arena is well formed for a text of length `textLen` while the shared cell holds `currentEnd`. */
  ghost predicate WellFormed(nodes: seq<Node>, textLen: int, currentEnd: int)
  {
    && |nodes| >= 1
    && nodes[Root].end == NoCell
    && (forall i :: 1 <= i < |nodes| ==>
          && nodes[i].end != NoCell
          && 0 <= nodes[i].begin <= EndValue(nodes[i], currentEnd) <= currentEnd)
    && (forall i, k :: 0 <= i < |nodes| && k in nodes[i].children ==>
          && 0 <= k < textLen
          && 0 < nodes[i].children[k] < |nodes|
          && nodes[i].children[k] != i)
    && (forall i :: 0 <= i < |nodes| && nodes[i].suffixLink.Some? ==> nodes[i].suffixLink.value < |nodes|)
  }

  /** A child named by a key of a well-formed arena is a non-root node of that arena. */
  lemma ChildInArena(nodes: seq<Node>, textLen: int, currentEnd: int, i: int, k: int)
    requires WellFormed(nodes, textLen, currentEnd)
    requires 0 <= i < |nodes| && k in nodes[i].children
    ensures 0 <= k < textLen
    ensures 0 < nodes[i].children[k] < |nodes| && nodes[i].children[k] != i
    ensures nodes[nodes[i].children[k]].end != NoCell
  {
  }

  /**
   * The arena after `splitEdge`'s writes, in the source's order: the old child
   * `next` under key `edge` of `node` has its begin advanced by `len`; a new
   * internal node replaces it under the same key (remove, then put); the old
   * child is put under the new node keyed by its new begin, then the new leaf
   * keyed by `newChar`; the new node's suffix link is the root; the previous
   * split node `last`, if any, links to the new node.
   */
  function SplitArena(nodes: seq<Node>, currentEnd: int, node: nat, edge: int, len: int,
                      newChar: int, last: Option<nat>): (r: seq<Node>)
    requires node < |nodes| && edge in nodes[node].children
    requires var next := nodes[node].children[edge];
             0 < next < |nodes| && next != node && nodes[next].end != NoCell
    requires last.Some? ==> last.value < |nodes|
    ensures |r| == |nodes| + 2
  {
    var next := nodes[node].children[edge];
    var begin := nodes[next].begin;
    var split := |nodes|;
    var advanced := nodes[next := nodes[next].(begin := begin + len)];
    var rekeyed := advanced[node := advanced[node].(children := advanced[node].children[edge := split])];
    var splitNode := Node(map[begin + len := next][newChar := split + 1], Some(Root), begin, Own(begin + len - 1));
    var grown := rekeyed + [splitNode, Leaf(newChar)];
    if last.Some? then grown[last.value := grown[last.value].(suffixLink := Some(split))] else grown
  }

  /**
   * What `splitEdge` does to the arena: it restructures the one active edge,
   * adds the new internal node and the new leaf, chains the suffix link, and
   * changes nothing else.
   */
  lemma SplitArenaShape(nodes: seq<Node>, currentEnd: int, node: nat, edge: int, len: int,
                        newChar: int, last: Option<nat>, r: seq<Node>)
    requires node < |nodes| && edge in nodes[node].children
    requires var next := nodes[node].children[edge];
             0 < next < |nodes| && next != node && nodes[next].end != NoCell
    requires last.Some? ==> last.value < |nodes|
    requires r == SplitArena(nodes, currentEnd, node, edge, len, newChar, last)
    // The new internal node takes the old child's place under the same key; the other children stay.
    ensures r[node].children == nodes[node].children[edge := |nodes|]
    // The new internal node holds the first `len` characters of the old edge, in an end cell of its own.
    ensures var next := nodes[node].children[edge];
            && r[|nodes|].begin == nodes[next].begin
            && r[|nodes|].end == Own(nodes[next].begin + len - 1)
            && r[|nodes|].children == map[nodes[next].begin + len := next][newChar := |nodes| + 1]
            && r[|nodes|].suffixLink == Some(Root)
    // The old child keeps its end cell and children; its begin advances by `len`.
    ensures var next := nodes[node].children[edge];
            && r[next].begin == nodes[next].begin + len
            && r[next].end == nodes[next].end && r[next].children == nodes[next].children
    // The two lengths sum to the old edge's length; cutting at or past the edge's end leaves no characters below.
    ensures var next := nodes[node].children[edge];
            && Length(r[|nodes|], currentEnd) == len
            && Length(r[|nodes|], currentEnd) + Length(r[next], currentEnd) == Length(nodes[next], currentEnd)
            && (len >= Length(nodes[next], currentEnd) ==> Length(r[next], currentEnd) <= 0)
    // The new leaf ends at the shared cell.
    ensures r[|nodes| + 1] == Leaf(newChar)
    // Suffix links are chained.
    ensures last.Some? ==> r[last.value].suffixLink == Some(|nodes|)
    // Nothing else changes.
    ensures forall i :: 0 <= i < |nodes| ==>
              && (i != node ==> r[i].children == nodes[i].children)
              && (i != nodes[node].children[edge] ==> r[i].begin == nodes[i].begin)
              && r[i].end == nodes[i].end
              && (last != Some(i) ==> r[i].suffixLink == nodes[i].suffixLink)
  {
  }

  /** Hanging a leaf for the current character under the root keeps the arena well formed. */
  lemma RootLeafWellFormed(nodes: seq<Node>, textLen: int, currentEnd: int, key: int, r: seq<Node>)
    requires WellFormed(nodes, textLen, currentEnd) && 0 <= key == currentEnd < textLen
    requires r == (nodes + [Leaf(key)])[Root := nodes[Root].(children := nodes[Root].children[key := |nodes|])]
    ensures r == nodes[Root := nodes[Root].(children := nodes[Root].children[key := |nodes|])] + [Leaf(key)]
    ensures WellFormed(r, textLen, currentEnd)
  {
    assert r == nodes[Root := nodes[Root].(children := nodes[Root].children[key := |nodes|])] + [Leaf(key)];
    forall i, k | 0 <= i < |r| && k in r[i].children
      ensures 0 <= k < textLen && 0 < r[i].children[k] < |r| && r[i].children[k] != i
    {
      if i != Root || k != key {
        ChildInArena(nodes, textLen, currentEnd, i, k);
      }
    }
  }

  /** A split at `0 < len < length` on the active point of a well-formed arena leaves it well formed. */
  lemma SplitArenaWellFormed(nodes: seq<Node>, textLen: int, currentEnd: int, node: nat, edge: int, len: int,
                             newChar: int, last: Option<nat>)
    requires WellFormed(nodes, textLen, currentEnd)
    requires 0 <= newChar == currentEnd < textLen
    requires node < |nodes| && edge in nodes[node].children
    requires var next := nodes[node].children[edge];
             0 < next < |nodes| && next != node && nodes[next].end != NoCell
             && 0 < len < Length(nodes[next], currentEnd)
    requires last.Some? ==> 0 < last.value < |nodes|
    ensures WellFormed(SplitArena(nodes, currentEnd, node, edge, len, newChar, last), textLen, currentEnd)
  {
    var r := SplitArena(nodes, currentEnd, node, edge, len, newChar, last);
    SplitArenaShape(nodes, currentEnd, node, edge, len, newChar, last, r);
    ShapeWellFormed(nodes, textLen, currentEnd, node, edge, len, newChar, last, r);
  }

  /** Well-formedness after a split follows from the shape of the split alone. */
  lemma ShapeWellFormed(nodes: seq<Node>, textLen: int, currentEnd: int, node: nat, edge: int, len: int,
                        newChar: int, last: Option<nat>, r: seq<Node>)
    requires WellFormed(nodes, textLen, currentEnd)
    requires 0 <= newChar == currentEnd < textLen
    requires node < |nodes| && edge in nodes[node].children
    requires var next := nodes[node].children[edge];
             0 < next < |nodes| && next != node && nodes[next].end != NoCell
             && 0 < len < Length(nodes[next], currentEnd)
    requires last.Some? ==> 0 < last.value < |nodes|
    requires |r| == |nodes| + 2
    requires r[node].children == nodes[node].children[edge := |nodes|]
    requires var next := nodes[node].children[edge];
             && r[|nodes|].begin == nodes[next].begin
             && r[|nodes|].end == Own(nodes[next].begin + len - 1)
             && r[|nodes|].children == map[nodes[next].begin + len := next][newChar := |nodes| + 1]
             && r[|nodes|].suffixLink == Some(Root)
    requires var next := nodes[node].children[edge];
             && r[next].begin == nodes[next].begin + len
             && r[next].end == nodes[next].end && r[next].children == nodes[next].children
    requires r[|nodes| + 1] == Leaf(newChar)
    requires last.Some? ==> r[last.value].suffixLink == Some(|nodes|)
    requires forall i :: 0 <= i < |nodes| ==>
               && (i != node ==> r[i].children == nodes[i].children)
               && (i != nodes[node].children[edge] ==> r[i].begin == nodes[i].begin)
               && r[i].end == nodes[i].end
               && (last != Some(i) ==> r[i].suffixLink == nodes[i].suffixLink)
    ensures WellFormed(r, textLen, currentEnd)
  {
    var next := nodes[node].children[edge];
    ShapeEdgesInRange(nodes, textLen, currentEnd, next, len, newChar, r);
    ShapeChildrenInArena(nodes, textLen, currentEnd, node, edge, len, newChar, r);
    ShapeLinksInArena(nodes, textLen, currentEnd, newChar, last, r);
    assert r[Root].end == nodes[Root].end;
  }

  /** After a split every suffix link still names a node of the arena. */
  lemma ShapeLinksInArena(nodes: seq<Node>, textLen: int, currentEnd: int, newChar: int, last: Option<nat>,
                          r: seq<Node>)
    requires WellFormed(nodes, textLen, currentEnd)
    requires last.Some? ==> 0 < last.value < |nodes|
    requires |r| == |nodes| + 2
    requires r[|nodes|].suffixLink == Some(Root) && r[|nodes| + 1] == Leaf(newChar)
    requires last.Some? ==> r[last.value].suffixLink == Some(|nodes|)
    requires forall i :: 0 <= i < |nodes| ==> (last != Some(i) ==> r[i].suffixLink == nodes[i].suffixLink)
    ensures forall i :: 0 <= i < |r| && r[i].suffixLink.Some? ==> r[i].suffixLink.value < |r|
  {
    forall i | 0 <= i < |r| && r[i].suffixLink.Some? ensures r[i].suffixLink.value < |r| {
      if i < |nodes| && last != Some(i) {
        assert r[i].suffixLink == nodes[i].suffixLink;
      }
    }
  }

  /** After a split every non-root edge still lies within the text read so far. */
  lemma ShapeEdgesInRange(nodes: seq<Node>, textLen: int, currentEnd: int, next: nat, len: int,
                          newChar: int, r: seq<Node>)
    requires WellFormed(nodes, textLen, currentEnd)
    requires 0 <= newChar == currentEnd < textLen
    requires 0 < next < |nodes| && nodes[next].end != NoCell && 0 < len < Length(nodes[next], currentEnd)
    requires |r| == |nodes| + 2
    requires r[|nodes|].begin == nodes[next].begin && r[|nodes|].end == Own(nodes[next].begin + len - 1)
    requires r[next].begin == nodes[next].begin + len && r[next].end == nodes[next].end
    requires r[|nodes| + 1] == Leaf(newChar)
    requires forall i :: 0 <= i < |nodes| ==> (i != next ==> r[i].begin == nodes[i].begin) && r[i].end == nodes[i].end
    ensures forall i :: 1 <= i < |r| ==>
              r[i].end != NoCell && 0 <= r[i].begin <= EndValue(r[i], currentEnd) <= currentEnd
  {
    forall i | 1 <= i < |r|
      ensures r[i].end != NoCell && 0 <= r[i].begin <= EndValue(r[i], currentEnd) <= currentEnd
    {
      if i < |nodes| && i != next {
        assert r[i].begin == nodes[i].begin && r[i].end == nodes[i].end;
      }
    }
  }

  /** After a split every key lies in the text and names another node of the arena. */
  lemma ShapeChildrenInArena(nodes: seq<Node>, textLen: int, currentEnd: int, node: nat, edge: int, len: int,
                             newChar: int, r: seq<Node>)
    requires WellFormed(nodes, textLen, currentEnd)
    requires 0 <= newChar == currentEnd < textLen
    requires node < |nodes| && edge in nodes[node].children
    requires var next := nodes[node].children[edge];
             0 < next < |nodes| && next != node && nodes[next].end != NoCell
             && 0 < len < Length(nodes[next], currentEnd)
    requires |r| == |nodes| + 2
    requires r[node].children == nodes[node].children[edge := |nodes|]
    requires var next := nodes[node].children[edge];
             r[|nodes|].children == map[nodes[next].begin + len := next][newChar := |nodes| + 1]
             && r[next].children == nodes[next].children
    requires r[|nodes| + 1] == Leaf(newChar)
    requires forall i :: 0 <= i < |nodes| ==> (i != node ==> r[i].children == nodes[i].children)
    ensures forall i, k :: 0 <= i < |r| && k in r[i].children ==>
              0 <= k < textLen && 0 < r[i].children[k] < |r| && r[i].children[k] != i
  {
    forall i, k | 0 <= i < |r| && k in r[i].children
      ensures 0 <= k < textLen && 0 < r[i].children[k] < |r| && r[i].children[k] != i
    {
      if i < |nodes| && i != node {
        assert r[i].children == nodes[i].children;
        ChildInArena(nodes, textLen, currentEnd, i, k);
      } else if i == node && k != edge {
        ChildInArena(nodes, textLen, currentEnd, i, k);
      }
    }
  }

  /**
   * A child looked up by the character its edge starts with, not by the text
   * position that keys it: the lookup the active point evidently means when
   * it names the next edge by a position after a split at the root.
   */
  ghost function EdgeByCharacter(nodes: seq<Node>, text: seq<char>, node: nat, pos: int): (r: Option<int>)
    requires node < |nodes| && 0 <= pos < |text|
    requires forall k :: k in nodes[node].children ==> 0 <= k < |text|
    ensures r.Some? ==> r.value in nodes[node].children && text[r.value] == text[pos]
    ensures r.None? ==> forall k :: k in nodes[node].children ==> text[k] != text[pos]
  {
    if exists k :: k in nodes[node].children && text[k] == text[pos] then
      var k :| k in nodes[node].children && text[k] == text[pos];
      Some(k)
    else
      None
  }

  /** The builder's text for the input "aaa". */
  function AaaText(): seq<char>
  {
    WithTerminator("aaa")
  }

  /**
   * The arena for "aaa" when its last phase starts: the first phase hangs one
   * leaf under the root, keyed by position 0; the next two end in Rule 3 and
   * leave the active point at the root, on key 0, with length 2.
   */
  function AaaArena(): seq<Node>
  {
    [Node(map[0 := 1], None, 0, NoCell), Leaf(0)]
  }

  /**
   * The last phase of "aaa" loses its edge: the active point lies inside the
   * leaf's edge and the compared characters differ, so the edge is split
   * (Rule 2); the root then moves the active edge to key 1, which it does
   * not have, so the next extension meets a missing edge.
   */
  lemma AaaPhaseLosesEdge()
    ensures WellFormed(AaaArena(), |AaaText()|, 3)
    ensures 0 in AaaArena()[Root].children && AaaArena()[Root].children[0] == 1
    ensures 0 < 2 < Length(AaaArena()[1], 3) && AaaText()[2] != AaaText()[3]
    ensures var r := SplitArena(AaaArena(), 3, Root, 0, 2, 3, None);
            WellFormed(r, |AaaText()|, 3) && r[Root].children == map[0 := 2] && 1 !in r[Root].children
  {
    var nodes, text := AaaArena(), AaaText();
    assert text == "aaa" + [TERMINATOR];
    assert WellFormed(nodes, |text|, 3);
    ChildInArena(nodes, |text|, 3, Root, 0);
    SplitArenaWellFormed(nodes, |text|, 3, Root, 0, 2, 3, None);
    var r := SplitArena(nodes, 3, Root, 0, 2, 3, None);
    SplitArenaShape(nodes, 3, Root, 0, 2, 3, None, r);
  }

  /**
   * Looked up by character, the next edge of the last phase of "aaa" is
   * found: position 1 holds 'a', the first character of the split node's edge.
   */
  lemma AaaCharacterLookupFindsEdge()
    ensures var r := SplitArena(AaaArena(), 3, Root, 0, 2, 3, None);
            && (forall k :: k in r[Root].children ==> 0 <= k < |AaaText()|)
            && EdgeByCharacter(r, AaaText(), Root, 1) == Some(0) && r[Root].children[0] == 2
  {
    var nodes, text := AaaArena(), AaaText();
    assert text == "aaa" + [TERMINATOR];
    var r := SplitArena(nodes, 3, Root, 0, 2, 3, None);
    SplitArenaShape(nodes, 3, Root, 0, 2, 3, None, r);
    assert r[Root].children == map[0 := 2];
    assert text[0] == text[1];
  }

  class SuffixTree {
    var text: seq<char>
    var nodes: seq<Node>
    /** The shared end cell every leaf aliases. */
    var currentEnd: int
    var lastNewNode: Option<nat>
    /** The active point: node, edge key and length. */
    var activeNode: Option<nat>
    var activeEdge: int
    var activeLength: int
    var remainingLeavesToInsert: int
    /** The failure the constructor propagates, if construction stopped early. */
    var buildFailure: Option<Failure>

    ghost predicate Valid()
      reads this
    {
      && WellFormed(nodes, |text|, currentEnd)
      && -1 <= currentEnd < |text|
      && 0 <= activeLength <= currentEnd + 1
      && remainingLeavesToInsert >= 0
      && (activeNode.Some? ==> activeNode.value < |nodes|)
      && (lastNewNode.Some? ==> 0 < lastNewNode.value < |nodes|)
    }

    /** The child the active point's edge leads to. */
    ghost function ActiveChild(): (c: nat)
      reads this
      requires Valid() && activeNode.Some? && activeEdge in nodes[activeNode.value].children
      ensures 0 < c < |nodes| && nodes[c].end != NoCell
    {
      ChildInArena(nodes, |text|, currentEnd, activeNode.value, activeEdge);
      nodes[activeNode.value].children[activeEdge]
    }

    /** The length of the active edge, read through the live end cell. */
    ghost function ActiveEdgeLength(): int
      reads this
      requires Valid() && activeNode.Some? && activeEdge in nodes[activeNode.value].children
    {
      Length(nodes[ActiveChild()], currentEnd)
    }

    /** The active node has no child under the active edge's key. */
    ghost predicate EdgeMissing()
      reads this
      requires Valid()
    {
      activeNode.Some? && activeEdge !in nodes[activeNode.value].children
    }

    /** The active point lies strictly inside the active edge. */
    ghost predicate MidEdge()
      reads this
      requires Valid()
    {
      activeNode.Some? && activeEdge in nodes[activeNode.value].children && activeLength < ActiveEdgeLength()
    }

    /** The active point has reached (or passed) the end of the active edge. */
    ghost predicate AtEdgeEnd()
      reads this
      requires Valid()
    {
      activeNode.Some? && activeEdge in nodes[activeNode.value].children && activeLength >= ActiveEdgeLength()
    }

    /** Some child of the node below the active edge starts with the character at `c`. */
    ghost predicate GrandchildMatches(c: int)
      reads this
      requires Valid() && 0 <= c < |text|
      requires activeNode.Some? && activeEdge in nodes[activeNode.value].children
    {
      exists k :: k in nodes[ActiveChild()].children && text[k] == text[c]
    }

    /** The state in which an extension for the character at `c` fails with `f`. */
    ghost predicate FaultAt(f: Failure, c: int)
      reads this
      requires Valid() && 0 <= c < |text|
    {
      match f
      case NullActiveNode => activeNode.None?
      case MissingEdge => EdgeMissing()
      case DegenerateSplit => AtEdgeEnd() && !GrandchildMatches(c)
    }

    /** The whole construction, as the source's constructor runs it. */
    constructor (input: seq<char>)
      ensures Valid()
      ensures text == WithTerminator(input)
      ensures buildFailure.None? ==> currentEnd == |text| - 1
    {
      text := input;
      lastNewNode := None;
      new;
      buildFailure := BuildSuffixTree();
    }

    /** `getText`: the text the tree is built over. */
    method GetText() returns (t: seq<char>)
      ensures t == text
    {
      t := text;
    }

    method AddTerminalCharToText()
      modifies this`text
      ensures text == WithTerminator(old(text))
    {
      text := text + [TERMINATOR];
    }

    /** Runs one phase per character of the augmented text, stopping at the first failure. */
    method BuildSuffixTree() returns (failure: Option<Failure>)
      requires lastNewNode.None?
      modifies this
      ensures Valid()
      ensures text == WithTerminator(old(text))
      ensures failure.None? ==> currentEnd == |text| - 1
      ensures failure.Some? ==> 0 <= currentEnd < |text|
    {
      AddTerminalCharToText();
      nodes := [Node(map[], None, 0, NoCell)];
      currentEnd := -1;
      remainingLeavesToInsert := 0;
      activeNode, activeEdge, activeLength := Some(Root), -1, 0;
      failure := None;
      var charIndex := 0;
      while charIndex < |text|
        invariant Valid()
        invariant text == WithTerminator(old(text))
        invariant 0 <= charIndex <= |text|
        invariant currentEnd == charIndex - 1
      {
        var extensions, status := ExecutePhase(charIndex);
        if status.Aborted? {
          failure := Some(status.failure);
          return;
        }
        charIndex := charIndex + 1;
      }
    }

    /**
     * One phase: advance the shared end, count one more leaf to insert, forget
     * the last split node, then extend until every pending leaf is inserted or
     * Rule 3 fires. `extensions` counts the explicit (Rule 2) extensions.
     */
    method ExecutePhase(newCharIndex: int) returns (extensions: nat, status: PhaseEnd)
      requires Valid()
      requires 0 <= newCharIndex < |text| && currentEnd == newCharIndex - 1
      modifies this
      ensures Valid()
      ensures text == old(text) && currentEnd == old(currentEnd) + 1
      ensures remainingLeavesToInsert == old(remainingLeavesToInsert) + 1 - extensions
      ensures status == AllInserted <==> remainingLeavesToInsert == 0
      // Each Rule 2 extension adds one leaf at the root or a split node and its leaf.
      ensures |old(nodes)| + extensions <= |nodes| <= |old(nodes)| + 2 * extensions
      ensures lastNewNode.Some? ==> lastNewNode.value >= |old(nodes)|
      ensures extensions == 0 ==> nodes == old(nodes)
      // Rule 3 ends the phase with leaves still to insert and the active point inside an edge.
      ensures status == Rule3Stop ==> activeLength > 0
      // An aborted phase stops at the state the failing extension met.
      ensures status.Aborted? ==> activeLength > 0 && FaultAt(status.failure, newCharIndex)
    {
      remainingLeavesToInsert := remainingLeavesToInsert + 1;
      currentEnd := currentEnd + 1;
      lastNewNode := None;
      extensions, status := 0, AllInserted;
      while remainingLeavesToInsert > 0
        invariant Valid()
        invariant text == old(text) && currentEnd == newCharIndex
        invariant activeLength <= currentEnd
        invariant remainingLeavesToInsert + extensions == old(remainingLeavesToInsert) + 1
        invariant status == AllInserted
        invariant |old(nodes)| + extensions <= |nodes| <= |old(nodes)| + 2 * extensions
        invariant lastNewNode.Some? ==> lastNewNode.value >= |old(nodes)|
        invariant extensions == 0 ==> nodes == old(nodes)
        decreases remainingLeavesToInsert
      {
        var ext := Extend(newCharIndex);
        match ext
        case Rule3 =>
          status := Rule3Stop;
          break;
        case Fault(f) =>
          status := Aborted(f);
          break;
        case Rule2 =>
          extensions := extensions + 1;
      }
    }

    /**
     * One extension of a phase: from the root when the active length is 0,
     * from the active point otherwise. A Rule 2 extension inserts one pending
     * leaf and adds one or two nodes; Rule 3 and failures change neither.
     */
    method Extend(newCharIndex: int) returns (ext: Extension)
      requires Valid()
      requires newCharIndex == currentEnd && 0 <= newCharIndex && activeLength <= currentEnd
      requires remainingLeavesToInsert > 0
      modifies this
      ensures Valid()
      ensures text == old(text) && currentEnd == old(currentEnd)
      ensures ext == Rule2 ==>
                && remainingLeavesToInsert == old(remainingLeavesToInsert) - 1
                && |old(nodes)| + 1 <= |nodes| <= |old(nodes)| + 2
                && (lastNewNode == old(lastNewNode) || lastNewNode == Some(|old(nodes)|))
                && activeLength <= currentEnd
      ensures ext != Rule2 ==> && nodes == old(nodes) && lastNewNode == old(lastNewNode)
                               && remainingLeavesToInsert == old(remainingLeavesToInsert)
      ensures ext == Rule3 ==> activeLength > 0
      ensures ext.Fault? ==> activeLength > 0 && FaultAt(ext.failure, newCharIndex)
    {
      if activeLength == 0 {
        ext := ExtendFromRoot(newCharIndex);
      } else {
        ext := ExtendFromActivePoint(newCharIndex);
      }
    }

    /** `areCharsIdentical`: the characters at two text positions are equal. */
    function CharsIdentical(first: int, second: int): bool
      reads this
      requires 0 <= first < |text| && 0 <= second < |text|
    {
      text[first] == text[second]
    }

    /**
     * `isSuffixInTreeAlready`: whether the new character already continues the
     * active point (Rule 3), moving the active point when it does. With length
     * 0 the lookup is in the root's children whatever the active node is; mid
     * edge the character compared is `text[activeLength]`, as the source reads it.
     */
    method IsSuffixInTreeAlready(newChar: int) returns (present: bool, failure: Option<Failure>)
      requires Valid()
      requires newChar == currentEnd && 0 <= newChar && activeLength <= currentEnd
      modifies this`activeNode, this`activeEdge, this`activeLength
      ensures Valid()
      ensures failure.Some? ==> !present
      // Length 0: some root child whose first character matches.
      ensures old(activeLength) == 0 ==>
                && failure.None?
                && (present <==> exists k :: k in nodes[Root].children && text[k] == text[newChar])
                && (present ==> && activeNode == old(activeNode) && activeLength == 1
                                && activeEdge in nodes[Root].children && text[activeEdge] == text[newChar])
      // A positive length with no active node: the source dereferences null.
      ensures old(activeLength) > 0 && old(activeNode).None? ==> failure == Some(NullActiveNode)
      // A positive length on an edge that is missing: not present.
      ensures (old(activeLength) > 0 && old(activeNode).Some?
               && old(activeEdge) !in nodes[old(activeNode).value].children) ==> !present && failure.None?
      // Mid edge: compare text[activeLength] with the new character; on a match the length grows by one.
      ensures (old(activeLength) > 0 && old(activeNode).Some?
               && old(activeEdge) in nodes[old(activeNode).value].children
               && old(activeLength) < old(ActiveEdgeLength())) ==>
                && failure.None?
                && (present <==> text[old(activeLength)] == text[newChar])
                && (present ==> activeNode == old(activeNode) && activeEdge == old(activeEdge)
                                && activeLength == old(activeLength) + 1)
      // At the edge's end: some grandchild whose first character matches; the active node moves down.
      ensures (old(activeLength) > 0 && old(activeNode).Some?
               && old(activeEdge) in nodes[old(activeNode).value].children
               && old(activeLength) >= old(ActiveEdgeLength())) ==>
                && failure.None?
                && (present <==> exists k :: k in nodes[old(ActiveChild())].children && text[k] == text[newChar])
                && (present ==> && activeNode == Some(old(ActiveChild())) && activeLength == 1
                                && activeEdge in nodes[old(ActiveChild())].children
                                && text[activeEdge] == text[newChar])
      ensures !present ==> activeNode == old(activeNode) && activeEdge == old(activeEdge)
                           && activeLength == old(activeLength)
      ensures present ==> activeLength <= currentEnd + 1
    {
      failure := None;
      if activeLength == 0 {
        if exists k :: k in nodes[Root].children && CharsIdentical(k, newChar) {
          var k :| k in nodes[Root].children && CharsIdentical(k, newChar);
          activeLength := activeLength + 1;
          activeEdge := k;
          return true, None;
        }
      } else {
        if activeNode.None? {
          return false, Some(NullActiveNode);
        }
        var node := activeNode.value;
        if activeEdge !in nodes[node].children {
          return false, None;
        }
        var continuing := nodes[node].children[activeEdge];
        ChildInArena(nodes, |text|, currentEnd, node, activeEdge);
        if activeLength < Length(nodes[continuing], currentEnd) {
          if CharsIdentical(activeLength, newChar) {
            activeLength := activeLength + 1;
            return true, None;
          }
        } else {
          if exists k :: k in nodes[continuing].children && CharsIdentical(k, newChar) {
            var k :| k in nodes[continuing].children && CharsIdentical(k, newChar);
            activeNode := Some(continuing);
            activeEdge := k;
            activeLength := 1;
            return true, None;
          }
        }
      }
      present := false;
    }

    /**
     * `extendFromRoot`: unless Rule 3 fires, hang a new leaf for the new
     * character directly under the root and count one leaf as inserted.
     */
    method ExtendFromRoot(newCharIndex: int) returns (ext: Extension)
      requires Valid()
      requires newCharIndex == currentEnd && 0 <= newCharIndex && activeLength == 0
      requires remainingLeavesToInsert > 0
      modifies this
      ensures Valid()
      ensures text == old(text) && currentEnd == old(currentEnd) && lastNewNode == old(lastNewNode)
      ensures ext == Rule2 || ext == Rule3
      ensures ext == Rule3 <==> exists k :: k in old(nodes[Root].children) && text[k] == text[newCharIndex]
      ensures ext == Rule3 ==> && nodes == old(nodes) && activeLength == 1 && activeNode == old(activeNode)
                               && activeEdge in nodes[Root].children && text[activeEdge] == text[newCharIndex]
                               && remainingLeavesToInsert == old(remainingLeavesToInsert)
      ensures ext == Rule2 ==>
                && nodes == old(nodes)[Root := old(nodes[Root]).(children := old(nodes[Root].children)[newCharIndex := |old(nodes)|])]
                            + [Leaf(newCharIndex)]
                && remainingLeavesToInsert == old(remainingLeavesToInsert) - 1
                && activeNode == old(activeNode) && activeEdge == old(activeEdge) && activeLength == 0
    {
      var present, failure := IsSuffixInTreeAlready(newCharIndex);
      if present {
        return Rule3;
      }
      var before, newNode := nodes, |nodes|;
      nodes := nodes + [Leaf(newCharIndex)];
      nodes := nodes[Root := nodes[Root].(children := nodes[Root].children[newCharIndex := newNode])];
      RootLeafWellFormed(before, |text|, currentEnd, newCharIndex, nodes);
      remainingLeavesToInsert := remainingLeavesToInsert - 1;
      ext := Rule2;
    }

    /**
     * `extendFromActivePoint`: unless Rule 3 fires, split the active edge and
     * move the active point on: at the root the edge key grows and the length
     * shrinks by one, elsewhere the active node follows its suffix link.
     */
    method ExtendFromActivePoint(newCharIndex: int) returns (ext: Extension)
      requires Valid()
      requires newCharIndex == currentEnd && 0 <= newCharIndex && 0 < activeLength <= currentEnd
      requires remainingLeavesToInsert > 0
      modifies this
      ensures Valid()
      ensures text == old(text) && currentEnd == old(currentEnd)
      ensures old(activeNode).None? <==> ext == Fault(NullActiveNode)
      ensures ext != Rule2 ==> lastNewNode == old(lastNewNode)
      ensures ext.Rule3? || ext.Fault? ==> nodes == old(nodes)
                                            && remainingLeavesToInsert == old(remainingLeavesToInsert)
      // A key the active node does not have: the source dereferences the missing child.
      ensures old(EdgeMissing()) <==> ext == Fault(MissingEdge)
      // Mid edge: Rule 3 exactly when the compared character matches; otherwise Rule 2.
      ensures old(MidEdge()) ==>
                && (ext == Rule3 <==> text[old(activeLength)] == text[newCharIndex])
                && (ext == Rule3 ==> activeNode == old(activeNode) && activeEdge == old(activeEdge)
                                     && activeLength == old(activeLength) + 1)
      // At the edge's end: Rule 3 exactly when a grandchild matches; otherwise the split is degenerate.
      ensures old(AtEdgeEnd()) ==>
                && (ext == Rule3 <==> old(GrandchildMatches(newCharIndex)))
                && (ext == Rule3 ==> && activeNode == Some(old(ActiveChild())) && activeLength == 1
                                     && activeEdge in nodes[activeNode.value].children
                                     && text[activeEdge] == text[newCharIndex])
      ensures ext == Fault(DegenerateSplit) <==> old(AtEdgeEnd()) && !old(GrandchildMatches(newCharIndex))
      ensures ext == Rule2 <==> old(MidEdge()) && text[old(activeLength)] != text[newCharIndex]
      ensures ext == Rule3 ==> activeLength > 0
      // A fault leaves the state that caused it in place.
      ensures ext.Fault? ==> activeNode == old(activeNode) && activeEdge == old(activeEdge)
                             && activeLength == old(activeLength)
      ensures ext.Fault? ==> FaultAt(ext.failure, newCharIndex)
      ensures ext == Rule2 ==>
                && old(activeNode).Some? && old(activeEdge) in old(nodes[activeNode.value].children)
                && 0 < old(activeLength) < old(ActiveEdgeLength())
                && nodes == SplitArena(old(nodes), currentEnd, old(activeNode).value, old(activeEdge),
                                       old(activeLength), newCharIndex, old(lastNewNode))
                && remainingLeavesToInsert == old(remainingLeavesToInsert) - 1
                && lastNewNode == Some(|old(nodes)|)
                && (old(activeNode) == Some(Root) ==>
                      activeNode == old(activeNode) && activeEdge == old(activeEdge) + 1
                      && activeLength == old(activeLength) - 1)
                && (old(activeNode) != Some(Root) ==>
                      activeNode == nodes[old(activeNode).value].suffixLink
                      && activeEdge == old(activeEdge) && activeLength == old(activeLength))
    {
      var present, failure := IsSuffixInTreeAlready(newCharIndex);
      if failure.Some? {
        return Fault(failure.value);
      }
      if present {
        return Rule3;
      }
      var node := activeNode.value;
      if activeEdge !in nodes[node].children {
        return Fault(MissingEdge);
      }
      if activeLength >= Length(nodes[nodes[node].children[activeEdge]], currentEnd) {
        return Fault(DegenerateSplit);
      }
      SplitAndAdvance(newCharIndex);
      ext := Rule2;
    }

    /**
     * The Rule 2 branch of `extendFromActivePoint`: split the active edge, then
     * move the active point on, along the edge key at the root and along the
     * suffix link elsewhere.
     */
    method SplitAndAdvance(newCharIndex: int)
      requires Valid()
      requires newCharIndex == currentEnd && 0 <= newCharIndex && activeLength <= currentEnd
      requires activeNode.Some? && activeEdge in nodes[activeNode.value].children
      requires 0 < activeLength < ActiveEdgeLength()
      requires remainingLeavesToInsert > 0
      modifies this
      ensures Valid()
      ensures text == old(text) && currentEnd == old(currentEnd)
      ensures nodes == SplitArena(old(nodes), currentEnd, old(activeNode).value, old(activeEdge),
                                  old(activeLength), newCharIndex, old(lastNewNode))
      ensures remainingLeavesToInsert == old(remainingLeavesToInsert) - 1
      ensures lastNewNode == Some(|old(nodes)|)
      ensures old(activeNode) == Some(Root) ==>
                activeNode == old(activeNode) && activeEdge == old(activeEdge) + 1
                && activeLength == old(activeLength) - 1
      ensures old(activeNode) != Some(Root) ==>
                activeNode == nodes[old(activeNode).value].suffixLink
                && activeEdge == old(activeEdge) && activeLength == old(activeLength)
    {
      var node := activeNode.value;
      SplitEdge(newCharIndex);
      if activeNode == Some(Root) {
        activeEdge := activeEdge + 1;
        activeLength := activeLength - 1;
      } else {
        activeNode := nodes[node].suffixLink;
      }
    }

    /**
     * `splitEdge`: cut the active edge after `activeLength` characters and hang
     * a leaf for the new character under the cut (see `SplitArena`); the new
     * internal node becomes `lastNewNode` and one more leaf counts as inserted.
     */
    method SplitEdge(newCharIndex: int)
      requires Valid()
      requires newCharIndex == currentEnd && 0 <= newCharIndex
      requires activeNode.Some? && activeEdge in nodes[activeNode.value].children
      requires 0 < activeLength < ActiveEdgeLength()
      requires remainingLeavesToInsert > 0
      modifies this`nodes, this`lastNewNode, this`remainingLeavesToInsert
      ensures Valid()
      ensures nodes == SplitArena(old(nodes), currentEnd, activeNode.value, activeEdge, activeLength,
                                  newCharIndex, old(lastNewNode))
      ensures lastNewNode == Some(|old(nodes)|)
      ensures remainingLeavesToInsert == old(remainingLeavesToInsert) - 1
    {
      ChildInArena(nodes, |text|, currentEnd, activeNode.value, activeEdge);
      SplitArenaWellFormed(nodes, |text|, currentEnd, activeNode.value, activeEdge, activeLength,
                           newCharIndex, lastNewNode);
      nodes := SplitArena(nodes, currentEnd, activeNode.value, activeEdge, activeLength, newCharIndex, lastNewNode);
      lastNewNode := Some(|nodes| - 2);
      remainingLeavesToInsert := remainingLeavesToInsert - 1;
    }
  }
}
