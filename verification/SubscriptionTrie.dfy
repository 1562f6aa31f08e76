/**
 The subscription trie: one node per level, subscribers with their QoS and group subscribers
 at the node where their filter ends.
 */
module SubscriptionTrie {
  import opened Bytes
  import opened Prelude
  import opened TopicLevels

  /** A subscriber, compared by identity. */
  datatype Sub = Sub(ptr: nat)

  /** What is stored at the end of a filter: subs[i] was granted qos[i]; a group maps to its members. */
  datatype Cell = Cell(subs: seq<Sub>, qos: seq<nat>, groups: map<seq<byte>, seq<Sub>>)

  datatype Node = Node(cell: Cell, nodes: map<Level, Node>)

  const EMPTY_CELL: Cell := Cell([], [], map[])

  function NewNode(): Node {
    Node(EMPTY_CELL, map[])
  }

  // ------------------------------------------------------------------
  // Edits at one node
  // ------------------------------------------------------------------

  /** The first position of s, or the length. */
  function IndexOf(s: seq<Sub>, x: Sub): (i: nat)
    ensures i <= |s| && x !in s[..i] && (i < |s| ==> s[i] == x)
    ensures i == |s| <==> x !in s
  {
    if s == [] then 0
    else if s[0] == x then 0
    else 1 + IndexOf(s[1..], x)
  }

  function Without<T>(s: seq<T>, i: nat): (r: seq<T>)
    requires i < |s|
    ensures |r| == |s| - 1
  {
    s[..i] + s[i + 1..]
  }

  function InsertCell(c: Cell, group: seq<byte>, qos: nat, sub: Sub): Cell {
    if group == [] then
      var i := IndexOf(c.subs, sub);
      if i < |c.subs| then (if i < |c.qos| then c.(qos := c.qos[i := qos]) else c)
      else c.(subs := c.subs + [sub], qos := c.qos + [qos])
    else
      c.(groups := c.groups[group := (if group in c.groups then c.groups[group] else []) + [sub]])
  }

  /** The cell after a removal, or None if there is nothing to remove. A nil subscriber removes all. */
  function RemoveCell(c: Cell, group: seq<byte>, sub: Option<Sub>): Option<Cell> {
    if sub.None? then Some(EMPTY_CELL)
    else if group == [] then
      var i := IndexOf(c.subs, sub.value);
      if i == |c.subs| then None
      else Some(c.(subs := Without(c.subs, i), qos := if i < |c.qos| then Without(c.qos, i) else c.qos))
    else if group !in c.groups then None
    else
      var g := c.groups[group];
      var i := IndexOf(g, sub.value);
      if i == |g| then None
      else if |g| == 1 then Some(c.(groups := c.groups - {group}))
      else Some(c.(groups := c.groups[group := Without(g, i)]))
  }

  // ------------------------------------------------------------------
  // Insertion and removal along a topic
  // ------------------------------------------------------------------

  function ChildOrNew(n: Node, l: Level): Node {
    if l in n.nodes then n.nodes[l] else NewNode()
  }

  /** sinsert: the new trie and whether every level parsed. Nodes made before a bad level stay. */
  function Insert(n: Node, group: seq<byte>, topic: seq<byte>, qos: nat, sub: Sub): (Node, bool)
    decreases |topic|
  {
    if topic == [] then (n.(cell := InsertCell(n.cell, group, qos, sub)), true)
    else
      match NextLevel(topic)
      case BadLevel => (n, false)
      case Parsed(l, rest) =>
        var (c, ok) := Insert(ChildOrNew(n, l), group, rest, qos, sub);
        (n.(nodes := n.nodes[l := c]), ok)
  }

  predicate Barren(n: Node) {
    n.cell.groups == map[] && n.cell.subs == [] && n.nodes == map[]
  }

  /** sremove: the new trie and whether something was removed. A node left without subscribers,
      groups and children is deleted on the way back. */
  function Remove(n: Node, group: seq<byte>, topic: seq<byte>, sub: Option<Sub>): (Node, bool)
    decreases |topic|
  {
    if topic == [] then
      match RemoveCell(n.cell, group, sub)
      case None => (n, false)
      case Some(c) => (n.(cell := c), true)
    else
      match NextLevel(topic)
      case BadLevel => (n, false)
      case Parsed(l, rest) =>
        if l !in n.nodes then (n, false)
        else
          var (c, ok) := Remove(n.nodes[l], group, rest, sub);
          if !ok then (n, false)
          else if Barren(c) then (n.(nodes := n.nodes - {l}), true)
          else (n.(nodes := n.nodes[l := c]), true)
  }

  // ------------------------------------------------------------------
  // The trie as a table from paths to cells
  // ------------------------------------------------------------------

  function CellAt(n: Node, path: seq<Level>): Cell
    decreases |path|
  {
    if path == [] then n.cell
    else if path[0] in n.nodes then CellAt(n.nodes[path[0]], path[1..])
    else EMPTY_CELL
  }

  predicate HasNode(n: Node, path: seq<Level>)
    decreases |path|
  {
    path == [] || (path[0] in n.nodes && HasNode(n.nodes[path[0]], path[1..]))
  }

  lemma {:induction false} NewNodeIsEmpty(path: seq<Level>)
    ensures CellAt(NewNode(), path) == EMPTY_CELL
  {
  }

  lemma ChildCells(n: Node, l: Level, path: seq<Level>)
    ensures CellAt(ChildOrNew(n, l), path) == CellAt(n, [l] + path)
  {
    NewNodeIsEmpty(path);
    assert ([l] + path)[1..] == path;
  }

  /** Insertion edits the cell at the filter's own path and no other; with a bad level it edits
      none. */
  lemma {:induction false} InsertEdits(n: Node, group: seq<byte>, topic: seq<byte>, qos: nat, sub: Sub,
                                       path: seq<Level>)
    ensures var (n', ok) := Insert(n, group, topic, qos, sub);
            && ok == Split(topic).Levels?
            && CellAt(n', path)
               == if ok && path == Split(topic).levels then InsertCell(CellAt(n, path), group, qos, sub)
                  else CellAt(n, path)
    decreases |topic|
  {
    hide InsertCell;
    if topic != [] && NextLevel(topic).Parsed? {
      var Parsed(l, rest) := NextLevel(topic);
      if path != [] && path[0] == l {
        InsertEdits(ChildOrNew(n, l), group, rest, qos, sub, path[1..]);
        ChildCells(n, l, path[1..]);
        assert path == [l] + path[1..];
      } else {
        InsertEdits(ChildOrNew(n, l), group, rest, qos, sub, []);
      }
    }
  }

  // ------------------------------------------------------------------
  // Well-formed tries
  // ------------------------------------------------------------------

  ghost predicate Distinct<T>(s: seq<T>) {
    forall i, j | 0 <= i < j < |s| :: s[i] != s[j]
  }

  /** Subscriber and QoS lists are aligned, no subscriber is listed twice, and no group is empty. */
  ghost predicate CellOk(c: Cell) {
    && |c.subs| == |c.qos| && Distinct(c.subs)
    && forall g | g in c.groups :: c.groups[g] != [] && g != []
  }

  ghost predicate TrieOk(n: Node) {
    forall path: seq<Level> :: CellOk(CellAt(n, path))
  }

  lemma InsertCellOk(c: Cell, group: seq<byte>, qos: nat, sub: Sub)
    requires CellOk(c)
    ensures CellOk(InsertCell(c, group, qos, sub))
  {
  }

  lemma RemoveCellOk(c: Cell, group: seq<byte>, sub: Option<Sub>)
    requires CellOk(c) && RemoveCell(c, group, sub).Some?
    ensures CellOk(RemoveCell(c, group, sub).value)
  {
  }

  lemma InsertKeepsOk(n: Node, group: seq<byte>, topic: seq<byte>, qos: nat, sub: Sub)
    requires TrieOk(n)
    ensures TrieOk(Insert(n, group, topic, qos, sub).0)
  {
    hide Insert, InsertCell, CellOk;
    forall path: seq<Level>
      ensures CellOk(CellAt(Insert(n, group, topic, qos, sub).0, path))
    {
      InsertEdits(n, group, topic, qos, sub, path);
      InsertCellOk(CellAt(n, path), group, qos, sub);
    }
  }

  lemma ChildOk(n: Node, l: Level)
    requires TrieOk(n) && l in n.nodes
    ensures TrieOk(n.nodes[l])
  {
    hide CellOk, CellAt;
    forall path: seq<Level>
      ensures CellOk(CellAt(n.nodes[l], path))
    {
      ChildCells(n, l, path);
      assert CellOk(CellAt(n, [l] + path));
    }
  }

  lemma BarrenIsEmpty(n: Node, path: seq<Level>)
    requires Barren(n) && CellOk(n.cell)
    ensures CellAt(n, path) == EMPTY_CELL
  {
  }

  /** When sremove succeeds: the filter parses, its node is there, and it holds the subscriber. */
  predicate Removable(n: Node, group: seq<byte>, topic: seq<byte>, sub: Option<Sub>) {
    && Split(topic).Levels? && HasNode(n, Split(topic).levels)
    && RemoveCell(CellAt(n, Split(topic).levels), group, sub).Some?
  }

  /** Removal edits the cell at the filter's own path and no other, or fails and changes nothing. */
  lemma {:induction false} RemoveEdits(n: Node, group: seq<byte>, topic: seq<byte>, sub: Option<Sub>, path: seq<Level>)
    requires TrieOk(n)
    ensures var (n', ok) := Remove(n, group, topic, sub);
            && ok == Removable(n, group, topic, sub)
            && (!ok ==> n' == n)
            && CellOk(n'.cell)
            && CellAt(n', path)
               == if ok && path == Split(topic).levels then RemoveCell(CellAt(n, path), group, sub).value
                  else CellAt(n, path)
    decreases |topic|
  {
    hide RemoveCell, CellOk, NextLevel;
    assert CellOk(CellAt(n, []));
    if topic == [] {
      if RemoveCell(n.cell, group, sub).Some? { RemoveCellOk(n.cell, group, sub); }
    } else if NextLevel(topic).Parsed? {
      var Parsed(l, rest) := NextLevel(topic);
      if l in n.nodes {
        ChildOk(n, l);
        SplitStep(topic);
        var q := if path != [] && path[0] == l then path[1..] else [];
        RemoveEdits(n.nodes[l], group, rest, sub, q);
        var (c, ok) := Remove(n.nodes[l], group, rest, sub);
        if Barren(c) { BarrenIsEmpty(c, q); }
      }
    }
  }

  lemma RemoveKeepsOk(n: Node, group: seq<byte>, topic: seq<byte>, sub: Option<Sub>)
    requires TrieOk(n)
    ensures TrieOk(Remove(n, group, topic, sub).0)
  {
    hide Remove, RemoveCell, CellOk, Removable;
    forall path: seq<Level>
      ensures CellOk(CellAt(Remove(n, group, topic, sub).0, path))
    {
      RemoveEdits(n, group, topic, sub, path);
      RemovableHere(n, group, topic, sub);
      if Removable(n, group, topic, sub) && path == Split(topic).levels { RemoveCellOk(CellAt(n, path), group, sub); }
    }
  }

  lemma RemovableHere(n: Node, group: seq<byte>, topic: seq<byte>, sub: Option<Sub>)
    ensures Removable(n, group, topic, sub) ==>
              Split(topic).Levels? && RemoveCell(CellAt(n, Split(topic).levels), group, sub).Some?
  {
  }

  // ------------------------------------------------------------------
  // No dead branches
  // ------------------------------------------------------------------

  /** Every node below n holds subscribers, groups or further nodes. */
  ghost predicate Fertile(n: Node) {
    forall l | l in n.nodes :: !Barren(n.nodes[l]) && Fertile(n.nodes[l])
  }

  lemma InsertCellNotEmpty(c: Cell, group: seq<byte>, qos: nat, sub: Sub)
    ensures var c' := InsertCell(c, group, qos, sub); c'.subs != [] || c'.groups != map[]
  {
    if group != [] { assert group in InsertCell(c, group, qos, sub).groups; }
  }

  lemma {:induction false} InsertKeepsFertile(n: Node, group: seq<byte>, topic: seq<byte>, qos: nat, sub: Sub)
    requires Fertile(n) && Split(topic).Levels?
    ensures !Barren(Insert(n, group, topic, qos, sub).0) && Fertile(Insert(n, group, topic, qos, sub).0)
    decreases |topic|
  {
    hide InsertCell, NextLevel;
    if topic == [] {
      InsertCellNotEmpty(n.cell, group, qos, sub);
    } else {
      var Parsed(l, rest) := NextLevel(topic);
      SplitStep(topic);
      InsertKeepsFertile(ChildOrNew(n, l), group, rest, qos, sub);
      assert l in Insert(n, group, topic, qos, sub).0.nodes;
    }
  }

  lemma {:induction false} RemoveKeepsFertile(n: Node, group: seq<byte>, topic: seq<byte>, sub: Option<Sub>)
    requires Fertile(n)
    ensures Fertile(Remove(n, group, topic, sub).0)
    decreases |topic|
  {
    hide RemoveCell, NextLevel;
    if topic != [] && NextLevel(topic).Parsed? {
      var Parsed(l, rest) := NextLevel(topic);
      SplitStep(topic);
      if l in n.nodes { RemoveKeepsFertile(n.nodes[l], group, rest, sub); }
    }
  }

  /** The subscriber is not yet at this cell: not in its list, or not in the named group. */
  predicate Fresh(c: Cell, group: seq<byte>, sub: Sub) {
    if group == [] then sub !in c.subs else group in c.groups ==> sub !in c.groups[group]
  }

  lemma CellRestored(c: Cell, group: seq<byte>, qos: nat, sub: Sub)
    requires CellOk(c) && Fresh(c, group, sub)
    ensures RemoveCell(InsertCell(c, group, qos, sub), group, Some(sub)) == Some(c)
  {
    var c' := InsertCell(c, group, qos, sub);
    if group == [] {
      LastIndex(c.subs, sub);
      assert Without(c'.subs, |c.subs|) == c.subs && Without(c'.qos, |c.qos|) == c.qos;
    } else {
      var g := if group in c.groups then c.groups[group] else [];
      LastIndex(g, sub);
      assert Without(g + [sub], |g|) == g;
      if group in c.groups {
        assert c'.groups[group := g] == c.groups;
      } else {
        assert c'.groups - {group} == c.groups;
      }
    }
  }

  lemma LastIndex(s: seq<Sub>, x: Sub)
    requires x !in s
    ensures IndexOf(s + [x], x) == |s|
  {
    var i := IndexOf(s + [x], x);
    assert forall k: nat | k < |s| :: (s + [x])[k] == s[k];
  }

  /** Subscribing a fresh subscriber and unsubscribing it again gives back the same trie. */
  lemma {:induction false} SubscribeUnsubscribe(n: Node, group: seq<byte>, topic: seq<byte>, qos: nat, sub: Sub)
    requires TrieOk(n) && Fertile(n) && Split(topic).Levels?
    requires Fresh(CellAt(n, Split(topic).levels), group, sub)
    ensures Remove(Insert(n, group, topic, qos, sub).0, group, topic, Some(sub)) == (n, true)
    decreases |topic|
  {
    hide InsertCell, RemoveCell, NextLevel, CellOk, Fresh;
    assert CellOk(CellAt(n, []));
    if topic == [] {
      CellRestored(n.cell, group, qos, sub);
    } else {
      var Parsed(l, rest) := NextLevel(topic);
      SplitStep(topic);
      var child := ChildOrNew(n, l);
      ChildTrieOk(n, l);
      ChildCells(n, l, Split(rest).levels);
      SubscribeUnsubscribe(child, group, rest, qos, sub);
      RestoreStep(n, group, topic, qos, sub);
    }
  }

  lemma ChildTrieOk(n: Node, l: Level)
    requires TrieOk(n) && Fertile(n)
    ensures TrieOk(ChildOrNew(n, l)) && Fertile(ChildOrNew(n, l))
  {
    if l in n.nodes {
      ChildOk(n, l);
    } else {
      forall path: seq<Level> ensures CellOk(CellAt(NewNode(), path)) { NewNodeIsEmpty(path); }
    }
  }

  lemma RestoreStep(n: Node, group: seq<byte>, topic: seq<byte>, qos: nat, sub: Sub)
    requires topic != [] && NextLevel(topic).Parsed? && Fertile(n)
    requires var Parsed(l, rest) := NextLevel(topic);
             Remove(Insert(ChildOrNew(n, l), group, rest, qos, sub).0, group, rest, Some(sub))
             == (ChildOrNew(n, l), true)
    ensures Remove(Insert(n, group, topic, qos, sub).0, group, topic, Some(sub)) == (n, true)
  {
    hide InsertCell, RemoveCell;
    var Parsed(l, rest) := NextLevel(topic);
    var n' := Insert(n, group, topic, qos, sub).0;
    assert l in n'.nodes;
    if l in n.nodes {
      assert n'.nodes[l := n.nodes[l]] == n.nodes;
    } else {
      assert n'.nodes - {l} == n.nodes;
    }
  }
}
