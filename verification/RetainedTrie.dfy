/**
 The retained-message trie. A message is stored as it was received. Removal prunes every node it
 leaves without children on the way back, without looking at the message such a node may hold.
 */
module RetainedTrie {
  import opened Bytes
  import opened Prelude
  import opened PublishCodec
  import opened TopicLevels

  datatype Node = Node(msg: Option<Publish>, nodes: map<Level, Node>)

  function NewNode(): Node {
    Node(None, map[])
  }

  function ChildOrNew(n: Node, l: Level): Node {
    if l in n.nodes then n.nodes[l] else NewNode()
  }

  /** rinsert: the new trie and whether every level parsed. */
  function Insert(n: Node, topic: seq<byte>, m: Publish): (Node, bool)
    decreases |topic|
  {
    if topic == [] then (n.(msg := Some(m)), true)
    else
      match NextLevel(topic)
      case BadLevel => (n, false)
      case Parsed(l, rest) =>
        var (c, ok) := Insert(ChildOrNew(n, l), rest, m);
        (n.(nodes := n.nodes[l := c]), ok)
  }

  /** rremove: the new trie and whether the node was there. */
  function Remove(n: Node, topic: seq<byte>): (Node, bool)
    decreases |topic|
  {
    if topic == [] then (n.(msg := None), true)
    else
      match NextLevel(topic)
      case BadLevel => (n, false)
      case Parsed(l, rest) =>
        if l !in n.nodes then (n, false)
        else
          var (c, ok) := Remove(n.nodes[l], rest);
          if !ok then (n, false)
          else if c.nodes == map[] then (n.(nodes := n.nodes - {l}), true)
          else (n.(nodes := n.nodes[l := c]), true)
  }

  // ------------------------------------------------------------------
  // The trie as a table from topics to messages
  // ------------------------------------------------------------------

  function MsgAt(n: Node, path: seq<Level>): Option<Publish>
    decreases |path|
  {
    if path == [] then n.msg
    else if path[0] in n.nodes then MsgAt(n.nodes[path[0]], path[1..])
    else None
  }

  predicate HasNode(n: Node, path: seq<Level>)
    decreases |path|
  {
    path == [] || (path[0] in n.nodes && HasNode(n.nodes[path[0]], path[1..]))
  }

  lemma MsgBelow(n: Node, l: Level, p: seq<Level>)
    ensures MsgAt(n, [l] + p) == MsgAt(ChildOrNew(n, l), p)
    ensures l in n.nodes ==> HasNode(n, [l] + p) == HasNode(n.nodes[l], p)
  {
    assert ([l] + p)[1..] == p;
  }

  /** Storing changes the message of its own topic and of no other; with a bad level, of none. */
  lemma {:induction false} InsertEdits(n: Node, topic: seq<byte>, m: Publish, path: seq<Level>)
    ensures var (n', ok) := Insert(n, topic, m);
            && ok == Split(topic).Levels?
            && MsgAt(n', path) == if ok && path == Split(topic).levels then Some(m) else MsgAt(n, path)
    decreases |topic|
  {
    hide NextLevel;
    if topic != [] && NextLevel(topic).Parsed? {
      var Parsed(l, rest) := NextLevel(topic);
      SplitStep(topic);
      if path != [] && path[0] == l {
        InsertEdits(ChildOrNew(n, l), rest, m, path[1..]);
        MsgBelow(n, l, path[1..]);
        assert path == [l] + path[1..];
      } else {
        InsertEdits(ChildOrNew(n, l), rest, m, []);
      }
    }
  }

  /** Storing makes a node for each level up to the first bad one, and no other. */
  lemma {:induction false} InsertNodes(n: Node, topic: seq<byte>, m: Publish, path: seq<Level>)
    ensures HasNode(Insert(n, topic, m).0, path) <==> HasNode(n, path) || path <= GoodLevels(topic)
    decreases |topic|
  {
    hide NextLevel;
    if topic != [] && NextLevel(topic).Parsed? {
      var Parsed(l, rest) := NextLevel(topic);
      SplitStep(topic);
      if path != [] && path[0] == l {
        InsertNodes(ChildOrNew(n, l), rest, m, path[1..]);
        PrefixTail(l, path[1..], GoodLevels(topic));
        assert path == [l] + path[1..];
      }
    }
  }

  // ------------------------------------------------------------------
  // Removal and what it prunes
  // ------------------------------------------------------------------

  /** Below n there is nothing but the one chain of nodes along `rest`. */
  predicate OnlyChain(n: Node, rest: seq<Level>)
    decreases |rest|
  {
    if rest == [] then n.nodes == map[]
    else n.nodes.Keys == {rest[0]} && OnlyChain(n.nodes[rest[0]], rest[1..])
  }

  /** The node at `path` goes with the removed topic: it is on the way there and leads nowhere else. */
  predicate Pruned(n: Node, removed: seq<Level>, path: seq<Level>)
    decreases |path|
  {
    path != [] && path <= removed && path[0] in n.nodes &&
    (if |path| == 1 then OnlyChain(n.nodes[path[0]], removed[1..])
     else Pruned(n.nodes[path[0]], removed[1..], path[1..]))
  }

  /** No node at or below `path` leads off the way along `rest`. */
  ghost predicate Along(n: Node, path: seq<Level>, rest: seq<Level>) {
    forall q: seq<Level> | HasNode(n, q) && path <= q :: q <= rest
  }

  lemma AlongStep(n: Node, l: Level, path: seq<Level>, rest: seq<Level>)
    requires rest != [] && rest[0] == l && l in n.nodes
    ensures Along(n, [l] + path, rest) <==> Along(n.nodes[l], path, rest[1..])
  {
    if Along(n, [l] + path, rest) {
      forall q: seq<Level> | HasNode(n.nodes[l], q) && path <= q
        ensures q <= rest[1..]
      {
        MsgBelow(n, l, q);
        PrefixTail(l, path, [l] + q);
        assert ([l] + q)[1..] == q;
        PrefixTail(l, q, rest);
      }
    }
    if Along(n.nodes[l], path, rest[1..]) {
      forall q: seq<Level> | HasNode(n, q) && [l] + path <= q
        ensures q <= rest
      {
        assert q[0] == ([l] + path)[0];
        assert q == [l] + q[1..];
        assert HasNode(n.nodes[l], q[1..]);
        PrefixTail(l, path, q);
        PrefixTail(l, q[1..], rest);
      }
    }
  }

  lemma LeafIsAlong(n: Node)
    ensures n.nodes == map[] <==> Along(n, [], [])
  {
    if n.nodes != map[] {
      var l :| l in n.nodes;
      assert HasNode(n, [l]);
    }
  }

  lemma OnlyChildIsAlong(n: Node, rest: seq<Level>)
    requires rest != [] && rest[0] in n.nodes
    ensures Along(n, [], rest) <==> n.nodes.Keys == {rest[0]} && Along(n, [rest[0]], rest)
  {
    if Along(n, [], rest) {
      forall k | k in n.nodes
        ensures k == rest[0]
      {
        assert HasNode(n, [k]);
      }
    }
    if n.nodes.Keys == {rest[0]} && Along(n, [rest[0]], rest) {
      forall q: seq<Level> | HasNode(n, q)
        ensures q <= rest
      {
        if q != [] {
          assert q[0] in n.nodes.Keys;
          assert [rest[0]] <= q;
        }
      }
    }
  }

  lemma {:induction false} ChainIsAlong(n: Node, rest: seq<Level>)
    requires HasNode(n, rest)
    ensures OnlyChain(n, rest) <==> Along(n, [], rest)
    decreases |rest|
  {
    hide Along;
    if rest == [] {
      LeafIsAlong(n);
    } else {
      ChainIsAlong(n.nodes[rest[0]], rest[1..]);
      OnlyChildIsAlong(n, rest);
      AlongStep(n, rest[0], [], rest);
      assert [rest[0]] + [] == [rest[0]];
    }
  }

  /** Pruning takes exactly the nodes on the way from which no node leads off it. */
  lemma {:induction false} PrunedExactly(n: Node, removed: seq<Level>, path: seq<Level>)
    requires HasNode(n, removed)
    ensures Pruned(n, removed, path) <==> path != [] && path <= removed && Along(n, path, removed)
    decreases |path|
  {
    hide Along;
    if path != [] && path <= removed {
      var l := path[0];
      PrefixTail(l, path[1..], removed);
      assert path == [l] + path[1..];
      AlongStep(n, l, path[1..], removed);
      if |path| == 1 {
        assert path[1..] == [];
        ChainIsAlong(n.nodes[l], removed[1..]);
      } else {
        PrunedExactly(n.nodes[l], removed[1..], path[1..]);
      }
    }
  }

  /** The node that remains is empty exactly when there was only the chain. */
  lemma {:induction false} ChainVanishes(n: Node, topic: seq<byte>)
    requires Split(topic).Levels? && HasNode(n, Split(topic).levels)
    ensures Remove(n, topic).1 && (Remove(n, topic).0.nodes == map[] <==> OnlyChain(n, Split(topic).levels))
    decreases |topic|
  {
    hide NextLevel;
    if topic != [] {
      var Parsed(l, rest) := NextLevel(topic);
      SplitStep(topic);
      ChainVanishes(n.nodes[l], rest);
      var c := Remove(n.nodes[l], rest).0;
      var n' := Remove(n, topic).0;
      if c.nodes == map[] {
        assert n'.nodes == map[] <==> n.nodes.Keys == {l} by { SingleKey(n.nodes, l); }
      } else {
        assert l in n'.nodes;
      }
    }
  }

  /** What the trie holds at a path after the removal of another. */
  ghost predicate Edited(n: Node, n': Node, removed: seq<Level>, path: seq<Level>) {
    && MsgAt(n', path) == (if path == removed || Pruned(n, removed, path) then None else MsgAt(n, path))
    && (HasNode(n', path) <==> HasNode(n, path) && !Pruned(n, removed, path))
  }

  /** Removal clears its own topic, keeps every topic that is not a proper part of it, and keeps a
      part unless it is pruned. A removal that fails changes nothing. */
  lemma {:induction false} RemoveEdits(n: Node, topic: seq<byte>, path: seq<Level>)
    ensures var (n', ok) := Remove(n, topic);
            && ok == (Split(topic).Levels? && HasNode(n, Split(topic).levels))
            && (!ok ==> n' == n)
            && (ok ==> Edited(n, n', Split(topic).levels, path))
    decreases |topic|
  {
    hide NextLevel, OnlyChain, Edited;
    if topic == [] {
      HereEdited(n, path);
    } else if NextLevel(topic).Parsed? {
      var Parsed(l, rest) := NextLevel(topic);
      SplitStep(topic);
      if l in n.nodes {
        var q := if path != [] && path[0] == l then path[1..] else [];
        RemoveEdits(n.nodes[l], rest, q);
        if Split(topic).Levels? && HasNode(n.nodes[l], Split(rest).levels) {
          ChainVanishes(n.nodes[l], rest);
          RemoveStep(n, topic, path);
        }
      }
    }
  }

  lemma HereEdited(n: Node, path: seq<Level>)
    ensures Edited(n, n.(msg := None), [], path)
  {
  }

  lemma RemoveStep(n: Node, topic: seq<byte>, path: seq<Level>)
    requires topic != [] && NextLevel(topic).Parsed? && Split(topic).Levels? && HasNode(n, Split(topic).levels)
    requires var l := NextLevel(topic).level;
             var rest := NextLevel(topic).rest;
             var removed := Split(topic).levels;
             && |rest| < |topic| && l in n.nodes && removed != [] && removed[0] == l
             && Remove(n.nodes[l], rest).1
             && (Remove(n.nodes[l], rest).0.nodes == map[] <==> OnlyChain(n.nodes[l], removed[1..]))
             && (path != [] && path[0] == l ==> Edited(n.nodes[l], Remove(n.nodes[l], rest).0, removed[1..], path[1..]))
    ensures Edited(n, Remove(n, topic).0, Split(topic).levels, path)
  {
    hide OnlyChain, NextLevel, Split;
    var l := NextLevel(topic).level;
    var removed := Split(topic).levels;
    if path != [] && path[0] == l {
      assert path == [l] + path[1..] && removed == [l] + removed[1..];
      PrefixTail(l, path[1..], removed);
    }
  }
}
