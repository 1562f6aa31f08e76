/**
 The retained-message trie as the broker keeps it: nodes on the heap, edited in place. Every edit
 is the one the value model makes.
 */
module RetainedNodes {
  import opened Bytes
  import opened Prelude
  import opened PublishCodec
  import opened RetainedTrie
  import opened TopicLevels

  /** The children own disjoint parts of `rest`, and hold the given trees. */
  ghost predicate Kids(kids: map<Level, RNode>, rest: set<RNode>, trees: map<Level, Node>)
    reads rest
    decreases rest, 1
  {
    && (forall k | k in kids :: kids[k] in rest && kids[k].repr <= rest && kids[k].Valid())
    && (forall j, k | j in kids && k in kids && j != k :: kids[j].repr !! kids[k].repr)
    && trees.Keys == kids.Keys
    && (forall k | k in kids :: trees[k] == kids[k].tree)
  }

  /** Without one child, the others live outside of what it owns. */
  lemma WithoutChild(kids: map<Level, RNode>, rest: set<RNode>, trees: map<Level, Node>, k: Level)
    requires Kids(kids, rest, trees) && k in kids
    ensures kids[k].Valid() && kids[k] in rest && kids[k].repr <= rest && k in trees && trees[k] == kids[k].tree
    ensures Kids(kids - {k}, rest - kids[k].repr, trees - {k})
  {
    var c := kids[k];
    forall j | j in kids && j != k
      ensures kids[j] in rest - c.repr && kids[j].repr <= rest - c.repr
    {
      assert kids[j] in kids[j].repr;
    }
  }

  /** A child whose part is separate can be put in any place that is free. */
  lemma WithChild(kids: map<Level, RNode>, rest: set<RNode>, trees: map<Level, Node>, k: Level, c: RNode)
    requires Kids(kids - {k}, rest, trees - {k}) && c.Valid() && c.repr !! rest
    ensures Kids(kids[k := c], rest + c.repr, trees[k := c.tree])
  {
    var kids', rest', trees' := kids[k := c], rest + c.repr, trees[k := c.tree];
    assert c in c.repr;
    assert forall j | j in kids' && j != k :: j in kids - {k} && (kids - {k})[j] == kids'[j];
    assert forall j | j in kids' && j != k :: (trees - {k})[j] == trees'[j];
    forall j | j in trees'
      ensures j in kids'
    {
      assert j != k ==> j in trees - {k};
    }
    assert trees'.Keys == kids'.Keys;
  }

  class RNode {
    var msg: Option<Publish>
    var rnodes: map<Level, RNode>
    ghost var repr: set<RNode>
    ghost var tree: Node

    /** The tree is the value that this node and its children form. */
    ghost predicate Valid()
      reads this, repr
      decreases repr, 0
    {
      && this in repr
      && tree.msg == msg
      && Kids(rnodes, repr - {this}, tree.nodes)
    }

    constructor ()
      ensures Valid() && fresh(repr) && tree == NewNode()
    {
      msg, rnodes := None, map[];
      repr, tree := {this}, NewNode();
    }

    /** Makes the child at a level. */
    method AddChild(level: Level)
      requires Valid() && level !in rnodes
      modifies this
      ensures Valid() && fresh(repr - old(repr)) && level in rnodes
      ensures tree == old(tree).(nodes := old(tree).nodes[level := NewNode()])
    {
      hide Kids;
      var n := new RNode();
      NoSuchChild(level);
      WithChild(rnodes, repr - {this}, tree.nodes, level, n);
      rnodes := rnodes[level := n];
      tree := tree.(nodes := tree.nodes[level := n.tree]);
      assert repr + n.repr - {this} == repr - {this} + n.repr;
      repr := repr + n.repr;
    }

    lemma NoSuchChild(level: Level)
      requires Valid() && level !in rnodes
      ensures rnodes - {level} == rnodes && tree.nodes - {level} == tree.nodes
    {
    }

    lemma SameKeys()
      requires Valid()
      ensures tree.nodes.Keys == rnodes.Keys
    {
    }

    /** Records what an edit of the child at k has done. */
    ghost method Reattach(k: Level, rest: set<RNode>)
      requires k in rnodes && rnodes[k].Valid() && this !in rest + rnodes[k].repr && rest !! rnodes[k].repr
      requires tree.msg == msg && Kids(rnodes - {k}, rest, tree.nodes - {k})
      modifies this`repr, this`tree
      ensures Valid() && repr == {this} + rest + rnodes[k].repr
      ensures tree == old(tree).(nodes := old(tree).nodes[k := rnodes[k].tree])
    {
      hide Kids;
      WithChild(rnodes, rest, tree.nodes, k, rnodes[k]);
      assert rnodes[k := rnodes[k]] == rnodes;
      repr := {this} + rest + rnodes[k].repr;
      assert repr - {this} == rest + rnodes[k].repr;
      tree := tree.(nodes := tree.nodes[k := rnodes[k].tree]);
    }

    /** rinsert: finds or makes the nodes along the topic and stores the message at the last. */
    method RInsert(topic: seq<byte>, m: Publish) returns (ok: bool)
      requires Valid()
      modifies repr
      ensures Valid() && fresh(repr - old(repr))
      ensures (tree, ok) == Insert(old(tree), topic, m)
      decreases |topic|
    {
      hide Kids, NextLevel;
      if topic == [] {
        msg := Some(m);
        tree := tree.(msg := msg);
        return true;
      }
      var p := NextTopicLevel(topic);
      if p.BadLevel? {
        return false;
      }
      SameKeys();
      ghost var child := ChildOrNew(tree, p.level);
      if p.level !in rnodes { AddChild(p.level); }
      var n := rnodes[p.level];
      WithoutChild(rnodes, repr - {this}, tree.nodes, p.level);
      ghost var rest := repr - {this} - n.repr;
      RestIsShorter(topic);
      ok := n.RInsert(p.rest, m);
      Reattach(p.level, rest);
      Overwrite(old(tree).nodes, p.level, child, n.tree);
    }

    /** rremove: forgets the message at the last node, and deletes every node this leaves without
        children. */
    method RRemove(topic: seq<byte>) returns (ok: bool)
      requires Valid()
      modifies repr
      ensures Valid() && repr <= old(repr)
      ensures (tree, ok) == Remove(old(tree), topic)
      decreases |topic|
    {
      hide Kids, NextLevel;
      if topic == [] {
        msg := None;
        tree := tree.(msg := None);
        return true;
      }
      var p := NextTopicLevel(topic);
      if p.BadLevel? {
        return false;
      }
      SameKeys();
      if p.level !in rnodes {
        return false;
      }
      var n := rnodes[p.level];
      WithoutChild(rnodes, repr - {this}, tree.nodes, p.level);
      ghost var rest := repr - {this} - n.repr;
      RestIsShorter(topic);
      ok := n.RRemove(p.rest);
      Reattach(p.level, rest);
      if ok { DropIfChildless(p.level); }
      Overwrite(old(tree).nodes, p.level, n.tree, n.tree);
    }

    /** Deletes the child at k if it has no children of its own. */
    method DropIfChildless(k: Level)
      requires Valid() && k in rnodes && k in tree.nodes
      modifies this
      ensures Valid() && repr <= old(repr)
      ensures tree == if old(tree).nodes[k].nodes == map[] then old(tree).(nodes := old(tree).nodes - {k})
                      else old(tree)
    {
      hide Kids;
      var n := rnodes[k];
      WithoutChild(rnodes, repr - {this}, tree.nodes, k);
      n.SameKeys();
      if n.rnodes == map[] {
        ghost var rest := repr - {this} - n.repr;
        rnodes := rnodes - {k};
        tree := tree.(nodes := tree.nodes - {k});
        repr := {this} + rest;
        assert repr - {this} == rest;
      }
    }
  }
}
