/**
 The subscription trie as the broker keeps it: nodes on the heap, each with its own subscriber
 lists and a map of children, edited in place. Every edit is the one the value model makes.
 */
module SubscriptionNodes {
  import opened Bytes
  import opened Prelude
  import opened SubscriptionTrie
  import opened TopicLevels

  /** The children own disjoint parts of `rest`, and hold the given trees. */
  ghost predicate Kids(kids: map<Level, SNode>, rest: set<SNode>, trees: map<Level, Node>)
    reads rest
    decreases rest, 1
  {
    && (forall k | k in kids :: kids[k] in rest && kids[k].repr <= rest && kids[k].Valid())
    && (forall j, k | j in kids && k in kids && j != k :: kids[j].repr !! kids[k].repr)
    && trees.Keys == kids.Keys
    && (forall k | k in kids :: trees[k] == kids[k].tree)
  }

  /** Without one child, the others live outside of what it owns. */
  lemma WithoutChild(kids: map<Level, SNode>, rest: set<SNode>, trees: map<Level, Node>, k: Level)
    requires Kids(kids, rest, trees) && k in kids
    ensures kids[k].Valid() && kids[k] in rest && kids[k].repr <= rest && k in trees && trees[k] == kids[k].tree
    ensures Kids(kids - {k}, rest - kids[k].repr, trees - {k})
  {
    var c := kids[k];
    forall j | j in kids && j != k
      ensures kids[j] in rest - c.repr && kids[j].repr <= rest - c.repr
    {
      assert kids[j] in kids[j].repr;
    }
  }

  /** A child whose part is separate can be put in any place that is free. */
  lemma WithChild(kids: map<Level, SNode>, rest: set<SNode>, trees: map<Level, Node>, k: Level, c: SNode)
    requires Kids(kids - {k}, rest, trees - {k}) && c.Valid() && c.repr !! rest
    ensures Kids(kids[k := c], rest + c.repr, trees[k := c.tree])
  {
    var kids', rest', trees' := kids[k := c], rest + c.repr, trees[k := c.tree];
    assert c in c.repr;
    assert forall j | j in kids' && j != k :: j in kids - {k} && (kids - {k})[j] == kids'[j];
    assert forall j | j in kids' && j != k :: (trees - {k})[j] == trees'[j];
    forall j | j in trees'
      ensures j in kids'
    {
      assert j != k ==> j in trees - {k};
    }
    assert trees'.Keys == kids'.Keys;
  }

  class SNode {
    var subs: seq<Sub>
    var groupSubs: map<seq<byte>, seq<Sub>>
    var qos: seq<nat>
    var snodes: map<Level, SNode>
    ghost var repr: set<SNode>
    ghost var tree: Node

    /** The tree is the value that this node and its children form. */
    ghost predicate Valid()
      reads this, repr
      decreases repr, 0
    {
      && this in repr
      && tree.cell == Cell(subs, qos, groupSubs)
      && Kids(snodes, repr - {this}, tree.nodes)
    }

    constructor ()
      ensures Valid() && fresh(repr) && tree == NewNode()
    {
      subs, groupSubs, qos, snodes := [], map[], [], map[];
      repr, tree := {this}, NewNode();
    }

    /** Makes the child at a level. */
    method AddChild(level: Level)
      requires Valid() && level !in snodes
      modifies this
      ensures Valid() && fresh(repr - old(repr)) && level in snodes
      ensures tree == old(tree).(nodes := old(tree).nodes[level := NewNode()])
    {
      hide Kids;
      var n := new SNode();
      NoSuchChild(level);
      WithChild(snodes, repr - {this}, tree.nodes, level, n);
      snodes := snodes[level := n];
      tree := tree.(nodes := tree.nodes[level := n.tree]);
      assert repr + n.repr - {this} == repr - {this} + n.repr;
      repr := repr + n.repr;
    }

    lemma NoSuchChild(level: Level)
      requires Valid() && level !in snodes
      ensures snodes - {level} == snodes && tree.nodes - {level} == tree.nodes
    {
    }

    /** Records what an edit of the child at k has done. */
    ghost method Reattach(k: Level, rest: set<SNode>)
      requires k in snodes && snodes[k].Valid() && this !in rest + snodes[k].repr && rest !! snodes[k].repr
      requires tree.cell == Cell(subs, qos, groupSubs) && Kids(snodes - {k}, rest, tree.nodes - {k})
      modifies this`repr, this`tree
      ensures Valid() && repr == {this} + rest + snodes[k].repr
      ensures tree == old(tree).(nodes := old(tree).nodes[k := snodes[k].tree])
    {
      hide Kids;
      WithChild(snodes, rest, tree.nodes, k, snodes[k]);
      assert snodes[k := snodes[k]] == snodes;
      repr := {this} + rest + snodes[k].repr;
      assert repr - {this} == rest + snodes[k].repr;
      tree := tree.(nodes := tree.nodes[k := snodes[k].tree]);
    }

    /** sinsert: finds or makes the nodes along the topic and subscribes at the last. */
    method SInsert(group: seq<byte>, topic: seq<byte>, q: nat, sub: Sub) returns (ok: bool)
      requires Valid()
      modifies repr
      ensures Valid() && fresh(repr - old(repr))
      ensures (tree, ok) == Insert(old(tree), group, topic, q, sub)
      decreases |topic|
    {
      hide Kids, InsertCell, NextLevel;
      if topic == [] {
        InsertHere(group, q, sub);
        return true;
      }
      var p := NextTopicLevel(topic);
      if p.BadLevel? {
        return false;
      }
      SameKeys();
      ghost var child := ChildOrNew(tree, p.level);
      if p.level !in snodes { AddChild(p.level); }
      var n := snodes[p.level];
      WithoutChild(snodes, repr - {this}, tree.nodes, p.level);
      ghost var rest := repr - {this} - n.repr;
      RestIsShorter(topic);
      ok := n.SInsert(group, p.rest, q, sub);
      Reattach(p.level, rest);
      Overwrite(old(tree).nodes, p.level, child, n.tree);
    }

    /** Subscribes at this node: a known subscriber only gets the new QoS. */
    method InsertHere(group: seq<byte>, q: nat, sub: Sub)
      requires Valid()
      modifies this
      ensures Valid() && repr == old(repr)
      ensures tree == old(tree).(cell := InsertCell(old(tree).cell, group, q, sub))
    {
      hide Kids;
      if group == [] {
        var i := Find(subs, sub);
        if i < |subs| {
          if i < |qos| { qos := qos[i := q]; }
        } else {
          subs, qos := subs + [sub], qos + [q];
        }
      } else {
        groupSubs := groupSubs[group := (if group in groupSubs then groupSubs[group] else []) + [sub]];
      }
      tree := tree.(cell := Cell(subs, qos, groupSubs));
    }

    /** sremove: unsubscribes at the last node, and deletes the nodes that this leaves empty. */
    method SRemove(group: seq<byte>, topic: seq<byte>, sub: Option<Sub>) returns (ok: bool)
      requires Valid()
      modifies repr
      ensures Valid() && repr <= old(repr)
      ensures (tree, ok) == Remove(old(tree), group, topic, sub)
      decreases |topic|
    {
      hide Kids, RemoveCell, NextLevel;
      if topic == [] {
        ok := RemoveHere(group, sub);
        return;
      }
      var p := NextTopicLevel(topic);
      if p.BadLevel? {
        return false;
      }
      SameKeys();
      if p.level !in snodes {
        return false;
      }
      var n := snodes[p.level];
      WithoutChild(snodes, repr - {this}, tree.nodes, p.level);
      ghost var rest := repr - {this} - n.repr;
      RestIsShorter(topic);
      ok := n.SRemove(group, p.rest, sub);
      Reattach(p.level, rest);
      if ok { DropIfEmpty(p.level); }
      Overwrite(old(tree).nodes, p.level, n.tree, n.tree);
    }

    lemma SameKeys()
      requires Valid()
      ensures tree.nodes.Keys == snodes.Keys
    {
    }

    /** Deletes the child at k if it has no subscribers, groups and children. */
    method DropIfEmpty(k: Level)
      requires Valid() && k in snodes && k in tree.nodes
      modifies this
      ensures Valid() && repr <= old(repr)
      ensures tree == if Barren(old(tree).nodes[k]) then old(tree).(nodes := old(tree).nodes - {k}) else old(tree)
    {
      hide Kids;
      var n := snodes[k];
      WithoutChild(snodes, repr - {this}, tree.nodes, k);
      n.EmptyMeansBarren();
      if n.groupSubs == map[] && n.subs == [] && n.snodes == map[] {
        ghost var rest := repr - {this} - n.repr;
        snodes := snodes - {k};
        tree := tree.(nodes := tree.nodes - {k});
        repr := {this} + rest;
        assert repr - {this} == rest;
      }
    }

    lemma EmptyMeansBarren()
      requires Valid()
      ensures groupSubs == map[] && subs == [] && snodes == map[] <==> Barren(tree)
    {
    }

    /** Unsubscribes at this node; without a subscriber, everybody. */
    method RemoveHere(group: seq<byte>, sub: Option<Sub>) returns (ok: bool)
      requires Valid()
      modifies this
      ensures Valid() && repr == old(repr)
      ensures ok == RemoveCell(old(tree).cell, group, sub).Some?
      ensures tree == if ok then old(tree).(cell := RemoveCell(old(tree).cell, group, sub).value) else old(tree)
    {
      hide Kids, IndexOf, Without;
      if sub.None? {
        subs, qos, groupSubs := [], [], map[];
        ok := true;
      } else if group == [] {
        ok := RemoveSub(sub.value);
      } else {
        ok := RemoveMember(group, sub.value);
      }
      tree := tree.(cell := Cell(subs, qos, groupSubs));
    }

    method RemoveSub(sub: Sub) returns (ok: bool)
      modifies this`subs, this`qos
      ensures RemoveCell(Cell(old(subs), old(qos), groupSubs), [], Some(sub))
           == if ok then Some(Cell(subs, qos, groupSubs)) else None
      ensures !ok ==> subs == old(subs) && qos == old(qos)
    {
      var i := Find(subs, sub);
      ok := i < |subs|;
      if ok {
        qos := if i < |qos| then Without(qos, i) else qos;
        subs := Without(subs, i);
      }
    }

    method RemoveMember(group: seq<byte>, sub: Sub) returns (ok: bool)
      requires group != []
      modifies this`groupSubs
      ensures RemoveCell(Cell(subs, qos, old(groupSubs)), group, Some(sub))
           == if ok then Some(Cell(subs, qos, groupSubs)) else None
      ensures !ok ==> groupSubs == old(groupSubs)
    {
      if group !in groupSubs {
        return false;
      }
      var members := groupSubs[group];
      var i := Find(members, sub);
      ok := i < |members|;
      if ok {
        var left := Without(members, i);
        groupSubs := if |left| > 0 then groupSubs[group := left] else groupSubs - {group};
      }
    }
  }

  /** The position of a subscriber, found by walking the list. */
  method Find(s: seq<Sub>, x: Sub) returns (i: nat)
    ensures i == IndexOf(s, x)
  {
    for j := 0 to |s|
      invariant x !in s[..j]
    {
      if s[j] == x {
        FirstIs(s, x, j);
        return j;
      }
    }
    assert s[..|s|] == s;
    return |s|;
  }

  lemma FirstIs(s: seq<Sub>, x: Sub, j: nat)
    requires j < |s| && s[j] == x && x !in s[..j]
    ensures IndexOf(s, x) == j
  {
    var i := IndexOf(s, x);
    assert forall k: nat | k < j :: s[..j][k] == s[k];
    assert forall k: nat | k < i :: s[..i][k] == s[k];
  }
}
