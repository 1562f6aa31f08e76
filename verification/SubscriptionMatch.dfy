/**
 Finding the subscribers of a published topic in the trie. The order in which a Go map is walked
 and the member picked from a group are left open, as they are in the source.
 */
module SubscriptionMatch {
  import opened Bytes
  import opened Prelude
  import opened SubscriptionNodes
  import opened SubscriptionTrie
  import opened TopicLevels

  /** A filter matches a published topic, level by level. "#" needs at least one level to match. */
  predicate Matches(filter: seq<Level>, topic: seq<Level>)
    decreases |topic|
  {
    if topic == [] then filter == []
    else
      && filter != []
      && if filter[0] == MWC then |filter| == 1
         else (filter[0] == SWC || filter[0] == topic[0]) && Matches(filter[1..], topic[1..])
  }

  // ------------------------------------------------------------------
  // What an answer consists of
  // ------------------------------------------------------------------

  datatype Kind = Direct | Member(group: seq<byte>)

  /** One element of an answer and the entry it comes from: the filter, and either a subscriber of
      its own or a group of which this subscriber is a member. */
  datatype Tag = Tag(path: seq<Level>, kind: Kind, sub: Sub)

  /** The two come from the same subscription. */
  predicate SameEntry(a: Tag, b: Tag) {
    a.path == b.path && a.kind == b.kind && (a.kind.Direct? ==> a.sub == b.sub)
  }

  predicate InCell(c: Cell, t: Tag) {
    match t.kind
    case Direct => t.sub in c.subs
    case Member(g) => g in c.groups && t.sub in c.groups[g]
  }

  /** The QoS for delivery: the smaller of published and granted; always 1 for groups. */
  function QosFor(c: Cell, q: nat, t: Tag): nat
    requires CellOk(c) && InCell(c, t)
  {
    match t.kind
    case Direct => Min(q, c.qos[IndexOf(c.subs, t.sub)])
    case Member(_) => 1
  }

  ghost predicate NoRepeats(tags: seq<Tag>) {
    forall i, j | 0 <= i < j < |tags| :: !SameEntry(tags[i], tags[j])
  }

  ghost predicate HasMember(tags: seq<Tag>, path: seq<Level>, g: seq<byte>) {
    exists t :: t in tags && t.path == path && t.kind == Member(g)
  }

  /** The tags are, once each, all subscribers of the cell and one member of each of its groups. */
  ghost predicate CoversCell(c: Cell, path: seq<Level>, tags: seq<Tag>) {
    && (forall s | s in c.subs :: Tag(path, Direct, s) in tags)
    && (forall g | g in c.groups :: HasMember(tags, path, g))
  }

  /** The tags are exactly the entries whose filter is one of the wanted paths below n. */
  ghost predicate Covers(n: Node, wanted: iset<seq<Level>>, tags: seq<Tag>) {
    && (forall t | t in tags :: t.path in wanted && InCell(CellAt(n, t.path), t))
    && NoRepeats(tags)
    && (forall path: seq<Level> | path in wanted :: CoversCell(CellAt(n, path), path, tags))
  }

  /** The subscriber and QoS lists that go with the tags. */
  ghost predicate Lists(n: Node, q: nat, tags: seq<Tag>, subs: seq<Sub>, qoss: seq<nat>)
    requires TrieOk(n)
  {
    && |subs| == |qoss| == |tags|
    && forall i: nat | i < |tags| ::
         && subs[i] == tags[i].sub
         && InCell(CellAt(n, tags[i].path), tags[i])
         && qoss[i] == QosFor(CellAt(n, tags[i].path), q, tags[i])
  }

  // ------------------------------------------------------------------
  // One cell
  // ------------------------------------------------------------------

  ghost function DirectTags(c: Cell, i: nat): (tags: seq<Tag>)
    requires i <= |c.subs|
    ensures |tags| == i
  {
    seq(i, k requires 0 <= k < i => Tag([], Direct, c.subs[k]))
  }

  /** The subscribers without group, each with the smaller QoS. */
  method MatchDirect(n: SNode, q: nat) returns (subs: seq<Sub>, qoss: seq<nat>, ghost tags: seq<Tag>)
    requires n.Valid() && TrieOk(n.tree)
    ensures |subs| == |qoss| && CoversGroups(n.tree, {}, tags) && Lists(n.tree, q, tags, subs, qoss)
  {
    hide CoversGroups, Lists, Kids;
    assert CellOk(CellAt(n.tree, []));
    subs, qoss := [], [];
    for i := 0 to |n.subs|
      invariant |subs| == |qoss| == i
      invariant forall k: nat | k < i :: subs[k] == n.subs[k] && qoss[k] == Min(q, n.qos[k])
    {
      subs := subs + [n.subs[i]];
      qoss := qoss + [if q <= n.qos[i] then q else n.qos[i]];
    }
    tags := DirectTags(n.tree.cell, |n.subs|);
    DirectTagsCover(n.tree, q, subs, qoss);
  }

  /** The subscribers of one node, and one member of each group. */
  method MatchQos(n: SNode, q: nat) returns (subs: seq<Sub>, qoss: seq<nat>, ghost tags: seq<Tag>)
    requires n.Valid() && TrieOk(n.tree)
    ensures |subs| == |qoss| && Covers(n.tree, iset{[]}, tags) && Lists(n.tree, q, tags, subs, qoss)
  {
    hide CoversGroups, Lists, Covers, TrieOk, Kids;
    subs, qoss, tags := MatchDirect(n, q);
    var rest := n.groupSubs.Keys;
    ghost var seen: set<seq<byte>> := {};
    while rest != {}
      invariant rest + seen == n.groupSubs.Keys && rest !! seen
      invariant |subs| == |qoss| && CoversGroups(n.tree, seen, tags) && Lists(n.tree, q, tags, subs, qoss)
      decreases |rest|
    {
      var k :| k in rest;
      var gsubs := n.groupSubs[k];
      GroupNotEmpty(n.tree, k);
      var idx: nat :| idx < |gsubs|;
      GroupTagAdds(n.tree, q, seen, tags, k, gsubs[idx], subs, qoss);
      subs := subs + [gsubs[idx]];
      qoss := qoss + [1];
      tags := tags + [Tag([], Member(k), gsubs[idx])];
      seen := seen + {k};
      rest := rest - {k};
    }
    assert seen == n.groupSubs.Keys;
    GroupsCovered(n.tree, tags);
  }

  lemma GroupNotEmpty(n: Node, k: seq<byte>)
    requires TrieOk(n) && k in n.cell.groups
    ensures |n.cell.groups[k]| > 0
  {
    assert CellOk(CellAt(n, []));
  }

  /** All subscribers and the groups seen so far are in. */
  ghost predicate CoversGroups(n: Node, seen: set<seq<byte>>, tags: seq<Tag>) {
    && (forall t | t in tags :: t.path == [] && InCell(n.cell, t) && (t.kind.Member? ==> t.kind.group in seen))
    && NoRepeats(tags)
    && (forall s | s in n.cell.subs :: Tag([], Direct, s) in tags)
    && (forall g | g in seen :: HasMember(tags, [], g))
  }

  lemma GroupsCovered(n: Node, tags: seq<Tag>)
    requires CoversGroups(n, n.cell.groups.Keys, tags)
    ensures Covers(n, iset{[]}, tags)
  {
    hide NoRepeats, InCell, HasMember;
  }

  lemma DirectTagsCover(n: Node, q: nat, subs: seq<Sub>, qoss: seq<nat>)
    requires TrieOk(n) && |subs| == |qoss| == |n.cell.subs| == |n.cell.qos|
    requires forall k: nat | k < |subs| :: subs[k] == n.cell.subs[k] && qoss[k] == Min(q, n.cell.qos[k])
    ensures CoversGroups(n, {}, DirectTags(n.cell, |n.cell.subs|))
    ensures Lists(n, q, DirectTags(n.cell, |n.cell.subs|), subs, qoss)
  {
    var c := n.cell;
    assert CellOk(CellAt(n, []));
    var tags := DirectTags(c, |c.subs|);
    forall s | s in c.subs
      ensures Tag([], Direct, s) in tags
    {
      var i :| 0 <= i < |c.subs| && c.subs[i] == s;
      assert tags[i] == Tag([], Direct, s);
    }
    forall k: nat | k < |tags|
      ensures IndexOf(c.subs, c.subs[k]) == k
    {
      DistinctIndex(c.subs, k);
    }
  }

  lemma DistinctIndex(s: seq<Sub>, k: nat)
    requires Distinct(s) && k < |s|
    ensures IndexOf(s, s[k]) == k
  {
    var i := IndexOf(s, s[k]);
    assert forall j: nat | j < i :: s[..i][j] == s[j] != s[k];
  }

  lemma GroupTagAdds(n: Node, q: nat, seen: set<seq<byte>>, tags: seq<Tag>, k: seq<byte>, m: Sub, subs: seq<Sub>,
                     qoss: seq<nat>)
    requires TrieOk(n) && CoversGroups(n, seen, tags) && k !in seen && k in n.cell.groups && m in n.cell.groups[k]
    requires Lists(n, q, tags, subs, qoss)
    ensures CoversGroups(n, seen + {k}, tags + [Tag([], Member(k), m)])
    ensures Lists(n, q, tags + [Tag([], Member(k), m)], subs + [m], qoss + [1])
  {
    var t := Tag([], Member(k), m);
    var tags' := tags + [t];
    assert CellOk(CellAt(n, []));
    assert forall x | x in tags :: !SameEntry(x, t);
    forall g | g in seen + {k}
      ensures HasMember(tags', [], g)
    {
      if g == k {
        assert t in tags';
      } else {
        var x :| x in tags && x.path == [] && x.kind == Member(g);
        assert x in tags';
      }
    }
  }

  // ------------------------------------------------------------------
  // The trie
  // ------------------------------------------------------------------

  /** The filters that match a topic. */
  ghost function Wanted(topic: seq<Level>): iset<seq<Level>> {
    iset p: seq<Level> | Matches(p, topic)
  }

  /** What a matching filter that starts with k may go on with. */
  ghost function WantedBelow(k: Level, topic: seq<Level>): iset<seq<Level>> {
    iset p: seq<Level> | Matches([k] + p, topic)
  }

  /** The matching filters that start with one of the given levels. */
  ghost function WantedIn(done: set<Level>, topic: seq<Level>): iset<seq<Level>> {
    iset p: seq<Level> | p != [] && p[0] in done && Matches(p, topic)
  }

  ghost function Under(k: Level, tags: seq<Tag>): (r: seq<Tag>)
    ensures |r| == |tags|
  {
    seq(|tags|, i requires 0 <= i < |tags| => tags[i].(path := [k] + tags[i].path))
  }

  lemma WantedBelowHash(topic: seq<Level>)
    requires topic != []
    ensures WantedBelow(MWC, topic) == iset{[]}
  {
    assert Matches([MWC] + [], topic);
  }

  lemma WantedBelowMatch(k: Level, topic: seq<Level>)
    requires topic != [] && k != MWC && (k == SWC || k == topic[0])
    ensures WantedBelow(k, topic) == Wanted(topic[1..])
  {
    forall p: seq<Level>
      ensures Matches([k] + p, topic) == Matches(p, topic[1..])
    {
      assert ([k] + p)[1..] == p;
    }
  }

  lemma NothingBelow(n: Node, k: Level, topic: seq<Level>)
    requires topic != [] && k != MWC && k != SWC && k != topic[0]
    ensures Covers(n, WantedBelow(k, topic), [])
  {
  }

  lemma CellBelow(n: Node, k: Level, p: seq<Level>)
    requires k in n.nodes
    ensures CellAt(n, [k] + p) == CellAt(n.nodes[k], p)
  {
    assert ([k] + p)[1..] == p;
  }

  lemma UnderMembers(k: Level, tags: seq<Tag>, t: Tag)
    ensures t in Under(k, tags) <==> t.path != [] && t.path[0] == k && t.(path := t.path[1..]) in tags
  {
    var r := Under(k, tags);
    if t in r {
      var i :| 0 <= i < |r| && r[i] == t;
      assert t.path[1..] == tags[i].path;
      assert tags[i] in tags;
    }
    if t.path != [] && t.path[0] == k && t.(path := t.path[1..]) in tags {
      var i :| 0 <= i < |tags| && tags[i] == t.(path := t.path[1..]);
      assert [k] + t.path[1..] == t.path;
      assert r[i] == t;
    }
  }

  lemma UnderNoRepeats(k: Level, tags: seq<Tag>)
    requires NoRepeats(tags)
    ensures NoRepeats(Under(k, tags))
  {
    var r := Under(k, tags);
    forall i, j | 0 <= i < j < |r|
      ensures !SameEntry(r[i], r[j])
    {
      assert !SameEntry(tags[i], tags[j]);
      assert r[i].path[1..] == tags[i].path && r[j].path[1..] == tags[j].path;
    }
  }

  lemma ConcatNoRepeats(a: seq<Tag>, b: seq<Tag>)
    requires NoRepeats(a) && NoRepeats(b)
    requires forall x, y | x in a && y in b :: x.path != y.path
    ensures NoRepeats(a + b)
  {
  }

  lemma CoversCellMore(c: Cell, path: seq<Level>, a: seq<Tag>, b: seq<Tag>)
    requires CoversCell(c, path, a) || CoversCell(c, path, b)
    ensures CoversCell(c, path, a + b)
  {
    forall g | g in c.groups
      ensures HasMember(a + b, path, g)
    {
      if CoversCell(c, path, a) {
        var t :| t in a && t.path == path && t.kind == Member(g);
        assert t in a + b;
      } else {
        var t :| t in b && t.path == path && t.kind == Member(g);
        assert t in a + b;
      }
    }
  }

  lemma UnderCoversCell(c: Cell, k: Level, p: seq<Level>, tags: seq<Tag>)
    requires CoversCell(c, p, tags)
    ensures CoversCell(c, [k] + p, Under(k, tags))
  {
    hide Under;
    assert ([k] + p)[1..] == p;
    forall s | s in c.subs
      ensures Tag([k] + p, Direct, s) in Under(k, tags)
    {
      UnderMembers(k, tags, Tag([k] + p, Direct, s));
    }
    forall g | g in c.groups
      ensures HasMember(Under(k, tags), [k] + p, g)
    {
      assert HasMember(tags, p, g);
      var t :| t in tags && t.path == p && t.kind == Member(g);
      UnderMembers(k, tags, t.(path := [k] + p));
      assert t.(path := [k] + p) in Under(k, tags);
    }
  }

  /** Adding what was found below one more child. */
  lemma AddChild(n: Node, topic: seq<Level>, done: set<Level>, tags: seq<Tag>, k: Level, below: seq<Tag>)
    requires Covers(n, WantedIn(done, topic), tags) && k in n.nodes && k !in done
    requires Covers(n.nodes[k], WantedBelow(k, topic), below)
    ensures Covers(n, WantedIn(done + {k}, topic), tags + Under(k, below))
  {
    hide Under, InCell, CoversCell, NoRepeats, Matches;
    var tags' := tags + Under(k, below);
    forall t | t in tags'
      ensures t.path in WantedIn(done + {k}, topic) && InCell(CellAt(n, t.path), t)
    {
      if t !in tags { AddedTag(n, topic, k, below, t); }
    }
    forall x, y | x in tags && y in Under(k, below)
      ensures x.path != y.path
    {
      UnderMembers(k, below, y);
    }
    UnderNoRepeats(k, below);
    ConcatNoRepeats(tags, Under(k, below));
    forall path: seq<Level> | path in WantedIn(done + {k}, topic)
      ensures CoversCell(CellAt(n, path), path, tags')
    {
      if path[0] == k {
        var p := path[1..];
        assert path == [k] + p;
        CellBelow(n, k, p);
        assert p in WantedBelow(k, topic);
        UnderCoversCell(CellAt(n, path), k, p, below);
      }
      CoversCellMore(CellAt(n, path), path, tags, Under(k, below));
    }
  }

  lemma AddedTag(n: Node, topic: seq<Level>, k: Level, below: seq<Tag>, t: Tag)
    requires k in n.nodes && Covers(n.nodes[k], WantedBelow(k, topic), below) && t in Under(k, below)
    ensures t.path != [] && t.path[0] == k && Matches(t.path, topic) && InCell(CellAt(n, t.path), t)
  {
    hide Under, CoversCell, NoRepeats, Matches;
    UnderMembers(k, below, t);
    var p := t.path[1..];
    assert t.path == [k] + p;
    CellBelow(n, k, p);
    assert t.(path := p) in below;
  }

  lemma AddChildLists(n: Node, q: nat, tags: seq<Tag>, subs: seq<Sub>, qoss: seq<nat>, k: Level,
                      below: seq<Tag>, subs1: seq<Sub>, qoss1: seq<nat>)
    requires TrieOk(n) && Lists(n, q, tags, subs, qoss) && k in n.nodes
    requires TrieOk(n.nodes[k]) && Lists(n.nodes[k], q, below, subs1, qoss1)
    ensures Lists(n, q, tags + Under(k, below), subs + subs1, qoss + qoss1)
  {
    hide InCell, CellOk, CellAt, IndexOf;
    var r := Under(k, below);
    forall i: nat | i < |r|
      ensures subs1[i] == r[i].sub && InCell(CellAt(n, r[i].path), r[i])
      ensures qoss1[i] == QosFor(CellAt(n, r[i].path), q, r[i])
    {
      CellBelow(n, k, below[i].path);
      SameCellTag(CellAt(n, r[i].path), q, below[i], r[i]);
    }
  }

  lemma SameCellTag(c: Cell, q: nat, a: Tag, b: Tag)
    requires CellOk(c) && InCell(c, a) && b.kind == a.kind && b.sub == a.sub
    ensures InCell(c, b) && QosFor(c, q, b) == QosFor(c, q, a)
  {
  }

  lemma AllChildren(n: Node, topic: seq<Level>, tags: seq<Tag>)
    requires topic != [] && Covers(n, WantedIn(n.nodes.Keys, topic), tags)
    ensures Covers(n, Wanted(topic), tags)
  {
    hide InCell, NoRepeats, HasMember;
    forall path: seq<Level> | path in Wanted(topic)
      ensures CoversCell(CellAt(n, path), path, tags)
    {
      assert path != [];
      if path[0] in n.nodes { assert path in WantedIn(n.nodes.Keys, topic); }
    }
  }

  lemma NothingYet(n: Node, q: nat, topic: seq<Level>)
    requires TrieOk(n)
    ensures Covers(n, WantedIn({}, topic), []) && Lists(n, q, [], [], [])
  {
  }

  lemma WantedAtEnd()
    ensures Wanted([]) == iset{[]}
  {
  }

  /** One child of a node on the way down: taken whole for "#", followed for "+" and for the level
      itself, skipped otherwise. */
  method MatchChild(n: SNode, k: Level, level: Level, rest: seq<byte>, q: nat)
      returns (ok: bool, subs: seq<Sub>, qoss: seq<nat>, ghost below: seq<Tag>)
    requires n.Valid() && TrieOk(n.tree)
    ensures Lists(n.tree, q, below, subs, qoss)
    ensures Split(rest).Levels? ==> ok && Covers(n.tree, WantedBelow(k, [level] + Split(rest).levels), below)
    decreases |rest|, 1
  {
    hide Covers, Lists, TrieOk, WantedBelow, Wanted, WantedIn, Split, Kids;
    ghost var levels := if Split(rest).Levels? then Split(rest).levels else [];
    ghost var topic := [level] + levels;
    assert topic[1..] == levels && topic[0] == level;
    NothingYet(n.tree, q, topic);
    if k == MWC {
      subs, qoss, below := MatchQos(n, q);
      WantedBelowHash(topic);
      ok := true;
    } else if k == SWC || k == level {
      ok, subs, qoss, below := SMatch(n, rest, q);
      WantedBelowMatch(k, topic);
    } else {
      ok, subs, qoss, below := true, [], [], [];
      NothingBelow(n.tree, k, topic);
    }
  }

  /** smatch: on a topic whose levels all parse, the answer holds every subscription with a matching
      filter exactly once, and of each matching group exactly one member. */
  method SMatch(n: SNode, topic: seq<byte>, q: nat)
      returns (ok: bool, subs: seq<Sub>, qoss: seq<nat>, ghost tags: seq<Tag>)
    requires n.Valid() && TrieOk(n.tree)
    ensures |subs| == |qoss| && Lists(n.tree, q, tags, subs, qoss)
    ensures Split(topic).Levels? ==> ok && Covers(n.tree, Wanted(Split(topic).levels), tags)
    decreases |topic|, 0
  {
    hide Kids;
    if topic == [] {
      subs, qoss, tags := MatchQos(n, q);
      WantedAtEnd();
      return true, subs, qoss, tags;
    }
    var p := NextTopicLevel(topic);
    if p.BadLevel? {
      NothingYet(n.tree, q, []);
      return false, [], [], [];
    }
    SplitStep(topic);
    ok, subs, qoss, tags := MatchChildren(n, p.level, p.rest, q);
    ghost var levels := if Split(p.rest).Levels? then [p.level] + Split(p.rest).levels else [p.level];
    if ok && Split(topic).Levels? { AllChildren(n.tree, levels, tags); }
  }

  method MatchChildren(n: SNode, level: Level, rest: seq<byte>, q: nat)
      returns (ok: bool, subs: seq<Sub>, qoss: seq<nat>, ghost tags: seq<Tag>)
    requires n.Valid() && TrieOk(n.tree)
    ensures Lists(n.tree, q, tags, subs, qoss)
    ensures Split(rest).Levels? ==>
              ok && Covers(n.tree, WantedIn(n.tree.nodes.Keys, [level] + Split(rest).levels), tags)
    decreases |rest|, 2
  {
    hide Covers, Lists, TrieOk, WantedBelow, WantedIn, Split, Under, Kids;
    ghost var parses := Split(rest).Levels?;
    ghost var topic := [level] + if parses then Split(rest).levels else [];
    subs, qoss, tags := [], [], [];
    NothingYet(n.tree, q, topic);
    n.SameKeys();
    var left := n.snodes.Keys;
    ghost var done: set<Level> := {};
    while left != {}
      invariant left + done == n.snodes.Keys && left !! done
      invariant Lists(n.tree, q, tags, subs, qoss)
      invariant parses ==> Covers(n.tree, WantedIn(done, topic), tags)
      decreases |left|
    {
      var k :| k in left;
      ChildOk(n.tree, k);
      WithoutChild(n.snodes, n.repr - {n}, n.tree.nodes, k);
      var ok1, subs1, qoss1;
      ghost var below;
      ok1, subs1, qoss1, below := MatchChild(n.snodes[k], k, level, rest, q);
      AddChildLists(n.tree, q, tags, subs, qoss, k, below, subs1, qoss1);
      if parses { AddChild(n.tree, topic, done, tags, k, below); }
      subs, qoss, tags := subs + subs1, qoss + qoss1, tags + Under(k, below);
      if !ok1 {
        return false, subs, qoss, tags;
      }
      done := done + {k};
      left := left - {k};
    }
    assert done == n.tree.nodes.Keys;
    ok := true;
  }
}
