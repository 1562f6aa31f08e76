/**
 Which nodes the subscription trie has, over every run of calls. Beside the entries of the table
 there are stubs: the levels in front of the bad one for each filter that was refused.
 */
module SubscriptionShape {
  import opened Bytes
  import opened Prelude
  import opened SubscriptionTable
  import opened SubscriptionTrie
  import opened TopicLevels

  // ------------------------------------------------------------------
  // Nodes under insertion and removal
  // ------------------------------------------------------------------

  lemma NodeBelow(n: Node, l: Level, p: seq<Level>)
    ensures l in n.nodes ==> HasNode(n, [l] + p) == HasNode(n.nodes[l], p)
  {
    assert ([l] + p)[1..] == p;
  }

  /** Subscribing makes a node for each level up to the first bad one, and no other. */
  lemma {:induction false} InsertNodes(n: Node, group: seq<byte>, topic: seq<byte>, qos: nat, sub: Sub,
                                       path: seq<Level>)
    ensures HasNode(Insert(n, group, topic, qos, sub).0, path) <==> HasNode(n, path) || path <= GoodLevels(topic)
    decreases |topic|
  {
    hide NextLevel, InsertCell;
    if topic != [] && NextLevel(topic).Parsed? {
      var Parsed(l, rest) := NextLevel(topic);
      SplitStep(topic);
      if path != [] && path[0] == l {
        InsertNodes(ChildOrNew(n, l), group, rest, qos, sub, path[1..]);
        PrefixTail(l, path[1..], GoodLevels(topic));
        assert path == [l] + path[1..];
      }
    }
  }

  predicate Bare(c: Cell) {
    c.groups == map[] && c.subs == []
  }

  /** With cell `last` at the end of `rest`, n has nothing but the bare chain along it. */
  predicate Vacant(n: Node, rest: seq<Level>, last: Cell)
    decreases |rest|
  {
    if rest == [] then Bare(last) && n.nodes == map[]
    else Bare(n.cell) && n.nodes.Keys == {rest[0]} && Vacant(n.nodes[rest[0]], rest[1..], last)
  }

  /** The node at `path` goes when cell `last` is left at the removed filter. */
  predicate Dropped(n: Node, removed: seq<Level>, last: Cell, path: seq<Level>)
    decreases |path|
  {
    path != [] && path <= removed && path[0] in n.nodes &&
    (if |path| == 1 then Vacant(n.nodes[path[0]], removed[1..], last)
     else Dropped(n.nodes[path[0]], removed[1..], last, path[1..]))
  }

  /** What a successful removal leaves at the filter's own node. */
  function LastCell(n: Node, group: seq<byte>, removed: seq<Level>, sub: Option<Sub>): Cell {
    match RemoveCell(CellAt(n, removed), group, sub)
    case None => EMPTY_CELL
    case Some(c) => c
  }

  lemma {:induction false} VacantIsBarren(n: Node, group: seq<byte>, topic: seq<byte>, sub: Option<Sub>)
    requires Remove(n, group, topic, sub).1
    ensures Split(topic).Levels? && HasNode(n, Split(topic).levels)
    ensures var removed := Split(topic).levels;
            Barren(Remove(n, group, topic, sub).0) <==> Vacant(n, removed, LastCell(n, group, removed, sub))
    decreases |topic|
  {
    hide NextLevel, RemoveCell;
    if topic != [] {
      var Parsed(l, rest) := NextLevel(topic);
      SplitStep(topic);
      VacantIsBarren(n.nodes[l], group, rest, sub);
      var c := Remove(n.nodes[l], group, rest, sub).0;
      var n' := Remove(n, group, topic, sub).0;
      if Barren(c) {
        SingleKey(n.nodes, l);
      } else {
        assert l in n'.nodes;
      }
    }
  }

  /** A removal that succeeds drops exactly these nodes. */
  lemma {:induction false} RemoveNodes(n: Node, group: seq<byte>, topic: seq<byte>, sub: Option<Sub>, path: seq<Level>)
    requires Remove(n, group, topic, sub).1
    ensures Split(topic).Levels?
    ensures var removed := Split(topic).levels;
            HasNode(Remove(n, group, topic, sub).0, path)
            <==> HasNode(n, path) && !Dropped(n, removed, LastCell(n, group, removed, sub), path)
    decreases |topic|
  {
    hide NextLevel, RemoveCell, Vacant;
    if topic != [] {
      var Parsed(l, rest) := NextLevel(topic);
      SplitStep(topic);
      var q := if path != [] && path[0] == l then path[1..] else [];
      RemoveNodes(n.nodes[l], group, rest, sub, q);
      VacantIsBarren(n.nodes[l], group, rest, sub);
      if path != [] && path[0] == l {
        assert path == [l] + path[1..];
        PrefixTail(l, path[1..], Split(topic).levels);
      }
    }
  }

  /** No node at or below `path` leads off the way along `rest`, and none but the last has an entry. */
  ghost predicate Idle(n: Node, path: seq<Level>, rest: seq<Level>, last: Cell) {
    forall q: seq<Level> | HasNode(n, q) && path <= q ::
      q <= rest && Bare(if q == rest then last else CellAt(n, q))
  }

  lemma IdleStep(n: Node, l: Level, path: seq<Level>, rest: seq<Level>, last: Cell)
    requires rest != [] && rest[0] == l && l in n.nodes
    ensures Idle(n, [l] + path, rest, last) <==> Idle(n.nodes[l], path, rest[1..], last)
  {
    hide Bare;
    if Idle(n, [l] + path, rest, last) {
      forall q: seq<Level> | HasNode(n.nodes[l], q) && path <= q
        ensures q <= rest[1..] && Bare(if q == rest[1..] then last else CellAt(n.nodes[l], q))
      {
        NodeBelow(n, l, q);
        ChildCells(n, l, q);
        PrefixTail(l, path, [l] + q);
        assert ([l] + q)[1..] == q;
        PrefixTail(l, q, rest);
        assert rest == [l] + rest[1..];
      }
    }
    if Idle(n.nodes[l], path, rest[1..], last) {
      forall q: seq<Level> | HasNode(n, q) && [l] + path <= q
        ensures q <= rest && Bare(if q == rest then last else CellAt(n, q))
      {
        assert q[0] == ([l] + path)[0];
        assert q == [l] + q[1..] && rest == [l] + rest[1..];
        assert HasNode(n.nodes[l], q[1..]);
        PrefixTail(l, path, q);
        PrefixTail(l, q[1..], rest);
      }
    }
  }

  lemma LeafIsIdle(n: Node, last: Cell)
    ensures Bare(last) && n.nodes == map[] <==> Idle(n, [], [], last)
  {
    hide Bare;
    assert HasNode(n, []);
    if n.nodes != map[] {
      var l :| l in n.nodes;
      assert HasNode(n, [l]);
    }
  }

  lemma OnlyChildIsIdle(n: Node, rest: seq<Level>, last: Cell)
    requires rest != [] && rest[0] in n.nodes
    ensures Idle(n, [], rest, last) <==> Bare(n.cell) && n.nodes.Keys == {rest[0]} && Idle(n, [rest[0]], rest, last)
  {
    hide Bare;
    assert HasNode(n, []) && CellAt(n, []) == n.cell;
    if Idle(n, [], rest, last) {
      forall k | k in n.nodes
        ensures k == rest[0]
      {
        assert HasNode(n, [k]);
      }
    }
    if Bare(n.cell) && n.nodes.Keys == {rest[0]} && Idle(n, [rest[0]], rest, last) {
      forall q: seq<Level> | HasNode(n, q)
        ensures q <= rest && Bare(if q == rest then last else CellAt(n, q))
      {
        if q != [] {
          assert q[0] in n.nodes.Keys;
          assert [rest[0]] <= q;
        }
      }
    }
  }

  lemma {:induction false} VacantIsIdle(n: Node, rest: seq<Level>, last: Cell)
    requires HasNode(n, rest)
    ensures Vacant(n, rest, last) <==> Idle(n, [], rest, last)
    decreases |rest|
  {
    hide Idle, Bare;
    if rest == [] {
      LeafIsIdle(n, last);
    } else {
      VacantIsIdle(n.nodes[rest[0]], rest[1..], last);
      OnlyChildIsIdle(n, rest, last);
      IdleStep(n, rest[0], [], rest, last);
      assert [rest[0]] + [] == [rest[0]];
    }
  }

  lemma {:induction false} DroppedExactly(n: Node, removed: seq<Level>, last: Cell, path: seq<Level>)
    requires HasNode(n, removed)
    ensures Dropped(n, removed, last, path) <==> path != [] && path <= removed && Idle(n, path, removed, last)
    decreases |path|
  {
    hide Idle, Bare, Vacant;
    if path != [] && path <= removed {
      var l := path[0];
      PrefixTail(l, path[1..], removed);
      assert path == [l] + path[1..];
      IdleStep(n, l, path[1..], removed, last);
      if |path| == 1 {
        assert path[1..] == [];
        VacantIsIdle(n.nodes[l], removed[1..], last);
      } else {
        DroppedExactly(n.nodes[l], removed[1..], last, path[1..]);
      }
    }
  }

  // ------------------------------------------------------------------
  // The table and its stubs
  // ------------------------------------------------------------------

  /** The filters that have an entry in the table. */
  function Entries(t: Table): set<seq<Level>> {
    (set r | r in t.rows :: r.path) + (set k | k in t.groups :: k.0)
  }

  /** There is a node for the path. */
  ghost predicate Reached(t: Table, stubs: set<seq<Level>>, p: seq<Level>) {
    p == [] || exists q :: q in Entries(t) + stubs && p <= q
  }

  /** With t left after a removal, a path goes when it is a part of the removed filter, no entry
      continues it, and no stub continues it on a different way. */
  ghost predicate Lost(t: Table, stubs: set<seq<Level>>, removed: seq<Level>, p: seq<Level>) {
    && p != [] && p <= removed
    && (forall e | e in Entries(t) :: !(p <= e))
    && (forall s | s in stubs && p <= s :: s <= removed)
  }

  /** Unsubscribing succeeds: the subscriber is listed, or, for all subscribers, there is a node. */
  ghost predicate Succeeds(t: Table, stubs: set<seq<Level>>, c: Call)
    requires c.Unsubscribe?
  {
    var (group, topic) := GroupName(c.topic);
    && Split(topic).Levels?
    && var path := Split(topic).levels;
    if c.who.Some? then Subscribed(t, group, path, c.who.value) else Reached(t, stubs, path)
  }

  ghost function StubsStep(t: Table, stubs: set<seq<Level>>, c: Call): set<seq<Level>> {
    var topic := GroupName(c.topic).1;
    match c
    case Subscribe(_, qos, who) =>
      if qos > 2 || who.None? || Split(topic).Levels? then stubs else stubs + {GoodLevels(topic)}
    case Unsubscribe(_, _) =>
      if Succeeds(t, stubs, c) then set s | s in stubs && !Lost(TableStep(t, c), stubs, Split(topic).levels, s)
      else stubs
  }

  ghost function StubsRun(calls: seq<Call>): set<seq<Level>> {
    if calls == [] then {}
    else
      var before := calls[..|calls| - 1];
      StubsStep(TableRun(before), StubsRun(before), calls[|calls| - 1])
  }

  /** The trie has exactly the nodes that the table and its stubs reach. */
  ghost predicate Shaped(n: Node, t: Table, stubs: set<seq<Level>>) {
    forall path: seq<Level> :: HasNode(n, path) <==> Reached(t, stubs, path)
  }

  // ------------------------------------------------------------------
  // Entries are cells that are not bare
  // ------------------------------------------------------------------

  lemma {:induction false} NoRowsAt(rows: seq<Row>, p: seq<Level>)
    ensures RowsAt(rows, p) == [] <==> forall r | r in rows :: r.path != p
    decreases |rows|
  {
    if rows != [] {
      NoRowsAt(rows[1..], p);
      assert rows == [rows[0]] + rows[1..];
    }
  }

  lemma NoZip(subs: seq<Sub>, qs: seq<nat>)
    requires |subs| == |qs|
    ensures Zip(subs, qs) == [] <==> subs == []
  {
  }

  lemma EntryIsCell(n: Node, t: Table, p: seq<Level>)
    requires Agrees(n, t)
    ensures p in Entries(t) <==> !Bare(CellAt(n, p))
  {
    hide RowsAt, Zip, CellAt, CellOk;
    var c := CellAt(n, p);
    assert AgreeAt(t, c, p);
    AlignedCell(c);
    NoRowsAt(t.rows, p);
    NoZip(c.subs, c.qos);
    if c.groups != map[] {
      var g :| g in c.groups;
      assert (p, g) in t.groups;
      assert p == (p, g).0;
    }
    if k :| k in t.groups && k.0 == p {
      assert (p, k.1) == k;
      assert k.1 in c.groups;
    }
  }

  lemma EntryHasNode(n: Node, t: Table, p: seq<Level>)
    requires Agrees(n, t) && p in Entries(t)
    ensures HasNode(n, p)
  {
    hide Agrees, Entries, CellAt, HasNode;
    EntryIsCell(n, t, p);
    if !HasNode(n, p) { NoNodeNoCell(n, p); }
  }

  lemma {:induction false} NodePrefix(n: Node, p: seq<Level>, q: seq<Level>)
    requires HasNode(n, q) && p <= q
    ensures HasNode(n, p)
    decreases |p|
  {
    if p != [] { NodePrefix(n.nodes[q[0]], p[1..], q[1..]); }
  }

  // ------------------------------------------------------------------
  // Subscribing
  // ------------------------------------------------------------------

  lemma SubscribeShaped(n: Node, t: Table, stubs: set<seq<Level>>, c: Call)
    requires Agrees(n, t) && TrieOk(n) && Shaped(n, t, stubs) && c.Subscribe? && c.qos <= 2 && c.who.Some?
    ensures Shaped(TrieStep(n, c), TableStep(t, c), StubsStep(t, stubs, c))
  {
    hide Insert, Agrees, TrieOk, HasNode, Split, GoodLevels, Reached, TableStep, CellAt, Entries;
    var (group, topic) := GroupName(c.topic);
    var n', t', stubs' := TrieStep(n, c), TableStep(t, c), StubsStep(t, stubs, c);
    StepAgrees(n, t, c);
    forall e: seq<Level>
      ensures e in Entries(t') + stubs' <==> e in Entries(t) + stubs || e == GoodLevels(topic)
    {
      SubscribeEntries(n, t, c, e);
    }
    forall path: seq<Level>
      ensures HasNode(n', path) <==> Reached(t', stubs', path)
    {
      InsertNodes(n, group, topic, c.qos, c.who.value, path);
      ReachesMore(t, stubs, t', stubs', GoodLevels(topic), path);
    }
  }

  lemma SubscribeEntries(n: Node, t: Table, c: Call, e: seq<Level>)
    requires Agrees(n, t) && TrieOk(n) && c.Subscribe? && c.qos <= 2 && c.who.Some?
    ensures var topic := GroupName(c.topic).1;
            e in Entries(TableStep(t, c)) <==> e in Entries(t) || (Split(topic).Levels? && e == Split(topic).levels)
  {
    hide Insert, Agrees, TrieOk, TableStep, CellAt, Entries, InsertCell;
    var (group, topic) := GroupName(c.topic);
    StepAgrees(n, t, c);
    EntryIsCell(n, t, e);
    EntryIsCell(TrieStep(n, c), TableStep(t, c), e);
    InsertEdits(n, group, topic, c.qos, c.who.value, e);
    InsertCellNotEmpty(CellAt(n, e), group, c.qos, c.who.value);
  }

  lemma ReachesMore(t: Table, stubs: set<seq<Level>>, t': Table, stubs': set<seq<Level>>, end: seq<Level>,
                    path: seq<Level>)
    requires forall e: seq<Level> :: e in Entries(t') + stubs' <==> e in Entries(t) + stubs || e == end
    ensures Reached(t', stubs', path) <==> Reached(t, stubs, path) || path <= end
  {
    hide Entries;
    var ends, ends' := Entries(t) + stubs, Entries(t') + stubs';
    assert end in ends';
    if Reached(t', stubs', path) && path != [] {
      var q :| q in ends' && path <= q;
      assert q in ends || q == end;
    }
    if Reached(t, stubs, path) && path != [] {
      var q :| q in ends && path <= q;
      assert q in ends';
    }
  }

  // ------------------------------------------------------------------
  // Unsubscribing
  // ------------------------------------------------------------------

  /** Unsubscribing succeeds on the trie when the table and its stubs say so. */
  lemma SucceedsExactly(n: Node, t: Table, stubs: set<seq<Level>>, c: Call)
    requires Agrees(n, t) && Shaped(n, t, stubs) && c.Unsubscribe?
    ensures Succeeds(t, stubs, c) <==> Removable(n, GroupName(c.topic).0, GroupName(c.topic).1, c.who)
  {
    hide Agrees, HasNode, Split, Reached, CellAt, Subscribed;
    var (group, topic) := GroupName(c.topic);
    if Split(topic).Levels? {
      if c.who.Some? {
        RemovableExactly(n, t, group, topic, c.who.value);
      } else {
        assert HasNode(n, Split(topic).levels) <==> Reached(t, stubs, Split(topic).levels);
      }
    }
  }

  /** Only the removed filter can lose its entry. */
  lemma UnsubscribeEntries(n: Node, t: Table, c: Call, e: seq<Level>)
    requires Agrees(n, t) && TrieOk(n) && c.Unsubscribe?
    requires Removable(n, GroupName(c.topic).0, GroupName(c.topic).1, c.who)
    ensures var (group, topic) := GroupName(c.topic);
            var removed := Split(topic).levels;
            && (e in Entries(TableStep(t, c))
                <==> !Bare(if e == removed then LastCell(n, group, removed, c.who) else CellAt(n, e)))
            && (e != removed ==> (e in Entries(TableStep(t, c)) <==> e in Entries(t)))
  {
    hide Remove, Agrees, TrieOk, TableStep, CellAt, Entries, RemoveCell, Bare;
    var (group, topic) := GroupName(c.topic);
    StepAgrees(n, t, c);
    EntryIsCell(n, t, e);
    EntryIsCell(TrieStep(n, c), TableStep(t, c), e);
    RemoveEdits(n, group, topic, c.who, e);
  }

  /** The nodes dropped are those that the table loses. */
  lemma DroppedIsLost(n: Node, t: Table, stubs: set<seq<Level>>, c: Call, path: seq<Level>)
    requires Agrees(n, t) && TrieOk(n) && Shaped(n, t, stubs) && c.Unsubscribe?
    requires Removable(n, GroupName(c.topic).0, GroupName(c.topic).1, c.who)
    ensures var (group, topic) := GroupName(c.topic);
            var removed := Split(topic).levels;
            Dropped(n, removed, LastCell(n, group, removed, c.who), path)
            <==> Lost(TableStep(t, c), stubs, removed, path)
  {
    hide Agrees, TrieOk, TableStep, CellAt, Entries, RemoveCell, Bare, Dropped, HasNode, LastCell, Split;
    var (group, topic) := GroupName(c.topic);
    var removed, t' := Split(topic).levels, TableStep(t, c);
    DroppedExactly(n, removed, LastCell(n, group, removed, c.who), path);
    if path != [] && path <= removed {
      if Idle(n, path, removed, LastCell(n, group, removed, c.who)) { IdleIsLost(n, t, stubs, c, path); }
      if Lost(t', stubs, removed, path) { LostIsIdle(n, t, stubs, c, path); }
    }
  }

  lemma IdleIsLost(n: Node, t: Table, stubs: set<seq<Level>>, c: Call, path: seq<Level>)
    requires Agrees(n, t) && TrieOk(n) && Shaped(n, t, stubs) && c.Unsubscribe?
    requires Removable(n, GroupName(c.topic).0, GroupName(c.topic).1, c.who)
    requires var (group, topic) := GroupName(c.topic);
             var removed := Split(topic).levels;
             path != [] && path <= removed && Idle(n, path, removed, LastCell(n, group, removed, c.who))
    ensures Lost(TableStep(t, c), stubs, Split(GroupName(c.topic).1).levels, path)
  {
    hide Agrees, TrieOk, TableStep, CellAt, Entries, RemoveCell, Bare, HasNode, LastCell, Split, Removable;
    RemovableParts(n, c);
    var (group, topic) := GroupName(c.topic);
    var removed, t' := Split(topic).levels, TableStep(t, c);
    forall e | e in Entries(t')
      ensures !(path <= e)
    {
      UnsubscribeEntries(n, t, c, e);
      if e != removed { EntryHasNode(n, t, e); }
    }
    forall s | s in stubs && path <= s
      ensures s <= removed
    {
      assert s in Entries(t) + stubs;
      assert Reached(t, stubs, s);
      assert HasNode(n, s);
    }
  }

  lemma RemovableParts(n: Node, c: Call)
    requires c.Unsubscribe? && Removable(n, GroupName(c.topic).0, GroupName(c.topic).1, c.who)
    ensures Split(GroupName(c.topic).1).Levels? && HasNode(n, Split(GroupName(c.topic).1).levels)
  {
  }

  lemma LostIsIdle(n: Node, t: Table, stubs: set<seq<Level>>, c: Call, path: seq<Level>)
    requires Agrees(n, t) && TrieOk(n) && Shaped(n, t, stubs) && c.Unsubscribe?
    requires Removable(n, GroupName(c.topic).0, GroupName(c.topic).1, c.who)
    requires Lost(TableStep(t, c), stubs, Split(GroupName(c.topic).1).levels, path)
    ensures var (group, topic) := GroupName(c.topic);
            var removed := Split(topic).levels;
            Idle(n, path, removed, LastCell(n, group, removed, c.who))
  {
    hide Agrees, TrieOk, TableStep, CellAt, Entries, RemoveCell, Bare, HasNode, LastCell, Split, Removable;
    RemovableParts(n, c);
    var (group, topic) := GroupName(c.topic);
    var removed, t' := Split(topic).levels, TableStep(t, c);
    forall q: seq<Level> | HasNode(n, q) && path <= q
      ensures q <= removed && Bare(if q == removed then LastCell(n, group, removed, c.who) else CellAt(n, q))
    {
      UnsubscribeEntries(n, t, c, q);
      assert Reached(t, stubs, q);
      var e :| e in Entries(t) + stubs && q <= e;
      PrefixTrans(path, q, e);
      UnsubscribeEntries(n, t, c, e);
      if e in stubs { PrefixTrans(q, e, removed); }
    }
  }

  lemma UnsubscribeShaped(n: Node, t: Table, stubs: set<seq<Level>>, c: Call)
    requires Agrees(n, t) && TrieOk(n) && Shaped(n, t, stubs) && c.Unsubscribe? && Succeeds(t, stubs, c)
    ensures Shaped(TrieStep(n, c), TableStep(t, c), StubsStep(t, stubs, c))
  {
    hide Remove, Agrees, TrieOk, HasNode, Split, Reached, TableStep, CellAt, Entries, Removable, Succeeds;
    hide Dropped, Lost;
    var (group, topic) := GroupName(c.topic);
    SucceedsExactly(n, t, stubs, c);
    RemoveEdits(n, group, topic, c.who, []);
    StepAgrees(n, t, c);
    forall path: seq<Level>
      ensures HasNode(TrieStep(n, c), path) <==> Reached(TableStep(t, c), StubsStep(t, stubs, c), path)
    {
      RemoveNodes(n, group, topic, c.who, path);
      DroppedIsLost(n, t, stubs, c, path);
      assert HasNode(n, path) <==> Reached(t, stubs, path);
      if HasNode(TrieStep(n, c), path) {
        StillReached(n, t, stubs, c, path);
      } else {
        NotReached(n, t, stubs, c, path);
      }
    }
  }

  lemma StillReached(n: Node, t: Table, stubs: set<seq<Level>>, c: Call, path: seq<Level>)
    requires Agrees(n, t) && TrieOk(n) && c.Unsubscribe? && Succeeds(t, stubs, c)
    requires Removable(n, GroupName(c.topic).0, GroupName(c.topic).1, c.who)
    requires Reached(t, stubs, path) && !Lost(TableStep(t, c), stubs, Split(GroupName(c.topic).1).levels, path)
    ensures Reached(TableStep(t, c), StubsStep(t, stubs, c), path)
  {
    hide Agrees, TrieOk, TableStep, CellAt, Entries, Split, Removable, Succeeds, Bare, LastCell;
    RemovableParts(n, c);
    var removed := Split(GroupName(c.topic).1).levels;
    var t', stubs' := TableStep(t, c), StubsStep(t, stubs, c);
    if path != [] {
      if path <= removed {
        if e :| e in Entries(t') && path <= e {
          assert e in Entries(t') + stubs';
        } else {
          var s :| s in stubs && path <= s && !(s <= removed);
          assert s in Entries(t') + stubs';
        }
      } else {
        var e :| e in Entries(t) + stubs && path <= e;
        if e <= removed { PrefixTrans(path, e, removed); }
        UnsubscribeEntries(n, t, c, e);
        assert e in Entries(t') + stubs';
      }
    }
  }

  lemma NotReached(n: Node, t: Table, stubs: set<seq<Level>>, c: Call, path: seq<Level>)
    requires Agrees(n, t) && TrieOk(n) && Shaped(n, t, stubs) && c.Unsubscribe? && Succeeds(t, stubs, c)
    requires Removable(n, GroupName(c.topic).0, GroupName(c.topic).1, c.who)
    requires !HasNode(TrieStep(n, c), path)
    ensures !Reached(TableStep(t, c), StubsStep(t, stubs, c), path)
  {
    hide Remove, Agrees, TrieOk, TableStep, CellAt, Entries, Split, Removable, Succeeds, Dropped, Lost, HasNode;
    RemovableParts(n, c);
    var (group, topic) := GroupName(c.topic);
    var n', t', stubs' := TrieStep(n, c), TableStep(t, c), StubsStep(t, stubs, c);
    StepAgrees(n, t, c);
    RootStays(n', path);
    RemoveEdits(n, group, topic, c.who, []);
    if Reached(t', stubs', path) {
      var e :| e in Entries(t') + stubs' && path <= e;
      if e in Entries(t') {
        EntryHasNode(n', t', e);
      } else {
        assert e in Entries(t) + stubs && Reached(t, stubs, e);
        RemoveNodes(n, group, topic, c.who, e);
        DroppedIsLost(n, t, stubs, c, e);
      }
      NodePrefix(n', path, e);
    }
  }

  lemma RootStays(n: Node, path: seq<Level>)
    ensures !HasNode(n, path) ==> path != []
  {
  }

  // ------------------------------------------------------------------
  // Every run
  // ------------------------------------------------------------------

  lemma StepShaped(n: Node, t: Table, stubs: set<seq<Level>>, c: Call)
    requires Agrees(n, t) && TrieOk(n) && Shaped(n, t, stubs)
    ensures Shaped(TrieStep(n, c), TableStep(t, c), StubsStep(t, stubs, c))
  {
    if c.Subscribe? && c.qos <= 2 && c.who.Some? {
      SubscribeShaped(n, t, stubs, c);
    } else if c.Unsubscribe? && Succeeds(t, stubs, c) {
      UnsubscribeShaped(n, t, stubs, c);
    } else {
      NothingHappens(n, t, stubs, c);
    }
  }

  lemma NothingHappens(n: Node, t: Table, stubs: set<seq<Level>>, c: Call)
    requires Agrees(n, t) && TrieOk(n) && Shaped(n, t, stubs)
    requires c.Subscribe? ==> c.qos > 2 || c.who.None?
    requires c.Unsubscribe? ==> !Succeeds(t, stubs, c)
    ensures Shaped(TrieStep(n, c), TableStep(t, c), StubsStep(t, stubs, c))
  {
    hide Remove, Agrees, TrieOk, HasNode, Split, Reached, CellAt, Entries, Removable, Succeeds, TableStep;
    var (group, topic) := GroupName(c.topic);
    StepAgrees(n, t, c);
    if c.Unsubscribe? {
      SucceedsExactly(n, t, stubs, c);
      RemoveEdits(n, group, topic, c.who, []);
    }
    forall e: seq<Level>
      ensures e in Entries(TableStep(t, c)) <==> e in Entries(t)
    {
      EntryIsCell(n, t, e);
      EntryIsCell(TrieStep(n, c), TableStep(t, c), e);
    }
    assert Entries(TableStep(t, c)) == Entries(t);
    SameReached(t, TableStep(t, c), stubs);
  }

  lemma SameReached(t: Table, t': Table, stubs: set<seq<Level>>)
    requires Entries(t') == Entries(t)
    ensures forall p: seq<Level> :: Reached(t', stubs, p) <==> Reached(t, stubs, p)
  {
  }

  /** After any calls, refused ones included, the trie has exactly the nodes that the table and its
      stubs reach. */
  lemma {:induction false} RunShaped(calls: seq<Call>)
    ensures Shaped(TrieRun(calls), TableRun(calls), StubsRun(calls))
    decreases |calls|
  {
    hide Agrees, TrieOk, TrieStep, TableStep, StubsStep, Shaped;
    if calls == [] {
      NewShaped();
    } else {
      var before := calls[..|calls| - 1];
      RunShaped(before);
      RunAgrees(before);
      StepShaped(TrieRun(before), TableRun(before), StubsRun(before), calls[|calls| - 1]);
    }
  }

  lemma NewShaped()
    ensures Shaped(NewNode(), Table([], map[]), {})
  {
  }
}
