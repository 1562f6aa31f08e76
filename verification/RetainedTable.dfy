/**
 The retained messages as a flat table, and which topics a removal loses. Beside its rows the table
 keeps the stubs: the levels in front of the bad one for each topic that was refused, because their
 nodes stay in the trie and keep others from being pruned, or are taken for a retained topic.
 */
module RetainedTable {
  import opened Bytes
  import opened Prelude
  import opened PublishCodec
  import opened RetainedTrie
  import opened Spelling
  import opened TopicLevels

  type Rows = map<seq<Level>, Publish>

  datatype Table = Table(rows: Rows, stubs: set<seq<Level>>)

  /** Where a way through the trie may end. */
  function Ends(t: Table): set<seq<Level>> {
    t.rows.Keys + t.stubs
  }

  /** There is a node for the path. */
  ghost predicate Reached(t: Table, p: seq<Level>) {
    p == [] || exists q :: q in Ends(t) && p <= q
  }

  /** A path goes with the removed topic when it is a part of it and nothing continues it on a
      different way. */
  ghost predicate Lost(t: Table, removed: seq<Level>, p: seq<Level>) {
    p != [] && p <= removed && forall q | q in Ends(t) && p <= q :: q <= removed
  }

  /** Retain: an empty payload removes. */
  ghost function TableStep(t: Table, m: Publish): Table {
    if m.payload != [] then
      match Split(m.topic)
      case BadPath => t.(stubs := t.stubs + {GoodLevels(m.topic)})
      case Levels(path) => t.(rows := t.rows[path := m])
    else
      match Split(m.topic)
      case BadPath => t
      case Levels(path) => if Reached(t, path) then Cleared(t, path) else t
  }

  ghost function Cleared(t: Table, removed: seq<Level>): Table {
    Table(map p | p in t.rows && p != removed && !Lost(t, removed, p) :: t.rows[p],
          set p | p in t.stubs && !Lost(t, removed, p))
  }

  function TrieStep(n: Node, m: Publish): Node {
    if |m.payload| == 0 then Remove(n, m.topic).0 else Insert(n, m.topic, m).0
  }

  ghost function TableRun(ms: seq<Publish>): Table {
    if ms == [] then Table(map[], {}) else TableStep(TableRun(ms[..|ms| - 1]), ms[|ms| - 1])
  }

  function TrieRun(ms: seq<Publish>): Node {
    if ms == [] then NewNode() else TrieStep(TrieRun(ms[..|ms| - 1]), ms[|ms| - 1])
  }

  function Lookup(rows: Rows, path: seq<Level>): Option<Publish> {
    if path in rows then Some(rows[path]) else None
  }

  /** The trie holds the messages of the rows. */
  ghost predicate Holds(n: Node, rows: Rows) {
    forall path: seq<Level> :: MsgAt(n, path) == Lookup(rows, path)
  }

  /** The trie has the nodes that the table reaches. */
  ghost predicate Shaped(n: Node, t: Table) {
    forall path: seq<Level> :: HasNode(n, path) <==> Reached(t, path)
  }

  // ------------------------------------------------------------------
  // One call
  // ------------------------------------------------------------------

  lemma InsertHolds(n: Node, t: Table, m: Publish)
    requires Holds(n, t.rows) && Shaped(n, t) && m.payload != []
    ensures Holds(Insert(n, m.topic, m).0, TableStep(t, m).rows)
    ensures Shaped(Insert(n, m.topic, m).0, TableStep(t, m))
  {
    hide Split, Insert, MsgAt, HasNode, GoodLevels, Reached;
    forall path: seq<Level>
      ensures MsgAt(Insert(n, m.topic, m).0, path) == Lookup(TableStep(t, m).rows, path)
      ensures HasNode(Insert(n, m.topic, m).0, path) <==> Reached(TableStep(t, m), path)
    {
      assert MsgAt(n, path) == Lookup(t.rows, path);
      InsertEdits(n, m.topic, m, path);
      assert HasNode(n, path) <==> Reached(t, path);
      InsertNodes(n, m.topic, m, path);
      ReachesMore(t, TableStep(t, m), GoodLevels(m.topic), path);
    }
  }

  lemma ReachesMore(t: Table, t': Table, end: seq<Level>, path: seq<Level>)
    requires Ends(t') == Ends(t) + {end}
    ensures Reached(t', path) <==> Reached(t, path) || path <= end
  {
    assert end in Ends(t');
    if Reached(t', path) && path != [] {
      var q :| q in Ends(t') && path <= q;
      assert q in Ends(t) || q == end;
    }
    if Reached(t, path) && path != [] {
      var q :| q in Ends(t) && path <= q;
      assert q in Ends(t');
    }
  }

  /** What pruning takes is what the table loses. */
  lemma PrunedIsLost(n: Node, t: Table, removed: seq<Level>, path: seq<Level>)
    requires Shaped(n, t) && HasNode(n, removed)
    ensures Pruned(n, removed, path) <==> Lost(t, removed, path)
  {
    hide Pruned, HasNode;
    PrunedExactly(n, removed, path);
    if path != [] && path <= removed {
      if Along(n, path, removed) {
        forall q | q in Ends(t) && path <= q
          ensures q <= removed
        {
          assert Reached(t, q);
          assert HasNode(n, q);
        }
      }
      if Lost(t, removed, path) {
        forall q: seq<Level> | HasNode(n, q) && path <= q
          ensures q <= removed
        {
          assert Reached(t, q);
          var e :| e in Ends(t) && q <= e;
          PrefixTrans(path, q, e);
          PrefixTrans(q, e, removed);
        }
      }
    }
  }

  /** After a removal the table reaches what it reached before, less what it lost. */
  lemma ClearedReaches(t: Table, removed: seq<Level>, path: seq<Level>)
    ensures Reached(t, removed) ==>
              (Reached(Cleared(t, removed), path) <==> Reached(t, path) && !Lost(t, removed, path))
  {
    var t' := Cleared(t, removed);
    if path != [] && Reached(t, removed) {
      if Reached(t', path) {
        var q :| q in Ends(t') && path <= q;
        assert q in Ends(t) && !Lost(t, removed, q);
        LostSpreads(t, removed, path, q);
      }
      if Reached(t, path) && !Lost(t, removed, path) {
        var q :| q in Ends(t) && path <= q && !(q <= removed) by { OffTheWay(t, removed, path); }
        assert q in Ends(t');
      }
    }
  }

  lemma LostSpreads(t: Table, removed: seq<Level>, path: seq<Level>, q: seq<Level>)
    requires path <= q && q in Ends(t)
    ensures Lost(t, removed, path) ==> Lost(t, removed, q)
  {
    if Lost(t, removed, path) {
      forall r | r in Ends(t) && q <= r
        ensures r <= removed
      {
        PrefixTrans(path, q, r);
      }
    }
  }

  lemma OffTheWay(t: Table, removed: seq<Level>, path: seq<Level>)
    requires path != [] && Reached(t, path) && !Lost(t, removed, path)
    ensures exists q :: q in Ends(t) && path <= q && !(q <= removed)
  {
    if !(path <= removed) {
      var q :| q in Ends(t) && path <= q;
      if q <= removed { PrefixTrans(path, q, removed); }
    }
  }

  lemma RemoveHolds(n: Node, t: Table, m: Publish)
    requires Holds(n, t.rows) && Shaped(n, t) && m.payload == []
    ensures Holds(Remove(n, m.topic).0, TableStep(t, m).rows)
    ensures Shaped(Remove(n, m.topic).0, TableStep(t, m))
  {
    hide Split, Remove, Lost, Pruned, MsgAt, HasNode, Reached;
    forall path: seq<Level>
      ensures MsgAt(Remove(n, m.topic).0, path) == Lookup(TableStep(t, m).rows, path)
      ensures HasNode(Remove(n, m.topic).0, path) <==> Reached(TableStep(t, m), path)
    {
      assert MsgAt(n, path) == Lookup(t.rows, path);
      assert HasNode(n, path) <==> Reached(t, path);
      RemoveEdits(n, m.topic, path);
      if Split(m.topic).Levels? {
        var removed := Split(m.topic).levels;
        assert HasNode(n, removed) <==> Reached(t, removed);
        ClearedReaches(t, removed, path);
        if HasNode(n, removed) { PrunedIsLost(n, t, removed, path); }
      }
    }
  }

  // ------------------------------------------------------------------
  // Every run
  // ------------------------------------------------------------------

  /** The trie after any history of retained messages, refused ones included, holds exactly the rows
      of the flat table, and has exactly the nodes that the table reaches. */
  lemma {:induction false} RunHolds(ms: seq<Publish>)
    ensures Holds(TrieRun(ms), TableRun(ms).rows) && Shaped(TrieRun(ms), TableRun(ms))
    decreases |ms|
  {
    hide Insert, Remove, Holds, Shaped, TableStep;
    if ms == [] {
      EmptyHolds();
    } else {
      var before, m := ms[..|ms| - 1], ms[|ms| - 1];
      RunHolds(before);
      if m.payload == [] {
        RemoveHolds(TrieRun(before), TableRun(before), m);
      } else {
        InsertHolds(TrieRun(before), TableRun(before), m);
      }
    }
  }

  lemma EmptyHolds()
    ensures Holds(NewNode(), map[]) && Shaped(NewNode(), Table(map[], {}))
  {
  }

  // ------------------------------------------------------------------
  // Removing one topic can lose another
  // ------------------------------------------------------------------

  /** n' holds what n holds, but for the one path. */
  ghost predicate KeepsOthers(n: Node, n': Node, removed: seq<Level>) {
    forall path: seq<Level> | path != removed :: MsgAt(n', path) == MsgAt(n, path)
  }

  /** In any trie, clearing a topic that has a node keeps every other message if and only if from
      each proper part of the topic that holds a message some node leads off the topic's way. */
  lemma ClearKeepsOthersExactly(n: Node, topic: seq<byte>)
    requires Split(topic).Levels? && HasNode(n, Split(topic).levels)
    ensures var removed := Split(topic).levels;
            KeepsOthers(n, Remove(n, topic).0, removed)
            <==> forall p: seq<Level> | p != [] && p < removed && MsgAt(n, p).Some? :: !Along(n, p, removed)
  {
    hide Split, Remove, Pruned, MsgAt, HasNode, Along;
    var removed := Split(topic).levels;
    var n' := Remove(n, topic).0;
    forall p: seq<Level>
      ensures p != removed ==>
                MsgAt(n', p) == if p != [] && p < removed && Along(n, p, removed) then None else MsgAt(n, p)
    {
      RemoveEdits(n, topic, p);
      PrunedExactly(n, removed, p);
    }
  }

  /** Each retained proper part of the topic is continued, off the topic's way, by another retained
      topic or by the good levels of a refused one. */
  ghost predicate PartsContinue(t: Table, removed: seq<Level>) {
    forall p | p in t.rows && p != [] && p < removed :: exists q :: q in Ends(t) && p <= q && !(q <= removed)
  }

  /** The same against the history alone. */
  lemma ClearKeepsOthersInRun(ms: seq<Publish>, topic: seq<byte>)
    requires Split(topic).Levels?
    ensures var removed := Split(topic).levels;
            var t := TableRun(ms);
            KeepsOthers(TrieRun(ms), Remove(TrieRun(ms), topic).0, removed)
            <==> (Reached(t, removed) ==> PartsContinue(t, removed))
  {
    hide TrieRun, TableRun, Split, Remove, Pruned, MsgAt, HasNode, Reached;
    var removed, n, t := Split(topic).levels, TrieRun(ms), TableRun(ms);
    RunHolds(ms);
    RemoveEdits(n, topic, []);
    assert HasNode(n, removed) <==> Reached(t, removed);
    if HasNode(n, removed) {
      ClearKeepsOthersExactly(n, topic);
      forall p: seq<Level> | p != [] && p < removed
        ensures MsgAt(n, p).Some? <==> p in t.rows
        ensures !Along(n, p, removed) <==> exists q :: q in Ends(t) && p <= q && !(q <= removed)
      {
        assert MsgAt(n, p) == Lookup(t.rows, p);
        PrunedExactly(n, removed, p);
        PrunedIsLost(n, t, removed, p);
      }
    }
  }

  // ------------------------------------------------------------------
  // Topics that share their levels
  // ------------------------------------------------------------------

  /** Every message is kept under the levels of its own topic. */
  ghost predicate UnderOwnLevels(rows: Rows) {
    forall p | p in rows :: Split(rows[p].topic) == Levels(p)
  }

  lemma {:induction false} RunUnderOwnLevels(ms: seq<Publish>)
    ensures UnderOwnLevels(TableRun(ms).rows)
    decreases |ms|
  {
    hide Split, Reached, Lost, GoodLevels;
    if ms != [] { RunUnderOwnLevels(ms[..|ms| - 1]); }
  }

  /** n' holds every message of n but those that were published to the topic. */
  ghost predicate KeepsMessages(n: Node, n': Node, topic: seq<byte>) {
    forall path: seq<Level> | MsgAt(n, path).Some? && MsgAt(n, path).value.topic != topic ::
      MsgAt(n', path) == MsgAt(n, path)
  }

  /** The message under the levels of the topic, if there is one, was published to the topic. */
  ghost predicate OwnsLevels(t: Table, topic: seq<byte>)
    requires Split(topic).Levels?
  {
    Split(topic).levels in t.rows ==> t.rows[Split(topic).levels].topic == topic
  }

  /** After any history, clearing a topic keeps every message that was published to another topic if
      and only if the topic has no node, or no other topic holds its levels and its parts continue. */
  lemma ClearKeepsMessagesExactly(ms: seq<Publish>, topic: seq<byte>)
    requires Split(topic).Levels?
    ensures var removed := Split(topic).levels;
            var t := TableRun(ms);
            KeepsMessages(TrieRun(ms), Remove(TrieRun(ms), topic).0, topic)
            <==> (Reached(t, removed) ==> OwnsLevels(t, topic) && PartsContinue(t, removed))
  {
    hide TrieRun, TableRun, Split, Remove, MsgAt, HasNode, Reached, Holds, Shaped, KeepsOthers, KeepsMessages;
    hide OwnsLevels;
    hide PartsContinue, UnderOwnLevels, Edited;
    var removed, n, t := Split(topic).levels, TrieRun(ms), TableRun(ms);
    RunHolds(ms);
    RunUnderOwnLevels(ms);
    ClearKeepsOthersInRun(ms, topic);
    RemoveEdits(n, topic, removed);
    ReachedHasNode(n, t, removed);
    if HasNode(n, removed) {
      RemoveOnlyClears(n, topic);
      MessagesAreOthers(n, Remove(n, topic).0, t, topic);
    } else {
      SameKeeps(n, topic);
    }
  }

  lemma ReachedHasNode(n: Node, t: Table, p: seq<Level>)
    requires Shaped(n, t)
    ensures HasNode(n, p) <==> Reached(t, p)
  {
  }

  lemma RemoveOnlyClears(n: Node, topic: seq<byte>)
    requires Split(topic).Levels? && HasNode(n, Split(topic).levels)
    ensures MsgAt(Remove(n, topic).0, Split(topic).levels) == None
    ensures forall path: seq<Level> ::
              MsgAt(Remove(n, topic).0, path) == MsgAt(n, path) || MsgAt(Remove(n, topic).0, path) == None
  {
    hide Split, Remove, MsgAt, HasNode, Pruned;
    forall path: seq<Level>
      ensures MsgAt(Remove(n, topic).0, path) == MsgAt(n, path) || MsgAt(Remove(n, topic).0, path) == None
    {
      RemoveEdits(n, topic, path);
    }
    RemoveEdits(n, topic, Split(topic).levels);
  }

  lemma SameKeeps(n: Node, topic: seq<byte>)
    ensures KeepsMessages(n, n, topic)
  {
  }

  /** Keeping the messages of other topics is keeping all other levels, and finding nothing but the
      topic's own message at its levels. */
  lemma MessagesAreOthers(n: Node, n': Node, t: Table, topic: seq<byte>)
    requires Split(topic).Levels? && Holds(n, t.rows) && UnderOwnLevels(t.rows)
    requires MsgAt(n', Split(topic).levels) == None
    requires forall path: seq<Level> :: MsgAt(n', path) == MsgAt(n, path) || MsgAt(n', path) == None
    ensures KeepsMessages(n, n', topic) <==> KeepsOthers(n, n', Split(topic).levels) && OwnsLevels(t, topic)
  {
    hide MsgAt, Split;
    var removed := Split(topic).levels;
    forall path: seq<Level>
      ensures MsgAt(n, path) == Lookup(t.rows, path)
      ensures MsgAt(n, path).Some? && path != removed ==> MsgAt(n, path).value.topic != topic
    {
      assert MsgAt(n, path) == Lookup(t.rows, path);
    }
    assert MsgAt(n, removed) == Lookup(t.rows, removed);
  }

  /** After any history, storing a message keeps every message that was published to another topic if
      and only if no other topic holds its levels. */
  lemma StoreKeepsMessagesExactly(ms: seq<Publish>, m: Publish)
    ensures KeepsMessages(TrieRun(ms), Insert(TrieRun(ms), m.topic, m).0, m.topic)
       <==> (Split(m.topic).Levels? ==> OwnsLevels(TableRun(ms), m.topic))
  {
    hide TrieRun, TableRun, Split, Insert, MsgAt;
    var n, t := TrieRun(ms), TableRun(ms);
    RunHolds(ms);
    RunUnderOwnLevels(ms);
    forall path: seq<Level>
      ensures MsgAt(Insert(n, m.topic, m).0, path)
           == if Split(m.topic) == Levels(path) then Some(m) else MsgAt(n, path)
      ensures MsgAt(n, path) == Lookup(t.rows, path)
    {
      InsertEdits(n, m.topic, m, path);
    }
    if Split(m.topic).Levels? { assert MsgAt(n, Split(m.topic).levels) == Lookup(t.rows, Split(m.topic).levels); }
  }

  const A: seq<Level> := [[0x61]]
  const A_B: seq<Level> := [[0x61], [0x62]]

  /** With "a" and "a/b" retained, clearing "a/b" loses "a" as well. */
  lemma ClearLosesParent(a: Publish, b: Publish, clear: Publish)
    requires a.topic == [0x61] && b.topic == clear.topic == [0x61, SEP, 0x62]
    requires a.payload != [] && b.payload != [] && clear.payload == []
    ensures MsgAt(TrieRun([a, b]), A) == Some(a) && MsgAt(TrieRun([a, b]), A_B) == Some(b)
    ensures forall path: seq<Level> :: MsgAt(TrieRun([a, b, clear]), path) == None
  {
    hide Split, MsgAt, TrieRun;
    SplitTopics();
    assert [a][..0] == [] && [a, b][..1] == [a] && [a, b, clear][..2] == [a, b];
    assert TableRun([a]) == Table(map[A := a], {});
    var t := TableRun([a, b]);
    assert t == Table(map[A := a, A_B := b], {});
    assert A_B in Ends(t) && Reached(t, A_B) && Lost(t, A_B, A);
    assert TableRun([a, b, clear]).rows == map[];
    RunHolds([a, b]);
    RunHolds([a, b, clear]);
  }

  /** With "a" retained and "a/b/$x" refused, clearing "a/b", which was never retained, loses "a". */
  lemma RefusedTopicLosesParent(a: Publish, bad: Publish, clear: Publish)
    requires a.topic == [0x61] && bad.topic == [0x61, SEP, 0x62, SEP, DOLLAR, 0x78] && clear.topic == [0x61, SEP, 0x62]
    requires a.payload != [] && bad.payload != [] && clear.payload == []
    ensures ValidTopic(bad.topic)
    ensures MsgAt(TrieRun([a, bad]), A) == Some(a) && MsgAt(TrieRun([a, bad]), A_B) == None
    ensures forall path: seq<Level> :: MsgAt(TrieRun([a, bad, clear]), path) == None
  {
    hide Split, MsgAt, TrieRun, GoodLevels;
    SplitTopics();
    SplitRefused();
    assert [a][..0] == [] && [a, bad][..1] == [a] && [a, bad, clear][..2] == [a, bad];
    assert TableRun([a]) == Table(map[A := a], {});
    var t := TableRun([a, bad]);
    assert t == Table(map[A := a], {A_B});
    assert A_B in Ends(t) && Reached(t, A_B) && Lost(t, A_B, A);
    assert TableRun([a, bad, clear]).rows == map[];
    RunHolds([a, bad]);
    RunHolds([a, bad, clear]);
  }

  lemma SplitTopics()
    ensures Split([0x61]) == Levels(A)
    ensures Split([0x61, SEP, 0x62]) == Levels(A_B)
  {
    FirstSepIs([0x61], 1);
    FirstSepIs([0x62], 1);
    FirstSepIs([0x61, SEP, 0x62], 1);
    assert NextLevel([0x61]) == Parsed([0x61], []);
    assert NextLevel([0x62]) == Parsed([0x62], []);
    assert NextLevel([0x61, SEP, 0x62]) == Parsed([0x61], [0x62]);
    SplitStep([0x61]);
    SplitStep([0x62]);
    SplitStep([0x61, SEP, 0x62]);
  }

  lemma SplitRefused()
    ensures var bad: seq<byte> := [0x61, SEP, 0x62, SEP, DOLLAR, 0x78]; Split(bad) == BadPath && GoodLevels(bad) == A_B
  {
    var bad: seq<byte> := [0x61, SEP, 0x62, SEP, DOLLAR, 0x78];
    FirstSepIs(bad, 1);
    FirstSepIs(bad[2..], 1);
    FirstSepIs(bad[4..], 2);
    assert NextLevel(bad) == Parsed([0x61], bad[2..]);
    assert NextLevel(bad[2..]) == Parsed([0x62], bad[4..]);
    assert NextLevel(bad[4..]) == BadLevel;
    hide NextLevel;
    SplitStep(bad);
    SplitStep(bad[2..]);
  }

  /** "a" and "a/" share a node: clearing "a/" loses the message of "a", and storing to "a/" replaces it. */
  lemma SeparatorSharesNode(a: Publish, other: Publish, clear: Publish)
    requires a.topic == [0x61] && other.topic == clear.topic == [0x61, SEP]
    requires a.payload != [] && other.payload != [] && clear.payload == []
    ensures ValidTopic(a.topic) && ValidTopic(other.topic)
    ensures MsgAt(TrieRun([a]), A) == Some(a)
    ensures MsgAt(TrieRun([a, clear]), A) == None
    ensures MsgAt(TrieRun([a, other]), A) == Some(other)
  {
    hide Split, MsgAt, TrieRun;
    SplitTopics();
    TrailingSeparator([0x61]);
    assert [0x61] + [SEP] == [0x61, SEP];
    assert [a][..0] == [] && [a, clear][..1] == [a] && [a, other][..1] == [a];
    var t := Table(map[A := a], {});
    assert TableRun([a]) == t;
    assert A in Ends(t) && Reached(t, A);
    RunHolds([a]);
    RunHolds([a, clear]);
    RunHolds([a, other]);
  }
}
