/**
 The subscriptions as a flat table, edited by the same calls, and the theorem that the trie answers
 as a scan of the table would.
 */
module SubscriptionTable {
  import opened Bytes
  import opened Prelude
  import opened SubscriptionMatch
  import opened SubscriptionTrie
  import opened TopicLevels

  datatype Row = Row(path: seq<Level>, sub: Sub, qos: nat)

  /** Subscriptions in the order they were first made, and the members of each group of a filter. */
  datatype Table = Table(rows: seq<Row>, groups: map<(seq<Level>, seq<byte>), seq<Sub>>)

  /** A call on the topics provider; a nil subscriber is None. */
  datatype Call =
    | Subscribe(topic: seq<byte>, qos: nat, who: Option<Sub>)
    | Unsubscribe(topic: seq<byte>, who: Option<Sub>)

  // ------------------------------------------------------------------
  // The calls on the table
  // ------------------------------------------------------------------

  function Upsert(rows: seq<Row>, path: seq<Level>, sub: Sub, qos: nat): seq<Row> {
    if rows == [] then [Row(path, sub, qos)]
    else if rows[0].path == path && rows[0].sub == sub then [rows[0].(qos := qos)] + rows[1..]
    else [rows[0]] + Upsert(rows[1..], path, sub, qos)
  }

  function Delete(rows: seq<Row>, path: seq<Level>, sub: Sub): seq<Row> {
    if rows == [] then []
    else if rows[0].path == path && rows[0].sub == sub then rows[1..]
    else [rows[0]] + Delete(rows[1..], path, sub)
  }

  function DropPath(rows: seq<Row>, path: seq<Level>): seq<Row> {
    if rows == [] then []
    else (if rows[0].path == path then [] else [rows[0]]) + DropPath(rows[1..], path)
  }

  function Members(t: Table, path: seq<Level>, g: seq<byte>): seq<Sub> {
    if (path, g) in t.groups then t.groups[(path, g)] else []
  }

  function TableSubscribe(t: Table, group: seq<byte>, path: seq<Level>, qos: nat, sub: Sub): Table {
    if group == [] then t.(rows := Upsert(t.rows, path, sub, qos))
    else t.(groups := t.groups[(path, group) := Members(t, path, group) + [sub]])
  }

  function TableUnsubscribe(t: Table, group: seq<byte>, path: seq<Level>, sub: Option<Sub>): Table {
    if sub.None? then
      Table(DropPath(t.rows, path), map k | k in t.groups && k.0 != path :: t.groups[k])
    else if group == [] then t.(rows := Delete(t.rows, path, sub.value))
    else
      var g := Members(t, path, group);
      var i := IndexOf(g, sub.value);
      if i == |g| then t
      else if |g| == 1 then t.(groups := t.groups - {(path, group)})
      else t.(groups := t.groups[(path, group) := Without(g, i)])
  }

  /** A call with an invalid QoS, a nil subscriber or a bad filter changes nothing. */
  function TableStep(t: Table, c: Call): Table {
    var (group, topic) := GroupName(c.topic);
    match Split(topic)
    case BadPath => t
    case Levels(path) =>
      match c
      case Subscribe(_, qos, sub) => if qos > 2 || sub.None? then t else TableSubscribe(t, group, path, qos, sub.value)
      case Unsubscribe(_, sub) => TableUnsubscribe(t, group, path, sub)
  }

  function TableRun(calls: seq<Call>): Table {
    if calls == [] then Table([], map[])
    else TableStep(TableRun(calls[..|calls| - 1]), calls[|calls| - 1])
  }

  // ------------------------------------------------------------------
  // The same calls on the trie
  // ------------------------------------------------------------------

  function TrieStep(n: Node, c: Call): Node {
    var (group, topic) := GroupName(c.topic);
    match c
    case Subscribe(_, qos, sub) => if qos > 2 || sub.None? then n else Insert(n, group, topic, qos, sub.value).0
    case Unsubscribe(_, sub) => Remove(n, group, topic, sub).0
  }

  function TrieRun(calls: seq<Call>): Node {
    if calls == [] then NewNode()
    else TrieStep(TrieRun(calls[..|calls| - 1]), calls[|calls| - 1])
  }

  // ------------------------------------------------------------------
  // What it means for the table and the trie to agree
  // ------------------------------------------------------------------

  type Pairs = seq<(Sub, nat)>

  function RowsAt(rows: seq<Row>, path: seq<Level>): Pairs {
    if rows == [] then []
    else (if rows[0].path == path then [(rows[0].sub, rows[0].qos)] else []) + RowsAt(rows[1..], path)
  }

  function Zip(subs: seq<Sub>, qos: seq<nat>): Pairs
    requires |subs| == |qos|
  {
    if subs == [] then [] else [(subs[0], qos[0])] + Zip(subs[1..], qos[1..])
  }

  ghost predicate GroupsAgree(t: Table, c: Cell, path: seq<Level>) {
    forall g: seq<byte> ::
      ((path, g) in t.groups <==> g in c.groups) && (g in c.groups ==> t.groups[(path, g)] == c.groups[g])
  }

  /** The rows of a filter are, in order, what its node lists. */
  ghost predicate AgreeAt(t: Table, c: Cell, path: seq<Level>) {
    CellOk(c) && RowsAt(t.rows, path) == Zip(c.subs, c.qos) && GroupsAgree(t, c, path)
  }

  ghost predicate Agrees(n: Node, t: Table) {
    forall path: seq<Level> :: AgreeAt(t, CellAt(n, path), path)
  }

  // ------------------------------------------------------------------
  // Subscribing
  // ------------------------------------------------------------------

  function UpsertPairs(ps: Pairs, sub: Sub, qos: nat): Pairs {
    if ps == [] then [(sub, qos)]
    else if ps[0].0 == sub then [(sub, qos)] + ps[1..]
    else [ps[0]] + UpsertPairs(ps[1..], sub, qos)
  }

  lemma {:induction false} UpsertAt(rows: seq<Row>, path: seq<Level>, sub: Sub, qos: nat, at: seq<Level>)
    ensures RowsAt(Upsert(rows, path, sub, qos), at)
         == if at == path then UpsertPairs(RowsAt(rows, at), sub, qos) else RowsAt(rows, at)
  {
    if rows != [] {
      var r := RowsAt(rows[1..], at);
      assert ([(rows[0].sub, rows[0].qos)] + r)[1..] == r && [] + r == r;
    }
    if rows != [] && !(rows[0].path == path && rows[0].sub == sub) {
      UpsertAt(rows[1..], path, sub, qos, at);
      var u := Upsert(rows[1..], path, sub, qos);
      assert ([rows[0]] + u)[1..] == u;
    } else if rows != [] {
      assert ([rows[0].(qos := qos)] + rows[1..])[1..] == rows[1..];
    } else {
      assert [Row(path, sub, qos)][1..] == [];
    }
  }

  lemma {:induction false} UpsertZip(subs: seq<Sub>, qs: seq<nat>, sub: Sub, qos: nat)
    requires |subs| == |qs|
    ensures UpsertPairs(Zip(subs, qs), sub, qos)
         == var i := IndexOf(subs, sub);
            if i < |subs| then Zip(subs, qs[i := qos]) else Zip(subs + [sub], qs + [qos])
    decreases |subs|
  {
    hide Zip;
    EmptyZip();
    if subs == [] {
      ZipStep([sub], [qos]);
      assert subs + [sub] == [sub] && qs + [qos] == [qos] && [sub][1..] == [] && [qos][1..] == [];
    } else {
      ZipStep(subs, qs);
      UpsertZip(subs[1..], qs[1..], sub, qos);
      var i := IndexOf(subs, sub);
      if i == |subs| {
        ZipStep(subs + [sub], qs + [qos]);
        assert (subs + [sub])[1..] == subs[1..] + [sub] && (qs + [qos])[1..] == qs[1..] + [qos];
      } else {
        ZipStep(subs, qs[i := qos]);
        assert qs[i := qos][1..] == if i == 0 then qs[1..] else qs[1..][i - 1 := qos];
      }
    }
  }

  lemma SubscribeAgrees(n: Node, t: Table, group: seq<byte>, topic: seq<byte>, qos: nat, sub: Sub, path: seq<Level>)
    requires AgreeAt(t, CellAt(n, path), path) && Split(topic).Levels?
    ensures AgreeAt(TableSubscribe(t, group, Split(topic).levels, qos, sub),
                    CellAt(Insert(n, group, topic, qos, sub).0, path), path)
  {
    hide Insert, RowsAt, Zip, Upsert, CellOk;
    InsertEdits(n, group, topic, qos, sub, path);
    var at, c := Split(topic).levels, CellAt(n, path);
    UpsertAt(t.rows, at, sub, qos, path);
    if path == at { SubscribeCellAgrees(t, c, group, qos, sub, path); }
  }

  lemma SubscribeCellAgrees(t: Table, c: Cell, group: seq<byte>, qos: nat, sub: Sub, path: seq<Level>)
    requires AgreeAt(t, c, path)
    ensures AgreeAt(TableSubscribe(t, group, path, qos, sub), InsertCell(c, group, qos, sub), path)
  {
    hide RowsAt, Zip, Upsert, CellOk;
    InsertCellOk(c, group, qos, sub);
    AlignedCell(c);
    if group == [] {
      UpsertAt(t.rows, path, sub, qos, path);
      UpsertZip(c.subs, c.qos, sub, qos);
    }
  }

  lemma AlignedCell(c: Cell)
    requires CellOk(c)
    ensures |c.subs| == |c.qos|
  {
  }

  // ------------------------------------------------------------------
  // Unsubscribing
  // ------------------------------------------------------------------

  function DeletePair(ps: Pairs, sub: Sub): Pairs {
    if ps == [] then []
    else if ps[0].0 == sub then ps[1..]
    else [ps[0]] + DeletePair(ps[1..], sub)
  }

  lemma {:induction false} DeleteAt(rows: seq<Row>, path: seq<Level>, sub: Sub, at: seq<Level>)
    ensures RowsAt(Delete(rows, path, sub), at)
         == if at == path then DeletePair(RowsAt(rows, at), sub) else RowsAt(rows, at)
  {
    if rows != [] {
      var r := RowsAt(rows[1..], at);
      assert ([(rows[0].sub, rows[0].qos)] + r)[1..] == r && [] + r == r;
      DeleteAt(rows[1..], path, sub, at);
      var d := Delete(rows[1..], path, sub);
      assert ([rows[0]] + d)[1..] == d;
    }
  }

  lemma {:induction false} DeleteZip(subs: seq<Sub>, qs: seq<nat>, sub: Sub)
    requires |subs| == |qs|
    ensures DeletePair(Zip(subs, qs), sub)
         == var i := IndexOf(subs, sub);
            if i < |subs| then Zip(Without(subs, i), Without(qs, i)) else Zip(subs, qs)
    decreases |subs|
  {
    hide Without;
    if subs != [] {
      ZipStep(subs, qs);
      DeleteZip(subs[1..], qs[1..], sub);
      var i := IndexOf(subs, sub);
      if i < |subs| { ZipWithout(subs, qs, i); }
    }
  }

  lemma ZipStep(subs: seq<Sub>, qs: seq<nat>)
    requires |subs| == |qs| > 0
    ensures Zip(subs, qs) == [(subs[0], qs[0])] + Zip(subs[1..], qs[1..])
    ensures Zip(subs, qs)[0] == (subs[0], qs[0]) && Zip(subs, qs)[1..] == Zip(subs[1..], qs[1..])
  {
  }

  lemma ZipWithout(subs: seq<Sub>, qs: seq<nat>, i: nat)
    requires i < |subs| == |qs|
    ensures Zip(Without(subs, i), Without(qs, i))
         == if i == 0 then Zip(subs[1..], qs[1..])
            else [(subs[0], qs[0])] + Zip(Without(subs[1..], i - 1), Without(qs[1..], i - 1))
  {
    hide Zip, Without;
    WithoutTail(subs, i);
    WithoutTail(qs, i);
    if i > 0 { ZipStep(Without(subs, i), Without(qs, i)); }
  }

  lemma WithoutTail<T>(s: seq<T>, i: nat)
    requires i < |s|
    ensures i == 0 ==> Without(s, i) == s[1..]
    ensures i > 0 ==> Without(s, i)[0] == s[0] && Without(s, i)[1..] == Without(s[1..], i - 1)
  {
  }

  lemma {:induction false} DropAt(rows: seq<Row>, path: seq<Level>, at: seq<Level>)
    ensures RowsAt(DropPath(rows, path), at) == if at == path then [] else RowsAt(rows, at)
  {
    if rows != [] {
      DropAt(rows[1..], path, at);
      var d := DropPath(rows[1..], path);
      assert ([rows[0]] + d)[1..] == d && [] + d == d;
    }
  }

  lemma UnsubscribeElsewhere(t: Table, c: Cell, group: seq<byte>, at: seq<Level>, sub: Option<Sub>, path: seq<Level>)
    requires AgreeAt(t, c, path) && path != at
    ensures AgreeAt(TableUnsubscribe(t, group, at, sub), c, path)
  {
    hide RowsAt, Zip, Delete, DropPath, CellOk;
    if sub.None? {
      DropAt(t.rows, at, path);
    } else {
      DeleteAt(t.rows, at, sub.value, path);
    }
  }

  lemma UnsubscribeCellAgrees(t: Table, c: Cell, group: seq<byte>, sub: Option<Sub>, path: seq<Level>)
    requires AgreeAt(t, c, path)
    ensures AgreeAt(TableUnsubscribe(t, group, path, sub),
                    match RemoveCell(c, group, sub) case None => c case Some(c') => c', path)
  {
    hide RowsAt, Zip, Delete, DropPath, CellOk;
    AlignedCell(c);
    if RemoveCell(c, group, sub).Some? { RemoveCellOk(c, group, sub); }
    if sub.None? {
      DropAt(t.rows, path, path);
      EmptyZip();
    } else if group == [] {
      DeleteAt(t.rows, path, sub.value, path);
      DeleteZip(c.subs, c.qos, sub.value);
    }
  }

  lemma EmptyZip()
    ensures Zip([], []) == []
  {
  }

  /** Nothing is listed at a path without node. */
  lemma {:induction false} NoNodeNoCell(n: Node, path: seq<Level>)
    requires !HasNode(n, path)
    ensures CellAt(n, path) == EMPTY_CELL
    decreases |path|
  {
    if path[0] in n.nodes { NoNodeNoCell(n.nodes[path[0]], path[1..]); }
  }

  lemma UnsubscribeAgrees(n: Node, t: Table, group: seq<byte>, topic: seq<byte>, sub: Option<Sub>, path: seq<Level>)
    requires TrieOk(n) && AgreeAt(t, CellAt(n, path), path) && Split(topic).Levels?
    ensures AgreeAt(TableUnsubscribe(t, group, Split(topic).levels, sub),
                    CellAt(Remove(n, group, topic, sub).0, path), path)
  {
    hide Remove, AgreeAt, TableUnsubscribe, RemoveCell, TrieOk;
    RemoveEdits(n, group, topic, sub, path);
    var at, c := Split(topic).levels, CellAt(n, path);
    if path != at {
      UnsubscribeElsewhere(t, c, group, at, sub, path);
    } else {
      UnsubscribeCellAgrees(t, c, group, sub, path);
      if !HasNode(n, at) {
        NoNodeNoCell(n, at);
        EmptyCellRemoval(group, sub);
      }
    }
  }

  /** Removing from an empty cell leaves it empty. */
  lemma EmptyCellRemoval(group: seq<byte>, sub: Option<Sub>)
    ensures (match RemoveCell(EMPTY_CELL, group, sub) case None => EMPTY_CELL case Some(c') => c') == EMPTY_CELL
  {
  }

  // ------------------------------------------------------------------
  // Every run of calls
  // ------------------------------------------------------------------

  lemma StepAgrees(n: Node, t: Table, c: Call)
    requires Agrees(n, t) && TrieOk(n)
    ensures Agrees(TrieStep(n, c), TableStep(t, c)) && TrieOk(TrieStep(n, c))
  {
    hide Insert, Remove, AgreeAt, TableSubscribe, TableUnsubscribe, TrieOk, CellAt;
    var (group, topic) := GroupName(c.topic);
    if c.Subscribe? && c.qos <= 2 && c.who.Some? {
      InsertKeepsOk(n, group, topic, c.qos, c.who.value);
    } else if c.Unsubscribe? {
      RemoveKeepsOk(n, group, topic, c.who);
    }
    forall path: seq<Level>
      ensures AgreeAt(TableStep(t, c), CellAt(TrieStep(n, c), path), path)
    {
      assert AgreeAt(t, CellAt(n, path), path);
      if Split(topic).Levels? {
        if c.Subscribe? && c.qos <= 2 && c.who.Some? {
          SubscribeAgrees(n, t, group, topic, c.qos, c.who.value, path);
        } else if c.Unsubscribe? {
          UnsubscribeAgrees(n, t, group, topic, c.who, path);
        }
      } else {
        BadFilterAgrees(n, c, path);
      }
    }
  }

  lemma BadFilterAgrees(n: Node, c: Call, path: seq<Level>)
    requires TrieOk(n) && Split(GroupName(c.topic).1).BadPath?
    ensures CellAt(TrieStep(n, c), path) == CellAt(n, path)
  {
    hide Insert, Remove, RemoveCell, InsertCell, TrieOk;
    var (group, topic) := GroupName(c.topic);
    if c.Subscribe? && c.who.Some? {
      InsertEdits(n, group, topic, c.qos, c.who.value, path);
    } else if c.Unsubscribe? {
      RemoveEdits(n, group, topic, c.who, path);
    }
  }

  lemma {:induction false} RunAgrees(calls: seq<Call>)
    ensures Agrees(TrieRun(calls), TableRun(calls)) && TrieOk(TrieRun(calls))
    decreases |calls|
  {
    hide Agrees, TrieOk, TrieStep, TableStep;
    if calls == [] {
      NewAgrees();
    } else {
      RunAgrees(calls[..|calls| - 1]);
      StepAgrees(TrieRun(calls[..|calls| - 1]), TableRun(calls[..|calls| - 1]), calls[|calls| - 1]);
    }
  }

  lemma NewAgrees()
    ensures Agrees(NewNode(), Table([], map[])) && TrieOk(NewNode())
  {
    forall path: seq<Level>
      ensures AgreeAt(Table([], map[]), CellAt(NewNode(), path), path) && CellOk(CellAt(NewNode(), path))
    {
      NewNodeIsEmpty(path);
    }
  }

  // ------------------------------------------------------------------
  // Nothing is left behind
  // ------------------------------------------------------------------

  predicate Parses(c: Call) {
    Split(GroupName(c.topic).1).Levels?
  }

  /** While every filter parses, no run leaves a node without use. */
  lemma {:induction false} RunFertile(calls: seq<Call>)
    requires forall i | 0 <= i < |calls| :: Parses(calls[i])
    ensures Fertile(TrieRun(calls))
    decreases |calls|
  {
    hide Fertile, Insert, Remove, Split;
    if calls == [] {
      NewFertile();
    } else {
      var before, c := calls[..|calls| - 1], calls[|calls| - 1];
      RunFertile(before);
      var (group, topic) := GroupName(c.topic);
      assert Parses(c);
      if c.Subscribe? && c.qos <= 2 && c.who.Some? {
        InsertKeepsFertile(TrieRun(before), group, topic, c.qos, c.who.value);
      } else if c.Unsubscribe? {
        RemoveKeepsFertile(TrieRun(before), group, topic, c.who);
      }
    }
  }

  lemma NewFertile()
    ensures Fertile(NewNode())
  {
  }

  /** Once the last subscription is gone, so is every node. */
  lemma NothingLeft(calls: seq<Call>)
    requires forall i | 0 <= i < |calls| :: Parses(calls[i])
    requires TableRun(calls) == Table([], map[])
    ensures TrieRun(calls) == NewNode()
  {
    hide TrieRun, TableRun, Fertile;
    var n := TrieRun(calls);
    RunAgrees(calls);
    RunFertile(calls);
    forall path: seq<Level>
      ensures CellAt(n, path) == EMPTY_CELL
    {
      assert AgreeAt(TableRun(calls), CellAt(n, path), path);
      EmptyRows(CellAt(n, path), path);
    }
    AllEmpty(n);
  }

  lemma EmptyRows(c: Cell, path: seq<Level>)
    requires AgreeAt(Table([], map[]), c, path)
    ensures c == EMPTY_CELL
  {
    assert c.groups == map[];
  }

  /** A trie with a node has something stored somewhere. */
  lemma {:induction false} AllEmpty(n: Node)
    requires Fertile(n) && forall path: seq<Level> :: CellAt(n, path) == EMPTY_CELL
    ensures n == NewNode()
  {
    assert CellAt(n, []) == EMPTY_CELL;
    if n.nodes != map[] {
      var l :| l in n.nodes;
      var c := n.nodes[l];
      forall path: seq<Level>
        ensures CellAt(c, path) == EMPTY_CELL
      {
        ChildCells(n, l, path);
      }
      AllEmpty(c);
      assert false;
    }
  }

  // ------------------------------------------------------------------
  // When unsubscribing succeeds
  // ------------------------------------------------------------------

  /** The table lists the subscriber under the filter, or as a member of the group of the filter. */
  predicate Subscribed(t: Table, group: seq<byte>, path: seq<Level>, sub: Sub) {
    if group == [] then exists r | r in t.rows :: r.path == path && r.sub == sub
    else sub in Members(t, path, group)
  }

  lemma {:induction false} RowsAtHas(rows: seq<Row>, path: seq<Level>, sub: Sub)
    ensures (exists r | r in rows :: r.path == path && r.sub == sub)
       <==> exists q: nat :: (sub, q) in RowsAt(rows, path)
    decreases |rows|
  {
    if rows != [] {
      RowsAtHas(rows[1..], path, sub);
      var here := if rows[0].path == path then [(rows[0].sub, rows[0].qos)] else [];
      assert rows == [rows[0]] + rows[1..];
      assert RowsAt(rows, path) == here + RowsAt(rows[1..], path);
      if exists q: nat :: (sub, q) in RowsAt(rows[1..], path) {
        var q: nat :| (sub, q) in RowsAt(rows[1..], path);
        assert (sub, q) in RowsAt(rows, path);
      }
      if rows[0].path == path && rows[0].sub == sub { assert (sub, rows[0].qos) in RowsAt(rows, path); }
      if exists q: nat :: (sub, q) in RowsAt(rows, path) {
        var q: nat :| (sub, q) in RowsAt(rows, path);
        assert (sub, q) in here || (sub, q) in RowsAt(rows[1..], path);
      }
    }
  }

  lemma {:induction false} ZipHas(subs: seq<Sub>, qs: seq<nat>, sub: Sub)
    requires |subs| == |qs|
    ensures sub in subs <==> exists q: nat :: (sub, q) in Zip(subs, qs)
    decreases |subs|
  {
    if subs != [] {
      ZipHas(subs[1..], qs[1..], sub);
      var z := Zip(subs[1..], qs[1..]);
      assert Zip(subs, qs) == [(subs[0], qs[0])] + z;
      if exists q: nat :: (sub, q) in z {
        var q: nat :| (sub, q) in z;
        assert (sub, q) in Zip(subs, qs);
      }
      if subs[0] == sub { assert (sub, qs[0]) in Zip(subs, qs); }
      if exists q: nat :: (sub, q) in Zip(subs, qs) {
        var q: nat :| (sub, q) in Zip(subs, qs);
        assert (sub, q) == (subs[0], qs[0]) || (sub, q) in z;
      }
    }
  }

  /** A named subscriber can be removed from a cell exactly when the table lists it there. */
  lemma RemovableCell(t: Table, c: Cell, group: seq<byte>, path: seq<Level>, sub: Sub)
    requires AgreeAt(t, c, path)
    ensures RemoveCell(c, group, Some(sub)).Some? <==> Subscribed(t, group, path, sub)
  {
    hide RowsAt, Zip, CellOk;
    AlignedCell(c);
    if group == [] {
      RowsAtHas(t.rows, path, sub);
      ZipHas(c.subs, c.qos, sub);
    }
  }

  lemma RemovableExactly(n: Node, t: Table, group: seq<byte>, topic: seq<byte>, sub: Sub)
    requires Agrees(n, t) && Split(topic).Levels?
    ensures Removable(n, group, topic, Some(sub)) <==> Subscribed(t, group, Split(topic).levels, sub)
  {
    hide RemoveCell, Subscribed, AgreeAt, Split;
    var path := Split(topic).levels;
    assert AgreeAt(t, CellAt(n, path), path);
    RemovableCell(t, CellAt(n, path), group, path, sub);
    if !HasNode(n, path) {
      NoNodeNoCell(n, path);
      NothingToRemove(group, sub);
    }
  }

  lemma NothingToRemove(group: seq<byte>, sub: Sub)
    ensures RemoveCell(EMPTY_CELL, group, Some(sub)) == None
  {
  }
}
