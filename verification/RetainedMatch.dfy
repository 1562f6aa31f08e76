/**
 Finding the retained messages a filter asks for. The order in which a Go map is walked is left
 open, as it is in the source.
 */
module RetainedMatch {
  import opened Bytes
  import opened Prelude
  import opened PublishCodec
  import opened RetainedNodes
  import opened RetainedTable
  import opened RetainedTrie
  import opened TopicLevels

  type TopicPath = seq<Level>

  /** A filter asks for a retained topic. Here "#" also takes the level it follows. */
  predicate Asks(filter: TopicPath, topic: TopicPath)
    decreases |filter|
  {
    if filter == [] then topic == []
    else if filter[0] == MWC then true
    else topic != [] && (filter[0] == SWC || filter[0] == topic[0]) && Asks(filter[1..], topic[1..])
  }

  ghost predicate NoRepeats(tags: seq<TopicPath>) {
    forall i, j | 0 <= i < j < |tags| :: tags[i] != tags[j]
  }

  /** The messages are, once each, those held at the wanted topics; the tags say which is which. */
  ghost predicate Answers(n: Node, wanted: iset<TopicPath>, tags: seq<TopicPath>, msgs: seq<Publish>) {
    && |tags| == |msgs|
    && NoRepeats(tags)
    && (forall i | 0 <= i < |tags| :: tags[i] in wanted && MsgAt(n, tags[i]) == Some(msgs[i]))
    && (forall p | p in wanted && MsgAt(n, p).Some? :: p in tags)
  }

  /** The messages are, once each, those held at the wanted topics. */
  ghost predicate Answered(n: Node, wanted: iset<TopicPath>, msgs: seq<Publish>) {
    exists tags: seq<TopicPath> :: Answers(n, wanted, tags, msgs)
  }

  ghost function Wanted(filter: TopicPath): iset<TopicPath> {
    iset p: TopicPath | Asks(filter, p)
  }

  ghost function Everything(): iset<TopicPath> {
    Wanted([MWC])
  }

  /** The wanted topics that are at this node or begin with a level already visited. */
  ghost function Part(wanted: iset<TopicPath>, done: set<Level>): iset<TopicPath> {
    iset p | p in wanted && (p != [] ==> p[0] in done)
  }

  ghost function Below(k: Level, wanted: iset<TopicPath>): iset<TopicPath> {
    iset p: TopicPath | [k] + p in wanted
  }

  ghost function Under(k: Level, tags: seq<TopicPath>): (r: seq<TopicPath>)
    ensures |r| == |tags|
  {
    seq(|tags|, i requires 0 <= i < |tags| => [k] + tags[i])
  }

  // ------------------------------------------------------------------
  // Collecting, one child at a time
  // ------------------------------------------------------------------

  ghost function Own(n: Node): seq<Publish> {
    if n.msg.Some? then [n.msg.value] else []
  }

  ghost function OwnTag(n: Node): seq<TopicPath> {
    if n.msg.Some? then [[]] else []
  }

  lemma OwnAnswers(n: Node, wanted: iset<TopicPath>)
    requires [] in wanted
    ensures Answers(n, Part(wanted, {}), OwnTag(n), Own(n))
  {
  }

  lemma RootAnswers(n: Node)
    ensures Answers(n, Part(Everything(), {}), OwnTag(n), Own(n))
  {
    OwnAnswers(n, Everything());
  }

  lemma NoneAnswers(n: Node, wanted: iset<TopicPath>)
    requires [] !in wanted
    ensures Answers(n, Part(wanted, {}), [], [])
  {
  }

  lemma UnderMembers(k: Level, tags: seq<TopicPath>, p: TopicPath)
    ensures p in Under(k, tags) <==> p != [] && p[0] == k && p[1..] in tags
  {
    var r := Under(k, tags);
    if p in r {
      var i :| 0 <= i < |r| && r[i] == p;
      assert p[1..] == tags[i];
    }
    if p != [] && p[0] == k && p[1..] in tags {
      var i :| 0 <= i < |tags| && tags[i] == p[1..];
      assert p == [k] + p[1..];
      assert r[i] == p;
    }
  }

  lemma UnderNoRepeats(k: Level, tags: seq<TopicPath>)
    requires NoRepeats(tags)
    ensures NoRepeats(Under(k, tags))
  {
    var r := Under(k, tags);
    forall i, j | 0 <= i < j < |r|
      ensures r[i] != r[j]
    {
      assert r[i][1..] == tags[i] && r[j][1..] == tags[j];
    }
  }

  lemma ConcatNoRepeats(a: seq<TopicPath>, b: seq<TopicPath>)
    requires NoRepeats(a) && NoRepeats(b)
    requires forall p | p in a :: p !in b
    ensures NoRepeats(a + b)
  {
    forall i, j | 0 <= i < j < |a + b|
      ensures (a + b)[i] != (a + b)[j]
    {
      if i < |a| <= j { assert a[i] in a && b[j - |a|] in b; }
    }
  }

  /** The wanted topics that begin with level k. */
  ghost function Through(k: Level, wanted: iset<TopicPath>): iset<TopicPath> {
    iset p | p in wanted && p != [] && p[0] == k
  }

  /** What a child answers, seen from its parent. */
  lemma ChildAnswers(n: Node, wanted: iset<TopicPath>, k: Level, below: seq<TopicPath>, more: seq<Publish>)
    requires k in n.nodes && Answers(n.nodes[k], Below(k, wanted), below, more)
    ensures Answers(n, Through(k, wanted), Under(k, below), more)
  {
    hide MsgAt, NoRepeats;
    UnderNoRepeats(k, below);
    forall i | 0 <= i < |below|
      ensures [k] + below[i] in Through(k, wanted) && MsgAt(n, [k] + below[i]) == Some(more[i])
    {
      MsgBelow(n, k, below[i]);
    }
    forall p | p in Through(k, wanted) && MsgAt(n, p).Some?
      ensures p in Under(k, below)
    {
      assert p == [k] + p[1..];
      MsgBelow(n, k, p[1..]);
      UnderMembers(k, below, p);
    }
  }

  lemma BothAnswer(n: Node, a: iset<TopicPath>, b: iset<TopicPath>, tags: seq<TopicPath>, msgs: seq<Publish>,
                   tags1: seq<TopicPath>, msgs1: seq<Publish>)
    requires Answers(n, a, tags, msgs) && Answers(n, b, tags1, msgs1) && a !! b
    ensures Answers(n, a + b, tags + tags1, msgs + msgs1)
  {
    hide MsgAt, NoRepeats;
    ConcatNoRepeats(tags, tags1);
  }

  /** Adding what one more child answers. */
  lemma AddChild(n: Node, wanted: iset<TopicPath>, done: set<Level>, tags: seq<TopicPath>, msgs: seq<Publish>,
                 k: Level, below: seq<TopicPath>, more: seq<Publish>)
    requires Answers(n, Part(wanted, done), tags, msgs) && k in n.nodes && k !in done
    requires Answers(n.nodes[k], Below(k, wanted), below, more)
    ensures Answers(n, Part(wanted, done + {k}), tags + Under(k, below), msgs + more)
  {
    hide Answers, Under;
    ChildAnswers(n, wanted, k, below, more);
    BothAnswer(n, Part(wanted, done), Through(k, wanted), tags, msgs, Under(k, below), more);
    assert Part(wanted, done + {k}) == Part(wanted, done) + Through(k, wanted);
  }

  lemma AllChildren(n: Node, wanted: iset<TopicPath>, tags: seq<TopicPath>, msgs: seq<Publish>)
    requires Answers(n, Part(wanted, n.nodes.Keys), tags, msgs)
    ensures Answers(n, wanted, tags, msgs)
  {
  }

  lemma BelowEverything(k: Level)
    ensures Below(k, Everything()) == Everything()
  {
  }

  lemma BelowPlus(k: Level, filter: TopicPath)
    ensures Below(k, Wanted([SWC] + filter)) == Wanted(filter)
  {
    assert ([SWC] + filter)[1..] == filter;
    forall p: TopicPath
      ensures Asks([SWC] + filter, [k] + p) == Asks(filter, p)
    {
      assert ([k] + p)[1..] == p;
    }
  }

  /** Only the child named by a plain level can answer. */
  lemma OnlyNamed(n: Node, level: Level, filter: TopicPath, tags: seq<TopicPath>, msgs: seq<Publish>)
    requires level != MWC && level != SWC && level in n.nodes
    requires Answers(n.nodes[level], Wanted(filter), tags, msgs)
    ensures Answers(n, Wanted([level] + filter), Under(level, tags), msgs)
  {
    hide Answers, Under;
    var wanted := Wanted([level] + filter);
    assert ([level] + filter)[1..] == filter;
    forall p: TopicPath
      ensures Asks([level] + filter, [level] + p) == Asks(filter, p)
    {
      assert ([level] + p)[1..] == p;
    }
    assert Below(level, wanted) == Wanted(filter) && Through(level, wanted) == wanted;
    ChildAnswers(n, wanted, level, tags, msgs);
  }

  lemma NobodyNamed(n: Node, level: Level, filter: TopicPath)
    requires level != MWC && level != SWC && level !in n.nodes
    ensures Answers(n, Wanted([level] + filter), [], [])
  {
  }

  lemma HashIsEverything(filter: TopicPath)
    ensures Wanted([MWC] + filter) == Everything()
  {
  }

  lemma EndIsOwn(n: Node)
    ensures Answers(n, Wanted([]), OwnTag(n), Own(n))
  {
  }

  // ------------------------------------------------------------------
  // The walk
  // ------------------------------------------------------------------

  /** allRetained: every message at or below this node. */
  method AllRetained(n: RNode) returns (msgs: seq<Publish>)
    requires n.Valid()
    ensures Answered(n.tree, Everything(), msgs)
    decreases n.repr
  {
    hide Answers, Part, Below, Under, Everything, Kids;
    msgs := if n.msg.Some? then [n.msg.value] else [];
    ghost var tags := OwnTag(n.tree);
    RootAnswers(n.tree);
    n.SameKeys();
    var left := n.rnodes.Keys;
    ghost var done: set<Level> := {};
    while left != {}
      invariant left + done == n.rnodes.Keys && left !! done
      invariant Answers(n.tree, Part(Everything(), done), tags, msgs)
      decreases |left|
    {
      var k :| k in left;
      WithoutChild(n.rnodes, n.repr - {n}, n.tree.nodes, k);
      var more := AllRetained(n.rnodes[k]);
      ghost var below :| Answers(n.rnodes[k].tree, Everything(), below, more);
      BelowEverything(k);
      AddChild(n.tree, Everything(), done, tags, msgs, k, below, more);
      msgs, tags := msgs + more, tags + Under(k, below);
      done := done + {k};
      left := left - {k};
    }
    assert done == n.tree.nodes.Keys;
    AllChildren(n.tree, Everything(), tags, msgs);
  }

  /** rmatch: for a filter whose levels all parse, the messages appended are exactly those of the
      topics the filter asks for, once each. */
  method RMatch(n: RNode, filter: seq<byte>) returns (ok: bool, msgs: seq<Publish>)
    requires n.Valid()
    ensures Split(filter).Levels? ==> ok && Answered(n.tree, Wanted(Split(filter).levels), msgs)
    decreases |filter|, 0
  {
    hide Answers, Wanted, Under, Kids;
    if filter == [] {
      EndIsOwn(n.tree);
      return true, if n.msg.Some? then [n.msg.value] else [];
    }
    var p := NextTopicLevel(filter);
    if p.BadLevel? {
      return false, [];
    }
    var Parsed(level, rest) := p;
    SplitStep(filter);
    n.SameKeys();
    ghost var levels := if Split(rest).Levels? then Split(rest).levels else [];
    if level == MWC {
      msgs := AllRetained(n);
      HashIsEverything(levels);
      ok := true;
    } else if level == SWC {
      ok, msgs := RMatchPlus(n, rest);
    } else if level in n.rnodes {
      WithoutChild(n.rnodes, n.repr - {n}, n.tree.nodes, level);
      ok, msgs := RMatch(n.rnodes[level], rest);
      if Split(rest).Levels? {
        ghost var tags :| Answers(n.rnodes[level].tree, Wanted(levels), tags, msgs);
        OnlyNamed(n.tree, level, levels, tags, msgs);
      }
    } else {
      NobodyNamed(n.tree, level, levels);
      ok, msgs := true, [];
    }
  }

  method RMatchPlus(n: RNode, rest: seq<byte>) returns (ok: bool, msgs: seq<Publish>)
    requires n.Valid()
    ensures Split(rest).Levels? ==> ok && Answered(n.tree, Wanted([SWC] + Split(rest).levels), msgs)
    decreases |rest|, 1
  {
    hide Answers, Part, Below, Under, Split, Kids;
    ghost var parses := Split(rest).Levels?;
    ghost var filter := if parses then Split(rest).levels else [];
    ghost var wanted := Wanted([SWC] + filter);
    msgs := [];
    ghost var tags: seq<TopicPath> := [];
    NoneAnswers(n.tree, wanted);
    n.SameKeys();
    var left := n.rnodes.Keys;
    ghost var done: set<Level> := {};
    while left != {}
      invariant left + done == n.rnodes.Keys && left !! done
      invariant parses ==> Answers(n.tree, Part(wanted, done), tags, msgs)
      decreases |left|
    {
      var k :| k in left;
      WithoutChild(n.rnodes, n.repr - {n}, n.tree.nodes, k);
      var ok1, more := RMatch(n.rnodes[k], rest);
      BelowPlus(k, filter);
      if parses {
        ghost var below :| Answers(n.rnodes[k].tree, Wanted(filter), below, more);
        AddChild(n.tree, wanted, done, tags, msgs, k, below, more);
        tags := tags + Under(k, below);
      }
      msgs := msgs + more;
      if !ok1 {
        return false, msgs;
      }
      done := done + {k};
      left := left - {k};
    }
    assert done == n.tree.nodes.Keys;
    if parses { AllChildren(n.tree, wanted, tags, msgs); }
    ok := true;
  }

  // ------------------------------------------------------------------
  // The answer as a scan of the table
  // ------------------------------------------------------------------

  /** The rows of the table that the filter asks for. */
  ghost function AskedRows(t: Rows, filter: TopicPath): set<TopicPath> {
    set p | p in t && Asks(filter, p)
  }

  /** The answer lists, for each row the filter asks for, its message, and nothing else: it has as
      many messages as there are such rows, and the tags are a way to pair them off. */
  lemma AnswerIsScan(n: Node, t: Rows, filter: TopicPath, tags: seq<TopicPath>, msgs: seq<Publish>)
    requires Holds(n, t) && Answers(n, Wanted(filter), tags, msgs)
    ensures multiset(tags) == multiset(AskedRows(t, filter))
    ensures |msgs| == |tags| && forall i | 0 <= i < |tags| :: tags[i] in t && msgs[i] == t[tags[i]]
  {
    hide MsgAt;
    forall p: TopicPath
      ensures p in tags <==> p in AskedRows(t, filter)
    {
      assert MsgAt(n, p) == Lookup(t, p);
    }
    forall i | 0 <= i < |tags|
      ensures tags[i] in t && msgs[i] == t[tags[i]]
    {
      assert MsgAt(n, tags[i]) == Lookup(t, tags[i]);
    }
    DistinctIsSet(tags, AskedRows(t, filter));
  }

  /** An answer is one to the rows of the table that the filter asks for. */
  lemma AnsweredIsScan(n: Node, t: Rows, filter: TopicPath, msgs: seq<Publish>) returns (tags: seq<TopicPath>)
    requires Holds(n, t) && Answered(n, Wanted(filter), msgs)
    ensures multiset(tags) == multiset(AskedRows(t, filter))
    ensures |msgs| == |tags| && forall i | 0 <= i < |tags| :: tags[i] in t && msgs[i] == t[tags[i]]
  {
    tags :| Answers(n, Wanted(filter), tags, msgs);
    AnswerIsScan(n, t, filter, tags, msgs);
  }

  lemma {:induction false} DistinctIsSet(tags: seq<TopicPath>, s: set<TopicPath>)
    requires NoRepeats(tags) && forall p :: p in tags <==> p in s
    ensures multiset(tags) == multiset(s)
  {
    if tags == [] {
      assert s == {};
    } else {
      var init, last := tags[..|tags| - 1], tags[|tags| - 1];
      assert tags == init + [last];
      forall p
        ensures p in init <==> p in s - {last}
      {
        assert p in tags <==> p in init || p == last;
      }
      DistinctIsSet(init, s - {last});
      assert s == (s - {last}) + {last};
    }
  }
}
