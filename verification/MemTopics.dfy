/**
 The topics provider: the subscription trie and the retained-message trie behind one interface.
 Two ghost histories record the calls made, so that every answer can be stated against the flat
 tables that the same calls would have built.
 */
module MemTopics {
  import opened Bytes
  import opened Prelude
  import opened PublishCodec
  import opened TopicLevels

  import RM = RetainedMatch
  import RN = RetainedNodes
  import RT = RetainedTable
  import RTrie = RetainedTrie
  import SH = SubscriptionShape
  import SM = SubscriptionMatch
  import SN = SubscriptionNodes
  import SS = SubscriptionScan
  import ST = SubscriptionTable
  import Trie = SubscriptionTrie

  const QOS_FAILURE: nat := 0x80

  /** The answer to a published topic is the scan of the subscriptions: as many times as in the
      table, each subscriber with the smaller QoS, and one member for each matching group. The tags
      say which subscription each element comes from. */
  ghost predicate TaggedAnswer(t: ST.Table, topic: seq<Level>, q: nat, subs: seq<Trie.Sub>, qoss: seq<nat>,
                               tags: seq<SM.Tag>) {
    && |tags| == |subs| == |qoss|
    && multiset(SS.DirectPairs(tags, subs, qoss)) == multiset(SS.Scan(t.rows, topic, q))
    && SS.OnePerGroup(t, topic, tags, subs, qoss)
  }

  ghost predicate AnswersPublish(t: ST.Table, topic: seq<Level>, q: nat, subs: seq<Trie.Sub>, qoss: seq<nat>) {
    exists tags: seq<SM.Tag> :: TaggedAnswer(t, topic, q, subs, qoss, tags)
  }

  /** The answer to a filter has one message for each retained topic that it asks for. */
  ghost predicate TaggedMessages(t: RT.Rows, filter: seq<Level>, msgs: seq<Publish>, tags: seq<seq<Level>>) {
    && multiset(tags) == multiset(RM.AskedRows(t, filter))
    && |msgs| == |tags|
    && forall i | 0 <= i < |tags| :: tags[i] in t && msgs[i] == t[tags[i]]
  }

  ghost predicate AnswersFilter(t: RT.Rows, filter: seq<Level>, msgs: seq<Publish>) {
    exists tags: seq<seq<Level>> :: TaggedMessages(t, filter, msgs, tags)
  }

  class Topics {
    var sroot: SN.SNode
    var rroot: RN.RNode
    ghost var calls: seq<ST.Call>
    ghost var retains: seq<Publish>

    /** The tries are what the recorded calls make of two new nodes. */
    ghost predicate Valid()
      reads this, sroot, sroot.repr, rroot, rroot.repr
    {
      && sroot.Valid() && rroot.Valid()
      && sroot.tree == ST.TrieRun(calls)
      && rroot.tree == RT.TrieRun(retains)
    }

    constructor ()
      ensures Valid() && fresh(sroot.repr) && fresh(rroot.repr) && calls == [] && retains == []
    {
      sroot := new SN.SNode();
      rroot := new RN.RNode();
      calls, retains := [], [];
    }

    method Subscribe(topic: seq<byte>, q: nat, who: Option<Trie.Sub>) returns (granted: nat, ok: bool)
      requires Valid()
      modifies this`calls, sroot.repr
      ensures Valid() && fresh(sroot.repr - old(sroot.repr))
      ensures calls == old(calls) + [ST.Subscribe(topic, q, who)]
      ensures ok <==> q <= 2 && who.Some? && Split(GroupName(topic).1).Levels?
      ensures granted == if ok then q else QOS_FAILURE
    {
      Extend(ST.Subscribe(topic, q, who));
      calls := calls + [ST.Subscribe(topic, q, who)];
      if q > 2 || who.None? {
        return QOS_FAILURE, false;
      }
      var (group, filter) := GroupName(topic);
      Trie.InsertEdits(sroot.tree, group, filter, q, who.value, []);
      ok := sroot.SInsert(group, filter, q, who.value);
      granted := if ok then q else QOS_FAILURE;
    }

    lemma Extend(c: ST.Call)
      ensures ST.TrieRun(calls + [c]) == ST.TrieStep(ST.TrieRun(calls), c)
    {
      assert (calls + [c])[..|calls|] == calls;
    }

    method Unsubscribe(topic: seq<byte>, who: Option<Trie.Sub>) returns (ok: bool)
      requires Valid()
      modifies this`calls, sroot.repr
      ensures Valid() && sroot.repr <= old(sroot.repr)
      ensures calls == old(calls) + [ST.Unsubscribe(topic, who)]
      ensures ok <==> SH.Succeeds(ST.TableRun(old(calls)), SH.StubsRun(old(calls)), ST.Unsubscribe(topic, who))
      ensures !ok ==> sroot.tree == old(sroot.tree)
    {
      hide SN.Kids, Split, ST.Agrees, SH.Succeeds, SH.Shaped, GroupName, Trie.Remove, Trie.TrieOk;
      hide Trie.Removable, Trie.RemoveCell, Trie.CellOk, Trie.CellAt;
      Extend(ST.Unsubscribe(topic, who));
      ST.RunAgrees(calls);
      calls := calls + [ST.Unsubscribe(topic, who)];
      var (group, filter) := GroupName(topic);
      Trie.RemoveEdits(sroot.tree, group, filter, who, []);
      SH.RunShaped(old(calls));
      SH.SucceedsExactly(sroot.tree, ST.TableRun(old(calls)), SH.StubsRun(old(calls)), ST.Unsubscribe(topic, who));
      ok := sroot.SRemove(group, filter, who);
    }

    method Subscribers(topic: seq<byte>, q: nat) returns (ok: bool, subs: seq<Trie.Sub>, qoss: seq<nat>)
      requires Valid()
      ensures q <= 2 && Split(topic).Levels? ==>
                ok && AnswersPublish(ST.TableRun(calls), Split(topic).levels, q, subs, qoss)
      ensures q > 2 ==> !ok
    {
      if q > 2 {
        return false, [], [];
      }
      ST.RunAgrees(calls);
      ghost var tags;
      ok, subs, qoss, tags := SM.SMatch(sroot, topic, q);
      if Split(topic).Levels? {
        SS.AnswerIsScan(sroot.tree, ST.TableRun(calls), Split(topic).levels, q, tags, subs, qoss);
        SS.GroupsAnswered(sroot.tree, ST.TableRun(calls), Split(topic).levels, q, tags, subs, qoss);
        assert TaggedAnswer(ST.TableRun(calls), Split(topic).levels, q, subs, qoss, tags);
      }
    }

    method Retain(m: Publish) returns (ok: bool)
      requires Valid()
      modifies this`retains, rroot.repr
      ensures Valid() && fresh(rroot.repr - old(rroot.repr))
      ensures retains == old(retains) + [m]
      ensures ok <==> Split(m.topic).Levels?
                      && (m.payload == [] ==> RT.Reached(RT.TableRun(old(retains)), Split(m.topic).levels))
      ensures m.payload == [] && !ok ==> rroot.tree == old(rroot.tree)
    {
      hide Split, RN.Kids, RT.Holds, RT.Reached, RTrie.MsgAt, RTrie.HasNode, RTrie.Edited;
      RT.RunHolds(retains);
      assert (retains + [m])[..|retains|] == retains;
      retains := retains + [m];
      if |m.payload| == 0 {
        RTrie.RemoveEdits(rroot.tree, m.topic, []);
        ok := rroot.RRemove(m.topic);
      } else {
        RTrie.InsertEdits(rroot.tree, m.topic, m, []);
        ok := rroot.RInsert(m.topic, m);
      }
    }

    method Retained(filter: seq<byte>) returns (ok: bool, msgs: seq<Publish>)
      requires Valid()
      ensures Split(filter).Levels? ==>
                ok && AnswersFilter(RT.TableRun(retains).rows, Split(filter).levels, msgs)
    {
      ok, msgs := RM.RMatch(rroot, filter);
      if Split(filter).Levels? {
        RT.RunHolds(retains);
        ghost var tags := RM.AnsweredIsScan(rroot.tree, RT.TableRun(retains).rows, Split(filter).levels, msgs);
        assert TaggedMessages(RT.TableRun(retains).rows, Split(filter).levels, msgs, tags);
      }
    }
  }
}
