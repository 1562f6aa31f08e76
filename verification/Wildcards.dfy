/**
 How the two matchers relate to section 4.7.1 of MQTT 3.1.1, where "#" stands for the parent level
 and any number of child levels. Both are compared over the broker's own split into levels.
 */
module Wildcards {
  import opened Bytes
  import opened TopicLevels

  import RM = RetainedMatch
  import SM = SubscriptionMatch

  /** "#" stands alone or last. */
  ghost predicate HashLast(filter: seq<Level>) {
    forall i | 0 <= i < |filter| - 1 :: filter[i] != MWC
  }

  /** One level of a filter against one level of a topic. */
  predicate LevelMatches(f: Level, t: Level) {
    f == SWC || f == t
  }

  /** The rule of the standard: as many levels as the topic, or the levels before "#" match its front. */
  ghost predicate Standard(filter: seq<Level>, topic: seq<Level>) {
    if filter != [] && filter[|filter| - 1] == MWC then
      |filter| - 1 <= |topic| && forall i | 0 <= i < |filter| - 1 :: LevelMatches(filter[i], topic[i])
    else
      |filter| == |topic| && forall i | 0 <= i < |filter| :: LevelMatches(filter[i], topic[i])
  }

  /** Splitting never lets "#" through before the end. */
  lemma {:induction false} SplitPutsHashLast(t: seq<byte>)
    requires Split(t).Levels?
    ensures HashLast(Split(t).levels)
    decreases |t|
  {
    if t != [] {
      SplitStep(t);
      SplitPutsHashLast(NextLevel(t).rest);
    }
  }

  lemma StandardStep(filter: seq<Level>, topic: seq<Level>)
    requires HashLast(filter) && filter != [] && filter[0] != MWC
    ensures HashLast(filter[1..])
    ensures Standard(filter, topic)
       <==> topic != [] && LevelMatches(filter[0], topic[0]) && Standard(filter[1..], topic[1..])
  {
    var f := filter[1..];
    assert f != [] ==> f[|f| - 1] == filter[|filter| - 1];
    assert forall i | 0 < i < |filter| :: filter[i] == f[i - 1];
    if topic != [] {
      var t := topic[1..];
      assert forall i | 0 < i < |topic| :: topic[i] == t[i - 1];
    }
  }

  /** Retained messages are found by the standard's rule. */
  lemma {:induction false} AsksIsStandard(filter: seq<Level>, topic: seq<Level>)
    requires HashLast(filter)
    ensures RM.Asks(filter, topic) <==> Standard(filter, topic)
    decreases |filter|
  {
    if filter != [] && filter[0] != MWC {
      StandardStep(filter, topic);
      if topic != [] { AsksIsStandard(filter[1..], topic[1..]); }
    }
  }

  /** Subscriptions are matched by the standard's rule except that "#" does not stand for its
      parent level: a filter that ends in "#" misses exactly the topics that stop there. */
  lemma {:induction false} MatchesIsStandardButParent(filter: seq<Level>, topic: seq<Level>)
    requires HashLast(filter)
    ensures SM.Matches(filter, topic)
       <==> Standard(filter, topic) && !(|filter| == |topic| + 1 && filter[|topic|] == MWC)
    decreases |filter|
  {
    if filter != [] && filter[0] != MWC {
      StandardStep(filter, topic);
      if topic != [] { MatchesIsStandardButParent(filter[1..], topic[1..]); }
    }
  }

  /** The filter "a/#" does not find a subscriber for the topic "a", though the standard says it
      should; as a query for retained messages it does find "a". */
  lemma HashMissesParent()
    ensures Split([0x61, SEP, HASH]) == Levels([[0x61], MWC]) && Split([0x61]) == Levels([[0x61]])
    ensures Standard([[0x61], MWC], [[0x61]])
    ensures !SM.Matches([[0x61], MWC], [[0x61]]) && RM.Asks([[0x61], MWC], [[0x61]])
  {
    FirstSepIs([0x61, SEP, HASH], 1);
    FirstSepIs([HASH], 1);
    FirstSepIs([0x61], 1);
    assert NextLevel([0x61, SEP, HASH]) == Parsed([0x61], [HASH]);
    assert NextLevel([HASH]) == Parsed(MWC, []);
    assert NextLevel([0x61]) == Parsed([0x61], []);
    SplitStep([0x61, SEP, HASH]);
    SplitStep([HASH]);
    SplitStep([0x61]);
    var f, t: seq<Level> := [[0x61], MWC], [[0x61]];
    assert f[1..] == [MWC] && t[1..] == [];
  }
}
