/**
 When two topics or filters are one to the broker: a trailing empty level vanishes, so a topic and
 the same topic with a separator at its end have the same levels.
 */
module Spelling {
  import opened Bytes
  import opened PublishCodec
  import opened TopicLevels

  predicate NoWildcards(t: seq<byte>) {
    HASH !in t && PLUS !in t
  }

  /** s is t with a separator added to a last level that is not empty. */
  predicate Trails(s: seq<byte>, t: seq<byte>) {
    s == t + [SEP] && t != [] && t[|t| - 1] != SEP
  }

  lemma FirstOf(t: seq<byte>)
    ensures var k := FirstSep(t);
            k < |t| ==> t == t[..k] + [SEP] + t[k + 1..]
  {
  }

  /** What the first level says about a topic without wildcards. */
  lemma NextWithoutWildcards(t: seq<byte>)
    requires NoWildcards(t) && t != [] && NextLevel(t).Parsed?
    ensures var k := FirstSep(t);
            && NoWildcards(NextLevel(t).rest)
            && (k == |t| ==> t == NextLevel(t).level && NextLevel(t).rest == [])
            && (k == |t| ==> SEP !in t && NextLevel(t).level != SWC)
            && (k < |t| ==> t == t[..k] + [SEP] + NextLevel(t).rest)
            && (k < |t| && k > 0 ==> NextLevel(t).level == t[..k] && NextLevel(t).level != SWC)
            && (k == 0 ==> NextLevel(t).level == SWC)
  {
    FirstOf(t);
    var k := FirstSep(t);
    assert t[..|t|] == t;
    assert forall c | c in t[..k] :: c in t;
    if k < |t| { assert forall c | c in t[k + 1..] :: c in t; }
    assert SWC[0] == PLUS;
  }

  lemma SplitEmpty(t: seq<byte>)
    ensures Split(t) == Levels([]) <==> t == []
  {
  }

  /** A separator after a last level that is not empty changes nothing. */
  lemma {:induction false} TrailingSeparator(t: seq<byte>)
    requires NoWildcards(t) && t != [] && t[|t| - 1] != SEP
    ensures Split(t + [SEP]) == Split(t)
    decreases |t|
  {
    var s, k := t + [SEP], FirstSep(t);
    if k == |t| {
      FirstSepIs(s, k);
      assert s[..k] == t && t[..k] == t && s[k + 1..] == [];
      assert MWC[0] == HASH;
    } else {
      assert s[..k] == t[..k];
      FirstSepIs(s, k);
      var r := t[k + 1..];
      assert r != [] && r[|r| - 1] == t[|t| - 1];
      assert s[k + 1..] == r + [SEP];
      assert forall c | c in r :: c in t;
      TrailingSeparator(r);
    }
  }

  /** Levels are equal only for equal topics and for such a pair. */
  lemma {:induction false} EqualLevels(s: seq<byte>, t: seq<byte>)
    requires NoWildcards(s) && NoWildcards(t) && Split(s).Levels? && Split(s) == Split(t)
    ensures s == t || Trails(s, t) || Trails(t, s)
    decreases |s|
  {
    hide NextLevel, FirstSep;
    SplitEmpty(s);
    SplitEmpty(t);
    if s != [] && t != [] {
      SplitStep(s);
      SplitStep(t);
      NextWithoutWildcards(s);
      NextWithoutWildcards(t);
      var rs, rt := NextLevel(s).rest, NextLevel(t).rest;
      EqualLevels(rs, rt);
      SameFirst(s, t, rs, rt);
    }
  }

  lemma SameFirst(s: seq<byte>, t: seq<byte>, rs: seq<byte>, rt: seq<byte>)
    requires s != [] && t != [] && NoWildcards(s) && NoWildcards(t)
    requires NextLevel(s).Parsed? && NextLevel(t).Parsed? && NextLevel(s).level == NextLevel(t).level
    requires rs == NextLevel(s).rest && rt == NextLevel(t).rest
    requires rs == [] <==> rt == []
    requires rs == rt || Trails(rs, rt) || Trails(rt, rs)
    ensures s == t || Trails(s, t) || Trails(t, s)
  {
    hide NextLevel, FirstSep, NoWildcards, Trails;
    NextWithoutWildcards(s);
    NextWithoutWildcards(t);
    var j, k := FirstSep(s), FirstSep(t);
    if j < |s| && k < |t| {
      assert s[..j] == t[..k];
      TrailsBehind(s[..j] + [SEP], rs, rt);
    } else if j < |s| {
      OnlySeparator(s, t, j);
    } else if k < |t| {
      OnlySeparator(t, s, k);
    }
  }

  lemma TrailsBehind(l: seq<byte>, rs: seq<byte>, rt: seq<byte>)
    ensures Trails(rs, rt) ==> Trails(l + rs, l + rt)
    ensures Trails(rt, rs) ==> Trails(l + rt, l + rs)
  {
    assert l + (rt + [SEP]) == (l + rt) + [SEP];
    assert l + (rs + [SEP]) == (l + rs) + [SEP];
  }

  lemma OnlySeparator(s: seq<byte>, t: seq<byte>, k: nat)
    requires k < |s| && s == s[..k] + [SEP] + [] && s[..k] == t && t != [] && SEP !in t
    ensures Trails(s, t)
  {
    assert t[|t| - 1] in t;
  }

  /** Valid topics that parse have the same levels if and only if they are equal but for a separator
      after a last level that is not empty. */
  lemma SameLevelsExactly(s: seq<byte>, t: seq<byte>)
    requires ValidTopic(s) && ValidTopic(t) && Split(s).Levels? && Split(t).Levels?
    ensures Split(s) == Split(t) <==> s == t || Trails(s, t) || Trails(t, s)
  {
    if Split(s) == Split(t) { EqualLevels(s, t); }
    if Trails(s, t) { TrailingSeparator(t); }
    if Trails(t, s) { TrailingSeparator(s); }
  }

  /** The filters "a//b" and "a/+/b" are one. */
  lemma EmptyLevelIsPlus()
    ensures var levels: seq<Level> := [[0x61], SWC, [0x62]];
            Split([0x61, SEP, SEP, 0x62]) == Levels(levels) && Split([0x61, SEP, PLUS, SEP, 0x62]) == Levels(levels)
  {
    FirstSepIs([0x62], 1);
    FirstSepIs([SEP, 0x62], 0);
    FirstSepIs([0x61, SEP, SEP, 0x62], 1);
    FirstSepIs([PLUS, SEP, 0x62], 1);
    FirstSepIs([0x61, SEP, PLUS, SEP, 0x62], 1);
    assert NextLevel([0x62]) == Parsed([0x62], []);
    assert NextLevel([SEP, 0x62]) == Parsed(SWC, [0x62]);
    assert NextLevel([0x61, SEP, SEP, 0x62]) == Parsed([0x61], [SEP, 0x62]);
    assert NextLevel([PLUS, SEP, 0x62]) == Parsed(SWC, [0x62]);
    assert NextLevel([0x61, SEP, PLUS, SEP, 0x62]) == Parsed([0x61], [PLUS, SEP, 0x62]);
    hide NextLevel;
    SplitStep([0x62]);
    SplitStep([SEP, 0x62]);
    SplitStep([0x61, SEP, SEP, 0x62]);
    SplitStep([PLUS, SEP, 0x62]);
    SplitStep([0x61, SEP, PLUS, SEP, 0x62]);
  }
}
