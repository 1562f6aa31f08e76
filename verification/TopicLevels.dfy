/**
 Splitting topics and filters into levels, the way the broker does it: an empty level that is
 followed by a separator reads as "+", a trailing empty level vanishes, and a level that starts
 with "$" or misplaces a wildcard is an error.
 */
module TopicLevels {
  import opened Bytes

  const SEP: byte := 0x2f
  const DOLLAR: byte := 0x24

  type Level = seq<byte>

  const MWC: Level := [HASH]
  const SWC: Level := [PLUS]

  datatype Parsed = Parsed(level: Level, rest: seq<byte>) | BadLevel

  /** The position of the first separator, or the length. */
  function FirstSep(t: seq<byte>): (k: nat)
    ensures k <= |t| && SEP !in t[..k] && (k < |t| ==> t[k] == SEP)
  {
    if t == [] || t[0] == SEP then 0 else 1 + FirstSep(t[1..])
  }

  predicate Wildcard(c: byte) {
    c == HASH || c == PLUS
  }

  /** No leading "$", no wildcard after the first character, and nothing but "$" right after a
      leading wildcard. */
  predicate GoodLevel(l: Level) {
    && (forall i: nat | 0 < i < |l| :: !Wildcard(l[i]))
    && (|l| > 0 ==> l[0] != DOLLAR)
    && (|l| > 1 && Wildcard(l[0]) ==> l[1] == DOLLAR)
  }

  /** What nextTopicLevel computes: the first level and what follows its separator. */
  function NextLevel(t: seq<byte>): Parsed {
    var k := FirstSep(t);
    var l := t[..k];
    if !GoodLevel(l) then BadLevel
    else if k == |t| then Parsed(l, [])
    else if l == MWC then BadLevel
    else Parsed(if k == 0 then SWC else l, t[k + 1..])
  }

  datatype ScanState = CHR | MultiWC | SingleWC | SYS

  /** The state of the scan after a good, separator-free prefix. */
  function StateAfter(l: Level): ScanState {
    if l == [] then CHR
    else if l[|l| - 1] == HASH then MultiWC
    else if l[|l| - 1] == PLUS then SingleWC
    else if l[|l| - 1] == DOLLAR then SYS
    else CHR
  }

  lemma FirstSepIs(t: seq<byte>, k: nat)
    requires k <= |t| && SEP !in t[..k] && (k < |t| ==> t[k] == SEP)
    ensures FirstSep(t) == k
  {
    var j := FirstSep(t);
    assert forall i: nat | i < k :: t[..k][i] == t[i] != SEP;
    assert forall i: nat | i < j :: t[..j][i] == t[i] != SEP;
  }

  /** The scan, character by character. */
  method NextTopicLevel(topic: seq<byte>) returns (r: Parsed)
    ensures r == NextLevel(topic)
  {
    var s := CHR;
    var k := 0;
    ghost var n := FirstSep(topic);
    while k < |topic|
      invariant k <= n && GoodLevel(topic[..k]) && s == StateAfter(topic[..k])
      invariant SEP !in topic[..k]
    {
      var c := topic[k];
      ghost var l := topic[..k + 1];
      assert topic[..n][..k] == topic[..k];
      if c == SEP {
        FirstSepIs(topic, k);
        if s == MultiWC {
          LastHash(topic[..k]);
          return BadLevel;
        }
        assert topic[..k] != MWC;
        return if k == 0 then Parsed(SWC, topic[1..]) else Parsed(topic[..k], topic[k + 1..]);
      }
      assert k < n;
      if !Continues(s, k, c) {
        NotGood(topic, n, k);
        return BadLevel;
      }
      StillGood(topic[..k], c);
      assert topic[..k + 1] == topic[..k] + [c];
      s := if c == HASH then MultiWC else if c == PLUS then SingleWC else if c == DOLLAR then SYS else CHR;
      k := k + 1;
    }
    assert n == |topic| && topic[..n] == topic;
    return Parsed(topic, []);
  }

  /** The scan goes on after character c at index k. */
  predicate Continues(s: ScanState, k: nat, c: byte) {
    if Wildcard(c) then k == 0
    else if c == DOLLAR then k != 0
    else s != MultiWC && s != SingleWC
  }

  lemma LastHash(l: Level)
    requires GoodLevel(l) && StateAfter(l) == MultiWC
    ensures l == MWC
  {
  }

  lemma StillGood(l: Level, c: byte)
    requires GoodLevel(l) && Continues(StateAfter(l), |l|, c)
    ensures GoodLevel(l + [c])
  {
    if |l| > 1 { assert !Wildcard(l[|l| - 1]); }
  }

  lemma NotGood(topic: seq<byte>, n: nat, k: nat)
    requires k < n <= |topic| && GoodLevel(topic[..k]) && !Continues(StateAfter(topic[..k]), k, topic[k])
    ensures !GoodLevel(topic[..n])
  {
    var l := topic[..n];
    assert l[k] == topic[k];
    if k > 0 && !Wildcard(topic[k]) && topic[k] != DOLLAR {
      assert Wildcard(topic[..k][k - 1]);
      assert k == 1;
    }
  }

  // ------------------------------------------------------------------
  // Whole topics
  // ------------------------------------------------------------------

  datatype Path = Levels(levels: seq<Level>) | BadPath

  /** All levels of a topic, or an error if one of them is bad. */
  function Split(t: seq<byte>): Path
    decreases |t|
  {
    if t == [] then Levels([])
    else
      match NextLevel(t)
      case BadLevel => BadPath
      case Parsed(l, rest) =>
        match Split(rest)
        case BadPath => BadPath
        case Levels(ls) => Levels([l] + ls)
  }

  /** The levels in front of the first bad one: all of them if there is none. */
  function GoodLevels(t: seq<byte>): (ls: seq<Level>)
    ensures Split(t).Levels? ==> ls == Split(t).levels
    decreases |t|
  {
    if t == [] then []
    else
      match NextLevel(t)
      case BadLevel => []
      case Parsed(l, rest) => [l] + GoodLevels(rest)
  }

  lemma RestIsShorter(topic: seq<byte>)
    requires topic != [] && NextLevel(topic).Parsed?
    ensures |NextLevel(topic).rest| < |topic|
  {
  }

  lemma SplitStep(topic: seq<byte>)
    requires topic != [] && NextLevel(topic).Parsed?
    ensures var Parsed(l, rest) := NextLevel(topic);
            && |rest| < |topic|
            && Split(topic).Levels? == Split(rest).Levels?
            && (Split(topic).Levels? ==>
                  Split(topic).levels == [l] + Split(rest).levels && Split(topic).levels[0] == l
                  && Split(topic).levels[1..] == Split(rest).levels)
            && GoodLevels(topic) == [l] + GoodLevels(rest) && GoodLevels(topic)[1..] == GoodLevels(rest)
  {
  }

  // ------------------------------------------------------------------
  // Prefixes of paths
  // ------------------------------------------------------------------

  lemma PrefixTail(l: Level, p: seq<Level>, rest: seq<Level>)
    requires rest != [] && rest[0] == l
    ensures [l] + p <= rest <==> p <= rest[1..]
  {
    var q := [l] + p;
    assert rest == [l] + rest[1..] && q[1..] == p;
    if p <= rest[1..] {
      assert rest == q + rest[1..][|p|..];
    }
  }

  lemma PrefixTrans(p: seq<Level>, q: seq<Level>, r: seq<Level>)
    requires p <= q && q <= r
    ensures p <= r
  {
  }

  // ------------------------------------------------------------------
  // Group subscriptions: $group/<name>/<topic>
  // ------------------------------------------------------------------

  /** "$group/" */
  const GROUP_PREFIX: seq<byte> := [0x24, 0x67, 0x72, 0x6f, 0x75, 0x70, 0x2f]

  /** The group name, "" for a subscription without group, and the topic to subscribe to. The
      topic of a group keeps the separator in front of it, so it starts with an empty level. */
  function GroupName(t: seq<byte>): (seq<byte>, seq<byte>) {
    if !(GROUP_PREFIX <= t) then ([], t)
    else
      var sub := t[|GROUP_PREFIX|..];
      var k := FirstSep(sub);
      if k == |sub| then ([], t) else (sub[..k], sub[k..])
  }

  /** A group subscription to <topic> is stored under "+" followed by the levels of <topic>. */
  lemma GroupTopicGainsLevel(name: seq<byte>, topic: seq<byte>)
    requires SEP !in name
    ensures GroupName(GROUP_PREFIX + name + [SEP] + topic) == (name, [SEP] + topic)
    ensures Split([SEP] + topic) == match Split(topic) case BadPath => BadPath case Levels(ls) => Levels([SWC] + ls)
  {
    hide FirstSep, Split;
    var t := GROUP_PREFIX + name + [SEP] + topic;
    var sub := name + [SEP] + topic;
    assert t == GROUP_PREFIX + sub;
    assert t[|GROUP_PREFIX|..] == sub;
    assert sub[..|name|] == name;
    FirstSepIs(sub, |name|);
    assert sub[|name|..] == [SEP] + topic;
    LeadingSep(topic);
  }

  lemma LeadingSep(topic: seq<byte>)
    ensures Split([SEP] + topic) == match Split(topic) case BadPath => BadPath case Levels(ls) => Levels([SWC] + ls)
  {
    FirstSepIs([SEP] + topic, 0);
    assert ([SEP] + topic)[1..] == topic;
  }
}
