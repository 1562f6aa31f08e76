/** The answer of the trie is the answer of a scan over the flat table. */
module SubscriptionScan {
  import opened Prelude
  import opened SubscriptionMatch
  import opened SubscriptionTable
  import opened SubscriptionTrie
  import opened TopicLevels

  /** Scanning the table: every row whose filter matches, with the smaller of the two QoS. */
  function Scan(rows: seq<Row>, topic: seq<Level>, q: nat): Pairs {
    if rows == [] then []
    else (if Matches(rows[0].path, topic) then [(rows[0].sub, Min(q, rows[0].qos))] else []) + Scan(rows[1..], topic, q)
  }

  /** The part of an answer that does not come from groups. */
  function DirectPairs(tags: seq<Tag>, subs: seq<Sub>, qoss: seq<nat>): Pairs
    requires |tags| == |subs| == |qoss|
  {
    if tags == [] then []
    else (if tags[0].kind.Direct? then [(subs[0], qoss[0])] else []) + DirectPairs(tags[1..], subs[1..], qoss[1..])
  }

  // ------------------------------------------------------------------
  // Both lists are made from the same keys
  // ------------------------------------------------------------------

  type Key = (seq<Level>, Sub)

  function DirectKeys(tags: seq<Tag>): seq<Key> {
    if tags == [] then []
    else (if tags[0].kind.Direct? then [(tags[0].path, tags[0].sub)] else []) + DirectKeys(tags[1..])
  }

  function RowKeys(rows: seq<Row>, topic: seq<Level>): seq<Key> {
    if rows == [] then []
    else (if Matches(rows[0].path, topic) then [(rows[0].path, rows[0].sub)] else []) + RowKeys(rows[1..], topic)
  }

  /** What a key contributes to an answer. */
  function Price(n: Node, q: nat, k: Key): (Sub, nat) {
    var c := CellAt(n, k.0);
    var i := IndexOf(c.subs, k.1);
    (k.1, if i < |c.qos| then Min(q, c.qos[i]) else q)
  }

  function PriceAll(n: Node, q: nat, ks: seq<Key>): Pairs {
    if ks == [] then [] else [Price(n, q, ks[0])] + PriceAll(n, q, ks[1..])
  }

  lemma {:induction false} DirectPairsArePrices(n: Node, q: nat, tags: seq<Tag>, subs: seq<Sub>, qoss: seq<nat>)
    requires TrieOk(n) && Lists(n, q, tags, subs, qoss)
    ensures DirectPairs(tags, subs, qoss) == PriceAll(n, q, DirectKeys(tags))
    decreases |tags|
  {
    if tags != [] {
      assert CellOk(CellAt(n, tags[0].path));
      DirectPairsArePrices(n, q, tags[1..], subs[1..], qoss[1..]);
      var ks := DirectKeys(tags[1..]);
      assert ([(tags[0].path, tags[0].sub)] + ks)[1..] == ks && [] + ks == ks;
    }
  }

  /** Row r is listed at its node with its QoS. */
  ghost predicate Listed(n: Node, r: Row) {
    var c := CellAt(n, r.path);
    CellOk(c) && r.sub in c.subs && c.qos[IndexOf(c.subs, r.sub)] == r.qos
  }

  lemma {:induction false} ScanIsPrices(n: Node, q: nat, rows: seq<Row>, topic: seq<Level>)
    requires forall r | r in rows :: Listed(n, r)
    ensures Scan(rows, topic, q) == PriceAll(n, q, RowKeys(rows, topic))
    decreases |rows|
  {
    if rows != [] {
      hide Matches;
      assert Listed(n, rows[0]) && forall r | r in rows[1..] :: r in rows;
      ScanIsPrices(n, q, rows[1..], topic);
      var ks := RowKeys(rows[1..], topic);
      assert ([(rows[0].path, rows[0].sub)] + ks)[1..] == ks && [] + ks == ks;
    }
  }

  // ------------------------------------------------------------------
  // The keys are the same, once each
  // ------------------------------------------------------------------

  lemma {:induction false} DirectKeyFrom(tags: seq<Tag>, k: Key)
    ensures k in DirectKeys(tags) <==> Tag(k.0, Direct, k.1) in tags
    decreases |tags|
  {
    if tags != [] {
      DirectKeyFrom(tags[1..], k);
      assert tags == [tags[0]] + tags[1..];
    }
  }

  lemma {:induction false} DirectKeysDistinct(tags: seq<Tag>)
    requires NoRepeats(tags)
    ensures Distinct(DirectKeys(tags))
    decreases |tags|
  {
    if tags != [] {
      var rest := tags[1..];
      assert forall i: nat | i < |rest| :: rest[i] == tags[i + 1];
      DirectKeysDistinct(rest);
      if tags[0].kind.Direct? {
        var k := (tags[0].path, tags[0].sub);
        DirectKeyFrom(rest, k);
        assert forall i: nat | i < |rest| :: !SameEntry(tags[0], rest[i]);
        ConsDistinct(k, DirectKeys(rest));
      }
    }
  }

  lemma ConsDistinct<T>(x: T, s: seq<T>)
    requires Distinct(s) && x !in s
    ensures Distinct([x] + s)
  {
  }

  lemma {:induction false} RowKeyFrom(rows: seq<Row>, topic: seq<Level>, k: Key)
    ensures k in RowKeys(rows, topic) <==> Matches(k.0, topic) && exists q: nat :: (k.1, q) in RowsAt(rows, k.0)
    decreases |rows|
  {
    hide Matches;
    if rows != [] {
      RowKeyFrom(rows[1..], topic, k);
      var here := if rows[0].path == k.0 then [(rows[0].sub, rows[0].qos)] else [];
      assert RowsAt(rows, k.0) == here + RowsAt(rows[1..], k.0);
      if exists q: nat :: (k.1, q) in RowsAt(rows[1..], k.0) {
        var q: nat :| (k.1, q) in RowsAt(rows[1..], k.0);
        assert (k.1, q) in RowsAt(rows, k.0);
      }
      if (rows[0].path, rows[0].sub) == k { assert (k.1, rows[0].qos) in RowsAt(rows, k.0); }
      if exists q: nat :: (k.1, q) in RowsAt(rows, k.0) {
        var q: nat :| (k.1, q) in RowsAt(rows, k.0);
        assert (k.1, q) in here || (k.1, q) in RowsAt(rows[1..], k.0);
      }
    }
  }

  /** The subscribers of the pairs are all different. */
  ghost predicate PairsDistinct(ps: Pairs) {
    ps == [] || ((forall x | x in ps[1..] :: x.0 != ps[0].0) && PairsDistinct(ps[1..]))
  }

  lemma {:induction false} ZipMembers(subs: seq<Sub>, qs: seq<nat>, s: Sub, q: nat)
    requires |subs| == |qs| && Distinct(subs)
    ensures (s, q) in Zip(subs, qs) <==> s in subs && qs[IndexOf(subs, s)] == q
    decreases |subs|
  {
    if subs != [] {
      ZipMembers(subs[1..], qs[1..], s, q);
      assert subs == [subs[0]] + subs[1..];
      assert Zip(subs, qs) == [(subs[0], qs[0])] + Zip(subs[1..], qs[1..]);
      assert subs[0] !in subs[1..];
    }
  }

  lemma {:induction false} ZipDistinct(subs: seq<Sub>, qs: seq<nat>)
    requires |subs| == |qs| && Distinct(subs)
    ensures PairsDistinct(Zip(subs, qs))
    decreases |subs|
  {
    if subs != [] {
      ZipDistinct(subs[1..], qs[1..]);
      var rest := Zip(subs[1..], qs[1..]);
      assert Zip(subs, qs)[1..] == rest;
      forall x | x in rest
        ensures x.0 != subs[0]
      {
        ZipMembers(subs[1..], qs[1..], x.0, x.1);
      }
    }
  }

  lemma {:induction false} RowKeysDistinct(rows: seq<Row>, topic: seq<Level>)
    requires forall p: seq<Level> :: PairsDistinct(RowsAt(rows, p))
    ensures Distinct(RowKeys(rows, topic))
    decreases |rows|
  {
    hide Matches;
    if rows != [] {
      var rest := rows[1..];
      forall p: seq<Level>
        ensures PairsDistinct(RowsAt(rest, p))
      {
        TailDistinct(rows, p);
      }
      RowKeysDistinct(rest, topic);
      var k := (rows[0].path, rows[0].sub);
      RowKeyFrom(rest, topic, k);
      TailDistinct(rows, rows[0].path);
      ConsDistinctIf(k, RowKeys(rest, topic));
    }
  }

  lemma ConsDistinctIf(k: Key, s: seq<Key>)
    requires Distinct(s) && k !in s
    ensures Distinct([k] + s) && [] + s == s
  {
  }

  lemma TailDistinct(rows: seq<Row>, p: seq<Level>)
    requires rows != [] && PairsDistinct(RowsAt(rows, p))
    ensures PairsDistinct(RowsAt(rows[1..], p))
    ensures p == rows[0].path ==> forall q: nat :: (rows[0].sub, q) !in RowsAt(rows[1..], p)
  {
    var r := RowsAt(rows[1..], p);
    assert [] + r == r;
    if p == rows[0].path {
      assert RowsAt(rows, p)[1..] == r;
      assert RowsAt(rows, p)[0] == (rows[0].sub, rows[0].qos);
      assert forall x | x in r :: x.0 != rows[0].sub;
    }
  }

  lemma {:induction false} RowIsAt(rows: seq<Row>, r: Row)
    requires r in rows
    ensures (r.sub, r.qos) in RowsAt(rows, r.path)
    decreases |rows|
  {
    if rows[0] != r {
      RowIsAt(rows[1..], r);
    }
  }

  // ------------------------------------------------------------------
  // Same keys, same answer
  // ------------------------------------------------------------------

  lemma SameMultiset<T>(a: seq<T>, b: seq<T>)
    requires Distinct(a) && Distinct(b) && forall x :: x in a <==> x in b
    ensures multiset(a) == multiset(b)
  {
    forall x
      ensures multiset(a)[x] == multiset(b)[x]
    {
      CountOnce(a, x);
      CountOnce(b, x);
    }
  }

  lemma {:induction false} CountOnce<T>(a: seq<T>, x: T)
    requires Distinct(a)
    ensures multiset(a)[x] == if x in a then 1 else 0
    decreases |a|
  {
    if a != [] {
      CountOnce(a[1..], x);
      assert a == [a[0]] + a[1..];
      assert a[0] !in a[1..];
    }
  }

  lemma {:induction false} PriceMultiset(n: Node, q: nat, a: seq<Key>, b: seq<Key>)
    requires multiset(a) == multiset(b)
    ensures multiset(PriceAll(n, q, a)) == multiset(PriceAll(n, q, b))
    decreases |a|
  {
    hide Price;
    if a == [] {
      assert |b| == |multiset(b)| == |multiset(a)| == 0;
    } else {
      assert a[0] in multiset(a);
      assert a[0] in b;
      var i :| 0 <= i < |b| && b[i] == a[0];
      var b' := b[..i] + b[i + 1..];
      RemoveOne(b, i);
      RemoveOne(a, 0);
      assert a[..0] + a[1..] == a[1..];
      PriceMultiset(n, q, a[1..], b');
      PriceSplit(n, q, b[..i], b[i], b[i + 1..]);
    }
  }

  lemma RemoveOne(s: seq<Key>, i: nat)
    requires i < |s|
    ensures s == s[..i] + [s[i]] + s[i + 1..]
    ensures multiset(s[..i] + s[i + 1..]) == multiset(s) - multiset{s[i]}
  {
    assert s == s[..i] + [s[i]] + s[i + 1..];
    assert multiset(s) == multiset(s[..i]) + multiset{s[i]} + multiset(s[i + 1..]);
  }

  lemma PriceSplit(n: Node, q: nat, x: seq<Key>, k: Key, y: seq<Key>)
    ensures multiset(PriceAll(n, q, x + [k] + y)) == multiset{Price(n, q, k)} + multiset(PriceAll(n, q, x + y))
  {
    hide Price;
    PriceConcat(n, q, x + [k], y);
    PriceConcat(n, q, x, [k]);
    PriceConcat(n, q, x, y);
    assert PriceAll(n, q, [k]) == [Price(n, q, k)];
  }

  lemma {:induction false} PriceConcat(n: Node, q: nat, a: seq<Key>, b: seq<Key>)
    ensures PriceAll(n, q, a + b) == PriceAll(n, q, a) + PriceAll(n, q, b)
    decreases |a|
  {
    hide Price;
    if a == [] {
      assert a + b == b;
    } else {
      PriceConcat(n, q, a[1..], b);
      assert (a + b)[1..] == a[1..] + b;
    }
  }

  // ------------------------------------------------------------------
  // The theorem
  // ------------------------------------------------------------------

  lemma RowsAreListed(n: Node, t: Table, r: Row)
    requires Agrees(n, t) && r in t.rows
    ensures Listed(n, r)
  {
    hide RowsAt, Zip;
    var c := CellAt(n, r.path);
    assert AgreeAt(t, c, r.path);
    RowIsAt(t.rows, r);
    ZipMembers(c.subs, c.qos, r.sub, r.qos);
  }

  lemma KeyInBoth(n: Node, t: Table, topic: seq<Level>, tags: seq<Tag>, k: Key)
    requires Agrees(n, t) && Covers(n, Wanted(topic), tags)
    ensures k in DirectKeys(tags) <==> k in RowKeys(t.rows, topic)
  {
    hide RowsAt, Zip, Matches, DirectKeys, RowKeys;
    var c := CellAt(n, k.0);
    assert AgreeAt(t, c, k.0);
    DirectKeyFrom(tags, k);
    RowKeyFrom(t.rows, topic, k);
    InTagsIff(n, topic, tags, k);
    forall q: nat
      ensures (k.1, q) in RowsAt(t.rows, k.0) <==> k.1 in c.subs && c.qos[IndexOf(c.subs, k.1)] == q
    {
      ZipMembers(c.subs, c.qos, k.1, q);
    }
    if k.1 in c.subs { assert (k.1, c.qos[IndexOf(c.subs, k.1)]) in RowsAt(t.rows, k.0); }
  }

  lemma InTagsIff(n: Node, topic: seq<Level>, tags: seq<Tag>, k: Key)
    requires Covers(n, Wanted(topic), tags)
    ensures Tag(k.0, Direct, k.1) in tags <==> Matches(k.0, topic) && k.1 in CellAt(n, k.0).subs
  {
    hide NoRepeats, HasMember, Matches;
    if Matches(k.0, topic) {
      assert k.0 in Wanted(topic);
      assert CoversCell(CellAt(n, k.0), k.0, tags);
    }
  }

  /** The subscribers found without group are, as a multiset of subscriber and QoS, the scan. */
  lemma AnswerIsScan(n: Node, t: Table, topic: seq<Level>, q: nat, tags: seq<Tag>, subs: seq<Sub>, qoss: seq<nat>)
    requires TrieOk(n) && Agrees(n, t) && Covers(n, Wanted(topic), tags) && Lists(n, q, tags, subs, qoss)
    ensures multiset(DirectPairs(tags, subs, qoss)) == multiset(Scan(t.rows, topic, q))
  {
    var a, b := DirectKeys(tags), RowKeys(t.rows, topic);
    DirectPairsArePrices(n, q, tags, subs, qoss);
    KeysAgree(n, t, topic, tags);
    SameMultiset(a, b);
    PriceMultiset(n, q, a, b);
    forall r | r in t.rows
      ensures Listed(n, r)
    {
      RowsAreListed(n, t, r);
    }
    ScanIsPrices(n, q, t.rows, topic);
  }

  lemma KeysAgree(n: Node, t: Table, topic: seq<Level>, tags: seq<Tag>)
    requires Agrees(n, t) && Covers(n, Wanted(topic), tags)
    ensures Distinct(DirectKeys(tags)) && Distinct(RowKeys(t.rows, topic))
    ensures forall k :: k in DirectKeys(tags) <==> k in RowKeys(t.rows, topic)
  {
    DirectKeysDistinct(tags);
    forall p: seq<Level>
      ensures PairsDistinct(RowsAt(t.rows, p))
    {
      RowsDistinctAt(n, t, p);
    }
    RowKeysDistinct(t.rows, topic);
    forall k
      ensures k in DirectKeys(tags) <==> k in RowKeys(t.rows, topic)
    {
      KeyInBoth(n, t, topic, tags, k);
    }
  }

  lemma RowsDistinctAt(n: Node, t: Table, p: seq<Level>)
    requires Agrees(n, t)
    ensures PairsDistinct(RowsAt(t.rows, p))
  {
    hide RowsAt, Zip, PairsDistinct;
    var c := CellAt(n, p);
    assert AgreeAt(t, c, p);
    ZipDistinct(c.subs, c.qos);
  }

  /** Exactly one member of every matching group, with QoS 1. */
  ghost predicate OnePerGroup(t: Table, topic: seq<Level>, tags: seq<Tag>, subs: seq<Sub>, qoss: seq<nat>)
    requires |tags| == |subs| == |qoss|
  {
    && (forall i: nat | i < |tags| && tags[i].kind.Member? ::
          && Matches(tags[i].path, topic)
          && (tags[i].path, tags[i].kind.group) in t.groups
          && subs[i] in t.groups[(tags[i].path, tags[i].kind.group)] && qoss[i] == 1)
    && (forall i, j | 0 <= i < j < |tags| && tags[i].kind.Member? ::
          (tags[i].path, tags[i].kind) != (tags[j].path, tags[j].kind))
    && (forall k | k in t.groups && Matches(k.0, topic) :: HasMember(tags, k.0, k.1))
  }

  lemma GroupsAnswered(n: Node, t: Table, topic: seq<Level>, q: nat, tags: seq<Tag>, subs: seq<Sub>, qoss: seq<nat>)
    requires TrieOk(n) && Agrees(n, t) && Covers(n, Wanted(topic), tags) && Lists(n, q, tags, subs, qoss)
    ensures OnePerGroup(t, topic, tags, subs, qoss)
  {
    hide Matches, RowsAt, Zip, CellOk, CellAt;
    forall i: nat | i < |tags| && tags[i].kind.Member?
      ensures Matches(tags[i].path, topic) && (tags[i].path, tags[i].kind.group) in t.groups
      ensures subs[i] in t.groups[(tags[i].path, tags[i].kind.group)] && qoss[i] == 1
    {
      assert tags[i] in tags;
      assert AgreeAt(t, CellAt(n, tags[i].path), tags[i].path);
    }
    forall i, j | 0 <= i < j < |tags| && tags[i].kind.Member?
      ensures (tags[i].path, tags[i].kind) != (tags[j].path, tags[j].kind)
    {
      assert !SameEntry(tags[i], tags[j]);
    }
    forall k | k in t.groups && Matches(k.0, topic)
      ensures HasMember(tags, k.0, k.1)
    {
      assert AgreeAt(t, CellAt(n, k.0), k.0);
      assert k.0 in Wanted(topic);
      assert (k.0, k.1) == k;
      assert CoversCell(CellAt(n, k.0), k.0, tags);
    }
  }
}
