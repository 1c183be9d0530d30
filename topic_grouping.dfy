/**
 * The two topic groupings of `src/plugins/generators/DailySummaryGenerator.ts`:
 * `groupObjectsByTopics`, which groups content items by lower-cased topic
 * and orders the groups by size, and `groupContentByTopic`, which files
 * items under their trimmed topics with a `Miscellaneous` catch-all.
 *
 * Both are described through placements: the pairs (item, key) in the order
 * the code visits them. A group is the items placed under its key, in order.
 */
module TopicGrouping {
  import opened Wrappers
  import opened Text

  /** A content item, reduced to what the groupings read: an id and its `topics`. */
  datatype Item = Item(cid: string, topics: Option<seq<string>>)

  /** `item.topics`, or no topics when the field is absent. */
  function TopicsOf(item: Item): seq<string> {
    item.topics.GetOr([])
  }

  /** One placement of an item under a group key. */
  datatype Occ = Occ(item: Item, key: string)

  predicate Distinct<T(==)>(s: seq<T>) {
    forall i, j :: 0 <= i < j < |s| ==> s[i] != s[j]
  }

  // ---------------------------------------------------------------------------
  // Groups of a placement list
  // ---------------------------------------------------------------------------

  /** The items placed under `k`, in placement order. */
  function Members(occ: seq<Occ>, k: string): (r: seq<Item>)
    ensures |r| <= |occ|
    decreases |occ|
  {
    if occ == [] then []
    else
      var o := occ[|occ| - 1];
      Members(occ[..|occ| - 1], k) + (if o.key == k then [o.item] else [])
  }

  /** The keys in the order they are first used. */
  function Keys(occ: seq<Occ>): seq<string>
    decreases |occ|
  {
    if occ == [] then []
    else
      var ks := Keys(occ[..|occ| - 1]);
      var k := occ[|occ| - 1].key;
      if k in ks then ks else ks + [k]
  }

  lemma SnocPrefix<T>(s: seq<T>, x: T)
    ensures (s + [x])[..|s|] == s
  {
  }

  /** Taking one more element of `p` after a fixed prefix `a`. */
  lemma ExtendPrefix<T>(a: seq<T>, p: seq<T>, j: nat)
    requires j < |p|
    ensures a + p[..j + 1] == (a + p[..j]) + [p[j]]
  {
    assert p[..j + 1] == p[..j] + [p[j]];
  }

  /** Each key once, and exactly the keys some placement uses. */
  lemma {:induction false} KeysExactly(occ: seq<Occ>)
    ensures Distinct(Keys(occ))
    ensures forall k :: k in Keys(occ) <==> exists i :: 0 <= i < |occ| && occ[i].key == k
    decreases |occ|
  {
    if occ != [] {
      var init := occ[..|occ| - 1];
      KeysExactly(init);
      assert forall i :: 0 <= i < |init| ==> init[i] == occ[i];
    }
  }

  /** An item is in a group exactly when it was placed under that key. */
  lemma {:induction false} MembersExactly(occ: seq<Occ>, k: string, x: Item)
    ensures x in Members(occ, k) <==> exists i :: 0 <= i < |occ| && occ[i] == Occ(x, k)
    decreases |occ|
  {
    if occ != [] {
      var init := occ[..|occ| - 1];
      MembersExactly(init, k, x);
      assert forall i :: 0 <= i < |init| ==> init[i] == occ[i];
    }
  }

  /** A key never used has an empty group. */
  lemma {:induction false} UnusedKeyEmpty(occ: seq<Occ>, k: string)
    requires k !in Keys(occ)
    ensures Members(occ, k) == []
    decreases |occ|
  {
    if occ != [] {
      var init := occ[..|occ| - 1];
      assert k !in Keys(init);
      UnusedKeyEmpty(init, k);
    }
  }

  lemma MembersSnoc(occ: seq<Occ>, o: Occ, k: string)
    ensures Members(occ + [o], k) == Members(occ, k) + (if o.key == k then [o.item] else [])
  {
    SnocPrefix(occ, o);
  }

  lemma KeysSnoc(occ: seq<Occ>, o: Occ)
    ensures Keys(occ + [o]) == if o.key in Keys(occ) then Keys(occ) else Keys(occ) + [o.key]
  {
    SnocPrefix(occ, o);
  }

  // ---------------------------------------------------------------------------
  // `groupObjectsByTopics`: the topic map
  // ---------------------------------------------------------------------------

  /** The placements of one object: under each of its topics, lower-cased, in order. */
  function ItemOccs(obj: Item): (r: seq<Occ>)
    ensures |r| == |TopicsOf(obj)|
  {
    var ts := TopicsOf(obj);
    seq(|ts|, j requires 0 <= j < |ts| => Occ(obj, Lower(ts[j])))
  }

  /** The placements of the two `forEach` loops: object by object, topic by topic. */
  function TopicOccs(objects: seq<Item>): seq<Occ>
    decreases |objects|
  {
    if objects == [] then [] else TopicOccs(objects[..|objects| - 1]) + ItemOccs(objects[|objects| - 1])
  }

  /** The number of topics over all objects. */
  function TopicCount(objects: seq<Item>): nat
    decreases |objects|
  {
    if objects == [] then 0 else TopicCount(objects[..|objects| - 1]) + |TopicsOf(objects[|objects| - 1])|
  }

  /** One of the object's topics lower-cases to `k`. */
  predicate HasKey(x: Item, k: string) {
    exists j :: 0 <= j < |TopicsOf(x)| && Lower(TopicsOf(x)[j]) == k
  }

  /** An object sits under a key exactly when one of its topics lower-cases to that key. */
  lemma {:induction false} TopicOccsExactly(objects: seq<Item>, x: Item, k: string)
    ensures Occ(x, k) in TopicOccs(objects) <==> x in objects && HasKey(x, k)
    ensures |TopicOccs(objects)| == TopicCount(objects)
    decreases |objects|
  {
    if objects != [] {
      var n := |objects| - 1;
      var init, last := objects[..n], objects[n];
      assert objects == init + [last];
      TopicOccsExactly(init, x, k);
      if Occ(x, k) in ItemOccs(last) {
        var j :| 0 <= j < |TopicsOf(last)| && ItemOccs(last)[j] == Occ(x, k);
      }
      if x == last && HasKey(x, k) {
        var j :| 0 <= j < |TopicsOf(x)| && Lower(TopicsOf(x)[j]) == k;
        assert ItemOccs(last)[j] == Occ(x, k);
      }
    }
  }

  /** A map entry: a lower-cased topic and the objects pushed under it. */
  datatype TopicEntry = TopicEntry(topic: string, objects: seq<Item>)

  /** `Array.from(topicMap.entries())`: the entries in first-seen key order. */
  function EntriesOf(occ: seq<Occ>, ks: seq<string>): (r: seq<TopicEntry>)
    ensures |r| == |ks|
    ensures forall i :: 0 <= i < |ks| ==> r[i] == TopicEntry(ks[i], Members(occ, ks[i]))
  {
    seq(|ks|, i requires 0 <= i < |ks| => TopicEntry(ks[i], Members(occ, ks[i])))
  }

  function Entries(objects: seq<Item>): seq<TopicEntry> {
    var occ := TopicOccs(objects);
    EntriesOf(occ, Keys(occ))
  }

  /** Total number of objects over the entries. */
  function SumCounts(es: seq<TopicEntry>): nat
    decreases |es|
  {
    if es == [] then 0 else SumCounts(es[..|es| - 1]) + |es[|es| - 1].objects|
  }

  lemma {:induction false} SumCountsAppend(a: seq<TopicEntry>, b: seq<TopicEntry>)
    ensures SumCounts(a + b) == SumCounts(a) + SumCounts(b)
    decreases |b|
  {
    if b == [] {
      assert a + b == a;
    } else {
      var b' := b[..|b| - 1];
      assert (a + b)[..|a + b| - 1] == a + b';
      assert (a + b)[|a + b| - 1] == b[|b| - 1];
      SumCountsAppend(a, b');
    }
  }

  /** One more placement adds one object to its group if the key is listed, and none otherwise. */
  lemma {:induction false} SumCountsSnoc(occ: seq<Occ>, o: Occ, ks: seq<string>)
    requires Distinct(ks)
    ensures SumCounts(EntriesOf(occ + [o], ks)) == SumCounts(EntriesOf(occ, ks)) + (if o.key in ks then 1 else 0)
    decreases |ks|
  {
    if ks != [] {
      var ks' := ks[..|ks| - 1];
      assert EntriesOf(occ + [o], ks)[..|ks'|] == EntriesOf(occ + [o], ks');
      assert EntriesOf(occ, ks)[..|ks'|] == EntriesOf(occ, ks');
      SumCountsSnoc(occ, o, ks');
      MembersSnoc(occ, o, ks[|ks| - 1]);
      assert o.key in ks <==> o.key in ks' || o.key == ks[|ks| - 1];
    }
  }

  /** Entries for one more key: the old ones and the new key's group. */
  lemma EntriesOfSnoc(occ: seq<Occ>, ks: seq<string>, k: string)
    ensures EntriesOf(occ, ks + [k]) == EntriesOf(occ, ks) + [TopicEntry(k, Members(occ, k))]
  {
  }

  /** The groups together hold every placement once. */
  lemma {:induction false} GroupSizesAddUp(occ: seq<Occ>)
    ensures SumCounts(EntriesOf(occ, Keys(occ))) == |occ|
    decreases |occ|
  {
    if occ != [] {
      var init, o := occ[..|occ| - 1], occ[|occ| - 1];
      var ks := Keys(init);
      assert occ == init + [o];
      assert SumCounts(EntriesOf(init, ks)) == |init| by {
        GroupSizesAddUp(init);
      }
      assert Distinct(ks) by {
        KeysExactly(init);
      }
      assert SumCounts(EntriesOf(occ, ks)) == |init| + (if o.key in ks then 1 else 0) by {
        SumCountsSnoc(init, o, ks);
      }
      if o.key in ks {
        assert Keys(occ) == ks by {
          KeysSnoc(init, o);
        }
      } else {
        var e := TopicEntry(o.key, [o.item]);
        assert Keys(occ) == ks + [o.key] by {
          KeysSnoc(init, o);
        }
        assert Members(occ, o.key) == [o.item] by {
          UnusedKeyEmpty(init, o.key);
          MembersSnoc(init, o, o.key);
        }
        assert EntriesOf(occ, ks + [o.key]) == EntriesOf(occ, ks) + [e] by {
          EntriesOfSnoc(occ, ks, o.key);
        }
        assert SumCounts(EntriesOf(occ, ks) + [e]) == SumCounts(EntriesOf(occ, ks)) + 1 by {
          SumCountsAppend(EntriesOf(occ, ks), [e]);
          assert [e][..0] == [];
        }
      }
    }
  }

  // ---------------------------------------------------------------------------
  // The sort by popularity
  // ---------------------------------------------------------------------------

  function Count(e: TopicEntry): nat {
    |e.objects|
  }

  /** The position before which every entry has at least `c` objects. */
  function CountAtLeast(s: seq<TopicEntry>, c: nat): (k: nat)
    ensures k <= |s|
    ensures forall i :: 0 <= i < k ==> Count(s[i]) >= c
    ensures k < |s| ==> Count(s[k]) < c
    decreases |s|
  {
    if s != [] && Count(s[0]) >= c then 1 + CountAtLeast(s[1..], c) else 0
  }

  /** Inserts `x` after every entry at least as popular, before the first less popular one. */
  function InsertByCount(x: TopicEntry, s: seq<TopicEntry>): seq<TopicEntry> {
    var k := CountAtLeast(s, Count(x));
    s[..k] + [x] + s[k..]
  }

  /**
   * `entries.sort((a, b) => b[1].length - a[1].length)`. The sort of the
   * JavaScript runtime is stable, so it is given here as an insertion sort.
   */
  function SortByCount(es: seq<TopicEntry>): seq<TopicEntry>
    decreases |es|
  {
    if es == [] then [] else InsertByCount(es[|es| - 1], SortByCount(es[..|es| - 1]))
  }

  predicate SortedByCount(s: seq<TopicEntry>) {
    forall i, j :: 0 <= i < j < |s| ==> Count(s[i]) >= Count(s[j])
  }

  /** The entries holding exactly `c` objects, in order. */
  function WithCount(s: seq<TopicEntry>, c: nat): seq<TopicEntry>
    decreases |s|
  {
    if s == [] then [] else WithCount(s[..|s| - 1], c) + (if Count(s[|s| - 1]) == c then [s[|s| - 1]] else [])
  }

  lemma {:induction false} WithCountAppend(a: seq<TopicEntry>, b: seq<TopicEntry>, c: nat)
    ensures WithCount(a + b, c) == WithCount(a, c) + WithCount(b, c)
    decreases |b|
  {
    if b == [] {
      assert a + b == a;
    } else {
      var b' := b[..|b| - 1];
      assert (a + b)[..|a + b| - 1] == a + b';
      assert (a + b)[|a + b| - 1] == b[|b| - 1];
      WithCountAppend(a, b', c);
    }
  }

  lemma {:induction false} WithCountNone(s: seq<TopicEntry>, c: nat)
    requires forall i :: 0 <= i < |s| ==> Count(s[i]) != c
    ensures WithCount(s, c) == []
    decreases |s|
  {
    if s != [] {
      WithCountNone(s[..|s| - 1], c);
    }
  }

  function TopicsOfEntries(s: seq<TopicEntry>): (r: seq<string>)
    ensures |r| == |s|
    ensures forall i :: 0 <= i < |s| ==> r[i] == s[i].topic
  {
    seq(|s|, i requires 0 <= i < |s| => s[i].topic)
  }

  /** Where everything lands after an insertion. */
  lemma InsertShape(x: TopicEntry, s: seq<TopicEntry>)
    ensures var k := CountAtLeast(s, Count(x));
      var r := InsertByCount(x, s);
      && |r| == |s| + 1 && r[k] == x
      && (forall i :: 0 <= i < k ==> r[i] == s[i])
      && (forall i :: k < i < |r| ==> r[i] == s[i - 1])
  {
  }

  lemma InsertSorted(x: TopicEntry, s: seq<TopicEntry>)
    requires SortedByCount(s)
    ensures SortedByCount(InsertByCount(x, s))
  {
    var k := CountAtLeast(s, Count(x));
    var r := InsertByCount(x, s);
    InsertShape(x, s);
    forall i, j | 0 <= i < j < |r|
      ensures Count(r[i]) >= Count(r[j])
    {
      if j <= k {
        assert r[i] == s[i];
      } else if i < k {
        assert r[i] == s[i] && r[j] == s[j - 1];
      } else if i == k {
        assert r[j] == s[j - 1];
        assert Count(s[j - 1]) <= Count(s[k]);
      } else {
        assert r[i] == s[i - 1] && r[j] == s[j - 1];
      }
    }
  }

  lemma InsertPermutes(x: TopicEntry, s: seq<TopicEntry>)
    ensures multiset(InsertByCount(x, s)) == multiset(s) + multiset{x}
    ensures SumCounts(InsertByCount(x, s)) == SumCounts(s) + Count(x)
  {
    var k := CountAtLeast(s, Count(x));
    assert s == s[..k] + s[k..];
    SumCountsAppend(s[..k] + [x], s[k..]);
    SumCountsAppend(s[..k], [x]);
    SumCountsAppend(s[..k], s[k..]);
    assert SumCounts([x]) == Count(x) by {
      assert [x][..0] == [];
    }
  }

  /** Past the insertion point of `x` every entry has fewer objects than `x`. */
  lemma AfterInsertionPoint(x: TopicEntry, s: seq<TopicEntry>)
    requires SortedByCount(s)
    ensures var k := CountAtLeast(s, Count(x));
      forall i :: 0 <= i < |s[k..]| ==> Count(s[k..][i]) < Count(x)
  {
    var k := CountAtLeast(s, Count(x));
    forall i | 0 <= i < |s[k..]|
      ensures Count(s[k..][i]) < Count(x)
    {
      assert s[k..][i] == s[k + i];
      assert Count(s[k + i]) <= Count(s[k]);
    }
  }

  lemma WithCountSingle(x: TopicEntry, c: nat)
    ensures WithCount([x], c) == if Count(x) == c then [x] else []
  {
    assert [x][..0] == [];
  }

  /** The entries of count `c` before and after an insertion, split at the insertion point. */
  lemma InsertWithCount(x: TopicEntry, s: seq<TopicEntry>, k: nat, c: nat)
    requires k <= |s| && InsertByCount(x, s) == s[..k] + [x] + s[k..]
    ensures WithCount(InsertByCount(x, s), c) == WithCount(s[..k], c) + WithCount([x], c) + WithCount(s[k..], c)
    ensures WithCount(s, c) == WithCount(s[..k], c) + WithCount(s[k..], c)
  {
    var front, back := s[..k], s[k..];
    assert s == front + back;
    WithCountAppend(front + [x], back, c);
    WithCountAppend(front, [x], c);
    WithCountAppend(front, back, c);
  }

  /** Inserting keeps the entries of each count in arrival order: `x` goes after its equals. */
  lemma InsertStable(x: TopicEntry, s: seq<TopicEntry>, c: nat)
    requires SortedByCount(s)
    ensures WithCount(InsertByCount(x, s), c) == WithCount(s, c) + (if Count(x) == c then [x] else [])
  {
    var k := CountAtLeast(s, Count(x));
    var wf, wx, wb := WithCount(s[..k], c), WithCount([x], c), WithCount(s[k..], c);
    assert WithCount(InsertByCount(x, s), c) == wf + wx + wb && WithCount(s, c) == wf + wb by {
      InsertWithCount(x, s, k, c);
    }
    assert wx == if Count(x) == c then [x] else [] by {
      WithCountSingle(x, c);
    }
    if Count(x) == c {
      assert wb == [] by {
        AfterInsertionPoint(x, s);
        WithCountNone(s[k..], c);
      }
    }
  }

  lemma InsertDistinct(x: TopicEntry, s: seq<TopicEntry>)
    requires Distinct(TopicsOfEntries(s)) && x.topic !in TopicsOfEntries(s)
    ensures Distinct(TopicsOfEntries(InsertByCount(x, s)))
  {
    var k := CountAtLeast(s, Count(x));
    var r := InsertByCount(x, s);
    InsertShape(x, s);
    forall i, j | 0 <= i < j < |r|
      ensures r[i].topic != r[j].topic
    {
      var i' := if i < k then i else i - 1;
      var j' := if j < k then j else j - 1;
      if i == k {
        assert r[j] == s[j'];
        assert TopicsOfEntries(s)[j'] == r[j].topic;
      } else if j == k {
        assert r[i] == s[i'];
        assert TopicsOfEntries(s)[i'] == r[i].topic;
      } else {
        assert r[i] == s[i'] && r[j] == s[j'];
        assert TopicsOfEntries(s)[i'] != TopicsOfEntries(s)[j'];
      }
    }
  }

  /** The sort is a permutation of the entries with the same total. */
  lemma {:induction false} SortPermutes(es: seq<TopicEntry>)
    ensures multiset(SortByCount(es)) == multiset(es)
    ensures SumCounts(SortByCount(es)) == SumCounts(es)
    decreases |es|
  {
    if es != [] {
      var init, x := es[..|es| - 1], es[|es| - 1];
      assert es == init + [x];
      SortPermutes(init);
      InsertPermutes(x, SortByCount(init));
    }
  }

  /** The sort orders by non-increasing count. */
  lemma {:induction false} SortSorted(es: seq<TopicEntry>)
    ensures SortedByCount(SortByCount(es))
    decreases |es|
  {
    if es != [] {
      SortSorted(es[..|es| - 1]);
      InsertSorted(es[|es| - 1], SortByCount(es[..|es| - 1]));
    }
  }

  /** The sort is stable: entries of equal count keep their input order. */
  lemma {:induction false} SortStable(es: seq<TopicEntry>, c: nat)
    ensures WithCount(SortByCount(es), c) == WithCount(es, c)
    decreases |es|
  {
    if es != [] {
      var init, x := es[..|es| - 1], es[|es| - 1];
      SortStable(init, c);
      SortSorted(init);
      InsertStable(x, SortByCount(init), c);
    }
  }

  /** Sorting entries with distinct topics keeps them distinct. */
  lemma {:induction false} SortDistinct(es: seq<TopicEntry>)
    requires Distinct(TopicsOfEntries(es))
    ensures Distinct(TopicsOfEntries(SortByCount(es)))
    decreases |es|
  {
    if es != [] {
      var init, x := es[..|es| - 1], es[|es| - 1];
      assert TopicsOfEntries(init) == TopicsOfEntries(es)[..|init|];
      SortDistinct(init);
      SortPermutes(init);
      var s := SortByCount(init);
      forall i | 0 <= i < |s|
        ensures s[i].topic != x.topic
      {
        assert s[i] in multiset(init);
        var j :| 0 <= j < |init| && init[j] == s[i];
        assert TopicsOfEntries(es)[j] != TopicsOfEntries(es)[|init|];
      }
      InsertDistinct(x, s);
    }
  }

  // ---------------------------------------------------------------------------
  // `groupObjectsByTopics`: the formatted groups
  // ---------------------------------------------------------------------------

  /** `Set.add` of each of `ts`, in order: the new ones are appended once. */
  function AddNew(acc: seq<string>, ts: seq<string>): seq<string>
    decreases |ts|
  {
    if ts == [] then acc
    else
      var a := AddNew(acc, ts[..|ts| - 1]);
      if ts[|ts| - 1] in a then a else a + [ts[|ts| - 1]]
  }

  /** The original-case topics of `objs`, each once, in first-seen order. */
  function MergedTopics(objs: seq<Item>): seq<string>
    decreases |objs|
  {
    if objs == [] then [] else AddNew(MergedTopics(objs[..|objs| - 1]), TopicsOf(objs[|objs| - 1]))
  }

  lemma {:induction false} AddNewExactly(acc: seq<string>, ts: seq<string>)
    requires Distinct(acc)
    ensures Distinct(AddNew(acc, ts))
    ensures forall t :: t in AddNew(acc, ts) <==> t in acc || t in ts
    decreases |ts|
  {
    if ts != [] {
      var ts' := ts[..|ts| - 1];
      AddNewExactly(acc, ts');
      assert forall t :: t in ts <==> t in ts' || t == ts[|ts| - 1];
    }
  }

  /** `allTopics` has no duplicate and holds exactly the topics of the group's objects. */
  lemma {:induction false} MergedTopicsExactly(objs: seq<Item>)
    ensures Distinct(MergedTopics(objs))
    ensures forall t :: t in MergedTopics(objs) <==> exists i :: 0 <= i < |objs| && t in TopicsOf(objs[i])
    decreases |objs|
  {
    if objs != [] {
      var init := objs[..|objs| - 1];
      MergedTopicsExactly(init);
      AddNewExactly(MergedTopics(init), TopicsOf(objs[|objs| - 1]));
      assert forall i :: 0 <= i < |init| ==> init[i] == objs[i];
    }
  }

  /** One formatted group: `{ topic, objects, allTopics }`. */
  datatype TopicGroup = TopicGroup(topic: string, objects: seq<Item>, allTopics: seq<string>)

  function Format(e: TopicEntry): TopicGroup {
    TopicGroup(e.topic, e.objects, MergedTopics(e.objects))
  }

  /** What `groupObjectsByTopics` returns. */
  function TopicGroups(objects: seq<Item>): (r: seq<TopicGroup>)
    ensures |r| == |SortByCount(Entries(objects))|
  {
    var sorted := SortByCount(Entries(objects));
    seq(|sorted|, i requires 0 <= i < |sorted| => Format(sorted[i]))
  }

  /** The set-union loop for one group's `allTopics`. */
  method MergeTopics(objs: seq<Item>) returns (merged: seq<string>)
    ensures merged == MergedTopics(objs)
  {
    merged := [];
    for i := 0 to |objs|
      invariant merged == MergedTopics(objs[..i])
    {
      assert objs[..i + 1][..i] == objs[..i];
      var ts := TopicsOf(objs[i]);
      for j := 0 to |ts|
        invariant merged == AddNew(MergedTopics(objs[..i]), ts[..j])
      {
        assert ts[..j + 1][..j] == ts[..j];
        if ts[j] !in merged {
          merged := merged + [ts[j]];
        }
      }
      assert ts[..|ts|] == ts;
    }
    assert objs[..|objs|] == objs;
  }

  /** A topic map that holds, for the placements so far, each key in first-use order and its group. */
  ghost predicate MapMatches(keys: seq<string>, topicMap: map<string, seq<Item>>, occ: seq<Occ>) {
    && keys == Keys(occ)
    && (forall k :: k in topicMap <==> k in keys)
    && (forall k :: k in topicMap ==> topicMap[k] == Members(occ, k))
  }

  lemma MembersAfterPush(occ: seq<Occ>, o: Occ)
    ensures forall k :: Members(occ + [o], k) == Members(occ, k) + (if k == o.key then [o.item] else [])
  {
    forall k
      ensures Members(occ + [o], k) == Members(occ, k) + (if k == o.key then [o.item] else [])
    {
      MembersSnoc(occ, o, k);
    }
  }

  /** `topicMap.get(shortCase).push(obj)` for a key already in the map. */
  lemma PushExisting(keys: seq<string>, topicMap: map<string, seq<Item>>, occ: seq<Occ>, o: Occ)
    requires MapMatches(keys, topicMap, occ) && o.key in topicMap
    ensures MapMatches(keys, topicMap[o.key := topicMap[o.key] + [o.item]], occ + [o])
  {
    KeysSnoc(occ, o);
    MembersAfterPush(occ, o);
  }

  /** `topicMap.set(shortCase, [])` followed by the push, for a new key. */
  lemma PushNew(keys: seq<string>, topicMap: map<string, seq<Item>>, occ: seq<Occ>, o: Occ)
    requires MapMatches(keys, topicMap, occ) && o.key !in topicMap
    ensures MapMatches(keys + [o.key], topicMap[o.key := [o.item]], occ + [o])
  {
    KeysSnoc(occ, o);
    UnusedKeyEmpty(occ, o.key);
    MembersAfterPush(occ, o);
  }

  /** The inner `forEach` over one object's topics. */
  method PushTopics(obj: Item, keys0: seq<string>, map0: map<string, seq<Item>>, ghost occ: seq<Occ>)
    returns (keys: seq<string>, topicMap: map<string, seq<Item>>)
    requires obj.topics.Some? && MapMatches(keys0, map0, occ)
    ensures MapMatches(keys, topicMap, occ + ItemOccs(obj))
  {
    keys, topicMap := keys0, map0;
    var ts := obj.topics.value;
    ghost var placed := ItemOccs(obj);
    assert occ + placed[..0] == occ;
    for j := 0 to |ts|
      invariant MapMatches(keys, topicMap, occ + placed[..j])
    {
      var shortCase := Lower(ts[j]);
      ghost var before := occ + placed[..j];
      ghost var o := Occ(obj, shortCase);
      assert placed[j] == o;
      assert occ + placed[..j + 1] == before + [o];
      if shortCase !in topicMap {
        PushNew(keys, topicMap, before, o);
        topicMap := topicMap[shortCase := []];
        keys := keys + [shortCase];
      } else {
        PushExisting(keys, topicMap, before, o);
      }
      topicMap := topicMap[shortCase := topicMap[shortCase] + [obj]];
    }
    assert placed[..|ts|] == placed;
  }

  /** The map-building loop of `groupObjectsByTopics`: keys in insertion order and the pushed objects. */
  method BuildTopicMap(objects: seq<Item>) returns (keys: seq<string>, topicMap: map<string, seq<Item>>)
    ensures MapMatches(keys, topicMap, TopicOccs(objects))
  {
    keys, topicMap := [], map[];
    for i := 0 to |objects|
      invariant MapMatches(keys, topicMap, TopicOccs(objects[..i]))
    {
      assert objects[..i + 1][..i] == objects[..i];
      var obj := objects[i];
      if obj.topics.Some? {
        keys, topicMap := PushTopics(obj, keys, topicMap, TopicOccs(objects[..i]));
      } else {
        assert TopicOccs(objects[..i]) + ItemOccs(obj) == TopicOccs(objects[..i]);
      }
    }
    assert objects[..|objects|] == objects;
  }

  /** `groupObjectsByTopics(objects)` */
  method GroupObjectsByTopics(objects: seq<Item>) returns (result: seq<TopicGroup>)
    ensures result == TopicGroups(objects)
  {
    var keys, topicMap := BuildTopicMap(objects);
    var entries := seq(|keys|, i requires 0 <= i < |keys| => TopicEntry(keys[i], topicMap[keys[i]]));
    assert entries == Entries(objects);
    var sortedTopics := SortByCount(entries);
    result := [];
    for i := 0 to |sortedTopics|
      invariant |result| == i
      invariant forall k :: 0 <= k < i ==> result[k] == Format(sortedTopics[k])
    {
      var e := sortedTopics[i];
      var merged := MergeTopics(e.objects);
      result := result + [TopicGroup(e.topic, e.objects, merged)];
    }
  }

  // ---------------------------------------------------------------------------
  // Properties of `groupObjectsByTopics`
  // ---------------------------------------------------------------------------

  /** Each sorted entry is one of the entries, and the other way round. */
  lemma SortedEntriesAreEntries(es: seq<TopicEntry>)
    ensures forall e :: e in SortByCount(es) <==> e in es
  {
    SortPermutes(es);
    forall e
      ensures e in SortByCount(es) <==> e in es
    {
      assert e in SortByCount(es) <==> e in multiset(SortByCount(es));
      assert e in es <==> e in multiset(es);
    }
  }

  /** An entry of the map: a used key and exactly its group. */
  lemma EntryOfObjects(objects: seq<Item>, e: TopicEntry)
    requires e in Entries(objects)
    ensures e.topic in Keys(TopicOccs(objects)) && e.objects == Members(TopicOccs(objects), e.topic)
  {
    var occ := TopicOccs(objects);
    var h :| 0 <= h < |Keys(occ)| && Entries(objects)[h] == e;
  }

  /** The group topics have no duplicate. */
  lemma GroupTopicsDistinct(objects: seq<Item>)
    ensures Distinct(TopicsOfEntries(SortByCount(Entries(objects))))
  {
    var occ := TopicOccs(objects);
    KeysExactly(occ);
    assert TopicsOfEntries(Entries(objects)) == Keys(occ);
    SortDistinct(Entries(objects));
  }

  /** Every group topic is the lower-cased form of some object's topic. */
  lemma GroupTopicIsUsed(objects: seq<Item>, g: nat)
    requires g < |SortByCount(Entries(objects))|
    ensures exists x :: x in objects && HasKey(x, SortByCount(Entries(objects))[g].topic)
  {
    var occ := TopicOccs(objects);
    var e := SortByCount(Entries(objects))[g];
    SortedEntriesAreEntries(Entries(objects));
    EntryOfObjects(objects, e);
    KeysExactly(occ);
    var i :| 0 <= i < |occ| && occ[i].key == e.topic;
    assert occ[i] == Occ(occ[i].item, e.topic);
    TopicOccsExactly(objects, occ[i].item, e.topic);
  }

  /** Every lower-cased topic of every object has its group. */
  lemma UsedTopicHasGroup(objects: seq<Item>, x: Item, k: string)
    requires x in objects && HasKey(x, k)
    ensures k in TopicsOfEntries(SortByCount(Entries(objects)))
  {
    var occ := TopicOccs(objects);
    var es := Entries(objects);
    TopicOccsExactly(objects, x, k);
    KeysExactly(occ);
    var m :| 0 <= m < |occ| && occ[m] == Occ(x, k);
    assert occ[m].key == k;
    assert k in Keys(occ);
    var h :| 0 <= h < |Keys(occ)| && Keys(occ)[h] == k;
    SortedEntriesAreEntries(es);
    assert es[h] in SortByCount(es);
  }

  /** Each group holds exactly the objects having a topic of its lower-cased form. */
  lemma GroupMembersExactly(objects: seq<Item>, g: nat, x: Item)
    requires g < |TopicGroups(objects)|
    ensures x in TopicGroups(objects)[g].objects <==> x in objects && HasKey(x, TopicGroups(objects)[g].topic)
  {
    var es := Entries(objects);
    var e := SortByCount(es)[g];
    SortedEntriesAreEntries(es);
    EntryOfObjects(objects, e);
    MembersExactly(TopicOccs(objects), e.topic, x);
    TopicOccsExactly(objects, x, e.topic);
  }

  /** The group sizes add up to the number of topics over all objects. */
  lemma GroupSizesTotal(objects: seq<Item>)
    ensures SumCounts(SortByCount(Entries(objects))) == TopicCount(objects)
  {
    var occ := TopicOccs(objects);
    GroupSizesAddUp(occ);
    SortPermutes(Entries(objects));
    TopicOccsExactly(objects, Item("", None), "");
  }

  /**
   * The groups come by non-increasing size, and groups of equal size keep
   * the order in which their topics were first seen.
   */
  lemma GroupsBySize(objects: seq<Item>)
    ensures forall g, h :: 0 <= g < h < |TopicGroups(objects)| ==>
      |TopicGroups(objects)[g].objects| >= |TopicGroups(objects)[h].objects|
    ensures forall c :: WithCount(SortByCount(Entries(objects)), c) == WithCount(Entries(objects), c)
  {
    SortSorted(Entries(objects));
    forall c
      ensures WithCount(SortByCount(Entries(objects)), c) == WithCount(Entries(objects), c)
    {
      SortStable(Entries(objects), c);
    }
  }

  /**
   * Each `allTopics` lists the original-case topics of the group's objects
   * once each, and one of them lower-cases to the group's topic.
   */
  lemma AllTopicsOfGroup(objects: seq<Item>, g: nat)
    requires g < |TopicGroups(objects)|
    ensures var grp := TopicGroups(objects)[g];
      && Distinct(grp.allTopics)
      && (forall t :: t in grp.allTopics <==> exists i :: 0 <= i < |grp.objects| && t in TopicsOf(grp.objects[i]))
      && (exists t :: t in grp.allTopics && Lower(t) == grp.topic)
  {
    var es := Entries(objects);
    var e := SortByCount(es)[g];
    var occ := TopicOccs(objects);
    SortedEntriesAreEntries(es);
    EntryOfObjects(objects, e);
    MergedTopicsExactly(e.objects);
    KeysExactly(occ);
    var m :| 0 <= m < |occ| && occ[m].key == e.topic;
    var x := occ[m].item;
    MembersExactly(occ, e.topic, x);
    TopicOccsExactly(objects, x, e.topic);
    var j :| 0 <= j < |TopicsOf(x)| && Lower(TopicsOf(x)[j]) == e.topic;
    var p :| 0 <= p < |e.objects| && e.objects[p] == x;
    assert TopicsOf(x)[j] in MergedTopics(e.objects);
  }

  // ---------------------------------------------------------------------------
  // `groupContentByTopic`
  // ---------------------------------------------------------------------------

  const Miscellaneous: string := "Miscellaneous"

  /** `topics && topics.length > 0`: a topics array that is present and not empty. */
  predicate HasTopics(item: Item) {
    item.topics.Some? && |item.topics.value| > 0
  }

  /** The first loop's `uniqueTopics`: every topic, untrimmed, of every item that has some. */
  function UniqueTopics(items: seq<Item>): set<string>
    decreases |items|
  {
    if items == [] then {}
    else
      var last := items[|items| - 1];
      UniqueTopics(items[..|items| - 1]) + (if HasTopics(last) then set t | t in last.topics.value else {})
  }

  /** The key under which the second loop files an item for one of its topics. */
  function PlaceKey(keys: set<string>, t: string): string {
    if Trim(t) in keys then Trim(t) else Miscellaneous
  }

  /** Where the second loop pushes one item, given the keys of `topicGroups`. */
  function Placement(keys: set<string>, item: Item): (r: seq<Occ>)
    ensures |r| >= 1
    ensures forall o :: o in r ==> o.item == item
  {
    if HasTopics(item) then
      var ts := item.topics.value;
      seq(|ts|, j requires 0 <= j < |ts| => Occ(item, PlaceKey(keys, ts[j])))
    else [Occ(item, Miscellaneous)]
  }

  function Placements(keys: set<string>, items: seq<Item>): seq<Occ>
    decreases |items|
  {
    if items == [] then [] else Placements(keys, items[..|items| - 1]) + Placement(keys, items[|items| - 1])
  }

  function GroupKeys(items: seq<Item>): set<string> {
    UniqueTopics(items) + {Miscellaneous}
  }

  /** The groups the second loop builds when `topicGroups` starts with one empty group per key. */
  function GroupsOver(keys: set<string>, items: seq<Item>): map<string, seq<Item>> {
    map k | k in keys :: Members(Placements(keys, items), k)
  }

  /** What `groupContentByTopic` returns. */
  function ContentGroups(items: seq<Item>): map<string, seq<Item>> {
    GroupsOver(GroupKeys(items), items)
  }

  /** The first loop: collecting `uniqueTopics`. */
  method CollectTopics(items: seq<Item>) returns (uniqueTopics: set<string>)
    ensures uniqueTopics == UniqueTopics(items)
  {
    uniqueTopics := {};
    for i := 0 to |items|
      invariant uniqueTopics == UniqueTopics(items[..i])
    {
      assert items[..i + 1][..i] == items[..i];
      var item := items[i];
      if HasTopics(item) {
        var topics := item.topics.value;
        for j := 0 to |topics|
          invariant uniqueTopics == UniqueTopics(items[..i]) + set t | t in topics[..j]
        {
          assert forall t :: t in topics[..j + 1] <==> t in topics[..j] || t == topics[j];
          uniqueTopics := uniqueTopics + {topics[j]};
        }
        assert topics[..|topics|] == topics;
      }
    }
    assert items[..|items|] == items;
  }

  /** The groups so far: one per key, each the items placed under it. */
  ghost predicate GroupsMatch(topicGroups: map<string, seq<Item>>, keys: set<string>, occ: seq<Occ>) {
    && topicGroups.Keys == keys
    && (forall k :: k in topicGroups ==> topicGroups[k] == Members(occ, k))
  }

  /** One push onto an existing group. */
  lemma PushOntoGroup(topicGroups: map<string, seq<Item>>, keys: set<string>, occ: seq<Occ>, o: Occ)
    requires GroupsMatch(topicGroups, keys, occ) && o.key in keys
    ensures GroupsMatch(topicGroups[o.key := topicGroups[o.key] + [o.item]], keys, occ + [o])
  {
    MembersAfterPush(occ, o);
  }

  /** The inner `forEach` over the topics of an item that has some. */
  method PlaceTopics(item: Item, groups0: map<string, seq<Item>>, ghost keys: set<string>, ghost occ: seq<Occ>)
    returns (topicGroups: map<string, seq<Item>>)
    requires HasTopics(item) && Miscellaneous in keys && GroupsMatch(groups0, keys, occ)
    ensures GroupsMatch(topicGroups, keys, occ + Placement(keys, item))
  {
    topicGroups := groups0;
    var itemTopics := item.topics.value;
    ghost var placed := Placement(keys, item);
    assert |placed| == |itemTopics|;
    assert occ + placed[..0] == occ;
    for j := 0 to |itemTopics|
      invariant GroupsMatch(topicGroups, keys, occ + placed[..j])
    {
      var trimmedTopic := Trim(itemTopics[j]);
      ghost var before := occ + placed[..j];
      var key := if trimmedTopic in topicGroups then trimmedTopic else Miscellaneous;
      ghost var o := Occ(item, key);
      assert occ + placed[..j + 1] == before + [o] by {
        ExtendPrefix(occ, placed, j);
        assert placed[j] == o;
      }
      PushOntoGroup(topicGroups, keys, before, o);
      topicGroups := topicGroups[key := topicGroups[key] + [item]];
    }
    assert placed[..|itemTopics|] == placed;
  }

  /** The second loop's body for one item. */
  method PlaceItem(item: Item, groups0: map<string, seq<Item>>, ghost keys: set<string>, ghost occ: seq<Occ>)
    returns (topicGroups: map<string, seq<Item>>)
    requires Miscellaneous in keys && GroupsMatch(groups0, keys, occ)
    ensures GroupsMatch(topicGroups, keys, occ + Placement(keys, item))
  {
    if item.topics.Some? && |item.topics.value| > 0 {
      topicGroups := PlaceTopics(item, groups0, keys, occ);
    } else {
      PushOntoGroup(groups0, keys, occ, Occ(item, Miscellaneous));
      topicGroups := groups0[Miscellaneous := groups0[Miscellaneous] + [item]];
    }
  }

  /** `groupContentByTopic(items)` */
  method GroupContentByTopic(items: seq<Item>) returns (topicGroups: map<string, seq<Item>>)
    ensures topicGroups == ContentGroups(items)
  {
    var uniqueTopics := CollectTopics(items);
    topicGroups := map t | t in uniqueTopics :: [];
    topicGroups := topicGroups[Miscellaneous := []];
    ghost var keys := GroupKeys(items);
    for i := 0 to |items|
      invariant GroupsMatch(topicGroups, keys, Placements(keys, items[..i]))
    {
      assert items[..i + 1][..i] == items[..i];
      topicGroups := PlaceItem(items[i], topicGroups, keys, Placements(keys, items[..i]));
    }
    assert items[..|items|] == items;
  }

  // ---------------------------------------------------------------------------
  // Properties of `groupContentByTopic`
  // ---------------------------------------------------------------------------

  /** An item is placed under a key exactly when its own placement says so. */
  lemma {:induction false} PlacementsExactly(keys: set<string>, items: seq<Item>, o: Occ)
    ensures o in Placements(keys, items) <==> exists i :: 0 <= i < |items| && o in Placement(keys, items[i])
    decreases |items|
  {
    if items != [] {
      var init := items[..|items| - 1];
      PlacementsExactly(keys, init, o);
      assert forall i :: 0 <= i < |init| ==> init[i] == items[i];
    }
  }

  /** An item is in the group of every key its own placement names. */
  lemma PlacedUnder(keys: set<string>, items: seq<Item>, i: nat, key: string)
    requires i < |items| && Occ(items[i], key) in Placement(keys, items[i])
    ensures items[i] in Members(Placements(keys, items), key)
  {
    PlacementsExactly(keys, items, Occ(items[i], key));
    MembersExactly(Placements(keys, items), key, items[i]);
  }

  /** Whatever a group holds was placed there by one of the items. */
  lemma PlacedFrom(keys: set<string>, items: seq<Item>, x: Item, key: string)
    requires x in Members(Placements(keys, items), key)
    ensures exists i :: 0 <= i < |items| && items[i] == x && Occ(x, key) in Placement(keys, items[i])
  {
    var occ := Placements(keys, items);
    assert Occ(x, key) in occ by {
      MembersExactly(occ, key, x);
    }
    assert exists i :: 0 <= i < |items| && Occ(x, key) in Placement(keys, items[i]) by {
      PlacementsExactly(keys, items, Occ(x, key));
    }
    var i :| 0 <= i < |items| && Occ(x, key) in Placement(keys, items[i]);
  }

  /** `uniqueTopics` holds exactly the topics, untrimmed, of the items that have some. */
  lemma {:induction false} UniqueTopicsExactly(items: seq<Item>, t: string)
    ensures t in UniqueTopics(items) <==> exists i :: 0 <= i < |items| && HasTopics(items[i]) && t in items[i].topics.value
    decreases |items|
  {
    if items != [] {
      var init := items[..|items| - 1];
      UniqueTopicsExactly(init, t);
      assert forall i :: 0 <= i < |init| ==> init[i] == items[i];
    }
  }

  /** The keys are `Miscellaneous` and every topic, untrimmed, of every item with topics. */
  lemma ContentKeys(items: seq<Item>, t: string)
    ensures Miscellaneous in ContentGroups(items)
    ensures t in ContentGroups(items) <==>
      t == Miscellaneous || exists i :: 0 <= i < |items| && HasTopics(items[i]) && t in items[i].topics.value
  {
    UniqueTopicsExactly(items, t);
  }

  /**
   * An item without topics goes to `Miscellaneous`; a topic whose trimmed
   * form is a key files the item there, and any other topic files it under
   * `Miscellaneous`.
   */
  lemma ContentPlacement(items: seq<Item>, i: nat)
    requires i < |items|
    ensures !HasTopics(items[i]) ==> items[i] in ContentGroups(items)[Miscellaneous]
    ensures HasTopics(items[i]) ==> forall j :: 0 <= j < |items[i].topics.value| ==>
      var tt := Trim(items[i].topics.value[j]);
      && (tt in ContentGroups(items) ==> items[i] in ContentGroups(items)[tt])
      && (tt !in ContentGroups(items) ==> items[i] in ContentGroups(items)[Miscellaneous])
  {
    var keys := GroupKeys(items);
    var item := items[i];
    if !HasTopics(item) {
      assert Placement(keys, item)[0] == Occ(item, Miscellaneous);
      PlacedUnder(keys, items, i, Miscellaneous);
    } else {
      var ts := item.topics.value;
      forall j | 0 <= j < |ts|
        ensures item in Members(Placements(keys, items), PlaceKey(keys, ts[j]))
      {
        assert Placement(keys, item)[j] == Occ(item, PlaceKey(keys, ts[j]));
        PlacedUnder(keys, items, i, PlaceKey(keys, ts[j]));
      }
    }
  }

  /** Every item lands in at least one group. */
  lemma EveryItemGrouped(items: seq<Item>, i: nat)
    requires i < |items|
    ensures exists k :: k in ContentGroups(items) && items[i] in ContentGroups(items)[k]
  {
    ContentPlacement(items, i);
    ContentKeys(items, Miscellaneous);
    var k := Miscellaneous;
    if HasTopics(items[i]) {
      var tt := Trim(items[i].topics.value[0]);
      if tt in ContentGroups(items) {
        k := tt;
      }
    }
    assert k in ContentGroups(items) && items[i] in ContentGroups(items)[k];
  }

  lemma TrimDropsBlank(c: char, t: string)
    requires IsSpace(c) && t != [] && !IsSpace(t[0]) && !IsSpace(t[|t| - 1])
    ensures Trim([c] + t) == t
  {
    assert ([c] + t)[1..] == t;
    assert TrimStart([c] + t) == t;
  }

  /**
   * As written, the first loop collects the topics untrimmed while the
   * second looks them up trimmed: an item whose only topic has a leading
   * blank (" x", say) leaves that topic's group empty and is filed under
   * `Miscellaneous` instead.
   */
  lemma UntrimmedTopicMisfiled(c: char, t: string)
    requires IsSpace(c) && t != [] && !IsSpace(t[0]) && !IsSpace(t[|t| - 1])
    ensures var items := [Item("a", Some([[c] + t]))];
      && [c] + t in ContentGroups(items) && ContentGroups(items)[[c] + t] == []
      && ContentGroups(items)[Miscellaneous] == items
  {
    var topic := [c] + t;
    var item := Item("a", Some([topic]));
    var items := [item];
    var keys := GroupKeys(items);
    assert topic != Miscellaneous by {
      assert Miscellaneous[0] == 'M';
    }
    assert keys == {topic, Miscellaneous} by {
      assert items[..0] == [] && HasTopics(item);
      assert (set u | u in [topic]) == {topic};
      assert UniqueTopics(items) == UniqueTopics([]) + {topic};
    }
    assert Trim(topic) != topic by {
      TrimDropsBlank(c, t);
      assert |topic| == |t| + 1;
    }
    var occ := [Occ(item, Miscellaneous)];
    assert Placements(keys, items) == occ by {
      assert items[..0] == [];
      assert Placement(keys, item) == occ;
    }
    assert Members(occ, topic) == [] && Members(occ, Miscellaneous) == items by {
      assert occ[..0] == [];
    }
  }

  /** The first loop with `uniqueTopics.add(topic.trim())`: the keys the second loop looks up. */
  function TrimmedGroupKeys(items: seq<Item>): set<string> {
    (set t | t in UniqueTopics(items) :: Trim(t)) + {Miscellaneous}
  }

  /** `groupContentByTopic` with the topics trimmed in both loops. */
  function TrimmedContentGroups(items: seq<Item>): map<string, seq<Item>> {
    GroupsOver(TrimmedGroupKeys(items), items)
  }

  /** With the topics trimmed in both loops, every item is in the group of each of its trimmed topics. */
  lemma TrimmedTopicsGrouped(items: seq<Item>, i: nat, j: nat)
    requires i < |items| && HasTopics(items[i]) && j < |items[i].topics.value|
    ensures var tt := Trim(items[i].topics.value[j]);
      tt in TrimmedContentGroups(items) && items[i] in TrimmedContentGroups(items)[tt]
  {
    var keys := TrimmedGroupKeys(items);
    var item := items[i];
    var t := item.topics.value[j];
    UniqueTopicsExactly(items, t);
    assert Trim(t) in keys;
    assert Placement(keys, item)[j] == Occ(item, Trim(t));
    PlacedUnder(keys, items, i, Trim(t));
  }

  /**
   * With the topics trimmed in both loops, `Miscellaneous` holds only items
   * without topics and items with a topic that trims to "Miscellaneous".
   */
  lemma TrimmedMiscellaneous(items: seq<Item>, x: Item)
    ensures Miscellaneous in TrimmedContentGroups(items)
    ensures x in TrimmedContentGroups(items)[Miscellaneous] ==>
      x in items && (!HasTopics(x) || exists j :: 0 <= j < |x.topics.value| && Trim(x.topics.value[j]) == Miscellaneous)
  {
    var keys := TrimmedGroupKeys(items);
    if x in TrimmedContentGroups(items)[Miscellaneous] {
      PlacedFrom(keys, items, x, Miscellaneous);
      var i :| 0 <= i < |items| && items[i] == x && Occ(x, Miscellaneous) in Placement(keys, items[i]);
      if HasTopics(x) {
        var ts := x.topics.value;
        var j :| 0 <= j < |ts| && Placement(keys, x)[j] == Occ(x, Miscellaneous);
        UniqueTopicsExactly(items, ts[j]);
        assert Trim(ts[j]) in keys;
      }
    }
  }
}
