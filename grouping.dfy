/**
 * Grouping by topic label: the walk over the label sequence that skips the
 * outlier label -1 and appends each document's article id to the bucket of
 * its label, buckets being kept in the order in which their label first
 * appears (the insertion order of a Python dict).  Also the list of ids at
 * outlier positions, `unclusteredIds`.
 */
module Grouping {
  import opened Seqs
  import opened Identifiers

  /** The label the topic model gives to documents it assigns to no topic. */
  const OUTLIER: int := -1

  /** One entry of the label -> member ids dictionary. */
  datatype Bucket = Bucket(topic: int, ids: seq<ArticleId>)

  /** The document positions carrying `topic`, in document order. */
  function Positions(topics: seq<int>, topic: int): (ps: seq<nat>)
    ensures Below(ps, |topics|)
    ensures forall i :: i in ps <==> 0 <= i < |topics| && topics[i] == topic
  {
    Where(topics, t => t == topic)
  }

  /** The ids of the documents carrying `topic`, in document order. */
  function Members(topics: seq<int>, ids: seq<ArticleId>, topic: int): seq<ArticleId>
    requires |topics| <= |ids|
  {
    Pick(ids, Positions(topics, topic))
  }

  /**
   * `unclustered_ids`: the ids of the documents labelled as outliers, in
   * document order.
   */
  function Unclustered(topics: seq<int>, ids: seq<ArticleId>): seq<ArticleId>
    requires |topics| <= |ids|
  {
    Members(topics, ids, OUTLIER)
  }

  /**
   * The dictionary's keys in insertion order: every label other than the
   * outlier label, once, in the order of its first appearance.
   */
  function Labels(topics: seq<int>): (labels: seq<int>)
    ensures forall l :: l in labels <==> l != OUTLIER && l in topics
    ensures forall i, j :: 0 <= i < j < |labels| ==> labels[i] != labels[j]
    decreases |topics|
  {
    if topics == [] then []
    else
      var earlier := Labels(topics[..|topics| - 1]);
      var t := topics[|topics| - 1];
      assert topics == topics[..|topics| - 1] + [t];
      if t == OUTLIER || t in earlier then earlier else earlier + [t]
  }

  /** The buckets of the given labels, in the order of `labels`. */
  function BucketsOf(topics: seq<int>, ids: seq<ArticleId>, labels: seq<int>): (groups: seq<Bucket>)
    requires |topics| <= |ids|
    ensures |groups| == |labels|
  {
    seq(|labels|, i requires 0 <= i < |labels| => Bucket(labels[i], Members(topics, ids, labels[i])))
  }

  /** The dictionary as its `items()` list it: each label with its member ids. */
  function Grouped(topics: seq<int>, ids: seq<ArticleId>): (groups: seq<Bucket>)
    requires |topics| <= |ids|
    ensures |groups| == |Labels(topics)|
  {
    BucketsOf(topics, ids, Labels(topics))
  }

  lemma PositionsSnoc(topics: seq<int>, t: int, topic: int)
    ensures Positions(topics + [t], topic) == Positions(topics, topic) + (if t == topic then [|topics|] else [])
  {
    WhereSnoc(topics, t, x => x == topic);
  }

  lemma MembersSnoc(topics: seq<int>, t: int, ids: seq<ArticleId>, topic: int)
    requires |topics| < |ids|
    ensures Members(topics + [t], ids, topic) == Members(topics, ids, topic) + (if t == topic then [ids[|topics|]] else [])
  {
    PositionsSnoc(topics, t, topic);
    if t == topic {
      PickSnoc(ids, Positions(topics, topic), |topics|);
    }
  }

  /** A label that does not occur has no positions. */
  lemma {:induction false} PositionsAbsent(topics: seq<int>, topic: int)
    requires topic !in topics
    ensures Positions(topics, topic) == []
    decreases |topics|
  {
    if topics != [] {
      var prefix := topics[..|topics| - 1];
      assert topics == prefix + [topics[|topics| - 1]];
      PositionsSnoc(prefix, topics[|topics| - 1], topic);
      PositionsAbsent(prefix, topic);
    }
  }

  /**
   * The grouping loop.  `order` and `members` together are the
   * insertion-ordered dictionary; at the end they are listed as its items.
   */
  method Group(topics: seq<int>, ids: seq<ArticleId>) returns (groups: seq<Bucket>)
    requires |topics| <= |ids|
    ensures groups == Grouped(topics, ids)
  {
    var order: seq<int> := [];
    var members: map<int, seq<ArticleId>> := map[];
    for idx := 0 to |topics|
      invariant order == Labels(topics[..idx])
      invariant forall l :: l in members <==> l in order
      invariant forall l :: l in members ==> members[l] == Members(topics[..idx], ids, l)
    {
      var topic := topics[idx];
      ghost var done := topics[..idx];
      assert topics[..idx + 1] == done + [topic];
      forall l | l in members && l != topic
        ensures members[l] == Members(done + [topic], ids, l)
      {
        MembersSnoc(done, topic, ids, l);
      }
      if topic == OUTLIER {
        continue;
      }
      if topic !in members {
        PositionsAbsent(done, topic);
        members := members[topic := []];
        order := order + [topic];
      }
      MembersSnoc(done, topic, ids, topic);
      members := members[topic := members[topic] + [ids[idx]]];
    }
    assert topics[..|topics|] == topics;
    forall i | 0 <= i < |order|
      ensures order[i] in members
    {
      assert order[i] in order;
    }
    groups := seq(|order|, i requires 0 <= i < |order| => Bucket(order[i], members[order[i]]));
  }

  /** The position of the first document carrying `topic`: a search from the front. */
  function FirstPosition(topics: seq<int>, topic: int): (p: nat)
    requires topic in topics
    ensures p < |topics| && topics[p] == topic
    ensures forall i :: 0 <= i < p ==> topics[i] != topic
  {
    if topics[0] == topic then 0 else 1 + FirstPosition(topics[1..], topic)
  }

  lemma FirstPositionSnoc(topics: seq<int>, t: int, topic: int)
    requires topic in topics + [t]
    ensures topic in topics ==> FirstPosition(topics + [t], topic) == FirstPosition(topics, topic)
    ensures topic !in topics ==> FirstPosition(topics + [t], topic) == |topics|
  {
    var p := FirstPosition(topics + [t], topic);
    if topic in topics {
      var q := FirstPosition(topics, topic);
      assert (topics + [t])[q] == topic;
    }
  }

  /**
   * Buckets come in the order in which their labels first appear in the
   * label sequence.
   */
  lemma {:induction false} LabelsInFirstAppearanceOrder(topics: seq<int>)
    ensures forall i, j :: 0 <= i < j < |Labels(topics)| ==>
      Labels(topics)[i] in topics && Labels(topics)[j] in topics &&
      FirstPosition(topics, Labels(topics)[i]) < FirstPosition(topics, Labels(topics)[j])
    decreases |topics|
  {
    var labels := Labels(topics);
    forall i | 0 <= i < |labels|
      ensures labels[i] in topics
    {
      assert labels[i] in labels;
    }
    if topics != [] {
      var prefix := topics[..|topics| - 1];
      var t := topics[|topics| - 1];
      assert topics == prefix + [t];
      var earlier := Labels(prefix);
      LabelsInFirstAppearanceOrder(prefix);
      forall i | 0 <= i < |earlier|
        ensures earlier[i] in prefix
        ensures FirstPosition(topics, earlier[i]) == FirstPosition(prefix, earlier[i])
        ensures FirstPosition(prefix, earlier[i]) < |prefix|
      {
        assert earlier[i] in earlier;
        FirstPositionSnoc(prefix, t, earlier[i]);
      }
      if labels != earlier {
        assert labels == earlier + [t] && t !in prefix;
        FirstPositionSnoc(prefix, t, t);
      }
    }
  }

  /** Two different labels have no document position in common. */
  lemma PositionsDisjoint(topics: seq<int>, a: int, b: int)
    requires a != b
    ensures forall k :: 0 <= k < |Positions(topics, a)| ==> Positions(topics, a)[k] !in Positions(topics, b)
  {
    var pa := Positions(topics, a);
    forall k | 0 <= k < |pa|
      ensures pa[k] !in Positions(topics, b)
    {
      assert pa[k] in pa;
    }
  }

  /**
   * With pairwise distinct article ids, no id belongs to two buckets, and
   * no id of a bucket is among the unclustered ids.
   */
  lemma GroupedDisjoint(topics: seq<int>, ids: seq<ArticleId>)
    requires |topics| <= |ids|
    requires Distinct(ids)
    ensures forall i, j, x :: 0 <= i < j < |Grouped(topics, ids)| && x in Grouped(topics, ids)[i].ids ==>
      x !in Grouped(topics, ids)[j].ids
    ensures forall i, x :: 0 <= i < |Grouped(topics, ids)| && x in Grouped(topics, ids)[i].ids ==>
      x !in Unclustered(topics, ids)
  {
    var groups := Grouped(topics, ids);
    var labels := Labels(topics);
    forall i, j | 0 <= i < j < |groups|
      ensures forall x :: x in groups[i].ids ==> x !in groups[j].ids
    {
      PositionsDisjoint(topics, labels[i], labels[j]);
      PickDisjoint(ids, Positions(topics, labels[i]), Positions(topics, labels[j]));
    }
    forall i | 0 <= i < |groups|
      ensures forall x :: x in groups[i].ids ==> x !in Unclustered(topics, ids)
    {
      assert labels[i] in labels;
      PositionsDisjoint(topics, labels[i], OUTLIER);
      PickDisjoint(ids, Positions(topics, labels[i]), Positions(topics, OUTLIER));
    }
  }

  /** Every bucket holds a label other than the outlier label and at least one member. */
  lemma GroupedNonEmpty(topics: seq<int>, ids: seq<ArticleId>)
    requires |topics| <= |ids|
    ensures forall i :: 0 <= i < |Grouped(topics, ids)| ==>
      Grouped(topics, ids)[i].topic != OUTLIER && |Grouped(topics, ids)[i].ids| >= 1
  {
    var labels := Labels(topics);
    forall i | 0 <= i < |labels|
      ensures labels[i] != OUTLIER && |Positions(topics, labels[i])| >= 1
    {
      assert labels[i] in labels;
      assert FirstPosition(topics, labels[i]) in Positions(topics, labels[i]);
    }
  }

  /** How many documents carry one of `labels`. */
  function CountIn(topics: seq<int>, labels: seq<int>): nat
  {
    if labels == [] then 0
    else CountIn(topics, labels[..|labels| - 1]) + |Positions(topics, labels[|labels| - 1])|
  }

  /** The number of member ids over all buckets. */
  function TotalMembers(groups: seq<Bucket>): nat
  {
    if groups == [] then 0
    else TotalMembers(groups[..|groups| - 1]) + |groups[|groups| - 1].ids|
  }

  lemma {:induction false} TotalMembersOf(topics: seq<int>, ids: seq<ArticleId>, labels: seq<int>)
    requires |topics| <= |ids|
    ensures TotalMembers(BucketsOf(topics, ids, labels)) == CountIn(topics, labels)
    decreases |labels|
  {
    if labels != [] {
      var n := |labels| - 1;
      assert BucketsOf(topics, ids, labels)[..n] == BucketsOf(topics, ids, labels[..n]);
      TotalMembersOf(topics, ids, labels[..n]);
    }
  }

  /** One more document adds one to the count exactly when its label is among `labels`. */
  lemma {:induction false} CountInSnoc(topics: seq<int>, t: int, labels: seq<int>)
    requires Distinct(labels)
    ensures CountIn(topics + [t], labels) == CountIn(topics, labels) + (if t in labels then 1 else 0)
    decreases |labels|
  {
    if labels != [] {
      var n := |labels| - 1;
      var rest := labels[..n];
      assert labels == rest + [labels[n]];
      PositionsSnoc(topics, t, labels[n]);
      CountInSnoc(topics, t, rest);
      assert t in labels <==> t in rest || t == labels[n];
      assert labels[n] !in rest;
    }
  }

  lemma {:induction false} LabelCount(topics: seq<int>)
    ensures CountIn(topics, Labels(topics)) + |Positions(topics, OUTLIER)| == |topics|
    decreases |topics|
  {
    if topics != [] {
      var prefix := topics[..|topics| - 1];
      var t := topics[|topics| - 1];
      assert topics == prefix + [t];
      var earlier := Labels(prefix);
      LabelCount(prefix);
      CountInSnoc(prefix, t, earlier);
      PositionsSnoc(prefix, t, OUTLIER);
      if t == OUTLIER || t in earlier {
        assert Labels(topics) == earlier;
      } else {
        assert Labels(topics) == earlier + [t];
        CountInAppend(topics, earlier, t);
        PositionsSnoc(prefix, t, t);
        PositionsAbsent(prefix, t);
      }
    }
  }

  lemma CountInAppend(topics: seq<int>, labels: seq<int>, l: int)
    ensures CountIn(topics, labels + [l]) == CountIn(topics, labels) + |Positions(topics, l)|
  {
    assert (labels + [l])[..|labels|] == labels;
  }

  /**
   * Every document position is counted once: in exactly one bucket, or
   * among the unclustered ids.
   */
  lemma GroupedPartition(topics: seq<int>, ids: seq<ArticleId>)
    requires |topics| <= |ids|
    ensures TotalMembers(Grouped(topics, ids)) + |Unclustered(topics, ids)| == |topics|
  {
    TotalMembersOf(topics, ids, Labels(topics));
    LabelCount(topics);
  }

  /** A bucket of the dictionary is the bucket of its own label. */
  lemma GroupedBucket(topics: seq<int>, ids: seq<ArticleId>, g: Bucket)
    requires |topics| <= |ids|
    requires g in Grouped(topics, ids)
    ensures g.topic != OUTLIER && g.topic in topics
    ensures g == Bucket(g.topic, Members(topics, ids, g.topic))
  {
    var labels := Labels(topics);
    var i :| 0 <= i < |labels| && Grouped(topics, ids)[i] == g;
    assert labels[i] in labels;
  }

  /** Every label other than the outlier label that occurs has its bucket. */
  lemma BucketInGrouped(topics: seq<int>, ids: seq<ArticleId>, topic: int)
    requires |topics| <= |ids|
    requires topic != OUTLIER && topic in topics
    ensures Bucket(topic, Members(topics, ids, topic)) in Grouped(topics, ids)
  {
    var labels := Labels(topics);
    assert topic in labels;
    var i :| 0 <= i < |labels| && labels[i] == topic;
    assert Grouped(topics, ids)[i] == Bucket(topic, Members(topics, ids, topic));
  }

  /** A label with members occurs. */
  lemma MembersOccur(topics: seq<int>, ids: seq<ArticleId>, topic: int)
    requires |topics| <= |ids|
    requires |Members(topics, ids, topic)| > 0
    ensures topic in topics
  {
    var ps := Positions(topics, topic);
    assert ps[0] in ps;
  }

  /** No two buckets share a label. */
  lemma GroupedDistinctLabels(topics: seq<int>, ids: seq<ArticleId>)
    requires |topics| <= |ids|
    ensures forall i, j :: 0 <= i < j < |Grouped(topics, ids)| ==> Grouped(topics, ids)[i].topic != Grouped(topics, ids)[j].topic
  {
  }
}
