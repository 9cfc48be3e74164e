/**
 * `cluster_articles`: the size checks, document preparation, the topic
 * model fit (an input here) and the shaping of its labels into the
 * response.
 */
module Pipeline {
  import opened Decimal
  import opened Seqs
  import opened Identifiers
  import opened Preparation
  import opened Grouping
  import opened Assembly

  /**
   * What the fitted topic model reports about the documents: one label per
   * document (`fit_transform`), a ranked word list per label (`get_topic`)
   * and the rows of its topic-info table (`get_topic_info`).
   */
  datatype TopicModel = TopicModel(topics: seq<int>, words: map<int, seq<string>>, names: seq<NameRow>)

  /**
   * The response: the short-circuit for too little input (a message and no
   * accounting fields), the clustering result, or the exception that escapes
   * when the topic model reports more labels than there are documents.
   */
  datatype Response =
    | NotEnough(message: string)
    | Clustered(clusters: seq<Cluster>, unclusteredIds: seq<ArticleId>, totalArticles: nat, clusteredArticles: nat, message: string)
    | Raised(error: string)

  const TOO_FEW_ARTICLES := "Not enough articles to cluster (minimum 3)"
  const TOO_FEW_DOCUMENTS := "Not enough valid documents to cluster"
  const INDEX_ERROR := "list index out of range"

  function SuccessMessage(count: nat): string
  {
    "Successfully created " + IntToString(count) + " clusters"
  }

  /** The response built from the documents' ids and the fitted model. */
  function Shape(documents: seq<string>, ids: seq<ArticleId>, model: TopicModel): Response
    requires |ids| == |documents| && |model.topics| <= |ids|
  {
    var clusters := SortedBySize(BuildClusters(Grouped(model.topics, ids), model.words, model.names));
    var unclustered := Unclustered(model.topics, ids);
    Clustered(clusters, unclustered, |documents|, |documents| - |unclustered|, SuccessMessage(|clusters|))
  }

  /** The post-fit part of `cluster_articles`: grouping, assembly, sorting and the accounting. */
  method ShapeResult(documents: seq<string>, ids: seq<ArticleId>, model: TopicModel) returns (r: Response)
    requires |ids| == |documents| && |model.topics| <= |ids|
    ensures r == Shape(documents, ids, model)
  {
    var groups := Group(model.topics, ids);
    var clusters := Assemble(groups, model.words, model.names);
    var unclustered := Unclustered(model.topics, ids);
    r := Clustered(clusters, unclustered, |documents|, |documents| - |unclustered|, SuccessMessage(|clusters|));
  }

  /**
   * The whole call, with the topic model's fit given as `fit`.  It is
   * consulted only once at least `MIN_DOCUMENTS` documents survive.
   */
  method ClusterArticles(articles: seq<Article>, fit: seq<string> -> TopicModel) returns (r: Response)
    ensures |articles| < MIN_DOCUMENTS ==> r == NotEnough(TOO_FEW_ARTICLES)
    ensures |articles| >= MIN_DOCUMENTS && |Documents(articles)| < MIN_DOCUMENTS ==> r == NotEnough(TOO_FEW_DOCUMENTS)
    ensures |articles| >= MIN_DOCUMENTS && |Documents(articles)| >= MIN_DOCUMENTS ==>
      var documents := Documents(articles);
      var model := fit(documents);
      if |model.topics| > |documents| then r == Raised(INDEX_ERROR)
      else r == Shape(documents, ArticleIds(articles), model)
  {
    if |articles| < MIN_DOCUMENTS {
      return NotEnough(TOO_FEW_ARTICLES);
    }
    var documents, ids := Prepare(articles);
    if |documents| < MIN_DOCUMENTS {
      return NotEnough(TOO_FEW_DOCUMENTS);
    }
    var model := fit(documents);
    if |model.topics| > |documents| {
      return Raised(INDEX_ERROR);
    }
    r := ShapeResult(documents, ids, model);
  }

  /** The cluster record reported for a label. */
  function ClusterOf(topics: seq<int>, ids: seq<ArticleId>, model: TopicModel, topic: int): Cluster
    requires |topics| <= |ids|
  {
    MakeCluster(Bucket(topic, Members(topics, ids, topic)), model.words, model.names)
  }

  /** A label the response reports a cluster for. */
  predicate Reportable(topics: seq<int>, ids: seq<ArticleId>, topic: int)
    requires |topics| <= |ids|
  {
    topic != OUTLIER && |Members(topics, ids, topic)| >= MIN_CLUSTER_SIZE
  }

  /** Every reported cluster is the cluster of a reportable label. */
  lemma ShapeClustersSound(documents: seq<string>, ids: seq<ArticleId>, model: TopicModel, c: Cluster)
    requires |ids| == |documents| && |model.topics| <= |ids|
    requires c in Shape(documents, ids, model).clusters
    ensures exists topic :: Reportable(model.topics, ids, topic) && c == ClusterOf(model.topics, ids, model, topic)
    ensures c.size == |c.articleIds| >= MIN_CLUSTER_SIZE
  {
    var groups := Grouped(model.topics, ids);
    var built := BuildClusters(groups, model.words, model.names);
    assert Shape(documents, ids, model).clusters == SortedBySize(built);
    SortedBySizeCorrect(built);
    assert c in multiset(SortedBySize(built));
    assert c in built;
    BuildClustersMembership(groups, model.words, model.names);
    var g :| g in groups && |g.ids| >= MIN_CLUSTER_SIZE && c == MakeCluster(g, model.words, model.names);
    GroupedBucket(model.topics, ids, g);
    assert Reportable(model.topics, ids, g.topic);
  }

  /** Every reportable label has its cluster reported. */
  lemma ShapeClustersComplete(documents: seq<string>, ids: seq<ArticleId>, model: TopicModel, topic: int)
    requires |ids| == |documents| && |model.topics| <= |ids|
    requires Reportable(model.topics, ids, topic)
    ensures ClusterOf(model.topics, ids, model, topic) in Shape(documents, ids, model).clusters
  {
    var groups := Grouped(model.topics, ids);
    var built := BuildClusters(groups, model.words, model.names);
    MembersOccur(model.topics, ids, topic);
    BucketInGrouped(model.topics, ids, topic);
    BuildClustersMembership(groups, model.words, model.names);
    SortedBySizeCorrect(built);
    assert ClusterOf(model.topics, ids, model, topic) in multiset(built);
  }

  /**
   * The reported clusters are exactly the clusters of the labels other than
   * the outlier label that at least `MIN_CLUSTER_SIZE` documents carry; each
   * holds the ids of the documents carrying its label, in document order,
   * and its size is their number.
   */
  lemma ShapeClusters(documents: seq<string>, ids: seq<ArticleId>, model: TopicModel)
    requires |ids| == |documents| && |model.topics| <= |ids|
    ensures forall c :: c in Shape(documents, ids, model).clusters ==>
      (exists topic :: Reportable(model.topics, ids, topic) && c == ClusterOf(model.topics, ids, model, topic)) &&
      c.size == |c.articleIds| >= MIN_CLUSTER_SIZE
    ensures forall topic :: Reportable(model.topics, ids, topic) ==>
      ClusterOf(model.topics, ids, model, topic) in Shape(documents, ids, model).clusters
  {
    forall c | c in Shape(documents, ids, model).clusters
      ensures (exists topic :: Reportable(model.topics, ids, topic) && c == ClusterOf(model.topics, ids, model, topic)) &&
        c.size == |c.articleIds| >= MIN_CLUSTER_SIZE
    {
      ShapeClustersSound(documents, ids, model, c);
    }
    forall topic | Reportable(model.topics, ids, topic)
      ensures ClusterOf(model.topics, ids, model, topic) in Shape(documents, ids, model).clusters
    {
      ShapeClustersComplete(documents, ids, model, topic);
    }
  }

  /**
   * The clusters are ordered by size, largest first, and clusters of equal
   * size keep the order of their buckets, which is the order in which their
   * labels first appear.
   */
  lemma ShapeOrder(documents: seq<string>, ids: seq<ArticleId>, model: TopicModel)
    requires |ids| == |documents| && |model.topics| <= |ids|
    ensures Descending(Shape(documents, ids, model).clusters)
    ensures forall n :: (OfSize(Shape(documents, ids, model).clusters, n) ==
      OfSize(BuildClusters(Grouped(model.topics, ids), model.words, model.names), n))
  {
    SortedBySizeCorrect(BuildClusters(Grouped(model.topics, ids), model.words, model.names));
  }

  /**
   * Two equal-sized reported clusters appear in the order in which their
   * labels first appear in the label sequence.
   */
  lemma ShapeTie(documents: seq<string>, ids: seq<ArticleId>, model: TopicModel, i: nat, j: nat) returns (a: int, b: int)
    requires |ids| == |documents| && |model.topics| <= |ids|
    requires i < j < |Shape(documents, ids, model).clusters|
    requires Shape(documents, ids, model).clusters[i].size == Shape(documents, ids, model).clusters[j].size
    ensures Reportable(model.topics, ids, a) && Shape(documents, ids, model).clusters[i] == ClusterOf(model.topics, ids, model, a)
    ensures Reportable(model.topics, ids, b) && Shape(documents, ids, model).clusters[j] == ClusterOf(model.topics, ids, model, b)
    ensures a in model.topics && b in model.topics && FirstPosition(model.topics, a) < FirstPosition(model.topics, b)
  {
    var topics := model.topics;
    var groups := Grouped(topics, ids);
    var built := BuildClusters(groups, model.words, model.names);
    assert Shape(documents, ids, model).clusters == SortedBySize(built);
    var x, y := SortedTieOrigin(built, i, j);
    BuildClustersInOrder(groups, model.words, model.names);
    var gs := Where(groups, Reported);
    var labels := Labels(topics);
    LabelsInFirstAppearanceOrder(topics);
    a, b := labels[gs[x]], labels[gs[y]];
    assert labels[gs[x]] in labels && labels[gs[y]] in labels;
    assert groups[gs[x]] == Bucket(a, Members(topics, ids, a));
    assert groups[gs[y]] == Bucket(b, Members(topics, ids, b));
  }

  /**
   * Cluster `c` belongs to a reportable label that first appears before the
   * reportable label cluster `d` belongs to.
   */
  predicate LabelFirst(topics: seq<int>, ids: seq<ArticleId>, model: TopicModel, c: Cluster, d: Cluster)
    requires |topics| <= |ids|
  {
    exists a, b :: Reportable(topics, ids, a) && Reportable(topics, ids, b) &&
      c == ClusterOf(topics, ids, model, a) && d == ClusterOf(topics, ids, model, b) &&
      a in topics && b in topics && FirstPosition(topics, a) < FirstPosition(topics, b)
  }

  /**
   * Ties are broken by first appearance: whenever two reported clusters have
   * the same size, the earlier one belongs to the label that appears first.
   */
  lemma ShapeTieOrder(documents: seq<string>, ids: seq<ArticleId>, model: TopicModel)
    requires |ids| == |documents| && |model.topics| <= |ids|
    ensures forall i, j ::
      (0 <= i < j < |Shape(documents, ids, model).clusters| &&
       Shape(documents, ids, model).clusters[i].size == Shape(documents, ids, model).clusters[j].size) ==>
      LabelFirst(model.topics, ids, model, Shape(documents, ids, model).clusters[i], Shape(documents, ids, model).clusters[j])
  {
    var clusters := Shape(documents, ids, model).clusters;
    forall i, j | 0 <= i < j < |clusters| && clusters[i].size == clusters[j].size
      ensures LabelFirst(model.topics, ids, model, clusters[i], clusters[j])
    {
      var a, b := ShapeTie(documents, ids, model, i, j);
      assert Reportable(model.topics, ids, a) && Reportable(model.topics, ids, b) &&
        clusters[i] == ClusterOf(model.topics, ids, model, a) && clusters[j] == ClusterOf(model.topics, ids, model, b) &&
        a in model.topics && b in model.topics && FirstPosition(model.topics, a) < FirstPosition(model.topics, b);
    }
  }

  /**
   * No two reported clusters share an id, whatever the article ids: each
   * reportable label is reported once.
   */
  lemma ShapeDistinctIds(documents: seq<string>, ids: seq<ArticleId>, model: TopicModel)
    requires |ids| == |documents| && |model.topics| <= |ids|
    ensures DistinctIds(Shape(documents, ids, model).clusters)
  {
    var groups := Grouped(model.topics, ids);
    var built := BuildClusters(groups, model.words, model.names);
    assert Shape(documents, ids, model).clusters == SortedBySize(built);
    GroupedDistinctLabels(model.topics, ids);
    BuildClustersDistinctIds(groups, model.words, model.names);
    SortedDistinctIds(built);
  }

  /**
   * When the article ids are pairwise distinct, no two clusters share an
   * id, no article id is in two clusters, and no clustered id is among the
   * unclustered ids.
   */
  lemma ShapeDisjoint(documents: seq<string>, ids: seq<ArticleId>, model: TopicModel)
    requires |ids| == |documents| && |model.topics| <= |ids|
    requires Distinct(ids)
    ensures DistinctIds(Shape(documents, ids, model).clusters)
    ensures forall i, j, x ::
      (0 <= i < j < |Shape(documents, ids, model).clusters| && x in Shape(documents, ids, model).clusters[i].articleIds) ==>
      x !in Shape(documents, ids, model).clusters[j].articleIds
    ensures forall c, x :: c in Shape(documents, ids, model).clusters && x in c.articleIds ==>
      x !in Shape(documents, ids, model).unclusteredIds
  {
    var topics := model.topics;
    var groups := Grouped(topics, ids);
    var built := BuildClusters(groups, model.words, model.names);
    var r := Shape(documents, ids, model);
    var clusters := r.clusters;
    assert clusters == SortedBySize(built);
    ShapeDistinctIds(documents, ids, model);
    forall c | c in clusters
      ensures forall x :: x in c.articleIds ==> x !in r.unclusteredIds
    {
      ShapeClustersSound(documents, ids, model, c);
      var a :| Reportable(topics, ids, a) && c == ClusterOf(topics, ids, model, a);
      PositionsDisjoint(topics, a, OUTLIER);
      PickDisjoint(ids, Positions(topics, a), Positions(topics, OUTLIER));
    }
    forall i, j | 0 <= i < j < |clusters|
      ensures forall x :: x in clusters[i].articleIds ==> x !in clusters[j].articleIds
    {
      ShapeClustersSound(documents, ids, model, clusters[i]);
      ShapeClustersSound(documents, ids, model, clusters[j]);
      var a :| Reportable(topics, ids, a) && clusters[i] == ClusterOf(topics, ids, model, a);
      var b :| Reportable(topics, ids, b) && clusters[j] == ClusterOf(topics, ids, model, b);
      assert clusters[i].id != clusters[j].id;
      PositionsDisjoint(topics, a, b);
      PickDisjoint(ids, Positions(topics, a), Positions(topics, b));
    }
  }

  /**
   * The accounting: `totalArticles` counts the documents and
   * `clusteredArticles` every document not labelled as an outlier.  So it
   * also counts the member of every one-member bucket, which no reported
   * cluster holds (and any document the model gave no label).
   */
  lemma ShapeAccounting(documents: seq<string>, ids: seq<ArticleId>, model: TopicModel)
    requires |ids| == |documents| && |model.topics| <= |ids|
    ensures Shape(documents, ids, model).totalArticles == |documents|
    ensures Shape(documents, ids, model).clusteredArticles ==
      Shape(documents, ids, model).totalArticles - |Shape(documents, ids, model).unclusteredIds|
    ensures Shape(documents, ids, model).clusteredArticles ==
      TotalSize(Shape(documents, ids, model).clusters) + OneMemberBuckets(Grouped(model.topics, ids)) +
      (|documents| - |model.topics|)
  {
    var groups := Grouped(model.topics, ids);
    var built := BuildClusters(groups, model.words, model.names);
    GroupedPartition(model.topics, ids);
    GroupedNonEmpty(model.topics, ids);
    BuildClustersTotalSize(groups, model.words, model.names);
    SortedTotalSize(built);
  }
}
