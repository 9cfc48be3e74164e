/**
 * Cluster assembly: every bucket with at least two members becomes a
 * cluster record carrying its id, member ids, keywords, name and size; the
 * records are then sorted by size, largest first, with a stable sort.
 */
module Assembly {
  import opened Decimal
  import opened Identifiers
  import opened Grouping
  import opened Seqs

  /** Buckets with fewer members than this are not reported. */
  const MIN_CLUSTER_SIZE: nat := 2

  /** At most this many keywords are reported per cluster. */
  const MAX_KEYWORDS: nat := 5

  datatype Cluster = Cluster(id: string, articleIds: seq<ArticleId>, keywords: seq<string>, topicName: string, size: nat)

  /** One row of the topic model's topic-info table: a label and the name generated for it. */
  datatype NameRow = NameRow(topic: int, name: string)

  /**
   * The leading keywords of a label: the first `MAX_KEYWORDS` words of its
   * ranked word list, or none when the topic model has no list for it.
   */
  function Keywords(words: map<int, seq<string>>, topic: int): (r: seq<string>)
    ensures |r| <= MAX_KEYWORDS
    ensures topic in words ==>
      |r| == (if |words[topic]| < MAX_KEYWORDS then |words[topic]| else MAX_KEYWORDS) &&
      r == words[topic][..|r|]
    ensures topic !in words ==> r == []
  {
    if topic !in words then []
    else if |words[topic]| <= MAX_KEYWORDS then words[topic]
    else words[topic][..MAX_KEYWORDS]
  }

  /** The index of the first row for `topic`, or `|rows|` when there is none. */
  function NameIndex(rows: seq<NameRow>, topic: int): (k: nat)
    ensures k <= |rows|
    ensures forall j :: 0 <= j < k ==> rows[j].topic != topic
    ensures k < |rows| ==> rows[k].topic == topic
  {
    if rows == [] || rows[0].topic == topic then 0 else 1 + NameIndex(rows[1..], topic)
  }

  /**
   * The name of a label: the name in the first topic-info row for it, or
   * "Topic <label>" when the table has no such row.
   */
  function TopicName(rows: seq<NameRow>, topic: int): (name: string)
    ensures (forall i :: 0 <= i < |rows| ==> rows[i].topic != topic) ==> name == "Topic " + IntToString(topic)
    ensures forall i :: 0 <= i < |rows| && rows[i].topic == topic && (forall j :: 0 <= j < i ==> rows[j].topic != topic) ==>
      name == rows[i].name
  {
    var k := NameIndex(rows, topic);
    if k < |rows| then rows[k].name else "Topic " + IntToString(topic)
  }

  /** The id of the cluster of a label. */
  function ClusterId(topic: int): string
  {
    "cluster-" + IntToString(topic)
  }

  /** Different labels give different cluster ids. */
  lemma ClusterIdInjective(a: int, b: int)
    ensures ClusterId(a) == ClusterId(b) ==> a == b
  {
    if ClusterId(a) == ClusterId(b) {
      assert IntToString(a) == ClusterId(a)[8..];
      assert IntToString(b) == ClusterId(b)[8..];
      IntToStringInjective(a, b);
    }
  }

  /** The cluster record of one bucket. */
  function MakeCluster(b: Bucket, words: map<int, seq<string>>, rows: seq<NameRow>): Cluster
  {
    Cluster(ClusterId(b.topic), b.ids, Keywords(words, b.topic), TopicName(rows, b.topic), |b.ids|)
  }

  /** The cluster records of the buckets large enough to report, in bucket order. */
  function BuildClusters(groups: seq<Bucket>, words: map<int, seq<string>>, rows: seq<NameRow>): (cs: seq<Cluster>)
    ensures |cs| <= |groups|
    ensures forall k :: 0 <= k < |cs| ==> cs[k].size == |cs[k].articleIds| >= MIN_CLUSTER_SIZE
    decreases |groups|
  {
    if groups == [] then []
    else
      var last := groups[|groups| - 1];
      BuildClusters(groups[..|groups| - 1], words, rows) +
        (if |last.ids| >= MIN_CLUSTER_SIZE then [MakeCluster(last, words, rows)] else [])
  }

  /** A bucket large enough to be reported. */
  predicate Reported(b: Bucket)
  {
    |b.ids| >= MIN_CLUSTER_SIZE
  }

  /**
   * The assembled clusters are the clusters of the reported buckets, read in
   * bucket order: cluster `k` comes from the `k`-th reported bucket.
   */
  lemma {:induction false} BuildClustersInOrder(groups: seq<Bucket>, words: map<int, seq<string>>, rows: seq<NameRow>)
    ensures |BuildClusters(groups, words, rows)| == |Where(groups, Reported)|
    ensures forall k :: 0 <= k < |BuildClusters(groups, words, rows)| ==>
      BuildClusters(groups, words, rows)[k] == MakeCluster(groups[Where(groups, Reported)[k]], words, rows)
    decreases |groups|
  {
    if groups != [] {
      var m := |groups| - 1;
      var prefix := groups[..m];
      assert groups == prefix + [groups[m]];
      BuildClustersInOrder(prefix, words, rows);
      WhereSnoc(prefix, groups[m], Reported);
      var built := BuildClusters(prefix, words, rows);
      var ps := Where(prefix, Reported);
      forall k | 0 <= k < |built|
        ensures BuildClusters(groups, words, rows)[k] == MakeCluster(groups[Where(groups, Reported)[k]], words, rows)
      {
        assert Where(groups, Reported)[k] == ps[k];
        assert groups[ps[k]] == prefix[ps[k]];
      }
    }
  }

  /**
   * A cluster is reported for a bucket exactly when the bucket has at least
   * `MIN_CLUSTER_SIZE` members, and every reported cluster comes from such a
   * bucket.
   */
  lemma {:induction false} BuildClustersMembership(groups: seq<Bucket>, words: map<int, seq<string>>, rows: seq<NameRow>)
    ensures forall g :: g in groups && |g.ids| >= MIN_CLUSTER_SIZE ==> MakeCluster(g, words, rows) in BuildClusters(groups, words, rows)
    ensures forall c :: c in BuildClusters(groups, words, rows) ==>
      exists g :: g in groups && |g.ids| >= MIN_CLUSTER_SIZE && c == MakeCluster(g, words, rows)
    decreases |groups|
  {
    if groups != [] {
      var prefix := groups[..|groups| - 1];
      var last := groups[|groups| - 1];
      assert groups == prefix + [last];
      BuildClustersMembership(prefix, words, rows);
    }
  }

  // Sorting by size, largest first.

  /**
   * Stable insertion of `c` into `r`: `c` goes after every element of `r`
   * at least as large as it, scanning from the back.
   */
  function Insert(r: seq<Cluster>, c: Cluster): seq<Cluster>
  {
    if r == [] || r[|r| - 1].size >= c.size then r + [c]
    else Insert(r[..|r| - 1], c) + [r[|r| - 1]]
  }

  /**
   * `c` lands right after the last element at least as large as it: at
   * position `j` when everything from `j` on is smaller.
   */
  lemma {:induction false} InsertAt(r: seq<Cluster>, c: Cluster, j: nat)
    requires j <= |r|
    requires forall k :: j <= k < |r| ==> r[k].size < c.size
    requires j == 0 || r[j - 1].size >= c.size
    ensures Insert(r, c) == r[..j] + [c] + r[j..]
    decreases |r|
  {
    if j < |r| {
      var m := |r| - 1;
      InsertAt(r[..m], c, j);
      assert r[..m][..j] == r[..j];
      assert r[j..] == r[..m][j..] + [r[m]];
    }
  }

  /** `sorted(cs, key=size, reverse=True)`, as a stable insertion sort. */
  function SortedBySize(cs: seq<Cluster>): seq<Cluster>
  {
    if cs == [] then [] else Insert(SortedBySize(cs[..|cs| - 1]), cs[|cs| - 1])
  }

  lemma SortedBySizePrefix(cs: seq<Cluster>, i: nat)
    requires i < |cs|
    ensures SortedBySize(cs[..i + 1]) == Insert(SortedBySize(cs[..i]), cs[i])
  {
    assert cs[..i + 1][..i] == cs[..i];
  }

  predicate Descending(r: seq<Cluster>)
  {
    forall i, j :: 0 <= i < j < |r| ==> r[i].size >= r[j].size
  }

  /** The clusters of size `n`, in order. */
  function OfSize(cs: seq<Cluster>, n: nat): seq<Cluster>
  {
    if cs == [] then []
    else OfSize(cs[..|cs| - 1], n) + (if cs[|cs| - 1].size == n then [cs[|cs| - 1]] else [])
  }

  /** The test "has size `n`". */
  function HasSize(n: nat): Cluster -> bool
  {
    (c: Cluster) => c.size == n
  }

  /** `OfSize` reads the clusters at the positions of size `n`, in order. */
  lemma {:induction false} OfSizeInOrder(cs: seq<Cluster>, n: nat)
    ensures |OfSize(cs, n)| == |Where(cs, HasSize(n))|
    ensures forall k :: 0 <= k < |OfSize(cs, n)| ==> OfSize(cs, n)[k] == cs[Where(cs, HasSize(n))[k]]
    decreases |cs|
  {
    if cs != [] {
      var m := |cs| - 1;
      var prefix := cs[..m];
      assert cs == prefix + [cs[m]];
      OfSizeInOrder(prefix, n);
      WhereSnoc(prefix, cs[m], HasSize(n));
      var ps := Where(prefix, HasSize(n));
      forall k | 0 <= k < |OfSize(prefix, n)|
        ensures OfSize(cs, n)[k] == cs[Where(cs, HasSize(n))[k]]
      {
        assert Where(cs, HasSize(n))[k] == ps[k];
        assert cs[ps[k]] == prefix[ps[k]];
      }
    }
  }

  lemma {:induction false} OfSizeAppend(a: seq<Cluster>, b: seq<Cluster>, n: nat)
    ensures OfSize(a + b, n) == OfSize(a, n) + OfSize(b, n)
    decreases |b|
  {
    if b != [] {
      var m := |b| - 1;
      assert (a + b)[..|a + b| - 1] == a + b[..m];
      OfSizeAppend(a, b[..m], n);
    } else {
      assert a + b == a;
    }
  }

  lemma {:induction false} InsertMultiset(r: seq<Cluster>, c: Cluster)
    ensures multiset(Insert(r, c)) == multiset(r) + multiset{c}
    decreases |r|
  {
    if !(r == [] || r[|r| - 1].size >= c.size) {
      var m := |r| - 1;
      assert r == r[..m] + [r[m]];
      InsertMultiset(r[..m], c);
    }
  }

  /** A lower bound on the sizes of `r` and of `c` bounds the sizes after insertion. */
  lemma {:induction false} InsertAtLeast(r: seq<Cluster>, c: Cluster, bound: nat)
    requires forall k :: 0 <= k < |r| ==> r[k].size >= bound
    requires c.size >= bound
    ensures forall k :: 0 <= k < |Insert(r, c)| ==> Insert(r, c)[k].size >= bound
    decreases |r|
  {
    if !(r == [] || r[|r| - 1].size >= c.size) {
      InsertAtLeast(r[..|r| - 1], c, bound);
    }
  }

  lemma {:induction false} InsertDescending(r: seq<Cluster>, c: Cluster)
    requires Descending(r)
    ensures Descending(Insert(r, c))
    decreases |r|
  {
    if !(r == [] || r[|r| - 1].size >= c.size) {
      var m := |r| - 1;
      InsertDescending(r[..m], c);
      InsertAtLeast(r[..m], c, r[m].size);
    }
  }

  /** Insertion keeps the clusters of each size in their order, adding `c` after those of its size. */
  lemma {:induction false} InsertOfSize(r: seq<Cluster>, c: Cluster, n: nat)
    ensures OfSize(Insert(r, c), n) == OfSize(r, n) + (if c.size == n then [c] else [])
    decreases |r|
  {
    if r == [] || r[|r| - 1].size >= c.size {
      OfSizeAppend(r, [c], n);
    } else {
      var m := |r| - 1;
      assert r == r[..m] + [r[m]];
      InsertOfSize(r[..m], c, n);
      OfSizeAppend(Insert(r[..m], c), [r[m]], n);
      OfSizeAppend(r[..m], [r[m]], n);
    }
  }

  /**
   * The sort is a permutation, its result is ordered by size, largest
   * first, and it is stable: the clusters of every size keep their
   * relative order.
   */
  lemma {:induction false} SortedBySizeCorrect(cs: seq<Cluster>)
    ensures multiset(SortedBySize(cs)) == multiset(cs)
    ensures Descending(SortedBySize(cs))
    ensures forall n :: OfSize(SortedBySize(cs), n) == OfSize(cs, n)
    decreases |cs|
  {
    if cs != [] {
      var m := |cs| - 1;
      assert cs == cs[..m] + [cs[m]];
      SortedBySizeCorrect(cs[..m]);
      InsertMultiset(SortedBySize(cs[..m]), cs[m]);
      InsertDescending(SortedBySize(cs[..m]), cs[m]);
      forall n
        ensures OfSize(SortedBySize(cs), n) == OfSize(cs, n)
      {
        InsertOfSize(SortedBySize(cs[..m]), cs[m], n);
      }
    }
  }

  /**
   * Stability traced back: two equal-sized clusters of the sorted list come,
   * in the same order, from positions `x < y` of the input.
   */
  lemma SortedTieOrigin(cs: seq<Cluster>, i: nat, j: nat) returns (x: nat, y: nat)
    requires i < j < |SortedBySize(cs)|
    requires SortedBySize(cs)[i].size == SortedBySize(cs)[j].size
    ensures x < y < |cs| && cs[x] == SortedBySize(cs)[i] && cs[y] == SortedBySize(cs)[j]
  {
    var sorted := SortedBySize(cs);
    var n := sorted[i].size;
    var k1, k2 := WherePair(sorted, HasSize(n), i, j);
    OfSizeInOrder(sorted, n);
    assert OfSize(sorted, n)[k1] == sorted[i] && OfSize(sorted, n)[k2] == sorted[j];
    SortedOfSize(cs, n);
    OfSizeInOrder(cs, n);
    var qs := Where(cs, HasSize(n));
    x, y := qs[k1], qs[k2];
  }

  lemma SortedOfSize(cs: seq<Cluster>, n: nat)
    ensures OfSize(SortedBySize(cs), n) == OfSize(cs, n)
  {
    SortedBySizeCorrect(cs);
  }

  /** The sum of the sizes of the clusters. */
  function TotalSize(cs: seq<Cluster>): nat
  {
    if cs == [] then 0 else TotalSize(cs[..|cs| - 1]) + cs[|cs| - 1].size
  }

  lemma {:induction false} InsertTotalSize(r: seq<Cluster>, c: Cluster)
    ensures TotalSize(Insert(r, c)) == TotalSize(r) + c.size
    decreases |r|
  {
    if r == [] || r[|r| - 1].size >= c.size {
      assert (r + [c])[..|r|] == r;
    } else {
      var m := |r| - 1;
      InsertTotalSize(r[..m], c);
      assert (Insert(r[..m], c) + [r[m]])[..|Insert(r[..m], c)|] == Insert(r[..m], c);
    }
  }

  /** Sorting neither adds nor loses any size. */
  lemma {:induction false} SortedTotalSize(cs: seq<Cluster>)
    ensures TotalSize(SortedBySize(cs)) == TotalSize(cs)
    decreases |cs|
  {
    if cs != [] {
      SortedTotalSize(cs[..|cs| - 1]);
      InsertTotalSize(SortedBySize(cs[..|cs| - 1]), cs[|cs| - 1]);
    }
  }

  /** No two clusters share an id. */
  predicate DistinctIds(cs: seq<Cluster>)
  {
    forall i, j :: 0 <= i < j < |cs| ==> cs[i].id != cs[j].id
  }

  lemma {:induction false} InsertDistinctIds(r: seq<Cluster>, c: Cluster)
    requires DistinctIds(r)
    requires forall k :: 0 <= k < |r| ==> r[k].id != c.id
    ensures DistinctIds(Insert(r, c))
    decreases |r|
  {
    if r == [] || r[|r| - 1].size >= c.size {
      DistinctIdsSnoc(r, c);
    } else {
      var m := |r| - 1;
      assert forall k :: 0 <= k < m ==> r[..m][k] == r[k];
      InsertDistinctIds(r[..m], c);
      InsertAvoidsId(r[..m], c, r[m].id);
      var front := Insert(r[..m], c);
      DistinctIdsSnoc(front, r[m]);
    }
  }

  /** An id that neither `r` nor `c` carries is carried by nothing in `Insert(r, c)`. */
  lemma InsertAvoidsId(r: seq<Cluster>, c: Cluster, id: string)
    requires forall k :: 0 <= k < |r| ==> r[k].id != id
    requires c.id != id
    ensures forall k :: 0 <= k < |Insert(r, c)| ==> Insert(r, c)[k].id != id
  {
    InsertMultiset(r, c);
    forall k | 0 <= k < |Insert(r, c)|
      ensures Insert(r, c)[k].id != id
    {
      assert Insert(r, c)[k] in multiset(r) + multiset{c};
    }
  }

  lemma DistinctIdsSnoc(cs: seq<Cluster>, c: Cluster)
    requires DistinctIds(cs)
    requires forall k :: 0 <= k < |cs| ==> cs[k].id != c.id
    ensures DistinctIds(cs + [c])
  {
    var longer := cs + [c];
    forall i, j | 0 <= i < j < |longer|
      ensures longer[i].id != longer[j].id
    {
      assert longer[i] == cs[i];
    }
  }

  /** Sorting keeps the cluster ids distinct. */
  lemma {:induction false} SortedDistinctIds(cs: seq<Cluster>)
    requires DistinctIds(cs)
    ensures DistinctIds(SortedBySize(cs))
    decreases |cs|
  {
    if cs != [] {
      var m := |cs| - 1;
      var sorted := SortedBySize(cs[..m]);
      SortedDistinctIds(cs[..m]);
      SortedBySizeCorrect(cs[..m]);
      forall k | 0 <= k < |sorted|
        ensures sorted[k].id != cs[m].id
      {
        assert sorted[k] in multiset(cs[..m]);
      }
      InsertDistinctIds(sorted, cs[m]);
    }
  }

  /** Buckets of pairwise different labels give clusters with pairwise different ids. */
  lemma {:induction false} BuildClustersDistinctIds(groups: seq<Bucket>, words: map<int, seq<string>>, rows: seq<NameRow>)
    requires forall i, j :: 0 <= i < j < |groups| ==> groups[i].topic != groups[j].topic
    ensures DistinctIds(BuildClusters(groups, words, rows))
    decreases |groups|
  {
    if groups != [] {
      var m := |groups| - 1;
      var prefix := groups[..m];
      var last := groups[m];
      assert forall i :: 0 <= i < m ==> prefix[i] == groups[i];
      BuildClustersDistinctIds(prefix, words, rows);
      var built := BuildClusters(prefix, words, rows);
      var cs := BuildClusters(groups, words, rows);
      if |last.ids| < MIN_CLUSTER_SIZE {
        assert cs == built;
      } else {
        BuiltIdsOther(prefix, last.topic, words, rows);
        assert cs == built + [MakeCluster(last, words, rows)];
        forall i, j | 0 <= i < j < |cs|
          ensures cs[i].id != cs[j].id
        {
          assert cs[i] == built[i];
          if j < |built| {
            assert cs[j] == built[j];
          }
        }
      }
    }
  }

  /** A label that no bucket carries has its cluster id on no assembled cluster. */
  lemma BuiltIdsOther(groups: seq<Bucket>, topic: int, words: map<int, seq<string>>, rows: seq<NameRow>)
    requires forall i :: 0 <= i < |groups| ==> groups[i].topic != topic
    ensures forall k :: 0 <= k < |BuildClusters(groups, words, rows)| ==> BuildClusters(groups, words, rows)[k].id != ClusterId(topic)
  {
    var built := BuildClusters(groups, words, rows);
    BuildClustersMembership(groups, words, rows);
    forall k | 0 <= k < |built|
      ensures built[k].id != ClusterId(topic)
    {
      assert built[k] in built;
      var g :| g in groups && |g.ids| >= MIN_CLUSTER_SIZE && built[k] == MakeCluster(g, words, rows);
      var x :| 0 <= x < |groups| && groups[x] == g;
      ClusterIdInjective(g.topic, topic);
    }
  }

  /** The number of buckets with exactly one member. */
  function OneMemberBuckets(groups: seq<Bucket>): nat
  {
    if groups == [] then 0
    else OneMemberBuckets(groups[..|groups| - 1]) + (if |groups[|groups| - 1].ids| == 1 then 1 else 0)
  }

  /**
   * When no bucket is empty, the reported clusters hold all bucket members
   * except one per one-member bucket.
   */
  lemma {:induction false} BuildClustersTotalSize(groups: seq<Bucket>, words: map<int, seq<string>>, rows: seq<NameRow>)
    requires forall k :: 0 <= k < |groups| ==> |groups[k].ids| >= 1
    ensures TotalSize(BuildClusters(groups, words, rows)) + OneMemberBuckets(groups) == TotalMembers(groups)
    decreases |groups|
  {
    if groups != [] {
      var m := |groups| - 1;
      var last := groups[m];
      BuildClustersTotalSize(groups[..m], words, rows);
      var built := BuildClusters(groups[..m], words, rows);
      var added := if |last.ids| >= MIN_CLUSTER_SIZE then [MakeCluster(last, words, rows)] else [];
      TotalSizeAppend(built, added);
    }
  }

  lemma TotalSizeAppend(cs: seq<Cluster>, more: seq<Cluster>)
    requires |more| <= 1
    ensures TotalSize(cs + more) == TotalSize(cs) + TotalSize(more)
  {
    if more != [] {
      assert (cs + more)[..|cs|] == cs;
    } else {
      assert cs + more == cs;
    }
  }

  /**
   * One step of the insertion sort: moves `a[i]` left past the elements of
   * `a[..i]` that are smaller than it.
   */
  /**
   * The array prefix the insertion step leaves: `sorted` with its elements
   * from `j` on moved one place up and `c` written at `j`.
   */
  lemma ShiftedIsInsert(s: seq<Cluster>, sorted: seq<Cluster>, c: Cluster, j: nat)
    requires |s| == |sorted| + 1 && j <= |sorted|
    requires forall k :: 0 <= k < j ==> s[k] == sorted[k]
    requires s[j] == c
    requires forall k :: j < k < |s| ==> s[k] == sorted[k - 1]
    requires forall k :: j <= k < |sorted| ==> sorted[k].size < c.size
    requires j == 0 || sorted[j - 1].size >= c.size
    ensures s == Insert(sorted, c)
  {
    InsertAt(sorted, c, j);
    var expected := sorted[..j] + [c] + sorted[j..];
    forall k | 0 <= k < |s|
      ensures s[k] == expected[k]
    {
      if k < j {
        assert expected[k] == sorted[k];
      } else if k > j {
        assert expected[k] == sorted[k - 1];
      }
    }
  }

  method InsertInto(a: array<Cluster>, i: nat)
    requires i < a.Length
    modifies a
    ensures a[..i + 1] == Insert(old(a[..i]), old(a[i]))
    ensures forall k :: i < k < a.Length ==> a[k] == old(a[k])
  {
    var c := a[i];
    ghost var sorted := a[..i];
    var j := i;
    while j > 0 && a[j - 1].size < c.size
      invariant 0 <= j <= i
      invariant forall k :: 0 <= k < j ==> a[k] == sorted[k]
      invariant forall k :: j < k <= i ==> a[k] == sorted[k - 1]
      invariant forall k :: i < k < a.Length ==> a[k] == old(a[k])
      invariant forall k :: j <= k < i ==> sorted[k].size < c.size
    {
      a[j] := a[j - 1];
      j := j - 1;
    }
    a[j] := c;
    ShiftedIsInsert(a[..i + 1], sorted, c, j);
  }

  /**
   * `clusters.sort(key=lambda x: x["size"], reverse=True)`: an in-place
   * stable insertion sort.
   */
  method SortBySize(a: array<Cluster>)
    modifies a
    ensures a[..] == SortedBySize(old(a[..]))
  {
    ghost var input := a[..];
    for i := 0 to a.Length
      invariant a[..i] == SortedBySize(input[..i])
      invariant forall k :: i <= k < a.Length ==> a[k] == input[k]
    {
      InsertInto(a, i);
      SortedBySizePrefix(input, i);
    }
    assert input[..a.Length] == input;
  }

  /**
   * The assembly loop over the buckets, then the sort: the result is the
   * reported clusters in bucket order, sorted by size.
   */
  method Assemble(groups: seq<Bucket>, words: map<int, seq<string>>, rows: seq<NameRow>) returns (clusters: seq<Cluster>)
    ensures clusters == SortedBySize(BuildClusters(groups, words, rows))
  {
    var built: seq<Cluster> := [];
    for i := 0 to |groups|
      invariant built == BuildClusters(groups[..i], words, rows)
    {
      assert groups[..i + 1][..i] == groups[..i];
      var bucket := groups[i];
      if |bucket.ids| < MIN_CLUSTER_SIZE {
        continue;
      }
      built := built + [MakeCluster(bucket, words, rows)];
    }
    assert groups[..|groups|] == groups;
    var a := new Cluster[|built|](k requires 0 <= k < |built| => built[k]);
    assert a[..] == built;
    SortBySize(a);
    clusters := a[..];
  }
}
