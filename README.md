# Result shaping of the article-clustering service

The service takes a list of news-article records (`id`, `title`, `excerpt`)
and groups them into topical clusters with a topic model.  This project
models everything `cluster_articles` does around the topic model.  The
model's fit itself is an input: a label per document, a ranked word list per
label and a table of label names.

- **Preparation** (`preparation.dfy`, `text.dfy`).  Fewer than three
  articles are refused.  Each article becomes the text
  `f"{title} {excerpt}".strip()`, and articles whose text is empty are
  dropped.  The surviving texts and their ids are kept in two index-aligned
  lists, and fewer than three survivors are refused as well.
  `Prepare` is the loop.  It is proved equal to `Documents` / `ArticleIds`,
  which pick the texts and ids at the positions `Kept` (`seqs.dfy`, `Where`).
- **Grouping** (`grouping.dfy`).  The loop walks the labels, skips the
  outlier label `-1`, and appends each document's id to the bucket of its
  label.  It keeps an insertion-ordered dictionary.  `Group` is proved equal
  to `Grouped`: one bucket per label, in first-appearance order, holding the
  ids of that label's documents in document order.
- **Assembly** (`assembly.dfy`).  Buckets with fewer than two members are
  dropped.  Every other bucket becomes a cluster: id `cluster-<label>`, at
  most five keywords, the label's name or `Topic <label>`, and its size.
  The clusters are then sorted by size, largest first, with a stable sort.
  `SortBySize` is an in-place insertion sort on an array.  It is proved to
  compute `SortedBySize`, which is a permutation, descending, and keeps the
  order of equal-sized clusters.
- **Response** (`pipeline.dfy`).  `ClusterArticles` runs the whole call,
  with the fit passed as a function.  The lemmas about `Shape` state:
  - which clusters are reported;
  - their order;
  - their disjointness;
  - the accounting fields `totalArticles` and `clusteredArticles`.
- `decimal.dfy` is the decimal rendering of integers used in ids, names and
  the message.  `identifiers.dfy` holds the article id: a string or JSON
  `null`.

The two refusals return only a message.  There are no `clusters` in the
datatype: the missing list stands for the empty list the service returns.

A title or excerpt that is JSON `null` is read as Python `None`.  The f-string
renders it as the text `None`, so such an article is always kept.  A reading
of the service as "title or empty" would drop it.  The model follows the code
(`Preparation.NullFieldIsKept`).

An id that is JSON `null` is Python `None` too.  It is copied as it is into
the id list, into a cluster's `articleIds` and into `unclusteredIds`, so the
model carries it as the id `NullId`.  An article without an `id` key gets the
empty string.

## Model

| member | source | states |
|---|---|---|
| Text.Strip | modal-clustering/cluster_api.py:53 | the stripped text is empty exactly when the input has no non-white-space character, otherwise starts and ends with a non-white-space character, and is the slice of the input after its leading white space with only white space (Python's `str.isspace` set) before and after it |
| Text.JoinedHasContent | modal-clustering/cluster_api.py:53 | title and excerpt joined by a space have content exactly when one of them has |
| Preparation.UsableIff | modal-clustering/cluster_api.py:53-54 | an article is kept exactly when its rendered title or rendered excerpt contains a non-white-space character |
| Preparation.NullFieldIsKept | modal-clustering/cluster_api.py:53-54 | an article with a null title or excerpt is always kept, because the null renders as `None` |
| Preparation.Prepare | modal-clustering/cluster_api.py:50-56 | the loop yields two lists of equal length, one entry per kept article in input order; entry `k` of each comes from the same article, the `k`-th kept one, whose id (a string, the empty string when missing, or null) is copied unchanged; every document is non-empty |
| Preparation.DocumentsAligned | modal-clustering/cluster_api.py:50-56 | position `k` of the documents and of the ids belongs to the `k`-th kept article, and every document has text |
| Seqs.Where | modal-clustering/cluster_api.py:52-56 | the kept positions are in range, strictly increasing, and are exactly the positions satisfying the filter |
| Seqs.WherePair | modal-clustering/cluster_api.py:52-56 | two positions satisfying the filter, in order, are kept at two entries in the same order |
| Grouping.Positions | modal-clustering/cluster_api.py:105-111 | the positions of a label are exactly the document positions carrying it |
| Grouping.Labels | modal-clustering/cluster_api.py:105-109 | the dictionary's keys are every label except `-1` that occurs, each exactly once |
| Grouping.Group | modal-clustering/cluster_api.py:104-114 | the grouping loop yields exactly the buckets of `Grouped`: each key with the ids at the positions carrying it, in document order |
| Grouping.LabelsInFirstAppearanceOrder | modal-clustering/cluster_api.py:105-109 | buckets are ordered by the first position at which their label appears |
| Grouping.GroupedNonEmpty | modal-clustering/cluster_api.py:106-111 | no bucket has label `-1`, and every bucket has at least one member |
| Grouping.GroupedBucket | modal-clustering/cluster_api.py:104-114 | every bucket is the bucket of its own label, which occurs and is not `-1` |
| Grouping.BucketInGrouped | modal-clustering/cluster_api.py:104-114 | every occurring label other than `-1` has its bucket |
| Grouping.GroupedPartition | modal-clustering/cluster_api.py:104-143 | every labelled position lands in exactly one bucket or among the unclustered ids: bucket sizes plus unclustered count equal the number of labels |
| Grouping.GroupedDisjoint | modal-clustering/cluster_api.py:104-143 | with distinct article ids, no id is in two buckets and no bucket id is unclustered |
| Assembly.Keywords | modal-clustering/cluster_api.py:122-123 | the keywords are the first `min(5, n)` words of the label's ranked list, and empty when the model has no list for the label |
| Assembly.TopicName | modal-clustering/cluster_api.py:126-127 | the name is that of the first table row for the label, or `Topic <label>` when no row matches |
| Decimal.ParseIntToString | modal-clustering/cluster_api.py:127 | the decimal rendering of a label reads back as the same integer |
| Decimal.IntToStringInjective | modal-clustering/cluster_api.py:130 | different labels render differently |
| Assembly.ClusterIdInjective | modal-clustering/cluster_api.py:130 | different labels give different cluster ids |
| Assembly.BuildClusters | modal-clustering/cluster_api.py:117-135 | every assembled cluster's size is the number of its article ids and is at least two |
| Assembly.BuildClustersInOrder | modal-clustering/cluster_api.py:117-135 | the clusters are those of the buckets with at least two members, one each, in bucket order |
| Assembly.BuildClustersMembership | modal-clustering/cluster_api.py:117-135 | a bucket of at least two members yields its cluster, and every cluster comes from such a bucket |
| Assembly.BuildClustersDistinctIds | modal-clustering/cluster_api.py:130 | buckets with distinct labels yield clusters with distinct ids |
| Assembly.BuildClustersTotalSize | modal-clustering/cluster_api.py:117-134 | the cluster sizes plus the number of one-member buckets add up to the members of all buckets |
| Assembly.InsertAt | modal-clustering/cluster_api.py:138 | stable insertion puts the new cluster after every cluster at least as large and before the smaller ones |
| Assembly.SortedBySizeCorrect | modal-clustering/cluster_api.py:138 | the sort is a permutation, orders by size largest first, and keeps the order of equal-sized clusters |
| Assembly.OfSizeInOrder | modal-clustering/cluster_api.py:138 | the clusters of one size, taken in order, are the entries at the positions holding that size |
| Assembly.SortedOfSize | modal-clustering/cluster_api.py:138 | sorting keeps the clusters of each size in their original order |
| Assembly.SortedTieOrigin | modal-clustering/cluster_api.py:138 | two equal-sized clusters at sorted positions `i < j` come from positions `x < y` before the sort |
| Assembly.SortedTotalSize | modal-clustering/cluster_api.py:138 | sorting keeps the total cluster size |
| Assembly.SortedDistinctIds | modal-clustering/cluster_api.py:138 | sorting keeps cluster ids distinct |
| Assembly.ShiftedIsInsert | modal-clustering/cluster_api.py:138 | shifting the smaller clusters of the sorted prefix up one place and writing the new cluster into the gap yields the stable insertion |
| Assembly.InsertInto | modal-clustering/cluster_api.py:138 | one step of the in-place sort inserts element `i` into the sorted prefix and leaves the rest alone |
| Assembly.SortBySize | modal-clustering/cluster_api.py:138 | the in-place sort leaves the array holding the stable descending sort of its old contents |
| Assembly.Assemble | modal-clustering/cluster_api.py:117-138 | the assembly loop and the sort yield the sorted clusters of the buckets with at least two members |
| Pipeline.ClusterArticles | modal-clustering/cluster_api.py:43-151 | fewer than 3 articles, or fewer than 3 documents, give the matching message; more labels than documents raise an index error; otherwise the response is the shaped result of the fit on the prepared documents |
| Pipeline.ShapeResult | modal-clustering/cluster_api.py:101-151 | the post-fit code yields the response of `Shape` |
| Pipeline.ShapeClustersSound | modal-clustering/cluster_api.py:117-135 | every reported cluster is the cluster of a label other than `-1` with at least two members |
| Pipeline.ShapeClustersComplete | modal-clustering/cluster_api.py:117-135 | every label other than `-1` with at least two members has its cluster reported |
| Pipeline.ShapeClusters | modal-clustering/cluster_api.py:104-138 | the reported clusters are exactly those of the labels other than `-1` with at least two members, each holding that label's ids in document order, with size the number of ids and at least two |
| Pipeline.ShapeOrder | modal-clustering/cluster_api.py:137-138 | clusters are ordered by size, largest first, and are a stable sort of the assembled clusters, which follow bucket order |
| Pipeline.ShapeTie | modal-clustering/cluster_api.py:104-138 | two equal-sized clusters at positions `i < j` are those of reportable labels `a` and `b`, and `a` first appears before `b` |
| Pipeline.ShapeTieOrder | modal-clustering/cluster_api.py:104-138 | for every pair of equal-sized reported clusters, the earlier one's label first appears before the later one's |
| Pipeline.ShapeDistinctIds | modal-clustering/cluster_api.py:117-138 | the reported cluster ids are pairwise distinct, whatever the article ids |
| Pipeline.ShapeDisjoint | modal-clustering/cluster_api.py:104-147 | with distinct article ids, cluster ids are distinct, no id is in two clusters, and no clustered id is among the unclustered ids |
| Pipeline.ShapeAccounting | modal-clustering/cluster_api.py:141-150 | `totalArticles` is the number of documents; `clusteredArticles` is that minus the unclustered count, which equals the reported cluster sizes plus the one-member buckets plus any unlabelled documents |

## Left out

- The topic model's fit (`fit_transform`), the sentence embedding, the dimensionality reduction, the density clustering and the automatic topic merging are library numerics, floating point and stochastic.  The fit is the function parameter `fit`, which may return any labels, word lists and names.
- Keyword scoring by the count vectorizer (stop words, bigrams, `min_df`) is library behaviour.  So is the topic-info dataframe.  They are a label-to-words map and a list of `(label, name)` rows.  The model claims nothing about stop words.
- The word scores returned next to each keyword are dropped at line 123 and not modelled.
- The per-member `probability` and `title` built at lines 112-113 are never copied into the response, so they are not modelled.  Line 112 indexes the article list by document position, which points at the wrong article once some are dropped, but this has no effect on the result.  A probability array shorter than the labels is not modelled either.
- Pipeline.ClusterArticles: when the fit reports more labels than there are documents, the source raises `IndexError` at line 111 or line 142.  The model returns `Raised` before grouping.  No state is changed before that point, so the outcome is the same.
- The HTTP endpoint, its "No articles provided" error and its exception handler, the remote invocation, the Modal app and image configuration, and the local test harness are I/O and remote-call plumbing.
- A missing `articles` value (Python `None`) and ids, titles or excerpts that are neither strings nor null (numbers, lists, objects) are not modelled.  Fields are absent, null or a string.
- The Python dictionary behind the grouping is an insertion-ordered key list and a map from label to ids.  `clusters.sort` is an in-place stable insertion sort on an array.  Both have the same results as the source's, but not its running time.
- Grouping.GroupedDisjoint: the disjointness lemmas, and Pipeline.ShapeDisjoint, require pairwise distinct article ids.  The service assumes this but does not enforce it: every missing id reads as the empty string, and two null ids are equal.
