/**
 * Document preparation: each article becomes the text
 * `f"{title} {excerpt}".strip()`, and articles whose text is empty are
 * dropped.  The surviving texts and their article ids are kept in two
 * index-aligned lists, `documents` and `article_ids`.
 */
module Preparation {
  import opened Identifiers
  import opened Seqs
  import opened Text

  /** Fewer input articles, or fewer surviving documents, than this is refused. */
  const MIN_DOCUMENTS: nat := 3

  /**
   * A key of an article record as `dict.get(key, '')` sees it: missing,
   * present with JSON null (Python `None`), or a string.
   */
  datatype Field = Absent | Null | Str(value: string)

  datatype Article = Article(id: Field, title: Field, excerpt: Field)

  /** What the f-string interpolation of `article.get(key, '')` yields. */
  function Render(f: Field): string
  {
    match f
    case Absent => ""
    case Null => "None"
    case Str(s) => s
  }

  /**
   * `article.get('id', '')`: a missing id reads as the empty string, and a
   * null id stays `None` all the way into the response.
   */
  function IdOf(a: Article): ArticleId
  {
    match a.id
    case Absent => IdText("")
    case Null => NullId
    case Str(s) => IdText(s)
  }

  /** The document text of an article: title and excerpt joined by a space, then stripped. */
  function DocumentText(a: Article): string
  {
    Strip(Render(a.title) + " " + Render(a.excerpt))
  }

  /** An article is kept when its document text is not empty. */
  predicate Usable(a: Article)
  {
    DocumentText(a) != []
  }

  /** An article is kept exactly when its title or its excerpt renders to something other than white space. */
  lemma UsableIff(a: Article)
    ensures Usable(a) <==> HasContent(Render(a.title)) || HasContent(Render(a.excerpt))
  {
    JoinedHasContent(Render(a.title), Render(a.excerpt));
  }

  /**
   * A JSON null title or excerpt renders as the text "None", so an article
   * with such a field is always kept, even when it carries no other text.
   */
  lemma NullFieldIsKept(a: Article)
    requires a.title == Null || a.excerpt == Null
    ensures Usable(a)
  {
    assert !IsSpace("None"[0]);
    UsableIff(a);
  }

  /** The positions of the kept articles, in input order. */
  function Kept(articles: seq<Article>): seq<nat>
  {
    Where(articles, Usable)
  }

  /** The document text of every article, kept or not. */
  function Texts(articles: seq<Article>): (texts: seq<string>)
    ensures |texts| == |articles|
  {
    seq(|articles|, i requires 0 <= i < |articles| => DocumentText(articles[i]))
  }

  /** The id of every article, kept or not. */
  function Ids(articles: seq<Article>): (ids: seq<ArticleId>)
    ensures |ids| == |articles|
  {
    seq(|articles|, i requires 0 <= i < |articles| => IdOf(articles[i]))
  }

  /** The prepared documents: the texts of the kept articles, in input order. */
  function Documents(articles: seq<Article>): (documents: seq<string>)
    ensures |documents| == |Kept(articles)|
  {
    Pick(Texts(articles), Kept(articles))
  }

  /** The ids of the kept articles, aligned with `Documents`. */
  function ArticleIds(articles: seq<Article>): (ids: seq<ArticleId>)
    ensures |ids| == |Kept(articles)|
  {
    Pick(Ids(articles), Kept(articles))
  }

  /** One more article adds its position to `Kept` exactly when it is usable. */
  lemma KeptSnoc(prefix: seq<Article>, a: Article)
    ensures Kept(prefix + [a]) == Kept(prefix) + (if Usable(a) then [|prefix|] else [])
  {
    WhereSnoc(prefix, a, Usable);
  }

  lemma TextsSnoc(prefix: seq<Article>, a: Article)
    ensures Texts(prefix + [a]) == Texts(prefix) + [DocumentText(a)]
  {
  }

  lemma IdsSnoc(prefix: seq<Article>, a: Article)
    ensures Ids(prefix + [a]) == Ids(prefix) + [IdOf(a)]
  {
  }

  /** One more article adds its text at the end exactly when it is usable. */
  lemma DocumentsSnoc(prefix: seq<Article>, a: Article)
    ensures Documents(prefix + [a]) == Documents(prefix) + (if Usable(a) then [DocumentText(a)] else [])
  {
    KeptSnoc(prefix, a);
    TextsSnoc(prefix, a);
    PickExtendSnoc(Texts(prefix), DocumentText(a), Kept(prefix), Usable(a));
  }

  /** One more article adds its id at the end exactly when it is usable. */
  lemma ArticleIdsSnoc(prefix: seq<Article>, a: Article)
    ensures ArticleIds(prefix + [a]) == ArticleIds(prefix) + (if Usable(a) then [IdOf(a)] else [])
  {
    KeptSnoc(prefix, a);
    IdsSnoc(prefix, a);
    PickExtendSnoc(Ids(prefix), IdOf(a), Kept(prefix), Usable(a));
  }

  /** The loop's step: article `i` joins the prefix before it. */
  lemma PrepareStep(articles: seq<Article>, i: nat)
    requires i < |articles|
    ensures Documents(articles[..i + 1]) ==
      Documents(articles[..i]) + (if Usable(articles[i]) then [DocumentText(articles[i])] else [])
    ensures ArticleIds(articles[..i + 1]) ==
      ArticleIds(articles[..i]) + (if Usable(articles[i]) then [IdOf(articles[i])] else [])
  {
    assert articles[..i + 1] == articles[..i] + [articles[i]];
    DocumentsSnoc(articles[..i], articles[i]);
    ArticleIdsSnoc(articles[..i], articles[i]);
  }

  /**
   * Position `k` of the documents and of the ids comes from the `k`-th kept
   * article, and every document has text.
   */
  lemma DocumentsAligned(articles: seq<Article>)
    ensures forall k :: 0 <= k < |Documents(articles)| ==>
      Documents(articles)[k] == DocumentText(articles[Kept(articles)[k]]) && Documents(articles)[k] != []
    ensures forall k :: 0 <= k < |ArticleIds(articles)| ==> ArticleIds(articles)[k] == IdOf(articles[Kept(articles)[k]])
  {
    var kept := Kept(articles);
    forall k | 0 <= k < |kept|
      ensures Documents(articles)[k] == DocumentText(articles[kept[k]]) && Documents(articles)[k] != []
    {
      assert Usable(articles[kept[k]]);
    }
  }

  /**
   * The preparation loop.  Position `k` of both outputs comes from the same
   * article, the `k`-th kept one; an article is kept exactly when its text is
   * not empty (the contract of `Where`), and kept articles keep their order.
   */
  method Prepare(articles: seq<Article>) returns (documents: seq<string>, articleIds: seq<ArticleId>)
    ensures |documents| == |articleIds| == |Kept(articles)|
    ensures forall k :: 0 <= k < |documents| ==>
      documents[k] == DocumentText(articles[Kept(articles)[k]]) && documents[k] != []
    ensures forall k :: 0 <= k < |articleIds| ==> articleIds[k] == IdOf(articles[Kept(articles)[k]])
    ensures documents == Documents(articles) && articleIds == ArticleIds(articles)
  {
    documents, articleIds := [], [];
    for i := 0 to |articles|
      invariant documents == Documents(articles[..i]) && articleIds == ArticleIds(articles[..i])
    {
      PrepareStep(articles, i);
      var text := DocumentText(articles[i]);
      if text != [] {
        documents := documents + [text];
        articleIds := articleIds + [IdOf(articles[i])];
      }
    }
    assert articles[..|articles|] == articles;
    DocumentsAligned(articles);
  }
}
