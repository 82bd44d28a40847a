/** The articles list of the dashboard: the rows read once on mount, and
    the delete handler, which leaves the cover image in storage. */
module ArticlesPage {
  import opened Nullable
  import opened Backend
  import opened LocalList

  function ArticleId(x: Article): Id
  {
    x.id
  }

  class Page {
    const backend: Backend
    var articles: seq<Article>

    /** Mounting: the list starts empty and `fetchArticles` replaces it,
        unless the read reports an error. */
    constructor (backend: Backend, fetched: Option<seq<Article>>)
      ensures this.backend == backend
      ensures articles == if fetched.Some? then fetched.value else []
    {
      this.backend := backend;
      articles := [];
      if fetched.Some? {
        articles := fetched.value;
      }
    }

    /** `handleDelete(id)`: after the confirmation, delete the row and drop
        it from the list only when the delete reports no error.  No storage
        call is made. */
    method HandleDelete(id: Id, confirmed: bool, deleteOk: bool) returns (outcome: DeleteOutcome)
      modifies backend`articles, backend`trace, this`articles
      ensures !confirmed ==>
        && outcome == Cancelled && articles == old(articles)
        && backend.trace == old(backend.trace) && backend.articles == old(backend.articles)
      ensures confirmed ==>
        && outcome == (if deleteOk then Deleted else DeleteFailed)
        && backend.trace == old(backend.trace) + [Delete(ArticlesTable, id)]
        && backend.articles == if deleteOk then old(backend.articles) - {id} else old(backend.articles)
      ensures articles == if outcome == Deleted then Without(old(articles), ArticleId, id) else old(articles)
      ensures outcome == Deleted ==> forall x :: x in articles <==> x in old(articles) && x.id != id
    {
      if !confirmed {
        return Cancelled;
      }
      var failed := backend.DeleteArticle(id, deleteOk);
      if failed {
        return DeleteFailed;
      }
      forall x ensures x in Without(articles, ArticleId, id) <==> x in articles && x.id != id {
        WithoutMember(articles, ArticleId, id, x);
      }
      articles := Without(articles, ArticleId, id);
      outcome := Deleted;
    }
  }
}
