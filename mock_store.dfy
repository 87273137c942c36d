/**
  The in-memory mock article backend: an ordered list of articles and the
  counter that supplies the next id, with the list, create, update and
  delete request handlers that read and change them.
 */
module MockStore {
  import opened Articles
  import opened UrlIds

  /** The two articles the store starts with, ids 1 and 2 in that order. */
  function SeedArticles(): (s: seq<Article>)
    ensures |s| == 2 && s[0].id == Some(1) && s[1].id == Some(2)
  {
    [ Article(Some(1), "How to write \"Hello World\" in Python", "print(\"Hello world!)"),
      Article(Some(2), "How to write \"Hello World\" in JS", "console.log(\"Hello world!\")") ]
  }

  class ArticleStore {
    /** The stored articles, in insertion order. */
    var articles: seq<Article>
    /** The id the next created article receives. */
    var nextArticleId: int
    /** Every id the store has ever handed out, including the seeds'. */
    ghost var issued: set<int>

    /**
      Stored ids are unique and were issued, and the counter is above every
      id ever issued, so it never hands out an id a second time.
     */
    ghost predicate Valid()
      reads this
    {
      && IdsUnique(articles)
      && IdsAmong(articles, issued)
      && (forall x :: x in issued ==> x < nextArticleId)
    }

    /** The module's initial state: the seed list and `articles.length + 1`. */
    constructor ()
      ensures Valid()
      ensures articles == SeedArticles()
      ensures nextArticleId == |SeedArticles()| + 1 == 3
      ensures issued == {1, 2}
    {
      articles := SeedArticles();
      nextArticleId := |SeedArticles()| + 1;
      issued := {1, 2};
    }

    /** GET: the whole list, in insertion order. */
    method List() returns (r: Reply)
      ensures r == Reply(200, ArticleList(articles))
    {
      r := Reply(200, ArticleList(articles));
    }

    /**
      POST: the body gets the next id (whatever id it carried), is appended,
      and is returned; the counter moves past the id just used.
     */
    method Create(body: Article) returns (r: Reply)
      requires Valid()
      modifies this
      ensures Valid()
      ensures var stored := body.(id := Some(old(nextArticleId)));
              && r == Reply(200, OneArticle(stored))
              && articles == old(articles) + [stored]
      ensures nextArticleId == old(nextArticleId) + 1
      ensures old(nextArticleId) !in old(issued)
      ensures issued == old(issued) + {old(nextArticleId)}
    {
      var stored := body.(id := Some(nextArticleId));
      issued := issued + {nextArticleId};
      nextArticleId := nextArticleId + 1;
      articles := articles + [stored];
      r := Reply(200, OneArticle(stored));
    }

    /**
      PUT: the first article whose id equals the BODY's id is replaced by the
      body at the same position, and the body is returned; with no such
      article the reply is 404 and nothing changes. The URL is not consulted.
     */
    method Update(url: Option<string>, body: Article) returns (r: Reply)
      requires Valid()
      modifies this
      ensures Valid()
      ensures var i := FirstMatch(old(articles), body.id);
              if i == -1 then
                r == NotFound && articles == old(articles)
              else
                && r == Reply(200, OneArticle(body))
                && articles == old(articles)[i := body]
      ensures nextArticleId == old(nextArticleId) && issued == old(issued)
    {
      var i := FindIndex(articles, body.id);
      if i != -1 {
        articles := articles[i := body];
        r := Reply(200, OneArticle(body));
      } else {
        r := NotFound;
      }
    }

    /**
      DELETE: the id is read from the last segment of the URL. An unreadable
      id gives 400, an absent one 404, both with nothing changed; otherwise
      the first article with that id is removed, the rest keeping their order.
     */
    method Delete(url: Option<string>) returns (r: Reply)
      requires Valid()
      modifies this
      ensures Valid()
      ensures match DeleteTargetId(url)
              case None => r == InvalidRequest && articles == old(articles)
              case Some(id) =>
                var i := FirstMatch(old(articles), Some(id));
                if i == -1 then
                  r == NotFound && articles == old(articles)
                else
                  && r == Reply(200, NoBody)
                  && articles == RemoveAt(old(articles), i)
      ensures nextArticleId == old(nextArticleId) && issued == old(issued)
    {
      var target := DeleteTargetId(url);
      if target.Some? {
        var i := FindIndex(articles, Some(target.value));
        if i != -1 {
          RemoveAtKeepsIds(articles, i, issued);
          articles := RemoveAt(articles, i);
          r := Reply(200, NoBody);
          return;
        } else {
          r := NotFound;
          return;
        }
      }
      r := InvalidRequest;
    }
  }

  /**
    Deleting through the URL that `deleteArticle(id)` builds removes the
    stored article with that id, after which a listing no longer holds it.
   */
  method DeleteById(store: ArticleStore, id: int) returns (r: Reply)
    requires store.Valid()
    requires exists k :: 0 <= k < |store.articles| && store.articles[k].id == Some(id)
    modifies store
    ensures store.Valid()
    ensures r == Reply(200, NoBody)
    ensures |store.articles| == |old(store.articles)| - 1
    ensures forall a :: a in store.articles ==> a.id != Some(id)
    ensures multiset(store.articles) + multiset{old(store.articles)[FirstMatch(old(store.articles), Some(id))]}
            == multiset(old(store.articles))
  {
    DeleteUrlRoundTrip(id);
    ghost var before := store.articles;
    r := store.Delete(Some(DeleteUrl(id)));
    RemoveAtOmitsId(before, FirstMatch(before, Some(id)));
  }

  /** A session on a fresh store: create, list, and delete the new article again. */
  method ExampleSession()
  {
    var store := new ArticleStore();
    var created := store.Create(Article(None, "X", "Y"));
    assert created == Reply(200, OneArticle(Article(Some(3), "X", "Y")));
    var listed := store.List();
    assert listed.body.articles == SeedArticles() + [Article(Some(3), "X", "Y")];
    assert store.articles[2].id == Some(3);
    var gone := DeleteById(store, 3);
    listed := store.List();
    assert |listed.body.articles| == 2;
    var again := store.Delete(Some(DeleteUrl(3)));
    DeleteUrlRoundTrip(3);
    assert again == NotFound;
  }
}
