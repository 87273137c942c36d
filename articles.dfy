/**
  The article record of the mock article service, the replies its handlers
  give, and the list operations those handlers are built from: the
  `findIndex` search by id and the single-element `splice`.
 */
module Articles {

  datatype Option<+T> = None | Some(value: T)

  /** An article. `id` is absent until the store assigns one on creation. */
  datatype Article = Article(id: Option<int>, title: string, content: string)

  /** The payload of a mock reply. */
  datatype Body =
    | ArticleList(articles: seq<Article>)
    | OneArticle(article: Article)
    | Message(message: string)
    | NoBody

  /** A mock reply: an HTTP status code and a payload. */
  datatype Reply = Reply(status: int, body: Body)

  const NotFound: Reply := Reply(404, Message("Article not found"))
  const InvalidRequest: Reply := Reply(400, Message("Invalid request"))

  /**
    The index of the first article whose id equals `id` (strict equality of
    the optional ids, as `===` compares them), or -1 when there is none.
   */
  function FirstMatch(s: seq<Article>, id: Option<int>): (r: int)
    ensures -1 <= r < |s|
    ensures r == -1 <==> forall k :: 0 <= k < |s| ==> s[k].id != id
    ensures r != -1 ==> s[r].id == id && forall k :: 0 <= k < r ==> s[k].id != id
  {
    if s == [] then -1
    else if s[0].id == id then 0
    else
      var r := FirstMatch(s[1..], id);
      if r == -1 then -1 else r + 1
  }

  /** `Array.prototype.findIndex` with an id-equality test, as a linear search. */
  method FindIndex(s: seq<Article>, id: Option<int>) returns (r: int)
    ensures r == FirstMatch(s, id)
  {
    r := 0;
    while r < |s|
      invariant 0 <= r <= |s|
      invariant forall k :: 0 <= k < r ==> s[k].id != id
    {
      if s[r].id == id {
        return;
      }
      r := r + 1;
    }
    r := -1;
  }

  /** `splice(i, 1)`: the list without its element at `i`, the rest in order. */
  function RemoveAt(s: seq<Article>, i: nat): (r: seq<Article>)
    requires i < |s|
    ensures |r| == |s| - 1
    ensures forall k :: 0 <= k < i ==> r[k] == s[k]
    ensures forall k :: i <= k < |r| ==> r[k] == s[k + 1]
    ensures multiset(r) + multiset{s[i]} == multiset(s)
  {
    assert s == s[..i] + [s[i]] + s[i + 1..];
    s[..i] + s[i + 1..]
  }

  /** No two articles of the list share an id. */
  ghost predicate IdsUnique(s: seq<Article>)
  {
    forall i, j :: 0 <= i < j < |s| ==> s[i].id != s[j].id
  }

  /** Every article of the list has an id, and it is one of `ids`. */
  ghost predicate IdsAmong(s: seq<Article>, ids: set<int>)
  {
    forall k :: 0 <= k < |s| ==> s[k].id.Some? && s[k].id.value in ids
  }

  /**
    With unique ids, removing the first article carrying an id leaves no
    article with that id: a later search for it finds nothing.
   */
  lemma RemoveAtOmitsId(s: seq<Article>, i: nat)
    requires IdsUnique(s)
    requires i < |s|
    ensures forall a :: a in RemoveAt(s, i) ==> a.id != s[i].id
    ensures FirstMatch(RemoveAt(s, i), s[i].id) == -1
  {
    var r := RemoveAt(s, i);
    forall k | 0 <= k < |r|
      ensures r[k].id != s[i].id
    {
      if k < i {
        assert r[k] == s[k];
      } else {
        assert r[k] == s[k + 1];
      }
    }
  }

  /** Removing an element keeps the ids unique and among the same set. */
  lemma RemoveAtKeepsIds(s: seq<Article>, i: nat, ids: set<int>)
    requires IdsUnique(s) && IdsAmong(s, ids)
    requires i < |s|
    ensures IdsUnique(RemoveAt(s, i)) && IdsAmong(RemoveAt(s, i), ids)
  {
    var r := RemoveAt(s, i);
    forall p, q | 0 <= p < q < |r|
      ensures r[p].id != r[q].id
    {
      var p' := if p < i then p else p + 1;
      var q' := if q < i then q else q + 1;
      assert r[p] == s[p'] && r[q] == s[q'] && p' < q';
    }
    forall k | 0 <= k < |r|
      ensures r[k].id.Some? && r[k].id.value in ids
    {
      assert r[k] == s[if k < i then k else k + 1];
    }
  }
}
