/**
 * `PostService`: the post entity and its service over the post table.
 * Every failure of `retrieve`, `update` and `delete` is caught and rewrapped
 * as a '500' error tagged with the operation; `create` is not wrapped.
 */
module Posts {
  import opened Results
  import opened Errors
  import opened Repositories
  import opened Validation

  /** A stored post; `authorId` is the `author_id` column, a foreign key to the author table. */
  datatype Post = Post(id: Id, title: string, content: string, authorId: Id)

  /** What `create` receives: each field of the DTO may be missing. */
  datatype PostInput = PostInput(title: Option<string>, content: Option<string>, authorId: Option<string>)

  /** What `update` receives (`Omit<Partial<Post>, 'id'>`): a missing field is left as it is. */
  datatype PostPatch = PostPatch(title: Option<string>, content: Option<string>, authorId: Option<Id>)

  /** Equality filters over the post columns; a missing field does not filter. */
  datatype PostSelector = PostSelector(id: Option<Id>, title: Option<string>, content: Option<string>, authorId: Option<Id>) {
    predicate Matches(p: Post) {
      && (id.Some? ==> p.id == id.value)
      && (title.Some? ==> p.title == title.value)
      && (content.Some? ==> p.content == content.value)
      && (authorId.Some? ==> p.authorId == authorId.value)
    }
  }

  /** The selector of a call that passes none. */
  const AllPosts := PostSelector(None, None, None, None)

  /**
   * `validatePost`: one entry per failing field, keyed by the field's name.
   * A title or content fails when missing or shorter than three characters,
   * an author id when missing or empty.
   */
  function ValidatePost(data: PostInput): (errors: map<string, string>)
    ensures forall f :: f in errors <==>
      || (f == "title" && !LongEnough(data.title, MinLength))
      || (f == "content" && !LongEnough(data.content, MinLength))
      || (f == "author_id" && !Present(data.authorId))
    ensures "title" in errors ==> errors["title"] == TitleRequired
    ensures "content" in errors ==> errors["content"] == ContentRequired
    ensures "author_id" in errors ==> errors["author_id"] == AuthorRequired
    ensures errors == map[] <==>
      LongEnough(data.title, MinLength) && LongEnough(data.content, MinLength) && Present(data.authorId)
  {
    var none: map<string, string> := map[];
    var withTitle := if !LongEnough(data.title, MinLength) then none["title" := TitleRequired] else none;
    var withContent := if !LongEnough(data.content, MinLength) then withTitle["content" := ContentRequired] else withTitle;
    var errors := if !Present(data.authorId) then withContent["author_id" := AuthorRequired] else withContent;
    assert "title" !in errors && "content" !in errors && "author_id" !in errors ==> errors == map[];
    errors
  }

  /** `Object.assign(post, data)`: the supplied fields overwrite, every other field is kept. */
  function Merge(post: Post, patch: PostPatch): (m: Post)
    ensures m.id == post.id
    ensures patch.title.Some? ==> m.title == patch.title.value
    ensures patch.title.None? ==> m.title == post.title
    ensures patch.content.Some? ==> m.content == patch.content.value
    ensures patch.content.None? ==> m.content == post.content
    ensures patch.authorId.Some? ==> m.authorId == patch.authorId.value
    ensures patch.authorId.None? ==> m.authorId == post.authorId
  {
    Post(post.id, patch.title.GetOr(post.title), patch.content.GetOr(post.content), patch.authorId.GetOr(post.authorId))
  }

  /** Applying the same patch twice stores what applying it once does. */
  lemma MergeIdempotent(post: Post, patch: PostPatch)
    ensures Merge(Merge(post, patch), patch) == Merge(post, patch)
  {
  }

  function NotFoundMessage(id: Id): string {
    "Post with id: " + id + " was not found"
  }

  const RetrieveFailed := "Unable to retrieve posts"
  const UpdateFailed := "Unable to update posts"
  const DeleteFailed := "Unable to delete posts"

  class PostService {
    const repo: Repository<Post>

    /** The table is well formed and every post is stored under its own id. */
    ghost predicate Valid()
      reads repo
    {
      repo.Valid() && forall k :: k in repo.rows ==> repo.rows[k].id == k
    }

    constructor (repo: Repository<Post>)
      requires repo.Valid() && forall k :: k in repo.rows ==> repo.rows[k].id == k
      ensures this.repo == repo && Valid()
    {
      this.repo := repo;
    }

    /** `retrieve`: the post stored under `id`; a missing one is NOT_FOUND, rewrapped as a '500'. */
    function Retrieve(id: Id): (r: Result<Post, Error>)
      reads repo
      requires Valid()
      ensures r.Success? <==> id in repo.rows
      ensures r.Success? ==> r.value == repo.rows[id] && r.value.id == id
      ensures r.Failure? ==> r.error == Internal(RetrieveFailed, NotFoundMessage(id))
    {
      match repo.FindOne((p: Post) => p.id == id)
      case Some(post) => Success(post)
      case None => Failure(Rewrap(RetrieveFailed, NotFound(NotFoundMessage(id))))
    }

    /**
     * `listAndCount`: the page of matching posts the config selects, in
     * storage order, and the number of all matching posts; by default the
     * first ten.
     */
    function ListAndCount(selector: PostSelector, config: Option<FindConfig>): (r: (seq<Post>, nat))
      reads repo
      requires Valid()
      ensures r.1 == |set k | k in repo.rows && selector.Matches(repo.rows[k])|
      ensures forall p :: p in r.0 ==> p in repo.rows.Values && selector.Matches(p)
      ensures var c := Settle(config, ListAndCountDefaults);
        r.0 == Window(Matching(repo.rows, repo.order, selector.Matches), c.skip.GetOr(0), c.take)
      ensures var c := Settle(config, ListAndCountDefaults);
        |r.0| == PageSize(r.1, c.skip.GetOr(0), c.take)
      ensures config.None? ==> |r.0| == PageSize(r.1, 0, Some(10))
    {
      var c := Settle(config, ListAndCountDefaults);
      var f := selector.Matches;
      var r := repo.FindAndCount(f, c.skip.GetOr(0), c.take);
      assert Where(repo.rows, f) == set k | k in repo.rows && selector.Matches(repo.rows[k]);
      r
    }

    /** `list`: the page part of `listAndCount`, with a default of twenty posts. */
    function List(selector: PostSelector, config: Option<FindConfig>): (r: seq<Post>)
      reads repo
      requires Valid()
      ensures r == ListAndCount(selector, Some(Settle(config, ListDefaults))).0
      ensures config.None? ==> |r| <= 20
    {
      var (posts, _) := ListAndCount(selector, Some(Settle(config, ListDefaults)));
      posts
    }

    /** Without a selector, `listAndCount` counts every stored post, whatever the page. */
    lemma CountsEveryPost(config: Option<FindConfig>)
      requires Valid()
      ensures ListAndCount(AllPosts, config).1 == |repo.rows|
    {
      assert (set k | k in repo.rows && AllPosts.Matches(repo.rows[k])) == repo.rows.Keys;
    }

    /** A page lists each post at most once. */
    lemma PageListsEachPostOnce(selector: PostSelector, config: Option<FindConfig>)
      requires Valid()
      ensures var page := ListAndCount(selector, config).0;
        forall i, j :: 0 <= i < j < |page| ==> page[i].id != page[j].id
    {
      var c := Settle(config, ListAndCountDefaults);
      PageIsDistinct(repo.rows, repo.order, selector.Matches, (p: Post) => p.id, c.skip.GetOr(0), c.take);
    }

    /** With both defaults, the page `listAndCount` returns is a prefix of the one `list` returns. */
    lemma DefaultPagesAgree(selector: PostSelector)
      requires Valid()
      ensures ListAndCount(selector, None).0 <= List(selector, None)
    {
    }

    /**
     * `create`: rejects a DTO that `validatePost` finds fault with, saving
     * nothing; otherwise saves one new post with the DTO's fields under a
     * fresh id and returns it. That the author id names an author is not
     * checked.
     */
    method Create(data: PostInput, newId: Id) returns (r: Result<Post, Error>)
      requires Valid()
      requires newId !in repo.rows
      modifies repo
      ensures Valid()
      ensures r.Failure? <==> ValidatePost(data) != map[]
      ensures r.Failure? ==> r.error == InvalidData(ValidatePost(data)) && Code(r.error) == "400"
      ensures r.Failure? ==> repo.rows == old(repo.rows) && repo.order == old(repo.order)
      ensures r.Success? ==> && r.value.id == newId
                             && Some(r.value.title) == data.title
                             && Some(r.value.content) == data.content
                             && Some(r.value.authorId) == data.authorId
      ensures r.Success? ==> repo.rows == old(repo.rows)[newId := r.value] && repo.order == old(repo.order) + [newId]
      ensures r.Success? ==> Retrieve(newId) == Success(r.value)
    {
      var errors := ValidatePost(data);
      if |errors| > 0 {
        r := Failure(InvalidData(errors));
        return;
      }
      var post := Post(newId, data.title.value, data.content.value, data.authorId.value);
      repo.Save(post.id, post);
      r := Success(post);
    }

    /**
     * `update`: merges the supplied fields into the stored post and saves it,
     * without validating the result; a missing post fails with the retrieve
     * failure rewrapped once more.
     */
    method Update(id: Id, patch: PostPatch) returns (r: Result<Post, Error>)
      requires Valid()
      modifies repo
      ensures Valid()
      ensures r.Failure? <==> id !in old(repo.rows)
      ensures r.Failure? ==> r.error == Internal(UpdateFailed, NotFoundMessage(id))
      ensures r.Failure? ==> repo.rows == old(repo.rows) && repo.order == old(repo.order)
      ensures r.Success? ==> r.value == Merge(old(repo.rows)[id], patch)
      ensures r.Success? ==> repo.rows == old(repo.rows)[id := r.value] && repo.order == old(repo.order)
      ensures r.Success? ==> Retrieve(id) == Success(r.value)
    {
      var found := Retrieve(id);
      if found.Failure? {
        r := Failure(Rewrap(UpdateFailed, found.error));
        return;
      }
      var post := Merge(found.value, patch);
      repo.Save(post.id, post);
      r := Success(post);
    }

    /** `delete`: removes exactly the stored post; a missing one fails with the '500' wrapper. */
    method Delete(id: Id) returns (r: Result<(), Error>)
      requires Valid()
      modifies repo
      ensures Valid()
      ensures r.Failure? <==> id !in old(repo.rows)
      ensures r.Failure? ==> r.error == Internal(DeleteFailed, NotFoundMessage(id))
      ensures r.Failure? ==> repo.rows == old(repo.rows) && repo.order == old(repo.order)
      ensures r.Success? ==> repo.rows == old(repo.rows) - {id} && repo.order == Keep(old(repo.order), repo.rows.Keys)
      ensures Retrieve(id).Failure?
    {
      var found := Retrieve(id);
      if found.Failure? {
        r := Failure(Rewrap(DeleteFailed, found.error));
        return;
      }
      repo.Remove(found.value.id);
      r := Success(());
    }
  }
}
