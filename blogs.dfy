/**
 * `BlogService`: the standalone blog entity and its service over the blog
 * table. As in the post service, every failure of `retrieve`, `update` and
 * `delete` is rewrapped as a '500' error tagged with the operation, and
 * `create` is not wrapped.
 */
module Blogs {
  import opened Results
  import opened Errors
  import opened Repositories
  import opened Validation

  datatype Blog = Blog(id: Id, title: string, content: string)

  /** What `create` receives (`CreateBlog`): each field may be missing. */
  datatype BlogInput = BlogInput(title: Option<string>, content: Option<string>)

  /** What `update` receives (`Omit<Partial<Blog>, 'id'>`): a missing field is left as it is. */
  datatype BlogPatch = BlogPatch(title: Option<string>, content: Option<string>)

  /** Equality filters over the blog columns; a missing field does not filter. */
  datatype BlogSelector = BlogSelector(id: Option<Id>, title: Option<string>, content: Option<string>) {
    predicate Matches(b: Blog) {
      && (id.Some? ==> b.id == id.value)
      && (title.Some? ==> b.title == title.value)
      && (content.Some? ==> b.content == content.value)
    }
  }

  /** The selector of a call that passes none. */
  const AllBlogs := BlogSelector(None, None, None)

  /**
   * `validateblog`: one entry per failing field, keyed by the field's name; a
   * title or content fails when missing or shorter than three characters.
   */
  function ValidateBlog(data: BlogInput): (errors: map<string, string>)
    ensures forall f :: f in errors <==>
      || (f == "title" && !LongEnough(data.title, MinLength))
      || (f == "content" && !LongEnough(data.content, MinLength))
    ensures "author_id" !in errors
    ensures "title" in errors ==> errors["title"] == TitleRequired
    ensures "content" in errors ==> errors["content"] == ContentRequired
    ensures errors == map[] <==> LongEnough(data.title, MinLength) && LongEnough(data.content, MinLength)
  {
    var none: map<string, string> := map[];
    var withTitle := if !LongEnough(data.title, MinLength) then none["title" := TitleRequired] else none;
    var errors := if !LongEnough(data.content, MinLength) then withTitle["content" := ContentRequired] else withTitle;
    assert "title" !in errors && "content" !in errors ==> errors == map[];
    errors
  }

  /** `Object.assign(blog, data)`: the supplied fields overwrite, every other field is kept. */
  function Merge(blog: Blog, patch: BlogPatch): (m: Blog)
    ensures m.id == blog.id
    ensures patch.title.Some? ==> m.title == patch.title.value
    ensures patch.title.None? ==> m.title == blog.title
    ensures patch.content.Some? ==> m.content == patch.content.value
    ensures patch.content.None? ==> m.content == blog.content
  {
    Blog(blog.id, patch.title.GetOr(blog.title), patch.content.GetOr(blog.content))
  }

  function NotFoundMessage(id: Id): string {
    "blog with id: " + id + " was not found"
  }

  const RetrieveFailed := "Unable to retrieve blog"
  const UpdateFailed := "Unable to update blog"
  const DeleteFailed := "Unable to delete blog"

  class BlogService {
    const repo: Repository<Blog>

    /** The table is well formed and every blog is stored under its own id. */
    ghost predicate Valid()
      reads repo
    {
      repo.Valid() && forall k :: k in repo.rows ==> repo.rows[k].id == k
    }

    constructor (repo: Repository<Blog>)
      requires repo.Valid() && forall k :: k in repo.rows ==> repo.rows[k].id == k
      ensures this.repo == repo && Valid()
    {
      this.repo := repo;
    }

    /** `retrieve`: the blog stored under `id`; a missing one is NOT_FOUND, rewrapped as a '500'. */
    function Retrieve(id: Id): (r: Result<Blog, Error>)
      reads repo
      requires Valid()
      ensures r.Success? <==> id in repo.rows
      ensures r.Success? ==> r.value == repo.rows[id] && r.value.id == id
      ensures r.Failure? ==> r.error == Internal(RetrieveFailed, NotFoundMessage(id))
    {
      match repo.FindOne((b: Blog) => b.id == id)
      case Some(blog) => Success(blog)
      case None => Failure(Rewrap(RetrieveFailed, NotFound(NotFoundMessage(id))))
    }

    /**
     * `listAndCount`: the page of matching blogs the config selects, in
     * storage order, and the number of all matching blogs; by default the
     * first ten.
     */
    function ListAndCount(selector: BlogSelector, config: Option<FindConfig>): (r: (seq<Blog>, nat))
      reads repo
      requires Valid()
      ensures r.1 == |set k | k in repo.rows && selector.Matches(repo.rows[k])|
      ensures forall b :: b in r.0 ==> b in repo.rows.Values && selector.Matches(b)
      ensures var c := Settle(config, ListAndCountDefaults);
        r.0 == Window(Matching(repo.rows, repo.order, selector.Matches), c.skip.GetOr(0), c.take)
      ensures var c := Settle(config, ListAndCountDefaults);
        |r.0| == PageSize(r.1, c.skip.GetOr(0), c.take)
      ensures config.None? ==> |r.0| == PageSize(r.1, 0, Some(10))
    {
      var c := Settle(config, ListAndCountDefaults);
      var f := selector.Matches;
      var r := repo.FindAndCount(f, c.skip.GetOr(0), c.take);
      assert Where(repo.rows, f) == set k | k in repo.rows && selector.Matches(repo.rows[k]);
      r
    }

    /** `list`: the page part of `listAndCount`, with a default of twenty blogs. */
    function List(selector: BlogSelector, config: Option<FindConfig>): (r: seq<Blog>)
      reads repo
      requires Valid()
      ensures r == ListAndCount(selector, Some(Settle(config, ListDefaults))).0
      ensures config.None? ==> |r| <= 20
    {
      var (blogs, _) := ListAndCount(selector, Some(Settle(config, ListDefaults)));
      blogs
    }

    /** Without a selector, `listAndCount` counts every stored blog, whatever the page. */
    lemma CountsEveryBlog(config: Option<FindConfig>)
      requires Valid()
      ensures ListAndCount(AllBlogs, config).1 == |repo.rows|
    {
      assert (set k | k in repo.rows && AllBlogs.Matches(repo.rows[k])) == repo.rows.Keys;
    }

    /** A page lists each blog at most once. */
    lemma PageListsEachBlogOnce(selector: BlogSelector, config: Option<FindConfig>)
      requires Valid()
      ensures var page := ListAndCount(selector, config).0;
        forall i, j :: 0 <= i < j < |page| ==> page[i].id != page[j].id
    {
      var c := Settle(config, ListAndCountDefaults);
      PageIsDistinct(repo.rows, repo.order, selector.Matches, (b: Blog) => b.id, c.skip.GetOr(0), c.take);
    }

    /**
     * `create`: rejects data that `validateblog` finds fault with, saving
     * nothing; otherwise saves one new blog with the given title and content
     * under a fresh id and returns it.
     */
    method Create(data: BlogInput, newId: Id) returns (r: Result<Blog, Error>)
      requires Valid()
      requires newId !in repo.rows
      modifies repo
      ensures Valid()
      ensures r.Failure? <==> ValidateBlog(data) != map[]
      ensures r.Failure? ==> r.error == InvalidData(ValidateBlog(data)) && Code(r.error) == "400"
      ensures r.Failure? ==> repo.rows == old(repo.rows) && repo.order == old(repo.order)
      ensures r.Success? ==> && r.value.id == newId
                             && Some(r.value.title) == data.title
                             && Some(r.value.content) == data.content
      ensures r.Success? ==> repo.rows == old(repo.rows)[newId := r.value] && repo.order == old(repo.order) + [newId]
      ensures r.Success? ==> Retrieve(newId) == Success(r.value)
    {
      var errors := ValidateBlog(data);
      if |errors| > 0 {
        r := Failure(InvalidData(errors));
        return;
      }
      var blog := Blog(newId, data.title.value, data.content.value);
      repo.Save(blog.id, blog);
      r := Success(blog);
    }

    /**
     * `update`: merges the supplied fields into the stored blog and saves it,
     * without validating the result; a missing blog fails with the retrieve
     * failure rewrapped once more.
     */
    method Update(id: Id, patch: BlogPatch) returns (r: Result<Blog, Error>)
      requires Valid()
      modifies repo
      ensures Valid()
      ensures r.Failure? <==> id !in old(repo.rows)
      ensures r.Failure? ==> r.error == Internal(UpdateFailed, NotFoundMessage(id))
      ensures r.Failure? ==> repo.rows == old(repo.rows) && repo.order == old(repo.order)
      ensures r.Success? ==> r.value == Merge(old(repo.rows)[id], patch)
      ensures r.Success? ==> repo.rows == old(repo.rows)[id := r.value] && repo.order == old(repo.order)
      ensures r.Success? ==> Retrieve(id) == Success(r.value)
    {
      var found := Retrieve(id);
      if found.Failure? {
        r := Failure(Rewrap(UpdateFailed, found.error));
        return;
      }
      var blog := Merge(found.value, patch);
      repo.Save(blog.id, blog);
      r := Success(blog);
    }

    /** `delete`: removes exactly the stored blog; a missing one fails with the '500' wrapper. */
    method Delete(id: Id) returns (r: Result<(), Error>)
      requires Valid()
      modifies repo
      ensures Valid()
      ensures r.Failure? <==> id !in old(repo.rows)
      ensures r.Failure? ==> r.error == Internal(DeleteFailed, NotFoundMessage(id))
      ensures r.Failure? ==> repo.rows == old(repo.rows) && repo.order == old(repo.order)
      ensures r.Success? ==> repo.rows == old(repo.rows) - {id} && repo.order == Keep(old(repo.order), repo.rows.Keys)
      ensures Retrieve(id).Failure?
    {
      var found := Retrieve(id);
      if found.Failure? {
        r := Failure(Rewrap(DeleteFailed, found.error));
        return;
      }
      repo.Remove(found.value.id);
      r := Success(());
    }
  }
}
