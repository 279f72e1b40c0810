/**
 * `AuthorService`: the author entity and its service over the author table.
 * Unlike the post and blog services it validates nothing and rewraps
 * nothing: a missing author surfaces as NOT_FOUND, a taken email on create
 * as CONFLICT. The post table's foreign key `author_id` references this
 * table with ON DELETE CASCADE, so deleting an author deletes its posts.
 */
module Authors {
  import opened Results
  import opened Errors
  import opened Repositories
  import Posts

  datatype Author = Author(id: Id, name: string, email: string)

  /** What `create` receives: a name and an email (the email is what the conflict check looks up). */
  datatype AuthorInput = AuthorInput(name: string, email: string)

  /** What `update` receives (`Omit<Partial<Author>, 'id'>`): a missing field is left as it is. */
  datatype AuthorPatch = AuthorPatch(name: Option<string>, email: Option<string>)

  /** Equality filters over the author columns; a missing field does not filter. */
  datatype AuthorSelector = AuthorSelector(id: Option<Id>, name: Option<string>, email: Option<string>) {
    predicate Matches(a: Author) {
      && (id.Some? ==> a.id == id.value)
      && (name.Some? ==> a.name == name.value)
      && (email.Some? ==> a.email == email.value)
    }
  }

  /** The selector of a call that passes none. */
  const AllAuthors := AuthorSelector(None, None, None)

  /** Some stored author has `email`. */
  ghost predicate EmailInUse(rows: map<Id, Author>, email: string) {
    exists k :: k in rows && rows[k].email == email
  }

  /** No two stored authors share an email. */
  ghost predicate UniqueEmails(rows: map<Id, Author>) {
    forall j, k :: j in rows && k in rows && rows[j].email == rows[k].email ==> j == k
  }

  /** `Object.assign(author, data)`: the supplied fields overwrite, every other field is kept. */
  function Merge(author: Author, patch: AuthorPatch): (m: Author)
    ensures m.id == author.id
    ensures patch.name.Some? ==> m.name == patch.name.value
    ensures patch.name.None? ==> m.name == author.name
    ensures patch.email.Some? ==> m.email == patch.email.value
    ensures patch.email.None? ==> m.email == author.email
  {
    Author(author.id, patch.name.GetOr(author.name), patch.email.GetOr(author.email))
  }

  /**
   * `update` checks no email: patching author `j` with the email of another
   * author `k` leaves two authors sharing it, so unique emails are kept by
   * `create` alone.
   */
  lemma UpdateCanDuplicateEmail(rows: map<Id, Author>, j: Id, k: Id)
    requires j in rows && k in rows && j != k
    ensures !UniqueEmails(rows[j := Merge(rows[j], AuthorPatch(None, Some(rows[k].email)))])
  {
    var after := rows[j := Merge(rows[j], AuthorPatch(None, Some(rows[k].email)))];
    assert after[j].email == after[k].email;
  }

  function NotFoundMessage(id: Id): string {
    "author with id: " + id + " was not found"
  }

  function ConflictMessage(email: string): string {
    "Author with email \"" + email + "\" already exists."
  }

  class AuthorService {
    const repo: Repository<Author>
    /** The post table whose `author_id` foreign key cascades deletes from this table. */
    const posts: Repository<Posts.Post>

    /** The table is well formed and every author is stored under its own id. */
    ghost predicate Valid()
      reads repo
    {
      repo.Valid() && forall k :: k in repo.rows ==> repo.rows[k].id == k
    }

    /** Every post names a stored author: what the foreign key keeps true in the database. */
    ghost predicate PostsHaveAuthors()
      reads repo, posts
    {
      forall k :: k in posts.rows ==> posts.rows[k].authorId in repo.rows
    }

    constructor (repo: Repository<Author>, posts: Repository<Posts.Post>)
      requires repo.Valid() && forall k :: k in repo.rows ==> repo.rows[k].id == k
      ensures this.repo == repo && this.posts == posts && Valid()
    {
      this.repo := repo;
      this.posts := posts;
    }

    /** `retrieve`: the author stored under `id`; a missing one is NOT_FOUND, not rewrapped. */
    function Retrieve(id: Id): (r: Result<Author, Error>)
      reads repo
      requires Valid()
      ensures r.Success? <==> id in repo.rows
      ensures r.Success? ==> r.value == repo.rows[id] && r.value.id == id
      ensures r.Failure? ==> r.error == NotFound(NotFoundMessage(id))
    {
      match repo.FindOne((a: Author) => a.id == id)
      case Some(author) => Success(author)
      case None => Failure(NotFound(NotFoundMessage(id)))
    }

    /**
     * `listAndCount`: the page of matching authors the config selects, in
     * storage order, and the number of all matching authors; by default the
     * first ten.
     */
    function ListAndCount(selector: AuthorSelector, config: Option<FindConfig>): (r: (seq<Author>, nat))
      reads repo
      requires Valid()
      ensures r.1 == |set k | k in repo.rows && selector.Matches(repo.rows[k])|
      ensures forall a :: a in r.0 ==> a in repo.rows.Values && selector.Matches(a)
      ensures var c := Settle(config, ListAndCountDefaults);
        r.0 == Window(Matching(repo.rows, repo.order, selector.Matches), c.skip.GetOr(0), c.take)
      ensures var c := Settle(config, ListAndCountDefaults);
        |r.0| == PageSize(r.1, c.skip.GetOr(0), c.take)
      ensures config.None? ==> |r.0| == PageSize(r.1, 0, Some(10))
    {
      var c := Settle(config, ListAndCountDefaults);
      var f := selector.Matches;
      var r := repo.FindAndCount(f, c.skip.GetOr(0), c.take);
      assert Where(repo.rows, f) == set k | k in repo.rows && selector.Matches(repo.rows[k]);
      r
    }

    /** `list`: the page part of `listAndCount`, with a default of twenty authors. */
    function List(selector: AuthorSelector, config: Option<FindConfig>): (r: seq<Author>)
      reads repo
      requires Valid()
      ensures r == ListAndCount(selector, Some(Settle(config, ListDefaults))).0
      ensures config.None? ==> |r| <= 20
    {
      var (authors, _) := ListAndCount(selector, Some(Settle(config, ListDefaults)));
      authors
    }

    /** Without a selector, `listAndCount` counts every stored author, whatever the page. */
    lemma CountsEveryAuthor(config: Option<FindConfig>)
      requires Valid()
      ensures ListAndCount(AllAuthors, config).1 == |repo.rows|
    {
      assert (set k | k in repo.rows && AllAuthors.Matches(repo.rows[k])) == repo.rows.Keys;
    }

    /** A page lists each author at most once. */
    lemma PageListsEachAuthorOnce(selector: AuthorSelector, config: Option<FindConfig>)
      requires Valid()
      ensures var page := ListAndCount(selector, config).0;
        forall i, j :: 0 <= i < j < |page| ==> page[i].id != page[j].id
    {
      var c := Settle(config, ListAndCountDefaults);
      PageIsDistinct(repo.rows, repo.order, selector.Matches, (a: Author) => a.id, c.skip.GetOr(0), c.take);
    }

    /**
     * Paging with the default page size walks the whole table: the first
     * page of ten followed by everything from offset ten is the unpaged list.
     */
    lemma PagesCoverTable(selector: AuthorSelector)
      requires Valid()
      ensures ListAndCount(selector, None).0 + ListAndCount(selector, Some(FindConfig(Some(10), None))).0
           == ListAndCount(selector, Some(FindConfig(None, None))).0
    {
      WindowsAdjoin(Matching(repo.rows, repo.order, selector.Matches), 0, 10, None);
    }

    /**
     * `create`: fails with CONFLICT, saving nothing, when some stored author
     * already has the email; otherwise saves one new author with the given
     * name and email under a fresh id and returns it.
     */
    method Create(data: AuthorInput, newId: Id) returns (r: Result<Author, Error>)
      requires Valid()
      requires newId !in repo.rows
      modifies repo
      ensures Valid()
      ensures r.Failure? <==> EmailInUse(old(repo.rows), data.email)
      ensures r.Failure? ==> r.error == Conflict(ConflictMessage(data.email))
      ensures r.Failure? ==> repo.rows == old(repo.rows) && repo.order == old(repo.order)
      ensures r.Success? ==> r.value == Author(newId, data.name, data.email)
      ensures r.Success? ==> repo.rows == old(repo.rows)[newId := r.value] && repo.order == old(repo.order) + [newId]
      ensures r.Success? ==> Retrieve(newId) == Success(r.value)
      ensures UniqueEmails(old(repo.rows)) ==> UniqueEmails(repo.rows)
      ensures old(PostsHaveAuthors()) ==> PostsHaveAuthors()
    {
      var existing := repo.FindOne((a: Author) => a.email == data.email);
      if existing.Some? {
        r := Failure(Conflict(ConflictMessage(data.email)));
        return;
      }
      var author := Author(newId, data.name, data.email);
      repo.Save(author.id, author);
      r := Success(author);
    }

    /**
     * `update`: merges the supplied fields into the stored author and saves
     * it in place; a missing author fails with NOT_FOUND and saves nothing.
     */
    method Update(id: Id, patch: AuthorPatch) returns (r: Result<Author, Error>)
      requires Valid()
      modifies repo
      ensures Valid()
      ensures r.Failure? <==> id !in old(repo.rows)
      ensures r.Failure? ==> r.error == NotFound(NotFoundMessage(id))
      ensures r.Failure? ==> repo.rows == old(repo.rows) && repo.order == old(repo.order)
      ensures r.Success? ==> r.value == Merge(old(repo.rows)[id], patch)
      ensures r.Success? ==> repo.rows == old(repo.rows)[id := r.value] && repo.order == old(repo.order)
      ensures r.Success? ==> Retrieve(id) == Success(r.value)
      ensures old(PostsHaveAuthors()) ==> PostsHaveAuthors()
    {
      var found := Retrieve(id);
      if found.Failure? {
        r := Failure(found.error);
        return;
      }
      var author := Merge(found.value, patch);
      repo.Save(author.id, author);
      r := Success(author);
    }

    /**
     * `delete`: removes exactly the stored author, and the foreign key's
     * cascade removes every post that names it; a missing author fails with
     * NOT_FOUND and removes nothing.
     */
    method Delete(id: Id) returns (r: Result<(), Error>)
      requires Valid() && posts.Valid()
      modifies repo, posts
      ensures Valid() && posts.Valid()
      ensures r.Failure? <==> id !in old(repo.rows)
      ensures r.Failure? ==> r.error == NotFound(NotFoundMessage(id))
      ensures r.Failure? ==> && repo.rows == old(repo.rows) && repo.order == old(repo.order)
                             && posts.rows == old(posts.rows) && posts.order == old(posts.order)
      ensures r.Success? ==> repo.rows == old(repo.rows) - {id} && repo.order == Keep(old(repo.order), repo.rows.Keys)
      ensures r.Success? ==> forall k :: k in posts.rows <==> k in old(posts.rows) && old(posts.rows)[k].authorId != id
      ensures r.Success? ==> forall k :: k in posts.rows ==> posts.rows[k] == old(posts.rows)[k]
      ensures r.Success? ==> posts.order == Keep(old(posts.order), posts.rows.Keys)
      ensures Retrieve(id).Failure?
      ensures old(PostsHaveAuthors()) ==> PostsHaveAuthors()
    {
      var found := Retrieve(id);
      if found.Failure? {
        r := Failure(found.error);
        return;
      }
      repo.Remove(found.value.id);
      posts.RemoveWhere((p: Posts.Post) => p.authorId == id);
      r := Success(());
    }
  }
}
