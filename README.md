# medusa-blog entity services in Dafny

This project models the service layer of a Medusa plugin that adds authors,
posts and legacy blogs to a store. It covers `AuthorService`, `PostService`
and `BlogService`. Each service offers `create`, `retrieve`, `listAndCount`,
`list`, `update` and `delete` over one table, and each table is reached
through a TypeORM repository.

Layout:

- `repository.dfy` (module `Repositories`): the class `Repository<R>` stands in
  for a TypeORM repository. It holds the table as a map from id to row, plus
  the storage order that `find` visits rows in. Its members `FindOne`,
  `FindAndCount`, `Save`, `Remove` and `RemoveWhere` are `findOne`,
  `findAndCount`, `save`, `remove` and the database's ON DELETE CASCADE. The
  module also holds the pure helpers for listing (`Find`, `Matching`,
  `Window`) and the `take`/`skip` defaults.
- `authors.dfy`, `posts.dfy`, `blogs.dfy` (modules `Authors`, `Posts`,
  `Blogs`): the record types from `src/models/*.ts`, the DTOs, patches and
  equality selectors, the validators, and one service class per entity.
  A service class holds its repository in a `const` field, just as the
  source service holds only its injected repository. `AuthorService` also
  holds the post table: that table's `author_id` foreign key cascades author
  deletes into it.
- `errors.dfy` (module `Errors`): the failures as a datatype. `InvalidData`
  carries the field-to-message map (code '400'). `Conflict` and `NotFound`
  carry their messages. `Internal(kind, message)` is the '500' wrapper that
  the post and blog services throw around every failure they catch.
- `validation.dfy`, `results.dfy`: the shared field checks and messages, and
  `Option`/`Result`.

Each mutating operation is a method. It changes only the repositories it
`modifies`, and its `ensures` gives the whole new table in terms of the old
one. A failing `create`, `update` or `delete` leaves every table exactly as it
was. The only write is the final save or remove, as inside `atomicPhase_`.
Reads are functions over the current table.

The model follows the code where it departs from the intended design:

- `AuthorService.create` validates neither name nor email. It only checks the
  email for a conflict.
- `PostService.create` does not check that `author_id` names an author.
- No `update` validates the merged record. The author `update` does no email
  conflict check, so unique emails are kept by `create` alone
  (`Authors.UpdateCanDuplicateEmail`).
- Validation runs before anything is looked up.

## Model

| member | source | states |
|---|---|---|
| `Errors.Code` | src/services/post.ts:33-38 | INVALID_DATA, and only it, carries code '400'; the rewrapping `Internal` error, and only it, carries '500' |
| `Repositories.Keep` | src/services/author.ts:134 | keeps exactly the ids of the storage order that are in the key set; keeps the order free of duplicates |
| `Repositories.KeepInOrder` | src/services/author.ts:134 | any two kept ids stand in the old storage order in the same relative order, so a removal reorders nothing |
| `Repositories.KeepCount` | src/services/author.ts:63 | over a duplicate-free order, the number of kept ids is the number of distinct listed ids in the key set |
| `Repositories.Find` | src/services/author.ts:32-33 | `findOne` with a where-clause: returns an id whose row matches, and finds none exactly when no listed row matches |
| `Repositories.Matching` | src/services/author.ts:62-63 | the matching rows in storage order: row `i` is the row stored under the `i`th id that `Keep` keeps from the storage order for the matching ids; every returned row is stored and matches, and every stored matching row is returned |
| `Repositories.Window` | src/services/author.ts:52-56 | `skip`/`take`: the page holds the rows from offset `skip` on, as many as `take` allows and the matches leave |
| `Repositories.MatchingCount` | src/services/author.ts:63 | the number of matching rows equals the number of distinct stored ids whose row matches |
| `Repositories.PageIsDistinct` | src/services/author.ts:62-63 | when each row is stored under its own id, a page of matching rows lists no row twice |
| `Repositories.WindowsAdjoin` | src/services/author.ts:52-56 | a page of `n` rows followed by the page at offset `skip + n` equals the one page covering both |
| `Repositories.Repository.FindOne` | src/services/author.ts:32-33 | returns a stored row that matches, and none exactly when no stored row matches |
| `Repositories.Repository.FindAndCount` | src/services/author.ts:62-63 | returns the `skip`/`take` page of matching rows in storage order; the count is the number of all stored matching rows |
| `Repositories.Repository.Save` | src/services/post.ts:45 | a new id is inserted last in storage order; an existing id is overwritten in place; no other row changes |
| `Repositories.Repository.Remove` | src/services/post.ts:131 | removes exactly the given id; every other row keeps its value and its place in the order |
| `Repositories.Repository.RemoveWhere` | src/migrations/1697279892307-UpdateCascadeConstarint.ts:9 | the ON DELETE CASCADE: removes exactly the rows that satisfy the condition and leaves every other row as it was |
| `Posts.ValidatePost` | src/services/post.ts:139-153 | the keys are exactly the failing fields: `title` or `content` when missing or shorter than 3, `author_id` when missing or empty; each carries its message; the map is empty exactly when all three pass |
| `Posts.Merge` | src/services/post.ts:113 | `Object.assign`: every supplied field overwrites, every other field and the id are kept |
| `Posts.MergeIdempotent` | src/services/post.ts:113 | applying a patch twice gives what applying it once does |
| `Posts.PostService.Retrieve` | src/services/post.ts:83-101 | returns the post stored under the id; otherwise fails with the '500' wrapper 'Unable to retrieve posts' around the not-found message |
| `Posts.PostService.ListAndCount` | src/services/post.ts:50-65 | the page is the `skip`/`take` window of matching posts in storage order; the count is the number of matching stored posts; the defaults take 10 from offset 0 |
| `Posts.PostService.List` | src/services/post.ts:67-81 | exactly the first component of `listAndCount` for the same selector, with a default config of take 20 and skip 0 |
| `Posts.PostService.CountsEveryPost` | src/services/post.ts:50-65 | with no selector the count is the number of stored posts, whatever the config |
| `Posts.PostService.PageListsEachPostOnce` | src/services/post.ts:50-65 | no post appears twice in a page |
| `Posts.PostService.DefaultPagesAgree` | src/services/post.ts:50-81 | with both defaults, the `listAndCount` page is a prefix of the `list` page |
| `Posts.PostService.Create` | src/services/post.ts:27-47 | fails with INVALID_DATA carrying the `validatePost` map, saving nothing, exactly when that map is non-empty; otherwise saves one post with the DTO's title, content and author id under the fresh id, which `retrieve` then returns |
| `Posts.PostService.Update` | src/services/post.ts:103-120 | a missing id fails with 'Unable to update posts' around the not-found message and saves nothing; otherwise saves the merge of the patch into the stored post without validating it; the id, the order and every other row are kept |
| `Posts.PostService.Delete` | src/services/post.ts:122-137 | a missing id fails with 'Unable to delete posts' around the not-found message and removes nothing; otherwise removes exactly that post, keeping every other row and its order |
| `Blogs.ValidateBlog` | src/services/blog.ts:142-152 | the keys are exactly the failing fields, `title` or `content`, each failing when missing or shorter than 3; never `author_id`; empty exactly when both pass |
| `Blogs.Merge` | src/services/blog.ts:116 | `Object.assign`: every supplied field overwrites, every other field and the id are kept |
| `Blogs.BlogService.Retrieve` | src/services/blog.ts:86-104 | returns the blog stored under the id; otherwise fails with the '500' wrapper 'Unable to retrieve blog' around the not-found message |
| `Blogs.BlogService.ListAndCount` | src/services/blog.ts:53-68 | the page is the `skip`/`take` window of matching blogs in storage order; the count is the number of matching stored blogs; the defaults take 10 from offset 0 |
| `Blogs.BlogService.List` | src/services/blog.ts:70-84 | exactly the first component of `listAndCount`, with a default config of take 20 and skip 0 |
| `Blogs.BlogService.CountsEveryBlog` | src/services/blog.ts:53-68 | with no selector the count is the number of stored blogs, whatever the config |
| `Blogs.BlogService.PageListsEachBlogOnce` | src/services/blog.ts:53-68 | no blog appears twice in a page |
| `Blogs.BlogService.Create` | src/services/blog.ts:31-51 | fails with INVALID_DATA carrying the `validateblog` map, saving nothing, exactly when that map is non-empty; otherwise saves one blog with the given title and content under the fresh id and returns it |
| `Blogs.BlogService.Update` | src/services/blog.ts:106-123 | a missing id fails with 'Unable to update blog' and saves nothing; otherwise saves the merge of the patch into the stored blog; the id, the order and every other row are kept |
| `Blogs.BlogService.Delete` | src/services/blog.ts:125-140 | a missing id fails with 'Unable to delete blog' and removes nothing; otherwise removes exactly that blog |
| `Authors.Merge` | src/services/author.ts:112 | `Object.assign`: every supplied field overwrites, every other field and the id are kept |
| `Authors.UpdateCanDuplicateEmail` | src/services/author.ts:96-116 | for every table and every two distinct stored authors, the table `update` stores after patching the first with the second's email has two authors sharing an email |
| `Authors.AuthorService.Retrieve` | src/services/author.ts:78-94 | returns the author stored under the id; otherwise fails with NOT_FOUND 'author with id: … was not found', not rewrapped |
| `Authors.AuthorService.ListAndCount` | src/services/author.ts:50-64 | the page is the `skip`/`take` window of matching authors in storage order; the count is the number of matching stored authors; the defaults take 10 from offset 0 |
| `Authors.AuthorService.List` | src/services/author.ts:66-76 | exactly the first component of `listAndCount`, with a default config of take 20 and skip 0 |
| `Authors.AuthorService.CountsEveryAuthor` | src/services/author.ts:50-64 | with no selector the count is the number of stored authors, whatever the config |
| `Authors.AuthorService.PageListsEachAuthorOnce` | src/services/author.ts:50-64 | no author appears twice in a page |
| `Authors.AuthorService.PagesCoverTable` | src/services/author.ts:50-64 | the default first page followed by everything from offset 10 is the whole unpaged list |
| `Authors.AuthorService.Create` | src/services/author.ts:25-48 | fails with CONFLICT, saving nothing, exactly when some stored author has the email; otherwise saves one author with the given name and email under the fresh id, which `retrieve` then returns; keeps emails unique and keeps every post's author present |
| `Authors.AuthorService.Update` | src/services/author.ts:96-116 | a missing id fails with NOT_FOUND and saves nothing; otherwise saves the merge of the patch in place, keeping the id, the order and every other row |
| `Authors.AuthorService.Delete` | src/services/author.ts:118-137 | a missing id fails with NOT_FOUND and changes no table; otherwise removes exactly that author and exactly the posts whose author id names it, leaving every other author and post as it was, and keeps every remaining post's author present |

## Left out

- HTTP routes, the dependency-injection container, the data-source bootstrap
  and the migrations are not modelled. The one exception is the post table's
  foreign key to the author table with ON DELETE CASCADE, which
  `AuthorService.Delete` models.
- `atomicPhase_` and the transaction manager are not modelled. A method runs
  as one step, and the only write is the final save or remove, so a failure
  writes nothing, as a rollback would leave it.
- Storage faults are not modelled: the repository never fails. Because of
  that, the '500' wrappers around `listAndCount` and `list` ('Unable to fetch
  posts', 'Unable to fetch blog', 'Unable to fetch blogs') can never be
  raised, and neither can a failing `save` or `remove`.
- `generateEntityId` becomes the fresh `newId` parameter of each `create`.
  The timestamps `created_at` and `updated_at` are not modelled.
- Relation expansion (`relations: ['author']`, `['post']`) is not modelled,
  and neither are the `FindConfig` fields other than `take` and `skip`.
- Authors.AuthorService.List: the default config at src/services/author.ts:69
  asks for the relation `post`, but the author entity's only relation is
  `blogs` (src/models/author.ts:13-16). The library most likely rejects the
  unknown relation, so the default `list()` would throw. The model returns
  the page instead.
- Repositories.Window: a `take` of 0 gives an empty page. TypeORM adds no
  limit for a `take` of 0 and returns every match from `skip` on. The same
  holds for every service's `ListAndCount` and `List`.
- Posts.PostSelector.Matches, Blogs.BlogSelector.Matches,
  Authors.AuthorSelector.Matches: a selector is per-field equality. The array
  (IN), null and comparison-operator forms of Medusa's `Selector` are not
  modelled.
- The source promises no row order. The model fixes storage order as
  insertion order.
- The INVALID_DATA message is JSON text in the source. The model keeps the
  error map itself.
- `src/repositories/author.ts`, `src/repositories/post.ts` and
  `src/types/post.ts` are not part of this model. The DTO shapes are taken
  from the fields the services read.
- Authors.AuthorService.Create: the email must be present, because
  `findOne({ email: undefined })` behaves as TypeORM decides. A missing name
  is not modelled; it would be rejected by the column's NOT NULL. An `id` in
  the data is not modelled either.
- Posts.PostService.Create: the model saves a post whose author id names no
  author. The database's foreign key would reject that insert, but that
  rejection is a storage fault, which the model leaves out.
- Posts.PostService.Update: the same holds for an `author_id` patched to an
  id with no author.
- Posts.Merge, Blogs.Merge, Authors.Merge: a patch field that is present but
  `undefined` counts as missing. Keys outside the entity's columns are not
  modelled.
- Posts.PostPatch, Blogs.BlogPatch, Authors.AuthorPatch: a patch has no `id`.
  The routes pass the untyped request body to `update`
  (src/api/routes/admin/blog/update-post.ts:14). An `id` key in it would
  reach `Object.assign` and send the `save` to another row, or insert a new
  one. The model does not capture that.
- Posts.ValidatePost, Blogs.ValidateBlog: a length is a count of characters.
  In the source it is a count of UTF-16 code units. Non-string values of the
  fields are not modelled.
- Concurrency, including the race between two creates with the same email,
  is not modelled. There is no unique constraint on email, so only the
  sequential pre-check exists.
- The author validation that `src/services/__tests__/author.spec.ts:39-48`
  expects does not exist in the code, so it is not modelled.
