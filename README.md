# Post: a threaded post with lazily resolved relations

This project models the `Post` entity of a small PHP web application
(`Models/Post.php`). A post has an identity (`uuid`), an `author` that holds
either an identity string or a loaded `User`, its content and timestamps,
and two optional self-references: `parent` ("this post replies to") and
`link` ("this post reposts"). Each of them holds either an identifier or a
loaded `Post`. An optional list of `children` is filled on demand.

The model is a Dafny class `Posts.Post` whose fields the methods overwrite in
place, as the PHP methods do. The database handle `Store.Database` holds the
`posts` table as a sequence of rows. `replace` and `destroy` change those rows
in place, and so does `create`. A sequence, rather than a map keyed by uuid,
keeps the source's "exactly one matching row" rule meaningful: `load` copies
a row only when its query returns exactly one.

Every method is specified by functions on values in module `PostModel`:
- `Loaded`: what `load` does to a post's state.
- `NewRow`, `Updated`, `Deleted`, `ChildRows`: what each SQL statement does to the table.
- `ResolveUser`, `ResolvePost`, `Children`: what the lazy loaders put into a field.

The lemmas beside those functions state what the source promises:
- the exactly-one-row rule of `load`;
- round trips through the store (create then load, replace then load, destroy then load);
- that `isAuthor` does not depend on which form `author` holds;
- the shape, order and multiplicity of the loaded children.

Files:
- `wrappers.dfy`: `Option`.
- `users.dfy`: the `User` collaborator, as far as a post reads it.
- `store.dfy`: rows, WHERE-clause filtering, `ORDER BY created_time DESC`, and the database handle.
- `post_model.dfy`: post states, statement semantics, resolution, and the lemmas.
- `post.dfy`: the `Post` class.

Behaviour of the code worth knowing:
- `create` never writes a uuid back into the object. It binds `UUID()` inside
  the SQL, so a created post stays exactly as ready as it was before, and a
  new post stays unready until it is loaded (`Posts.Post.Create` ensures
  `CheckReady()` is unchanged).
- `reload` does not discard `children`. The SELECT of `load` does not return
  a children column, so `children` keeps its value. When exactly one row
  still has the uuid, `author`, `parent` and `link` go back to identifiers;
  when the row was deleted or is duplicated, every field, resolved relations
  included, stays as it was.
- `loadChildren` selects no `parent` or `link` column. Each child therefore
  has both relations unset (`PostModel.ChildrenShape`).
- `replace` stamps `modified_time` in the table only. The object's own
  `modifiedTime` is not changed.

## Model

| member | source | states |
|---|---|---|
| `Posts.Post.constructor` | Models/Post.php:144 | `new Post()`: every property unset |
| `Posts.Post.FromArray` | Models/Post.php:31 | each selected column overwrites its field, author and relations as identifiers; with no `parent`/`link` column those fields are kept |
| `Posts.Post.CheckReady` | Models/Post.php:17-20 | ready exactly when `uuid` is set; no other field matters |
| `Posts.Post.Load` | Models/Post.php:22-34 | the state becomes `Loaded(old state, table, filter)`: with exactly one row under the filter it is that row copied in (relations and author as identifiers); with none or several, every field is unchanged |
| `PostModel.Loaded` | Models/Post.php:29-32 | the state is either unchanged or carries the requested uuid and an unresolved author; `children` is never touched |
| `PostModel.LoadOnlyMatch` | Models/Post.php:30-32 | when row `i` is the only row with that uuid, load copies exactly row `i` and the post becomes ready with that uuid |
| `PostModel.LoadNoSingleMatch` | Models/Post.php:29-33 | when no single row has that uuid (zero or several), load leaves the state unchanged |
| `PostModel.LoadMissing` | Models/Post.php:22-34 | loading an identifier no row has leaves a fresh post unready |
| `PostModel.LoadTwice` | Models/Post.php:36-40 | loading the same identifier twice equals loading it once, so a reload right after a successful load changes nothing |
| `Posts.Post.Reload` | Models/Post.php:36-40 | load by the post's own uuid; the uuid and `children` are kept |
| `Store.Filter` | Models/Post.php:25-29 | a WHERE clause keeps exactly the rows satisfying the condition, each with its multiplicity in the table |
| `Store.FilterUnique` | Models/Post.php:29-32 | a query returns exactly one row if and only if exactly one row matches, and that row is then the whole result |
| `PostModel.Normalised` | Models/Post.php:44-46 | the author bound by create and replace is an identity string naming the same identity; an identity string stays as it is |
| `PostModel.ColumnOfRef` | Models/Post.php:48-50 | an unresolved `parent`/`link` field is bound as a column that reads back into the same field |
| `PostModel.NewRow` | Models/Post.php:47-50 | the inserted row has the generated uuid and timestamp, no `modified_time`, and the post's author identity, content, parent and link |
| `Posts.Post.Create` | Models/Post.php:42-52 | a resolved author becomes its identity and nothing else in the object changes; readiness is unchanged; when the statement executes, exactly `NewRow` is appended to the table |
| `PostModel.CreateThenLoad` | Models/Post.php:42-52 | loading the generated uuid after create gives the same content, the author identity, the same relations, the creation time and no modification time |
| `PostModel.Updated` | Models/Post.php:59-63 | the UPDATE keeps the row count; rows with the uuid get the new content and modification time and keep every other column; all other rows are untouched |
| `Posts.Post.Replace` | Models/Post.php:54-64 | the object only has its author normalised; the conflict status is unchanged; when the statement executes the table becomes `Updated(table, uuid, content, now)` |
| `PostModel.ReplaceThenLoad` | Models/Post.php:54-64 | when exactly one row has the uuid, loading the post after replace gives the new content and time with everything else, including conflict status, as before |
| `Posts.Post.Destroy` | Models/Post.php:66-72 | the object is not modified; when the statement executes the table becomes the rows whose uuid differs |
| `PostModel.Deleted` | Models/Post.php:68-71 | the DELETE removes every row with the uuid and keeps each other row with its multiplicity |
| `PostModel.DestroyThenLoad` | Models/Post.php:66-72 | after destroy, loading the uuid finds nothing and changes nothing |
| `PostModel.IsAuthorOf` | Models/Post.php:75-82 | true exactly when the identity the author field names equals the candidate's identity, whichever form the field holds |
| `Posts.Post.IsAuthor` | Models/Post.php:75-82 | true exactly when the author's identity equals the candidate's identity |
| `PostModel.IsAuthorEitherForm` | Models/Post.php:75-82 | an identity `x` and a resolved User with identity `x` give the same answer, namely whether `x` is the candidate's identity |
| `PostModel.NormalisedKeepsAuthorship` | Models/Post.php:56-58 | the author normalisation of create and replace does not change whom `isAuthor` accepts |
| `PostModel.ResolveUser` | Models/Post.php:88-97 | the result is always a resolved User; an already resolved author is kept as it is |
| `Posts.Post.LoadAuthor` | Models/Post.php:88-97 | only the author changes: an identity becomes the User loaded for it, a resolved User stays |
| `PostModel.ResolveUserLooksUp` | Models/Post.php:93-95 | an identity resolves to the User the lookup yields for that identity |
| `PostModel.ResolveUserKeepsAuthorship` | Models/Post.php:93-95 | when the lookup finds the user it is asked for, resolving the author does not change whom `isAuthor` accepts |
| `PostModel.ResolvePost` | Models/Post.php:103-127 | the result is always a resolved post; an already resolved post is kept as it is |
| `Posts.Post.LoadParent` | Models/Post.php:103-112 | only `parent` changes: an identifier becomes a fresh post loaded by it, a resolved post stays |
| `Posts.Post.LoadLink` | Models/Post.php:118-127 | only `link` changes, in the same way |
| `PostModel.ResolvePostIdentity` | Models/Post.php:108-110 | the loaded post is ready exactly when one row has the identifier, and then it carries that identifier and an unresolved author; otherwise it is a blank, unready post |
| `PostModel.ResolveKeepsConflict` | Models/Post.php:103-127 | resolving `parent` or `link` never changes whether the post is in conflict |
| `Store.SortNewestFirst` | Models/Post.php:139 | `ORDER BY created_time DESC` yields the same rows (as a multiset) with `created_time` non-increasing |
| `PostModel.ChildRows` | Models/Post.php:138-142 | the children query returns exactly the rows whose parent is the uuid, with multiplicity, newest first |
| `PostModel.Child` | Models/Post.php:144-147 | one child: uuid, content and times from its row, author resolved by the lookup, no relations and no children |
| `PostModel.Hydrated` | Models/Post.php:143-148 | one child per selected row, in order, each with its row's uuid and creation time and its author resolved |
| `PostModel.Children` | Models/Post.php:138-148 | as many children as the children query returns rows, every one with its author resolved |
| `Posts.HydrateAll` | Models/Post.php:143-148 | the mapped closure yields, per selected row, a fresh post filled from it with its author resolved |
| `Posts.Post.LoadChildren` | Models/Post.php:133-150 | when `children` is set, even to an empty sequence, nothing changes; otherwise only `children` changes, to the children of this uuid |
| `PostModel.ChildrenShape` | Models/Post.php:138-148 | the children are one post per row whose parent is this uuid, with multiplicity, newest first, each filled from its row, with its author resolved and no relations or children |
| `Posts.Post.GetContent` | Models/Post.php:155-158 | returns the content field |
| `Posts.Post.GetParent` | Models/Post.php:163-166 | returns `parent` in the form it holds, without loading anything |
| `Posts.Post.GetLink` | Models/Post.php:171-174 | returns `link` in the form it holds, without loading anything |
| `Posts.Post.IsConflict` | Models/Post.php:179-182 | true exactly when both `parent` and `link` are set |
| `Posts.Post.SetContent` | Models/Post.php:188-192 | only the content changes, to the given text |
| `Posts.Post.SetAuthor` | Models/Post.php:198-202 | only the author changes, to the given User |

## Left out

- Database I/O: the connection, prepared statements and parameter binding are not modelled. Each statement is given its meaning on an in-memory sequence of rows.
- `UUID()` and `UNIX_TIMESTAMP()` are generated by the store. They are the parameters `newId` (required to name no stored row) and `now`.
- Statement outcome: the boolean `execute()` returns is the parameter `executes`. A statement that does not execute leaves the table unchanged. Connection errors and exceptions are not modelled; the file handles none of them.
- `ModelBase::fromArray` and `toArray` are not part of this model. `fromArray` is a plain copy of the selected columns into fields. How `toArray` binds a resolved `Post` in `parent` or `link` is unknown, so `Create` requires both relations unresolved.
- `User::load` is not part of this model. It is the abstract lookup `Database.findUser`, which may return an unready User (one with no identity). The meaning of its `[false, $query]` filter is not modelled.
- Reading an unset typed property throws an `Error` in PHP. Operations that would do so require the property to be set:
  - the author for `isAuthor`, `create`, `replace` and `loadAuthor`;
  - the uuid for `destroy`, `reload` and an unfilled `loadChildren`;
  - the content for `getContent`;
  - a User's `identity`: the candidate's and a resolved author's for `isAuthor` (`Posts.Post.IsAuthor`, `PostModel.IsAuthorOf`), and a resolved author's for `create` and `replace` (`PostModel.Normalised`).
  
  `User` is not part of this model, so whether its `identity` is a typed property is not known. If it is untyped, `isAuthor` after a `loadAuthor` that found nobody would compare `null === null`; the model leaves that case out.
- `create` and `replace` reach `content`, `uuid`, `parent` and `link` only through `ModelBase::toArray`, and how it treats unset properties is not known. The model therefore requires `content` set for `create` (`PostModel.Insertable`), and `content` and `uuid` set for `replace` (`Posts.Post.Replace`). `Create` binds an unset `parent` or `link` as NULL (`PostModel.ColumnOfRef`).
- The `assert` on line 24 is modelled by the parameter type `string`. For `loadParent` and `loadLink` it is modelled by requiring the field to be set.
- An unset property and `null` are the same state for `parent`, `link` and `modified_time`, as `isset` sees them. A getter reading an unset `parent` or `link` would throw; the model returns "unset".
- Aliasing: a resolved parent, link or child is a value copy of the loaded post, not a shared mutable object. Changing it through a getter's result is not modelled.
- The fluent `return $this` of the loaders and setters is not modelled.
- String comparison in SQL is exact equality here. The store's collation (case or trailing-space insensitivity) is not modelled.
- The order of children with equal `created_time` is not specified by the query. The model keeps table order among them (`Store.SortNewestFirst` is a stable insertion sort), so `Posts.Post.LoadChildren` fixes that order; no lemma relies on it.
- PHP integers are 64-bit; timestamps are unbounded integers here.
