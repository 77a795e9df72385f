/**
 * Posts as values: the state of a Post object, what its SQL statements do
 * to the `posts` table, and what the resolve operations turn a reference
 * into. Class Posts.Post is specified by these functions; the lemmas here
 * state what the source promises about them.
 */
module PostModel {
  import opened Wrappers
  import opened Users
  import opened Store

  /** A `parent` or `link` field: unset or null, an identifier, or a post
      loaded by that identifier (held as its own copy). */
  datatype PostRef = NoPost | PostId(id: string) | PostObj(post: PostState)

  /** Every field of a Post object; `None` is an unset property or null. */
  datatype PostState = PostState(
    uuid: Option<string>,
    author: Option<UserRef>,
    content: Option<string>,
    createdTime: Option<int>,
    modifiedTime: Option<int>,
    parent: PostRef,
    link: PostRef,
    children: Option<seq<PostState>>)

  /** A `new Post()`: no property set. */
  function Blank(): PostState {
    PostState(None, None, None, None, None, NoPost, NoPost, None)
  }

  /** `isset($this->uuid)`. */
  predicate Ready(s: PostState) {
    s.uuid.Some?
  }

  /** `isset($this->parent) && isset($this->link)`. */
  predicate Conflict(s: PostState) {
    !s.parent.NoPost? && !s.link.NoPost?
  }

  // ----- columns and fields -----

  /** A nullable `parent`/`link` column read into a field. */
  function RefOfColumn(c: Option<string>): (r: PostRef)
    ensures r.PostObj? == false
  {
    match c
    case None => NoPost
    case Some(x) => PostId(x)
  }

  /** An unresolved `parent`/`link` field bound to its column. */
  function ColumnOfRef(r: PostRef): (c: Option<string>)
    requires !r.PostObj?
    ensures RefOfColumn(c) == r
  {
    match r
    case NoPost => None
    case PostId(x) => Some(x)
  }

  /** `fromArray` on a selected row: each selected column overwrites its field,
      with identifiers for `author`, `parent` and `link`. `withRelations` says
      whether `parent` and `link` were among the selected columns. */
  function Copy(s: PostState, row: Row, withRelations: bool): PostState {
    s.(uuid := Some(row.uuid),
       author := Some(UserId(row.author)),
       content := Some(row.content),
       createdTime := Some(row.createdTime),
       modifiedTime := row.modifiedTime,
       parent := if withRelations then RefOfColumn(row.parent) else s.parent,
       link := if withRelations then RefOfColumn(row.link) else s.link)
  }

  // ----- the statements Post sends -----

  /** The condition `uuid = ?`. */
  function HasUuid(id: string): Row -> bool {
    (r: Row) => r.uuid == id
  }

  /** `SELECT ... FROM posts WHERE uuid = ?`. */
  function SelectByUuid(rows: seq<Row>, id: string): seq<Row> {
    Filter(rows, HasUuid(id))
  }

  /** Row `i` is the only row whose uuid is `id`. */
  ghost predicate OnlyMatch(rows: seq<Row>, id: string, i: int) {
    UniqueAt(rows, HasUuid(id), i)
  }

  /** `load`: copy the row in only when the query returned exactly one. */
  function Loaded(s: PostState, rows: seq<Row>, id: string): (r: PostState)
    ensures r == s || (r.uuid == Some(id) && r.author.Some? && r.author.value.UserId?)
    ensures r.children == s.children
  {
    var result := SelectByUuid(rows, id);
    if |result| == 1 then Copy(s, result[0], true) else s
  }

  /** The identifier `create` and `replace` bind for the author. */
  function Normalised(a: UserRef): (r: UserRef)
    requires Identity(a).Some?
    ensures r.UserId? && Identity(r) == Identity(a)
    ensures a.UserId? ==> r == a
  {
    UserId(Identity(a).value)
  }

  /** The fields `create` binds to the statement. */
  predicate Insertable(s: PostState) {
    && s.author.Some? && Identity(s.author.value).Some?
    && s.content.Some?
    && !s.parent.PostObj? && !s.link.PostObj?
  }

  /** The row `INSERT INTO posts ... VALUES (UUID(), :author, :content,
      UNIX_TIMESTAMP(), :parent, :link)` adds; `id` and `now` are what the
      store generates. */
  function NewRow(s: PostState, id: string, now: int): (r: Row)
    requires Insertable(s)
    ensures r.uuid == id && r.createdTime == now && r.modifiedTime == None
    ensures Some(r.author) == Identity(s.author.value) && Some(r.content) == s.content
    ensures RefOfColumn(r.parent) == s.parent && RefOfColumn(r.link) == s.link
  {
    Row(id, Identity(s.author.value).value, s.content.value, now, None,
        ColumnOfRef(s.parent), ColumnOfRef(s.link))
  }

  /** `UPDATE posts SET content = ?, modified_time = UNIX_TIMESTAMP() WHERE uuid = ?`. */
  function Updated(rows: seq<Row>, id: string, content: string, now: int): (r: seq<Row>)
    ensures |r| == |rows|
    ensures forall i :: 0 <= i < |rows| && rows[i].uuid != id ==> r[i] == rows[i]
    ensures forall i :: 0 <= i < |rows| && rows[i].uuid == id ==>
              r[i] == rows[i].(content := content, modifiedTime := Some(now))
  {
    if rows == [] then []
    else
      var head := if rows[0].uuid == id
                  then rows[0].(content := content, modifiedTime := Some(now))
                  else rows[0];
      [head] + Updated(rows[1..], id, content, now)
  }

  /** `DELETE FROM posts WHERE uuid = ?`. */
  function Deleted(rows: seq<Row>, id: string): (r: seq<Row>)
    ensures forall x :: multiset(r)[x] == if x.uuid == id then 0 else multiset(rows)[x]
    ensures forall i :: 0 <= i < |r| ==> r[i].uuid != id
  {
    Filter(rows, (r: Row) => r.uuid != id)
  }

  /** `SELECT ... FROM posts WHERE parent = ? ORDER BY created_time DESC`. */
  function ChildRows(rows: seq<Row>, id: string): (r: seq<Row>)
    ensures forall x :: multiset(r)[x] == if x.parent == Some(id) then multiset(rows)[x] else 0
    ensures NewestFirst(r)
  {
    SortNewestFirst(Filter(rows, (r: Row) => r.parent == Some(id)))
  }

  // ----- resolution -----

  /** `loadAuthor` on the author field: an identity becomes the User loaded
      for it; a resolved User stays. */
  function ResolveUser(a: UserRef, find: UserLookup): (r: UserRef)
    ensures r.UserObj?
    ensures a.UserObj? ==> r == a
  {
    match a
    case UserObj(_) => a
    case UserId(x) => UserObj(find(x))
  }

  /** `loadParent`/`loadLink` on a set field: an identifier becomes a fresh
      post loaded by it; a resolved post stays. */
  function ResolvePost(p: PostRef, rows: seq<Row>): (r: PostRef)
    requires !p.NoPost?
    ensures r.PostObj?
    ensures p.PostObj? ==> r == p
  {
    match p
    case PostObj(_) => p
    case PostId(x) => PostObj(Loaded(Blank(), rows, x))
  }

  /** The post with its author resolved, as `loadAuthor` leaves it. */
  function WithAuthorResolved(s: PostState, find: UserLookup): PostState
    requires s.author.Some?
  {
    s.(author := Some(ResolveUser(s.author.value, find)))
  }

  /** One child as `loadChildren` builds it: a fresh post filled from the
      row (which has no `parent`/`link` column), its author resolved. */
  function Child(row: Row, find: UserLookup): (c: PostState)
    ensures c.uuid == Some(row.uuid) && c.content == Some(row.content)
    ensures c.createdTime == Some(row.createdTime) && c.modifiedTime == row.modifiedTime
    ensures c.author == Some(UserObj(find(row.author)))
    ensures c.parent == NoPost && c.link == NoPost && c.children == None
  {
    WithAuthorResolved(Copy(Blank(), row, false), find)
  }

  /** The `array_map` of `loadChildren`: one child per selected row. */
  function Hydrated(result: seq<Row>, find: UserLookup): (r: seq<PostState>)
    ensures |r| == |result|
    ensures forall i :: 0 <= i < |r| ==>
              && r[i].uuid == Some(result[i].uuid)
              && r[i].createdTime == Some(result[i].createdTime)
              && r[i].author == Some(UserObj(find(result[i].author)))
  {
    seq(|result|, i requires 0 <= i < |result| => Child(result[i], find))
  }

  /** The children `loadChildren` assigns. */
  function Children(rows: seq<Row>, id: string, find: UserLookup): (r: seq<PostState>)
    ensures |r| == |ChildRows(rows, id)|
    ensures forall i :: 0 <= i < |r| ==> r[i].author.Some? && r[i].author.value.UserObj?
  {
    Hydrated(ChildRows(rows, id), find)
  }

  /** `isAuthor`, on whichever form the author field holds. */
  function IsAuthorOf(a: UserRef, u: User): (r: bool)
    requires Identity(a).Some? && u.identity.Some?
    ensures r <==> Identity(a) == u.identity
  {
    match a
    case UserObj(v) => v.identity == u.identity
    case UserId(x) => x == u.identity.value
  }

  // ----- properties -----

  /** With exactly one row under the identifier, `load` copies exactly that row. */
  lemma LoadOnlyMatch(s: PostState, rows: seq<Row>, id: string, i: int)
    requires OnlyMatch(rows, id, i)
    ensures Loaded(s, rows, id) == Copy(s, rows[i], true)
    ensures Ready(Loaded(s, rows, id)) && Loaded(s, rows, id).uuid == Some(id)
  {
    FilterUnique(rows, HasUuid(id));
  }

  /** With no row or several rows under the identifier, `load` changes nothing. */
  lemma LoadNoSingleMatch(s: PostState, rows: seq<Row>, id: string)
    requires forall i :: !OnlyMatch(rows, id, i)
    ensures Loaded(s, rows, id) == s
  {
    forall i ensures !UniqueAt(rows, HasUuid(id), i) {
      assert !OnlyMatch(rows, id, i);
    }
    FilterUnique(rows, HasUuid(id));
  }

  /** Loading an identifier no row has leaves a fresh post unready. */
  lemma LoadMissing(rows: seq<Row>, id: string)
    requires forall i :: 0 <= i < |rows| ==> rows[i].uuid != id
    ensures !Ready(Loaded(Blank(), rows, id))
  {
    LoadNoSingleMatch(Blank(), rows, id);
  }

  /** Loading the same identifier again changes nothing (so `reload` right
      after a successful `load` is a no-op). */
  lemma LoadTwice(s: PostState, rows: seq<Row>, id: string)
    ensures Loaded(Loaded(s, rows, id), rows, id) == Loaded(s, rows, id)
  {
  }

  /** `create` then `load` by the generated identifier gives back the content,
      the author identity and the relations, unresolved. */
  lemma CreateThenLoad(s: PostState, rows: seq<Row>, id: string, now: int)
    requires Insertable(s)
    requires forall i :: 0 <= i < |rows| ==> rows[i].uuid != id
    ensures var t := Loaded(Blank(), rows + [NewRow(s, id, now)], id);
      && t.uuid == Some(id)
      && t.content == s.content
      && t.author == Some(Normalised(s.author.value))
      && t.parent == s.parent && t.link == s.link
      && t.createdTime == Some(now) && t.modifiedTime == None
  {
    var rows' := rows + [NewRow(s, id, now)];
    assert OnlyMatch(rows', id, |rows|);
    LoadOnlyMatch(Blank(), rows', id, |rows|);
  }

  /** When exactly one row has the uuid, loading the post after `replace`
      gives the new content and time, and its uuid, author, relations and
      conflict are as before. With zero or several such rows `load` keeps
      the old state instead. */
  lemma ReplaceThenLoad(s: PostState, rows: seq<Row>, id: string, content: string, now: int, i: int)
    requires OnlyMatch(rows, id, i)
    ensures var before, after := Loaded(s, rows, id), Loaded(s, Updated(rows, id, content, now), id);
      && after == before.(content := Some(content), modifiedTime := Some(now))
      && Conflict(after) == Conflict(before)
  {
    var rows' := Updated(rows, id, content, now);
    LoadOnlyMatch(s, rows, id, i);
    assert OnlyMatch(rows', id, i);
    LoadOnlyMatch(s, rows', id, i);
  }

  /** After `destroy`, loading the identifier finds nothing. */
  lemma DestroyThenLoad(s: PostState, rows: seq<Row>, id: string)
    ensures Loaded(s, Deleted(rows, id), id) == s
  {
    var rest := Deleted(rows, id);
    forall i | 0 <= i < |rest| ensures rest[i].uuid != id {
      assert rest[i] in rest;
    }
    LoadNoSingleMatch(s, rest, id);
  }

  /** `isAuthor` gives the same answer for an identity and for a resolved
      User carrying that identity. */
  lemma IsAuthorEitherForm(x: string, v: User, u: User)
    requires v.identity == Some(x) && u.identity.Some?
    ensures IsAuthorOf(UserId(x), u) == IsAuthorOf(UserObj(v), u) == (Some(x) == u.identity)
  {
  }

  /** The author normalisation of `create` and `replace` does not change
      who `isAuthor` accepts. */
  lemma NormalisedKeepsAuthorship(a: UserRef, u: User)
    requires Identity(a).Some? && u.identity.Some?
    ensures IsAuthorOf(Normalised(a), u) == IsAuthorOf(a, u)
  {
  }

  /** With a lookup that finds the users it is asked for, resolving the
      author keeps who `isAuthor` accepts unless the lookup found nobody. */
  lemma ResolveUserKeepsAuthorship(a: UserRef, find: UserLookup, u: User)
    requires Faithful(find)
    requires Identity(a).Some? && u.identity.Some?
    requires Identity(ResolveUser(a, find)).Some?
    ensures IsAuthorOf(ResolveUser(a, find), u) == IsAuthorOf(a, u)
  {
    if a.UserId? {
      assert find(a.id).identity.Some?;
    }
  }

  /** Resolving an identity gives the User the lookup yields for it. */
  lemma ResolveUserLooksUp(x: string, find: UserLookup)
    ensures ResolveUser(UserId(x), find) == UserObj(find(x))
  {
  }

  /** Resolving a post reference keeps its identifier whenever the load
      finds the post, and otherwise yields an unready fresh post. */
  lemma ResolvePostIdentity(x: string, rows: seq<Row>)
    ensures var p := ResolvePost(PostId(x), rows).post;
      && (p.uuid.Some? <==> exists i :: OnlyMatch(rows, x, i))
      && (p.uuid.Some? ==> p.uuid == Some(x) && p.author.Some? && p.author.value.UserId?)
      && (p.uuid.None? ==> p == Blank())
  {
    FilterUnique(rows, HasUuid(x));
    if |SelectByUuid(rows, x)| == 1 {
      assert SelectByUuid(rows, x)[0] in SelectByUuid(rows, x);
      var i :| UniqueAt(rows, HasUuid(x), i);
      assert OnlyMatch(rows, x, i);
    }
  }

  /** Resolving `parent` or `link` never changes whether the post is in conflict. */
  lemma ResolveKeepsConflict(s: PostState, rows: seq<Row>)
    ensures !s.parent.NoPost? ==> Conflict(s.(parent := ResolvePost(s.parent, rows))) == Conflict(s)
    ensures !s.link.NoPost? ==> Conflict(s.(link := ResolvePost(s.link, rows))) == Conflict(s)
  {
  }

  /** What `loadChildren` assigns: one post per row whose `parent` is `id`,
      counted with multiplicity, newest first, each filled from its row with
      its author resolved and no relations or children of its own. */
  lemma ChildrenShape(rows: seq<Row>, id: string, find: UserLookup)
    ensures var rs, cs := ChildRows(rows, id), Children(rows, id, find);
      && |cs| == |rs|
      && (forall x :: multiset(rs)[x] == if x.parent == Some(id) then multiset(rows)[x] else 0)
      && (forall i :: 0 <= i < |cs| ==>
            && cs[i].uuid == Some(rs[i].uuid)
            && cs[i].content == Some(rs[i].content)
            && cs[i].createdTime == Some(rs[i].createdTime)
            && cs[i].modifiedTime == rs[i].modifiedTime
            && cs[i].author == Some(UserObj(find(rs[i].author)))
            && cs[i].parent == NoPost && cs[i].link == NoPost
            && cs[i].children == None)
      && (forall i, j :: 0 <= i < j < |cs| ==> cs[i].createdTime.value >= cs[j].createdTime.value)
  {
    var rs := ChildRows(rows, id);
    assert NewestFirst(rs);
  }
}
