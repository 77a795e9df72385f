/**
 * The Post entity as the object it is: fields that its methods overwrite in
 * place, over a database handle whose `posts` table `replace` and `destroy`
 * change. Each method is specified by the functions of module PostModel.
 */
module Posts {
  import opened Wrappers
  import opened Users
  import opened Store
  import opened PostModel

  class Post {
    var uuid: Option<string>
    var author: Option<UserRef>
    var content: Option<string>
    var createdTime: Option<int>
    var modifiedTime: Option<int>
    var parent: PostRef
    var link: PostRef
    var children: Option<seq<PostState>>

    /** The object's fields as one value. */
    function State(): PostState
      reads this
    {
      PostState(uuid, author, content, createdTime, modifiedTime, parent, link, children)
    }

    /** `new Post()`: every property unset. */
    constructor ()
      ensures State() == Blank()
    {
      uuid, author, content := None, None, None;
      createdTime, modifiedTime := None, None;
      parent, link, children := NoPost, NoPost, None;
    }

    function CheckReady(): (r: bool)
      reads this
      ensures r <==> uuid.Some?
    {
      Ready(State())
    }

    /** `fromArray` with the columns a SELECT returned. */
    method FromArray(row: Row, withRelations: bool)
      modifies this
      ensures State() == Copy(old(State()), row, withRelations)
    {
      uuid, author, content := Some(row.uuid), Some(UserId(row.author)), Some(row.content);
      createdTime, modifiedTime := Some(row.createdTime), row.modifiedTime;
      if withRelations {
        parent, link := RefOfColumn(row.parent), RefOfColumn(row.link);
      }
    }

    /** Copies in the row whose uuid is `filter` when there is exactly one such
        row; with none or several, the object keeps every field. */
    method Load(db: Database, filter: string)
      modifies this
      ensures State() == Loaded(old(State()), db.rows, filter)
      ensures forall i :: OnlyMatch(db.rows, filter, i) ==> State() == Copy(old(State()), db.rows[i], true)
      ensures (forall i :: !OnlyMatch(db.rows, filter, i)) ==> State() == old(State())
    {
      var result := SelectByUuid(db.rows, filter);
      if |result| == 1 {
        FromArray(result[0], true);
      }
      forall i | OnlyMatch(db.rows, filter, i)
        ensures Loaded(old(State()), db.rows, filter) == Copy(old(State()), db.rows[i], true)
      {
        LoadOnlyMatch(old(State()), db.rows, filter, i);
      }
      if forall i :: !OnlyMatch(db.rows, filter, i) {
        LoadNoSingleMatch(old(State()), db.rows, filter);
      }
    }

    /** `load` again by the object's own uuid. */
    method Reload(db: Database)
      requires uuid.Some?
      modifies this
      ensures State() == Loaded(old(State()), db.rows, old(uuid).value)
      ensures uuid == old(uuid) && children == old(children)
    {
      Load(db, uuid.value);
    }

    /** Inserts a row for this post; `newId` and `now` are what `UUID()` and
        `UNIX_TIMESTAMP()` give, `executes` what the statement reports.
        The object keeps its (possibly unset) uuid. */
    method Create(db: Database, newId: string, now: int, executes: bool) returns (ok: bool)
      requires Insertable(State())
      requires forall i :: 0 <= i < |db.rows| ==> db.rows[i].uuid != newId
      modifies this, db
      ensures State() == old(State()).(author := Some(Normalised(old(author).value)))
      ensures CheckReady() == old(CheckReady())
      ensures ok == executes
      ensures db.rows == if executes then old(db.rows) + [NewRow(old(State()), newId, now)] else old(db.rows)
    {
      if author.value.UserObj? {
        author := Some(UserId(author.value.user.identity.value));
      }
      ok := executes;
      if executes {
        db.rows := db.rows + [NewRow(State(), newId, now)];
      }
    }

    /** Writes the content back to the row with this uuid and stamps its
        `modified_time`; the object's own `modifiedTime` is not touched. */
    method Replace(db: Database, now: int, executes: bool) returns (ok: bool)
      requires uuid.Some? && content.Some?
      requires author.Some? && Identity(author.value).Some?
      modifies this, db
      ensures State() == old(State()).(author := Some(Normalised(old(author).value)))
      ensures IsConflict() == old(IsConflict())
      ensures ok == executes
      ensures db.rows == if executes then Updated(old(db.rows), uuid.value, content.value, now) else old(db.rows)
    {
      if author.value.UserObj? {
        author := Some(UserId(author.value.user.identity.value));
      }
      ok := executes;
      if executes {
        db.rows := Updated(db.rows, uuid.value, content.value, now);
      }
    }

    /** Deletes the rows with this uuid; the object itself is left as it was. */
    method Destroy(db: Database, executes: bool) returns (ok: bool)
      requires uuid.Some?
      modifies db
      ensures ok == executes
      ensures db.rows == if executes then Deleted(old(db.rows), uuid.value) else old(db.rows)
    {
      ok := executes;
      if executes {
        db.rows := Deleted(db.rows, uuid.value);
      }
    }

    function IsAuthor(u: User): (r: bool)
      reads this
      requires author.Some? && Identity(author.value).Some? && u.identity.Some?
      ensures r <==> Identity(author.value) == u.identity
    {
      IsAuthorOf(author.value, u)
    }

    /** Resolves the author once: an identity is replaced by the User loaded
        for it, a resolved User is kept. */
    method LoadAuthor(db: Database)
      requires author.Some?
      modifies this
      ensures State() == WithAuthorResolved(old(State()), db.findUser)
    {
      if author.value.UserObj? {
        return;
      }
      var query := author.value.id;
      author := Some(UserObj(db.findUser(query)));
    }

    /** Resolves `parent` once: an identifier is replaced by a new post
        loaded by it, a resolved post is kept. */
    method LoadParent(db: Database)
      requires !parent.NoPost?
      modifies this
      ensures parent == ResolvePost(old(parent), db.rows)
      ensures State() == old(State()).(parent := parent)
    {
      if parent.PostObj? {
        return;
      }
      var query := parent.id;
      var post := new Post();
      post.Load(db, query);
      parent := PostObj(post.State());
    }

    /** Resolves `link` once, as `LoadParent` does for `parent`. */
    method LoadLink(db: Database)
      requires !link.NoPost?
      modifies this
      ensures link == ResolvePost(old(link), db.rows)
      ensures State() == old(State()).(link := link)
    {
      if link.PostObj? {
        return;
      }
      var query := link.id;
      var post := new Post();
      post.Load(db, query);
      link := PostObj(post.State());
    }

    /** Fills `children` once: when it is unset, with the posts whose parent
        is this uuid, newest first, each with its author resolved; when it is
        set (an empty sequence included), nothing changes. */
    method LoadChildren(db: Database)
      requires children.Some? || uuid.Some?
      modifies this
      ensures old(children).Some? ==> State() == old(State())
      ensures old(children).None? ==>
                State() == old(State()).(children := Some(Children(db.rows, old(uuid).value, db.findUser)))
    {
      if children.Some? {
        return;
      }
      var result := ChildRows(db.rows, uuid.value);
      var posts := HydrateAll(db, result);
      children := Some(posts);
    }

    function GetContent(): (r: string)
      reads this
      requires content.Some?
      ensures Some(r) == content
    {
      content.value
    }

    /** The parent in whichever form it is held; nothing is loaded. */
    function GetParent(): (r: PostRef)
      reads this
      ensures r == parent
    {
      parent
    }

    /** The link in whichever form it is held; nothing is loaded. */
    function GetLink(): (r: PostRef)
      reads this
      ensures r == link
    {
      link
    }

    function IsConflict(): (r: bool)
      reads this
      ensures r <==> !parent.NoPost? && !link.NoPost?
    {
      Conflict(State())
    }

    method SetContent(text: string)
      modifies this
      ensures State() == old(State()).(content := Some(text))
    {
      content := Some(text);
    }

    method SetAuthor(u: User)
      modifies this
      ensures State() == old(State()).(author := Some(UserObj(u)))
    {
      author := Some(UserObj(u));
    }
  }

  /** The closure `loadChildren` maps over the selected rows: a fresh post per
      row, filled from it, its author resolved. Existing objects are not touched. */
  method HydrateAll(db: Database, result: seq<Row>) returns (posts: seq<PostState>)
    ensures posts == Hydrated(result, db.findUser)
  {
    posts := [];
    for i := 0 to |result|
      invariant |posts| == i
      invariant forall k :: 0 <= k < i ==> posts[k] == Child(result[k], db.findUser)
    {
      var post := new Post();
      post.FromArray(result[i], false);
      post.LoadAuthor(db);
      posts := posts + [post.State()];
    }
  }
}
