/** PostServiceImpl: the post and tag bookkeeping over two tables, the posts
    keyed by id and the tags keyed by name (the lookup TagRepository.findByName
    performs). The pure part (tag-name normalisation, get-or-create, the DTO
    projection) comes first; the class PostService holds the tables and its
    methods change them as the service's save and delete calls do. */
module PostServiceImpl {
  import opened Text
  import opened Entities
  import opened PostRepository

  // ---------------------------------------------------------------------
  // Tag names
  // ---------------------------------------------------------------------

  /** tagName.trim().isEmpty() */
  predicate IsBlank(s: string) {
    Trim(s) == []
  }

  /** A name as the service stores it: not blank, and neither starting nor
      ending with space, so that Trim leaves it alone (TrimFixesTrimmed). */
  predicate IsTagName(s: string) {
    s != [] && !IsSpace(s[0]) && !IsSpace(s[|s| - 1])
  }

  /** One entry of the input list: nothing when null or blank, its trimmed
      name otherwise. */
  function NormalizeEntry(x: Option<string>): (names: seq<string>)
    ensures |names| <= 1
    ensures names != [] <==> x.Some? && !IsBlank(x.value)
    ensures names != [] ==> names[0] == Trim(x.value) && IsTagName(names[0])
  {
    if x.Some? && !IsBlank(x.value) then [Trim(x.value)] else []
  }

  /** The names createPost and updatePost attach, in input order: null and
      blank entries are skipped and the rest are trimmed. */
  function NormalizeTagNames(raw: seq<Option<string>>): (names: seq<string>)
    ensures |names| <= |raw|
  {
    if raw == [] then []
    else NormalizeTagNames(raw[..|raw| - 1]) + NormalizeEntry(raw[|raw| - 1])
  }

  /** Every name normalisation yields is in stored form. */
  lemma {:induction false} NormalizedAreTagNames(raw: seq<Option<string>>)
    ensures forall k :: 0 <= k < |NormalizeTagNames(raw)| ==> IsTagName(NormalizeTagNames(raw)[k])
  {
    if raw != [] {
      NormalizedAreTagNames(raw[..|raw| - 1]);
    }
  }

  /** A list of one entry normalises as that entry does. */
  lemma NormalizeTagNamesSingle(x: Option<string>)
    ensures NormalizeTagNames([x]) == NormalizeEntry(x)
  {
    assert [x][..0] == [];
  }

  /** Appending one entry appends its normalised form. */
  lemma NormalizeTagNamesSnoc(raw: seq<Option<string>>, x: Option<string>)
    ensures NormalizeTagNames(raw + [x]) == NormalizeTagNames(raw) + NormalizeEntry(x)
  {
    assert (raw + [x])[..|raw|] == raw;
  }

  /** Normalisation works entry by entry: together with NormalizeTagNamesSingle
      this says the result is exactly the trimmed non-null, non-blank entries,
      in input order. */
  lemma {:induction false} NormalizeTagNamesConcat(a: seq<Option<string>>, b: seq<Option<string>>)
    ensures NormalizeTagNames(a + b) == NormalizeTagNames(a) + NormalizeTagNames(b)
    decreases |b|
  {
    if b == [] {
      assert a + b == a;
    } else {
      var init, last := b[..|b| - 1], b[|b| - 1];
      SplitLast(b);
      AppendAssoc(a, init, [last]);
      NormalizeTagNamesSnoc(a + init, last);
      NormalizeTagNamesSnoc(init, last);
      NormalizeTagNamesConcat(a, init);
      AppendAssoc(NormalizeTagNames(a), NormalizeTagNames(init), NormalizeEntry(last));
    }
  }

  /** A list of names sent as input, none of them null. */
  function AsInput(names: seq<string>): (raw: seq<Option<string>>)
    ensures |raw| == |names|
    ensures forall k :: 0 <= k < |names| ==> raw[k] == Some(names[k])
  {
    if names == [] then [] else AsInput(names[..|names| - 1]) + [Some(names[|names| - 1])]
  }

  /** Names that are already trimmed and non-blank come back unchanged: sending
      a post's DTO tag list back in an update attaches the same names. */
  lemma {:induction false} NormalizeTagNamesFixesNames(names: seq<string>)
    requires forall k :: 0 <= k < |names| ==> IsTagName(names[k])
    ensures NormalizeTagNames(AsInput(names)) == names
    decreases |names|
  {
    if names != [] {
      var init, last := names[..|names| - 1], names[|names| - 1];
      SplitLast(names);
      assert IsTagName(last);
      TrimFixesTrimmed(last);
      assert NormalizeEntry(Some(last)) == [last];
      NormalizeTagNamesSnoc(AsInput(init), Some(last));
      NormalizeTagNamesFixesNames(init);
    }
  }

  // ---------------------------------------------------------------------
  // Get-or-create over the tag table
  // ---------------------------------------------------------------------

  /** The tag table is keyed by name, holds only stored-form names and gives
      every tag its own id below the next one to hand out. */
  ghost predicate TagTableValid(tags: map<string, Tag>, nextTagId: Id) {
    && 1 <= nextTagId
    && (forall n :: n in tags ==> tags[n].name == n && IsTagName(n) && 1 <= tags[n].id < nextTagId)
    && (forall n, m :: n in tags && m in tags && n != m ==> tags[n].id != tags[m].id)
  }

  /** Every tag of `tags` is still in `tags'`, unchanged. */
  ghost predicate Extends(tags: map<string, Tag>, tags': map<string, Tag>) {
    forall n :: n in tags ==> n in tags' && tags'[n] == tags[n]
  }

  datatype TagLookup = TagLookup(tag: Tag, tags: map<string, Tag>, nextTagId: Id)

  /** getOrCreateTag: the tag stored under `name`, or a new tag with the next
      id, stamped `now`, added to the table. */
  function GetOrCreate(tags: map<string, Tag>, nextTagId: Id, name: string, now: Timestamp): (r: TagLookup)
    ensures r.tags.Keys == tags.Keys + {name} && Extends(tags, r.tags)
    ensures name in r.tags && r.tag == r.tags[name]
    ensures name in tags ==> r.tags == tags && r.nextTagId == nextTagId
    ensures name !in tags ==>
      && r.tag.name == name && r.tag.id == nextTagId
      && r.tag.createdAt == now && r.tag.updatedAt == now
      && r.nextTagId == nextTagId + 1
    ensures TagTableValid(tags, nextTagId) && IsTagName(name) ==> TagTableValid(r.tags, r.nextTagId)
  {
    if name in tags then
      TagLookup(tags[name], tags, nextTagId)
    else
      var tag := Tag(nextTagId, name, now, now);
      TagLookup(tag, tags[name := tag], nextTagId + 1)
  }

  /** A second get-or-create of the same name, at any later time, returns the
      same tag and adds nothing. */
  lemma GetOrCreateIdempotent(tags: map<string, Tag>, nextTagId: Id, name: string, now: Timestamp, later: Timestamp)
    ensures var r := GetOrCreate(tags, nextTagId, name, now);
      GetOrCreate(r.tags, r.nextTagId, name, later) == r
  {
  }

  datatype TagsResolved = TagsResolved(list: seq<Tag>, tags: map<string, Tag>, nextTagId: Id)

  /** The loop of createPost and updatePost over names already normalised:
      get-or-create for each name in turn, collecting the tags. */
  function ResolveTags(tags: map<string, Tag>, nextTagId: Id, names: seq<string>, now: Timestamp): (r: TagsResolved)
    ensures |r.list| == |names|
    ensures forall k :: 0 <= k < |names| ==> names[k] in r.tags && r.list[k] == r.tags[names[k]]
    ensures r.tags.Keys == tags.Keys + (set n | n in names)
    ensures Extends(tags, r.tags)
    ensures nextTagId <= r.nextTagId
  {
    if names == [] then TagsResolved([], tags, nextTagId)
    else
      var init, last := names[..|names| - 1], names[|names| - 1];
      assert names == init + [last];
      var done := ResolveTags(tags, nextTagId, init, now);
      var one := GetOrCreate(done.tags, done.nextTagId, last, now);
      TagsResolved(done.list + [one.tag], one.tags, one.nextTagId)
  }

  /** Over a valid table and stored-form names, resolving keeps the table
      valid and yields tags carrying exactly those names, in order. */
  lemma {:induction false} ResolveTagsValid(tags: map<string, Tag>, nextTagId: Id, names: seq<string>, now: Timestamp)
    requires TagTableValid(tags, nextTagId)
    requires forall k :: 0 <= k < |names| ==> IsTagName(names[k])
    ensures var r := ResolveTags(tags, nextTagId, names, now);
      TagTableValid(r.tags, r.nextTagId) && NamesOf(r.list) == names
  {
    if names != [] {
      var init, last := names[..|names| - 1], names[|names| - 1];
      ResolveTagsValid(tags, nextTagId, init, now);
      var done := ResolveTags(tags, nextTagId, init, now);
      var r := ResolveTags(tags, nextTagId, names, now);
      assert r.list == done.list + [r.list[|r.list| - 1]];
      SplitLast(names);
    }
  }

  lemma NormalizeNextEntry(raw: seq<Option<string>>, i: nat)
    requires i < |raw|
    ensures NormalizeTagNames(raw[..i + 1]) ==
      if raw[i].Some? && !IsBlank(raw[i].value) then NormalizeTagNames(raw[..i]) + [Trim(raw[i].value)]
      else NormalizeTagNames(raw[..i])
  {
    assert raw[..i + 1][..i] == raw[..i];
  }

  lemma ResolveNextName(tags: map<string, Tag>, nextTagId: Id, names: seq<string>, name: string, now: Timestamp)
    ensures var done := ResolveTags(tags, nextTagId, names, now);
      var one := GetOrCreate(done.tags, done.nextTagId, name, now);
      ResolveTags(tags, nextTagId, names + [name], now) == TagsResolved(done.list + [one.tag], one.tags, one.nextTagId)
  {
    assert (names + [name])[..|names|] == names;
  }

  /** One more raw entry: resolved on top of what the earlier entries left. */
  lemma ResolveNextEntry(tags: map<string, Tag>, nextTagId: Id, raw: seq<Option<string>>, i: nat, now: Timestamp)
    requires i < |raw|
    ensures var done := ResolveTags(tags, nextTagId, NormalizeTagNames(raw[..i]), now);
      ResolveTags(tags, nextTagId, NormalizeTagNames(raw[..i + 1]), now) ==
        if raw[i].Some? && !IsBlank(raw[i].value) then
          var one := GetOrCreate(done.tags, done.nextTagId, Trim(raw[i].value), now);
          TagsResolved(done.list + [one.tag], one.tags, one.nextTagId)
        else done
  {
    NormalizeNextEntry(raw, i);
    if raw[i].Some? && !IsBlank(raw[i].value) {
      ResolveNextName(tags, nextTagId, NormalizeTagNames(raw[..i]), Trim(raw[i].value), now);
    }
  }

  /** Resolving names that are all stored creates nothing. */
  lemma {:induction false} ResolveStoredNames(tags: map<string, Tag>, nextTagId: Id, names: seq<string>, now: Timestamp)
    requires forall k :: 0 <= k < |names| ==> names[k] in tags
    ensures ResolveTags(tags, nextTagId, names, now).tags == tags
    ensures ResolveTags(tags, nextTagId, names, now).nextTagId == nextTagId
    decreases |names|
  {
    if names != [] {
      ResolveStoredNames(tags, nextTagId, names[..|names| - 1], now);
    }
  }

  /** Resolving the same names twice never creates a second tag of any name:
      the second pass returns the same tags and leaves the table alone. */
  lemma ResolveTagsIdempotent(tags: map<string, Tag>, nextTagId: Id, names: seq<string>, now: Timestamp, later: Timestamp)
    ensures var r := ResolveTags(tags, nextTagId, names, now);
      ResolveTags(r.tags, r.nextTagId, names, later) == r
  {
    var r := ResolveTags(tags, nextTagId, names, now);
    ResolveStoredNames(r.tags, r.nextTagId, names, later);
  }

  // ---------------------------------------------------------------------
  // Projection to PostDto
  // ---------------------------------------------------------------------

  /** convertToDto: every scalar field copied, the tags replaced by their
      names in list order, a null tag list giving no names. */
  function ToDto(p: Post): (d: PostDto)
    ensures d.id == p.id && d.title == p.title && d.excerpt == p.excerpt && d.content == p.content
    ensures d.author == p.author && d.publishedAt == p.publishedAt && d.isPublished == p.published
    ensures d.createdAt == p.createdAt && d.updatedAt == p.updatedAt
    ensures p.tags.None? ==> d.tags == []
    ensures p.tags.Some? ==> |d.tags| == |p.tags.value| && forall k :: 0 <= k < |d.tags| ==> d.tags[k] == p.tags.value[k].name
  {
    PostDto(p.id, p.title, p.excerpt, p.content, p.author, p.publishedAt, p.published,
            p.createdAt, p.updatedAt, if p.tags.Some? then NamesOf(p.tags.value) else [])
  }

  /** The list operations: one DTO per store result, in the same order. */
  function ToDtos(ps: seq<Post>): (ds: seq<PostDto>)
    ensures |ds| == |ps|
    ensures forall k :: 0 <= k < |ps| ==> ds[k] == ToDto(ps[k])
  {
    if ps == [] then [] else ToDtos(ps[..|ps| - 1]) + [ToDto(ps[|ps| - 1])]
  }

  /** Each tag of the post is the one the tag table stores under its name. */
  ghost predicate TagsStored(p: Post, tags: map<string, Tag>) {
    p.tags.Some? ==> forall t :: t in p.tags.value ==> t.name in tags && tags[t.name] == t
  }

  /** Two posts whose tags are stored never carry two different tags of one
      name: a name stands for one shared tag. */
  lemma SharedTags(p: Post, q: Post, tags: map<string, Tag>, t: Tag, u: Tag)
    requires TagsStored(p, tags) && TagsStored(q, tags)
    requires p.tags.Some? && t in p.tags.value && q.tags.Some? && u in q.tags.value
    requires t.name == u.name
    ensures t == u
  {
  }

  /** The DTO of a post whose tags are stored lists names that normalisation
      keeps as they are. */
  lemma DtoTagsRoundTrip(p: Post, tags: map<string, Tag>, nextTagId: Id)
    requires TagTableValid(tags, nextTagId) && TagsStored(p, tags)
    ensures NormalizeTagNames(AsInput(ToDto(p).tags)) == ToDto(p).tags
  {
    var names := ToDto(p).tags;
    if p.tags.Some? {
      forall k | 0 <= k < |names| ensures IsTagName(names[k]) {
        assert p.tags.value[k] in p.tags.value;
      }
    }
    NormalizeTagNamesFixesNames(names);
  }

  /** Rows that hold each post at most once hold no element twice. */
  lemma {:induction false} OnceEach(q: seq<Post>)
    requires forall p :: multiset(q)[p] <= 1
    ensures forall i, j :: 0 <= i < j < |q| ==> q[i] != q[j]
  {
    if q != [] {
      var init, last := q[..|q| - 1], q[|q| - 1];
      SplitLast(q);
      assert forall p :: multiset(init)[p] <= multiset(q)[p];
      OnceEach(init);
      assert multiset(init)[last] == 0;
    }
  }

  /** A filtered query holds exactly the selected rows. */
  lemma FilteredMembers(rows: seq<Post>, q: seq<Post>, keep: Post -> bool)
    requires forall p :: multiset(q)[p] == if keep(p) then multiset(rows)[p] else 0
    ensures forall p :: p in q <==> keep(p) && p in rows
  {
    forall p ensures p in q <==> keep(p) && p in rows {
      assert p in q <==> multiset(q)[p] > 0;
      assert p in rows <==> multiset(rows)[p] > 0;
    }
  }

  /** The DTOs of the posts of a table that `keep` selects. */
  lemma DtosOfSelected(posts: map<Id, Post>, q: seq<Post>, keep: Post -> bool)
    requires forall p :: p in q <==> keep(p) && p.id in posts && posts[p.id] == p
    requires forall id :: id in posts ==> posts[id].id == id
    ensures forall d :: d in ToDtos(q) <==> exists id :: id in posts && keep(posts[id]) && d == ToDto(posts[id])
  {
    var r := ToDtos(q);
    forall d | d in r ensures exists id :: id in posts && keep(posts[id]) && d == ToDto(posts[id]) {
      var k :| 0 <= k < |r| && r[k] == d;
      assert q[k] in q;
    }
    forall id | id in posts && keep(posts[id]) ensures ToDto(posts[id]) in r {
      assert posts[id] in q;
      var k :| 0 <= k < |q| && q[k] == posts[id];
      assert r[k] == ToDto(posts[id]);
    }
  }

  /** Distinct rows of a table keyed by id have distinct DTO ids. */
  lemma DistinctDtoIds(posts: map<Id, Post>, q: seq<Post>)
    requires forall p :: p in q ==> p.id in posts && posts[p.id] == p
    requires forall p :: multiset(q)[p] <= 1
    ensures forall i, j :: 0 <= i < j < |q| ==> ToDtos(q)[i].id != ToDtos(q)[j].id
  {
    OnceEach(q);
    forall i, j | 0 <= i < j < |q| ensures ToDtos(q)[i].id != ToDtos(q)[j].id {
      assert q[i] in q && q[j] in q;
    }
  }

  /** What a list operation over a filtered query shows of a post table: the
      DTOs of exactly the posts `keep` selects, no post twice. */
  lemma ListingOfTable(posts: map<Id, Post>, rows: seq<Post>, q: seq<Post>, keep: Post -> bool)
    requires forall id :: id in posts ==> posts[id].id == id
    requires forall p :: p in rows <==> p.id in posts && posts[p.id] == p
    requires forall p :: multiset(rows)[p] <= 1
    requires forall p :: multiset(q)[p] == if keep(p) then multiset(rows)[p] else 0
    ensures forall d :: d in ToDtos(q) <==> exists id :: id in posts && keep(posts[id]) && d == ToDto(posts[id])
    ensures forall i, j :: 0 <= i < j < |q| ==> ToDtos(q)[i].id != ToDtos(q)[j].id
  {
    FilteredMembers(rows, q, keep);
    DtosOfSelected(posts, q, keep);
    assert forall p :: multiset(q)[p] <= 1;
    DistinctDtoIds(posts, q);
  }

  /** The two tables together: posts keyed by id below the next id, a valid
      tag table, and every tag a post carries stored in the tag table. */
  ghost predicate TablesValid(posts: map<Id, Post>, tags: map<string, Tag>, nextPostId: Id, nextTagId: Id) {
    && 1 <= nextPostId
    && (forall id :: id in posts ==> posts[id].id == id && 1 <= id < nextPostId)
    && TagTableValid(tags, nextTagId)
    && (forall id :: id in posts ==> TagsStored(posts[id], tags))
  }

  /** Saving a post whose tags are stored, under its own id, keeps the tables valid. */
  lemma SavePostKeepsValid(posts: map<Id, Post>, tags: map<string, Tag>, nextPostId: Id, nextTagId: Id, p: Post)
    requires TablesValid(posts, tags, nextPostId, nextTagId)
    requires 1 <= p.id < nextPostId && TagsStored(p, tags)
    ensures TablesValid(posts[p.id := p], tags, nextPostId, nextTagId)
  {
  }

  /** Inserting a post whose tags are stored under the next id keeps the
      tables valid once the next id moves on. */
  lemma InsertPostKeepsValid(posts: map<Id, Post>, tags: map<string, Tag>, nextPostId: Id, nextTagId: Id, p: Post)
    requires TablesValid(posts, tags, nextPostId, nextTagId)
    requires p.id == nextPostId && TagsStored(p, tags)
    ensures TablesValid(posts[p.id := p], tags, nextPostId + 1, nextTagId)
  {
  }

  /** Removing posts keeps the tables valid. */
  lemma RemovePostsKeepsValid(posts: map<Id, Post>, tags: map<string, Tag>, nextPostId: Id, nextTagId: Id, ids: set<Id>)
    requires TablesValid(posts, tags, nextPostId, nextTagId)
    ensures TablesValid(posts - ids, tags, nextPostId, nextTagId)
  {
  }

  /** The ids of the posts whose author is exactly `author`. */
  function AuthoredBy(posts: map<Id, Post>, author: string): (ids: set<Id>)
    ensures forall id :: id in ids <==> id in posts && posts[id].author == author
  {
    set id | id in posts && posts[id].author == author
  }

  /** The ids of a sequence of posts. */
  function IdsOf(ps: seq<Post>): set<Id> {
    if ps == [] then {} else IdsOf(ps[..|ps| - 1]) + {ps[|ps| - 1].id}
  }

  lemma {:induction false} IdsOfMembers(ps: seq<Post>)
    ensures forall id :: id in IdsOf(ps) <==> exists p :: p in ps && p.id == id
  {
    if ps != [] {
      var init, last := ps[..|ps| - 1], ps[|ps| - 1];
      SplitLast(ps);
      IdsOfMembers(init);
    }
  }

  lemma IdsOfStep(ps: seq<Post>, i: nat)
    requires i < |ps|
    ensures IdsOf(ps[..i + 1]) == IdsOf(ps[..i]) + {ps[i].id}
  {
    assert ps[..i + 1][..i] == ps[..i];
  }

  /** The author's posts found by the repository are exactly the ids AuthoredBy names. */
  lemma VictimsAreAuthored(posts: map<Id, Post>, author: string, victims: seq<Post>)
    requires forall id :: id in posts ==> posts[id].id == id
    requires forall p :: p in victims <==> p.author == author && p.id in posts && posts[p.id] == p
    ensures IdsOf(victims) == AuthoredBy(posts, author)
  {
    IdsOfMembers(victims);
    forall id | id in AuthoredBy(posts, author) ensures id in IdsOf(victims) {
      assert posts[id] in victims;
    }
    forall id | id in IdsOf(victims) ensures id in AuthoredBy(posts, author) {
      var p :| p in victims && p.id == id;
    }
  }

  /** findByAuthorOrderByCreatedAtDesc over the whole table finds exactly the
      posts AuthoredBy names. */
  lemma FoundByAuthor(posts: map<Id, Post>, n: nat, author: string)
    requires forall id :: id in posts ==> posts[id].id == id && 0 <= id < n
    ensures IdsOf(FindByAuthorOrderByCreatedAtDesc(RowsBelow(posts, n), author)) == AuthoredBy(posts, author)
  {
    var rows := RowsBelow(posts, n);
    var victims := FindByAuthorOrderByCreatedAtDesc(rows, author);
    FilteredMembers(rows, victims, (p: Post) => p.author == author);
    assert forall p :: p in victims <==> p.author == author && p.id in posts && posts[p.id] == p;
    VictimsAreAuthored(posts, author, victims);
  }

  /** Growing the tag table keeps the tables valid. */
  lemma GrowTagsKeepsValid(posts: map<Id, Post>, tags: map<string, Tag>, nextPostId: Id, nextTagId: Id,
                           tags': map<string, Tag>, nextTagId': Id)
    requires TablesValid(posts, tags, nextPostId, nextTagId)
    requires TagTableValid(tags', nextTagId') && Extends(tags, tags')
    ensures TablesValid(posts, tags', nextPostId, nextTagId')
  {
    forall id | id in posts ensures TagsStored(posts[id], tags') {
      assert TagsStored(posts[id], tags);
    }
  }

  // ---------------------------------------------------------------------
  // The service over its two tables
  // ---------------------------------------------------------------------

  class PostService {
    /** The post table (PostRepository), keyed by id. */
    var posts: map<Id, Post>
    /** The tag table (TagRepository), keyed by name. */
    var tags: map<string, Tag>
    /** The ids the store hands out next. */
    var nextPostId: Id
    var nextTagId: Id

    ghost predicate Valid()
      reads this
    {
      TablesValid(posts, tags, nextPostId, nextTagId)
    }

    /** An empty store. */
    constructor ()
      ensures Valid()
      ensures posts == map[] && tags == map[]
    {
      posts := map[];
      tags := map[];
      nextPostId := 1;
      nextTagId := 1;
    }

    /** The post table as findAll returns it: ascending ids. */
    function Rows(): (rows: seq<Post>)
      reads this
      requires Valid()
      ensures forall p :: p in rows <==> p.id in posts && posts[p.id] == p
      ensures forall p :: multiset(rows)[p] <= 1
      ensures IdsAscending(rows)
    {
      var rows := RowsBelow(posts, nextPostId);
      AscendingRowsAreDistinct(rows);
      rows
    }

    /** getPostById */
    function GetPostById(id: Id): (r: Result<PostDto>)
      reads this
      requires Valid()
      ensures r.Ok? <==> id in posts
      ensures r.Ok? ==> r.value.id == id && r.value == ToDto(posts[id])
      ensures r.Err? ==> r.error == PostNotFound(id)
    {
      if id in posts then Ok(ToDto(posts[id])) else Err(PostNotFound(id))
    }

    /** getAllPosts: every post once, in ascending id order. */
    function GetAllPosts(): (r: seq<PostDto>)
      reads this
      requires Valid()
      ensures forall d :: d in r <==> exists id :: id in posts && d == ToDto(posts[id])
      ensures forall i, j :: 0 <= i < j < |r| ==> r[i].id < r[j].id
    {
      var rows := Rows();
      ListingOfTable(posts, rows, rows, (p: Post) => true);
      ToDtos(rows)
    }

    /** getPostsByAuthor */
    function GetPostsByAuthor(author: string): (r: seq<PostDto>)
      reads this
      requires Valid()
      ensures forall d :: d in r <==> exists id :: id in posts && posts[id].author == author && d == ToDto(posts[id])
      ensures forall i, j :: 0 <= i < j < |r| ==> r[i].createdAt >= r[j].createdAt && r[i].id != r[j].id
    {
      var q := FindByAuthorOrderByCreatedAtDesc(Rows(), author);
      ListingOfTable(posts, Rows(), q, (p: Post) => p.author == author);
      ToDtos(q)
    }

    /** getPublishedPosts */
    function GetPublishedPosts(): (r: seq<PostDto>)
      reads this
      requires Valid()
      ensures forall d :: d in r <==> exists id :: id in posts && posts[id].published && d == ToDto(posts[id])
      ensures forall i, j :: 0 <= i < j < |r| ==> r[i].createdAt >= r[j].createdAt && r[i].id != r[j].id
    {
      var q := FindByIsPublishedTrueOrderByCreatedAtDesc(Rows());
      ListingOfTable(posts, Rows(), q, (p: Post) => p.published);
      ToDtos(q)
    }

    /** searchPosts */
    function SearchPosts(keyword: string): (r: seq<PostDto>)
      reads this
      requires Valid()
      ensures forall d :: d in r <==> exists id :: id in posts && MentionsKeyword(posts[id], keyword) && d == ToDto(posts[id])
      ensures forall i, j :: 0 <= i < j < |r| ==> r[i].createdAt >= r[j].createdAt && r[i].id != r[j].id
    {
      var q := SearchByKeyword(Rows(), keyword);
      ListingOfTable(posts, Rows(), q, (p: Post) => MentionsKeyword(p, keyword));
      ToDtos(q)
    }

    /** getPostsByTag: the posts carrying a tag of that name, newest first. */
    function GetPostsByTag(tag: string): (r: seq<PostDto>)
      reads this
      requires Valid()
      ensures forall d :: d in r <==> exists id :: id in posts && HasTagNamed(posts[id], tag) && d == ToDto(posts[id])
      ensures forall i, j :: 0 <= i < j < |r| ==> r[i].createdAt >= r[j].createdAt
    {
      var q := FindByTagOrderByCreatedAtDesc(Rows(), tag);
      DtosOfSelected(posts, q, (p: Post) => HasTagNamed(p, tag));
      ToDtos(q)
    }

    /** getAllTags: the name of every tag some post carries, once each. */
    function GetAllTags(): (names: seq<string>)
      reads this
      requires Valid()
      ensures NoDuplicates(names)
      ensures forall n :: n in names <==> exists id :: id in posts && HasTagNamed(posts[id], n)
    {
      var rows := Rows();
      var names := FindAllTags(rows);
      assert forall n :: n in names ==> exists id :: id in posts && HasTagNamed(posts[id], n) by {
        forall n | n in names ensures exists id :: id in posts && HasTagNamed(posts[id], n) {
          var p :| p in rows && HasTagNamed(p, n);
          assert posts[p.id] == p;
        }
      }
      assert forall n :: (exists id :: id in posts && HasTagNamed(posts[id], n)) ==> n in names by {
        forall n | exists id :: id in posts && HasTagNamed(posts[id], n) ensures n in names {
          var id :| id in posts && HasTagNamed(posts[id], n);
          assert posts[id] in rows;
        }
      }
      names
    }

    /** getOrCreateTag, for the trimmed, non-blank names its callers pass. */
    method GetOrCreateTag(name: string, now: Timestamp) returns (tag: Tag)
      requires Valid() && IsTagName(name)
      modifies this
      ensures Valid()
      ensures posts == old(posts) && nextPostId == old(nextPostId)
      ensures var r := GetOrCreate(old(tags), old(nextTagId), name, now);
        tag == r.tag && tags == r.tags && nextTagId == r.nextTagId
    {
      if name in tags {
        tag := tags[name];
        return;
      }
      tag := Tag(nextTagId, name, now, now);
      GrowTagsKeepsValid(posts, tags, nextPostId, nextTagId, tags[name := tag], nextTagId + 1);
      tags := tags[name := tag];
      nextTagId := nextTagId + 1;
    }

    /** The loop createPost and updatePost share: skip null and blank names,
        trim the rest, get or create each tag and collect it. */
    method CollectTags(raw: seq<Option<string>>, now: Timestamp) returns (list: seq<Tag>)
      requires Valid()
      modifies this
      ensures Valid()
      ensures posts == old(posts) && nextPostId == old(nextPostId)
      ensures var r := ResolveTags(old(tags), old(nextTagId), NormalizeTagNames(raw), now);
        list == r.list && tags == r.tags && nextTagId == r.nextTagId
      ensures forall t :: t in list ==> t.name in tags && tags[t.name] == t
    {
      list := [];
      for i := 0 to |raw|
        invariant Valid()
        invariant posts == old(posts) && nextPostId == old(nextPostId)
        invariant var r := ResolveTags(old(tags), old(nextTagId), NormalizeTagNames(raw[..i]), now);
          list == r.list && tags == r.tags && nextTagId == r.nextTagId
      {
        ResolveNextEntry(old(tags), old(nextTagId), raw, i, now);
        var entry := raw[i];
        if entry.Some? && !IsBlank(entry.value) {
          var name := Trim(entry.value);
          var tag := GetOrCreateTag(name, now);
          list := list + [tag];
        }
      }
      assert raw[..|raw|] == raw;
      forall t | t in list ensures t.name in tags && tags[t.name] == t {
        var k :| 0 <= k < |list| && list[k] == t;
      }
    }

    /** createPost: the new post takes the next id, is stamped `now` for
        createdAt and updatedAt (and publishedAt when published), and carries
        the tags of its normalised names when the input lists any names. */
    method CreatePost(input: PostInput, now: Timestamp) returns (dto: PostDto)
      requires Valid()
      modifies this
      ensures Valid()
      ensures var id := old(nextPostId);
        var attach := input.tags.Some? && input.tags.value != [];
        var r := ResolveTags(old(tags), old(nextTagId), if attach then NormalizeTagNames(input.tags.value) else [], now);
        var created := Post(id, input.title, input.excerpt, input.content, input.author, input.isPublished,
                            if input.isPublished then Some(now) else None, now, now,
                            if attach then Some(r.list) else None);
        && id !in old(posts)
        && posts == old(posts)[id := created] && nextPostId == id + 1
        && tags == r.tags && nextTagId == r.nextTagId
        && dto == ToDto(created)
      ensures dto.tags == if input.tags.Some? && input.tags.value != [] then NormalizeTagNames(input.tags.value) else []
      ensures dto.createdAt == now && dto.updatedAt == now
      ensures dto.isPublished == input.isPublished
      ensures dto.publishedAt == if input.isPublished then Some(now) else None
    {
      ghost var attach := input.tags.Some? && input.tags.value != [];
      ghost var res := ResolveTags(tags, nextTagId, if attach then NormalizeTagNames(input.tags.value) else [], now);
      var post := Post(0, input.title, input.excerpt, input.content, input.author, input.isPublished, None, now, now, None);
      if input.isPublished {
        post := post.(publishedAt := Some(now));
      }
      if input.tags.Some? && input.tags.value != [] {
        NormalizedAreTagNames(input.tags.value);
        ResolveTagsValid(tags, nextTagId, NormalizeTagNames(input.tags.value), now);
        var list := CollectTags(input.tags.value, now);
        post := post.(tags := Some(list));
      }
      assert tags == res.tags && nextTagId == res.nextTagId;
      assert post.tags == if attach then Some(res.list) else None;
      // save: the store assigns the next id
      post := post.(id := nextPostId);
      InsertPostKeepsValid(posts, tags, nextPostId, nextTagId, post);
      posts := posts[nextPostId := post];
      nextPostId := nextPostId + 1;
      dto := ToDto(post);
    }

    /** updatePost: overwrites title, excerpt, content, author and the
        published flag; replaces the tags only when the input list is not null
        (an empty list clears them); never touches publishedAt, createdAt or
        updatedAt. */
    method UpdatePost(id: Id, input: PostInput, now: Timestamp) returns (r: Result<PostDto>)
      requires Valid()
      modifies this
      ensures Valid()
      ensures id !in old(posts) ==>
        && r == Err(PostNotFound(id))
        && posts == old(posts) && tags == old(tags)
        && nextPostId == old(nextPostId) && nextTagId == old(nextTagId)
      ensures id in old(posts) ==>
        var before := old(posts)[id];
        var res := ResolveTags(old(tags), old(nextTagId), if input.tags.Some? then NormalizeTagNames(input.tags.value) else [], now);
        var after := before.(title := input.title, excerpt := input.excerpt, content := input.content,
                             author := input.author, published := input.isPublished,
                             tags := if input.tags.Some? then Some(res.list) else before.tags);
        && posts == old(posts)[id := after] && nextPostId == old(nextPostId)
        && tags == res.tags && nextTagId == res.nextTagId
        && r == Ok(ToDto(after))
      ensures id in old(posts) ==>
        && r.Ok? && r.value.id == id
        && r.value.publishedAt == old(posts)[id].publishedAt
        && r.value.createdAt == old(posts)[id].createdAt
        && r.value.updatedAt == old(posts)[id].updatedAt
        && r.value.tags == if input.tags.Some? then NormalizeTagNames(input.tags.value) else ToDto(old(posts)[id]).tags
    {
      if id !in posts {
        return Err(PostNotFound(id));
      }
      var post := posts[id];
      post := post.(title := input.title, excerpt := input.excerpt, content := input.content,
                    author := input.author, published := input.isPublished);
      if input.tags.Some? {
        NormalizedAreTagNames(input.tags.value);
        ResolveTagsValid(tags, nextTagId, NormalizeTagNames(input.tags.value), now);
        var list := CollectTags(input.tags.value, now);
        post := post.(tags := Some(list));
      }
      SavePostKeepsValid(posts, tags, nextPostId, nextTagId, post);
      posts := posts[id := post];
      r := Ok(ToDto(post));
    }

    /** deletePost: removes exactly that post, or fails and removes nothing. */
    method DeletePost(id: Id) returns (r: Result<()>)
      requires Valid()
      modifies this
      ensures Valid()
      ensures r.Ok? <==> id in old(posts)
      ensures r.Err? ==> r.error == PostNotFound(id)
      ensures posts == old(posts) - {id}
      ensures tags == old(tags) && nextPostId == old(nextPostId) && nextTagId == old(nextTagId)
    {
      if id !in posts {
        return Err(PostNotFound(id));
      }
      RemovePostsKeepsValid(posts, tags, nextPostId, nextTagId, {id});
      posts := posts - {id};
      r := Ok(());
    }

    /** deleteAll: deletes the given posts one by one, by id. */
    method DeleteAll(victims: seq<Post>)
      requires Valid()
      modifies this
      ensures Valid()
      ensures posts == old(posts) - IdsOf(victims)
      ensures tags == old(tags) && nextPostId == old(nextPostId) && nextTagId == old(nextTagId)
    {
      ghost var before := posts;
      assert victims[..0] == [];
      for i := 0 to |victims|
        invariant Valid()
        invariant tags == old(tags) && nextPostId == old(nextPostId) && nextTagId == old(nextTagId)
        invariant posts == before - IdsOf(victims[..i])
      {
        IdsOfStep(victims, i);
        RemovePostsKeepsValid(posts, tags, nextPostId, nextTagId, {victims[i].id});
        posts := posts - {victims[i].id};
      }
      assert victims[..|victims|] == victims;
    }

    /** deletePostsByAuthor: finds the author's posts and deletes them; with
        none to find it changes nothing and does not fail. */
    method DeletePostsByAuthor(author: string)
      requires Valid()
      modifies this
      ensures Valid()
      ensures posts == old(posts) - AuthoredBy(old(posts), author)
      ensures forall id :: id in posts <==> id in old(posts) && old(posts)[id].author != author
      ensures tags == old(tags) && nextPostId == old(nextPostId) && nextTagId == old(nextTagId)
    {
      var victims := FindByAuthorOrderByCreatedAtDesc(Rows(), author);
      FoundByAuthor(posts, nextPostId, author);
      DeleteAll(victims);
    }

    /** publishPost: published and stamped `now`; nothing else changes. */
    method PublishPost(id: Id, now: Timestamp) returns (r: Result<PostDto>)
      requires Valid()
      modifies this
      ensures Valid()
      ensures id !in old(posts) ==> r == Err(PostNotFound(id)) && posts == old(posts)
      ensures id in old(posts) ==>
        var after := old(posts)[id].(published := true, publishedAt := Some(now));
        posts == old(posts)[id := after] && r == Ok(ToDto(after))
      ensures tags == old(tags) && nextPostId == old(nextPostId) && nextTagId == old(nextTagId)
    {
      if id !in posts {
        return Err(PostNotFound(id));
      }
      var post := posts[id];
      post := post.(published := true, publishedAt := Some(now));
      posts := posts[id := post];
      r := Ok(ToDto(post));
    }

    /** unpublishPost: unpublished and publishedAt cleared; nothing else changes. */
    method UnpublishPost(id: Id) returns (r: Result<PostDto>)
      requires Valid()
      modifies this
      ensures Valid()
      ensures id !in old(posts) ==> r == Err(PostNotFound(id)) && posts == old(posts)
      ensures id in old(posts) ==>
        var after := old(posts)[id].(published := false, publishedAt := None);
        posts == old(posts)[id := after] && r == Ok(ToDto(after))
      ensures tags == old(tags) && nextPostId == old(nextPostId) && nextTagId == old(nextTagId)
    {
      if id !in posts {
        return Err(PostNotFound(id));
      }
      var post := posts[id];
      post := post.(published := false, publishedAt := None);
      posts := posts[id := post];
      r := Ok(ToDto(post));
    }
  }
}
