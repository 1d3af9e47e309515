# Post service: a verified model of the post and tag bookkeeping

This project models the core of a blog post service (`PostServiceImpl` and
the derived queries of `PostRepository`) in Dafny and proves what the service
promises about it.

The store is two in-memory tables held by the class `PostService`:

- the post table, a `map<Id, Post>` keyed by id;
- the tag table, a `map<string, Tag>` keyed by name. This is the lookup that
  `TagRepository.findByName` performs.

Ids come from two counters that start at 1, standing in for the database's
auto-increment keys. The clock is a `now: Timestamp` parameter of every
operation that reads it.

The model is split by layer:

- `text.dfy` (module `Text`): the pieces of `java.lang.String` and
  `java.lang.Long` the service relies on:
  - `trim()`, where every character at or below U+0020 counts as space;
  - substring search;
  - the decimal rendering of an id inside the error message, with a parse
    that reads it back.
- `entities.dfy` (module `Entities`):
  - the `Post` and `Tag` entities;
  - the incoming `PostDto` fields (`PostInput`) and the outgoing `PostDto`;
  - `PostNotFoundException` (`PostNotFound`) and a `Result` type for "returns
    or throws".
- `post_repository.dfy` (module `PostRepository`): the derived queries as
  pure functions over the rows of the post table. Each is a filter or a join,
  followed by a stable sort on `createdAt`, newest first, plus `DISTINCT`.
- `post_service_impl.dfy` (module `PostServiceImpl`):
  - the pure parts: tag-name normalisation, get-or-create over the tag
    table, and the projection to `PostDto`;
  - the class `PostService`, whose methods change the tables as the
    service's save and delete calls do, and whose read-only operations are
    functions over the tables.

`PostService.Valid()` is the invariant every method keeps:

- every post is stored under its own id, below the next id;
- the tag table is keyed by name, holds only trimmed non-blank names, and
  gives each tag its own id;
- every tag a post carries is the one the tag table stores under its name.

Notes on the code's behaviour:

- `unpublishPost` clears `publishedAt`
  (`src/main/java/com/mb/postService/service/impl/PostServiceImpl.java:222`).
- Nothing in `PostServiceImpl` refreshes `updatedAt` in `updatePost`,
  `publishPost` or `unpublishPost`. The `Post` entity class is not part of
  this model, and any lifecycle hook in it is not modelled.
- `updatePost` changes `published` without touching `publishedAt`. So
  "`publishedAt` is set only while published" is not an invariant of the
  code, and the model does not claim it.
- Tags are attached as a list, in input order, not as a set. An input that
  names the same tag twice attaches it twice.

## Model

| member | source | states |
|---|---|---|
| Text.Trim | src/main/java/com/mb/postService/service/impl/PostServiceImpl.java:50-51 | `trim()` neither starts nor ends with a space character, and is empty exactly when the whole string is space (a blank name) |
| Text.TrimIsInfix | src/main/java/com/mb/postService/service/impl/PostServiceImpl.java:50-51 | the trimmed name is the original with only space removed from both ends |
| Text.TrimFixesTrimmed | src/main/java/com/mb/postService/service/impl/PostServiceImpl.java:50-51 | trimming a name that has no space at either end returns it unchanged |
| Text.ContainsIsInfix | src/main/java/com/mb/postService/repository/PostRepository.java:22 | the left-to-right `LIKE %keyword%` scan succeeds exactly when the keyword occurs at some position of the text |
| Text.IntToString | src/main/java/com/mb/postService/service/impl/PostServiceImpl.java:71 | `Long.toString` writes canonical decimal: digits with no leading zero except in "0", and a minus sign only in front of a non-zero value |
| Text.NatToStringOfParse | src/main/java/com/mb/postService/service/impl/PostServiceImpl.java:71 | canonical digits are exactly the rendering of the value they denote |
| Text.IntToStringOfParse | src/main/java/com/mb/postService/service/impl/PostServiceImpl.java:71 | a canonical integer text is the rendering of its value, so each id has exactly one canonical text |
| Text.IntToStringRoundTrip | src/main/java/com/mb/postService/service/impl/PostServiceImpl.java:71 | the decimal rendering of any id, negative ones included, is a well-formed integer that parses back to that id |
| Entities.NamesOf | src/main/java/com/mb/postService/service/impl/PostServiceImpl.java:229-234 | the names of a tag list, one per tag, in list order |
| Entities.PostNotFound.Message | src/main/java/com/mb/postService/exception/PostNotFoundException.java:9-11 | the message is "Post not found with id: " followed by the id in canonical decimal, which parses back to the missing id |
| Entities.MessageText | src/main/java/com/mb/postService/service/impl/PostServiceImpl.java:71 | the message text is fixed by the id: the prefix followed by any canonical text that reads back as the id is that message, so "Post not found with id: 099" never is |
| PostRepository.RowsBelow | src/main/java/com/mb/postService/service/impl/PostServiceImpl.java:79 | `findAll` yields exactly the stored posts, in ascending id order |
| PostRepository.AscendingRowsAreDistinct | src/main/java/com/mb/postService/service/impl/PostServiceImpl.java:79 | rows with ascending ids hold each post at most once |
| PostRepository.Where | src/main/java/com/mb/postService/repository/PostRepository.java:15-17 | a WHERE clause keeps each selected row as often as the table holds it, and drops every other row |
| PostRepository.InsertByCreatedAtDesc | src/main/java/com/mb/postService/repository/PostRepository.java:15 | inserting a post into a list sorted newest first keeps it sorted, and adds exactly that post |
| PostRepository.SortByCreatedAtDesc | src/main/java/com/mb/postService/repository/PostRepository.java:15 | `ORDER BY createdAt DESC` gives a permutation of its input with createdAt non-increasing |
| PostRepository.FindByAuthorOrderByCreatedAtDesc | src/main/java/com/mb/postService/repository/PostRepository.java:15 | exactly the rows whose author equals the argument, each as often as stored, newest first |
| PostRepository.FindByIsPublishedTrueOrderByCreatedAtDesc | src/main/java/com/mb/postService/repository/PostRepository.java:17 | exactly the published rows, each as often as stored, newest first |
| PostRepository.TagNamesOf | src/main/java/com/mb/postService/repository/PostRepository.java:19 | a name is among a post's tag names exactly when the post has a tag of that name; a null tag list has none |
| PostRepository.JoinTagNamed | src/main/java/com/mb/postService/repository/PostRepository.java:19 | the `JOIN p.tags t WHERE t.name = :tag` yields exactly the rows having a tag of that name |
| PostRepository.JoinTagNamedCount | src/main/java/com/mb/postService/repository/PostRepository.java:19 | the join yields each post once per matching entry of its tag list, times how often the table holds it |
| PostRepository.FindByTagOrderByCreatedAtDesc | src/main/java/com/mb/postService/repository/PostRepository.java:19-20 | exactly the rows having a tag of that name, newest first, with the join's multiplicities |
| PostRepository.LikeIsMention | src/main/java/com/mb/postService/repository/PostRepository.java:22 | the three `LIKE` tests hold exactly when the keyword is a substring of the title, the content or the author |
| PostRepository.SearchByKeyword | src/main/java/com/mb/postService/repository/PostRepository.java:22-23 | exactly the rows whose title, content or author contains the keyword, each as often as stored, newest first |
| PostRepository.Distinct | src/main/java/com/mb/postService/repository/PostRepository.java:25 | `DISTINCT` holds the same names as its input, none twice |
| PostRepository.JoinedTagNames | src/main/java/com/mb/postService/repository/PostRepository.java:25 | `SELECT t.name FROM Post p JOIN p.tags t` holds exactly the names some row carries |
| PostRepository.FindAllTags | src/main/java/com/mb/postService/repository/PostRepository.java:25-26 | each name attached to at least one row, exactly once; names no row carries never appear |
| PostServiceImpl.NormalizeEntry | src/main/java/com/mb/postService/service/impl/PostServiceImpl.java:50-51 | an entry yields a name exactly when it is non-null and not blank; that name is its trimmed text, in stored form (non-empty, no space at either end) |
| PostServiceImpl.NormalizeTagNames | src/main/java/com/mb/postService/service/impl/PostServiceImpl.java:47-56 | normalisation never yields more names than there are entries |
| PostServiceImpl.NormalizedAreTagNames | src/main/java/com/mb/postService/service/impl/PostServiceImpl.java:49-53 | every name normalisation yields is trimmed and non-blank |
| PostServiceImpl.NormalizeTagNamesSingle | src/main/java/com/mb/postService/service/impl/PostServiceImpl.java:50-52 | a one-entry list normalises exactly as its entry does |
| PostServiceImpl.NormalizeTagNamesSnoc | src/main/java/com/mb/postService/service/impl/PostServiceImpl.java:49-53 | appending one entry to the input appends its normalised form to the output |
| PostServiceImpl.NormalizeTagNamesConcat | src/main/java/com/mb/postService/service/impl/PostServiceImpl.java:49-53 | normalisation works entry by entry: the names of a concatenation are the concatenated names, so the result is exactly the kept entries, trimmed, in input order |
| PostServiceImpl.NormalizeTagNamesFixesNames | src/main/java/com/mb/postService/service/impl/PostServiceImpl.java:158-166 | names already trimmed and non-blank come back unchanged |
| PostServiceImpl.GetOrCreate | src/main/java/com/mb/postService/service/impl/PostServiceImpl.java:250-264 | the tag stored under the name, with the table unchanged, or else exactly one new tag of that name with the next id, stamped `now`; the table keeps every earlier tag, gains exactly that name, and stays valid |
| PostServiceImpl.GetOrCreateIdempotent | src/main/java/com/mb/postService/service/impl/PostServiceImpl.java:250-264 | a second get-or-create of the same name, at any later time, returns the same tag and changes nothing |
| PostServiceImpl.ResolveTags | src/main/java/com/mb/postService/service/impl/PostServiceImpl.java:48-55 | one tag per name, each the one the table now stores under that name; the table gains exactly the given names and keeps every earlier tag |
| PostServiceImpl.ResolveTagsValid | src/main/java/com/mb/postService/service/impl/PostServiceImpl.java:48-55 | over a valid table, the resolved tags carry exactly the given names in order, and the table stays valid |
| PostServiceImpl.ResolveStoredNames | src/main/java/com/mb/postService/service/impl/PostServiceImpl.java:252-255 | resolving names that are all stored creates no tag |
| PostServiceImpl.ResolveTagsIdempotent | src/main/java/com/mb/postService/service/impl/PostServiceImpl.java:158-166 | resolving the same names a second time returns the same tags and leaves the table alone |
| PostServiceImpl.ToDto | src/main/java/com/mb/postService/service/impl/PostServiceImpl.java:228-248 | every scalar field is copied unchanged; the tags become their names, preserving length and order; a null tag list gives none |
| PostServiceImpl.ToDtos | src/main/java/com/mb/postService/service/impl/PostServiceImpl.java:81-85 | one DTO per store result, in the same order |
| PostServiceImpl.SharedTags | src/main/java/com/mb/postService/service/impl/PostServiceImpl.java:252-255 | two posts whose tags are stored never carry two different tags of one name |
| PostServiceImpl.DtoTagsRoundTrip | src/main/java/com/mb/postService/service/impl/PostServiceImpl.java:228-234 | sending a post's DTO tag list back as input names exactly the tags the post has |
| PostServiceImpl.ListingOfTable | src/main/java/com/mb/postService/service/impl/PostServiceImpl.java:77-134 | a list operation over a filtered query shows the DTOs of exactly the selected posts, no post twice |
| PostServiceImpl.SavePostKeepsValid | src/main/java/com/mb/postService/service/impl/PostServiceImpl.java:169 | re-saving a post whose tags are stored keeps the tables valid |
| PostServiceImpl.InsertPostKeepsValid | src/main/java/com/mb/postService/service/impl/PostServiceImpl.java:58 | saving a new post under the next id keeps the tables valid |
| PostServiceImpl.RemovePostsKeepsValid | src/main/java/com/mb/postService/service/impl/PostServiceImpl.java:184 | deleting posts keeps the tables valid |
| PostServiceImpl.GrowTagsKeepsValid | src/main/java/com/mb/postService/service/impl/PostServiceImpl.java:261 | adding tags to a valid tag table, while keeping every existing tag, keeps the tables valid |
| PostServiceImpl.FoundByAuthor | src/main/java/com/mb/postService/service/impl/PostServiceImpl.java:191 | `findByAuthorOrderByCreatedAtDesc` over the whole table finds exactly the author's posts |
| PostServiceImpl.PostService.Rows | src/main/java/com/mb/postService/service/impl/PostServiceImpl.java:79 | every stored post exactly once, in ascending id order |
| PostServiceImpl.PostService.GetPostById | src/main/java/com/mb/postService/service/impl/PostServiceImpl.java:65-74 | succeeds exactly when the id is stored, with that post's DTO; otherwise fails with `PostNotFound(id)` |
| PostServiceImpl.PostService.GetAllPosts | src/main/java/com/mb/postService/service/impl/PostServiceImpl.java:77-86 | the DTO of every stored post and nothing else, in ascending id order |
| PostServiceImpl.PostService.GetPostsByAuthor | src/main/java/com/mb/postService/service/impl/PostServiceImpl.java:89-98 | the DTOs of exactly the posts of that author, createdAt non-increasing, no post twice |
| PostServiceImpl.PostService.GetPublishedPosts | src/main/java/com/mb/postService/service/impl/PostServiceImpl.java:101-110 | the DTOs of exactly the published posts, createdAt non-increasing, no post twice |
| PostServiceImpl.PostService.GetPostsByTag | src/main/java/com/mb/postService/service/impl/PostServiceImpl.java:113-122 | the DTOs of exactly the posts having a tag of that name, createdAt non-increasing |
| PostServiceImpl.PostService.SearchPosts | src/main/java/com/mb/postService/service/impl/PostServiceImpl.java:125-134 | the DTOs of exactly the posts whose title, content or author contains the keyword, createdAt non-increasing, no post twice |
| PostServiceImpl.PostService.GetAllTags | src/main/java/com/mb/postService/service/impl/PostServiceImpl.java:137-140 | every name some stored post carries, once each, and no other name |
| PostServiceImpl.PostService.GetOrCreateTag | src/main/java/com/mb/postService/service/impl/PostServiceImpl.java:250-264 | the tag and the new tag table are those of `GetOrCreate`; the post table is untouched and the invariant holds |
| PostServiceImpl.PostService.CollectTags | src/main/java/com/mb/postService/service/impl/PostServiceImpl.java:47-56 | the loop collects `ResolveTags` of the normalised names and leaves that tag table; every collected tag is the one stored under its name |
| PostServiceImpl.PostService.CreatePost | src/main/java/com/mb/postService/service/impl/PostServiceImpl.java:29-62 | the new post gets a fresh id and createdAt = updatedAt = `now`. publishedAt is `now` exactly when published, otherwise unset. The tags are the normalised input names, in order, when the list is non-null and non-empty, otherwise none. No other post changes |
| PostServiceImpl.PostService.UpdatePost | src/main/java/com/mb/postService/service/impl/PostServiceImpl.java:143-173 | an absent id fails with `PostNotFound(id)` and changes nothing. Otherwise title, excerpt, content, author and published are overwritten. The tags are replaced by the normalised names when the list is non-null (an empty list clears them) and kept when it is null. publishedAt, createdAt and updatedAt are kept. No other post changes |
| PostServiceImpl.PostService.DeletePost | src/main/java/com/mb/postService/service/impl/PostServiceImpl.java:176-186 | succeeds exactly when the id is stored, removing that post and nothing else; otherwise fails with `PostNotFound(id)` and removes nothing |
| PostServiceImpl.PostService.DeleteAll | src/main/java/com/mb/postService/service/impl/PostServiceImpl.java:192 | deleting a list of posts one by one removes exactly their ids |
| PostServiceImpl.PostService.DeletePostsByAuthor | src/main/java/com/mb/postService/service/impl/PostServiceImpl.java:189-194 | removes exactly the posts whose author equals the argument and keeps every other post; with none it changes nothing and does not fail |
| PostServiceImpl.PostService.PublishPost | src/main/java/com/mb/postService/service/impl/PostServiceImpl.java:197-210 | an absent id fails and changes nothing; otherwise the post becomes published with publishedAt = `now`, and no other field or post changes |
| PostServiceImpl.PostService.UnpublishPost | src/main/java/com/mb/postService/service/impl/PostServiceImpl.java:213-226 | an absent id fails and changes nothing; otherwise the post becomes unpublished with publishedAt cleared, and no other field or post changes |

## Left out

- The JPA and Spring machinery (`save`, `findById`, `existsById`, `deleteById`, `deleteAll`, `findAll`) is code outside the repository. It is modelled as map updates.
- Id generation is modelled as a counter starting at 1. Any fresh id would do, and the proofs only use freshness.
- `LocalDateTime.now()` is the `now` parameter.
  - `createPost` reads the clock once for the post and once more for each new tag; the model uses one reading for both.
  - `getOrCreateTag` reads the clock twice, for createdAt and updatedAt; the model uses one reading.
- Timestamps are natural numbers, and ids are unbounded integers. The 64-bit range of `Long` is not modelled.
- Logging, the HTTP controller and the exception handler are I/O plumbing and are left out. So are concurrency: the read-then-write race in `getOrCreateTag` and last-write-wins updates.
- `LIKE` is modelled as a case-sensitive substring match. Database collation, case folding and the wildcard characters `%` and `_` inside a keyword are not modelled.
- Null scalar fields (a null title or author, a null keyword) are not modelled. Only the tag list and its entries may be null.
- The input `PostDto`'s id, publishedAt, createdAt and updatedAt are ignored by the code, so the model's `PostInput` does not carry them.
- When `createPost` gets a null or empty tag list, it never sets the entity's tag list; the model records this as no list (`None`). Either way the DTO shows no names.
- PostServiceImpl.PostService.GetAllPosts: ascending id order is the model's store order. The code promises no order for `findAll`.
- PostRepository.SortByCreatedAtDesc: the order among posts with equal createdAt is the database's choice. The model states only sortedness and the permutation.
- PostServiceImpl.PostService.GetPostsByTag: the contract does not claim that no post appears twice. A post carrying two tag entries of the same name appears twice, as the SQL join gives it (`JoinTagNamedCount`).
- PostServiceImpl.PostService.UpdatePost: the contract does not say that `updatedAt` is refreshed, because nothing in `PostServiceImpl` refreshes it. The `Post` entity class is not part of this model, and any lifecycle hook in it (`@PreUpdate`, `@UpdateTimestamp`) is not modelled.
- The tag table is keyed by name, so "at most one tag per name" holds by construction. The code relies on `TagRepository.findByName` for it but enforces nothing, for example with a unique constraint. `SharedTags` and the no-duplicate half of get-or-create rest on this choice.
