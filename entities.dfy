/** The records the post service reads and writes: the persisted Post and Tag
    entities, the transfer object PostDto (split here into the fields the
    service reads from a request and the object it returns) and the one error,
    PostNotFoundException. */
module Entities {
  import opened Text

  /** A Long primary key; lookups may be asked for any value, the store
      itself hands out 1, 2, 3, ... */
  type Id = int

  /** A LocalDateTime reading, taken from a clock the caller passes in. */
  type Timestamp = nat

  /** A Java reference that may be null. */
  datatype Option<T> = None | Some(value: T)

  datatype Tag = Tag(id: Id, name: string, createdAt: Timestamp, updatedAt: Timestamp)

  /** The names of a tag list, in list order. */
  function NamesOf(ts: seq<Tag>): (names: seq<string>)
    ensures |names| == |ts|
    ensures forall k :: 0 <= k < |ts| ==> names[k] == ts[k].name
  {
    if ts == [] then [] else NamesOf(ts[..|ts| - 1]) + [ts[|ts| - 1].name]
  }

  /** tags == None is a Post whose tag list was never set (null). */
  datatype Post = Post(
    id: Id,
    title: string,
    excerpt: string,
    content: string,
    author: string,
    published: bool,
    publishedAt: Option<Timestamp>,
    createdAt: Timestamp,
    updatedAt: Timestamp,
    tags: Option<seq<Tag>>)

  /** The fields of an incoming PostDto that createPost and updatePost read;
      the list of tag names and each name in it may be null. */
  datatype PostInput = PostInput(
    title: string,
    excerpt: string,
    content: string,
    author: string,
    isPublished: bool,
    tags: Option<seq<Option<string>>>)

  /** The PostDto the service returns. */
  datatype PostDto = PostDto(
    id: Id,
    title: string,
    excerpt: string,
    content: string,
    author: string,
    publishedAt: Option<Timestamp>,
    isPublished: bool,
    createdAt: Timestamp,
    updatedAt: Timestamp,
    tags: seq<string>)

  const NotFoundPrefix := "Post not found with id: "

  datatype PostNotFound = PostNotFound(id: Id) {
    /** The exception message: the fixed prefix followed by the id in canonical
        decimal, which reads back as that id (and, by IntToStringOfParse, is
        the only canonical text that does). */
    function Message(): (m: string)
      ensures |m| > |NotFoundPrefix| && m[..|NotFoundPrefix|] == NotFoundPrefix
      ensures IsCanonicalInt(m[|NotFoundPrefix|..])
      ensures IsIntString(m[|NotFoundPrefix|..]) && ParseInt(m[|NotFoundPrefix|..]) == id
    {
      var m := NotFoundPrefix + IntToString(id);
      IntToStringRoundTrip(id);
      assert m[|NotFoundPrefix|..] == IntToString(id);
      m
    }
  }

  /** The message's suffix is the id's one canonical decimal text: a message
      built from any canonical text that reads back as the id is this one. */
  lemma MessageText(id: Id, digits: string)
    requires IsIntString(digits) && IsCanonicalInt(digits) && ParseInt(digits) == id
    ensures PostNotFound(id).Message() == NotFoundPrefix + digits
  {
    IntToStringOfParse(digits);
  }

  /** A service call either returns its value or throws PostNotFoundException. */
  datatype Result<T> = Ok(value: T) | Err(error: PostNotFound)
}
