/** PostRepository's derived queries, as pure functions over the rows of the
    post table. Each `...OrderByCreatedAtDesc` query is a filter (or a join
    with the tag list) followed by a sort on createdAt, newest first. */
module PostRepository {
  import opened Text
  import opened Entities

  lemma SplitFirst<T>(s: seq<T>)
    requires s != []
    ensures s == [s[0]] + s[1..]
  {
  }

  lemma SplitLast<T>(s: seq<T>)
    requires s != []
    ensures s == s[..|s| - 1] + [s[|s| - 1]]
  {
  }

  lemma AppendAssoc<T>(x: seq<T>, y: seq<T>, z: seq<T>)
    ensures x + (y + z) == (x + y) + z
  {
  }

  predicate IdsAscending(rows: seq<Post>) {
    forall i, j :: 0 <= i < j < |rows| ==> rows[i].id < rows[j].id
  }

  /** The rows of a post table keyed by id whose ids lie in 0 .. n-1, in
      ascending id order: the order findAll gives over an auto-increment key. */
  function RowsBelow(posts: map<Id, Post>, n: nat): (rows: seq<Post>)
    requires forall id :: id in posts ==> posts[id].id == id
    ensures forall p :: p in rows <==> 0 <= p.id < n && p.id in posts && posts[p.id] == p
    ensures IdsAscending(rows)
  {
    if n == 0 then []
    else RowsBelow(posts, n - 1) + (if n - 1 in posts then [posts[n - 1]] else [])
  }

  /** Rows with ascending ids hold every post at most once. */
  lemma {:induction false} AscendingRowsAreDistinct(rows: seq<Post>)
    requires IdsAscending(rows)
    ensures forall p :: multiset(rows)[p] <= 1
  {
    if rows != [] {
      var init, last := rows[..|rows| - 1], rows[|rows| - 1];
      SplitLast(rows);
      assert IdsAscending(init) by {
        forall i, j | 0 <= i < j < |init| ensures init[i].id < init[j].id {
          assert init[i] == rows[i] && init[j] == rows[j];
        }
      }
      AscendingRowsAreDistinct(init);
      assert last !in init by {
        forall k | 0 <= k < |init| ensures init[k] != last {
          assert init[k] == rows[k];
        }
      }
      assert multiset(rows) == multiset(init) + multiset{last};
    }
  }

  /** WHERE: keeps the rows satisfying `keep`, each as often as it occurs. */
  function Where(rows: seq<Post>, keep: Post -> bool): (r: seq<Post>)
    ensures forall p :: multiset(r)[p] == if keep(p) then multiset(rows)[p] else 0
  {
    if rows == [] then []
    else
      var init, last := rows[..|rows| - 1], rows[|rows| - 1];
      SplitLast(rows);
      Where(init, keep) + (if keep(last) then [last] else [])
  }

  predicate SortedByCreatedAtDesc(s: seq<Post>) {
    forall i, j :: 0 <= i < j < |s| ==> s[i].createdAt >= s[j].createdAt
  }

  /** Putting a post no younger than all of a sorted list in front keeps it sorted. */
  lemma PrependSorted(x: Post, s: seq<Post>)
    requires SortedByCreatedAtDesc(s)
    requires forall j :: 0 <= j < |s| ==> x.createdAt >= s[j].createdAt
    ensures SortedByCreatedAtDesc([x] + s)
  {
  }

  function InsertByCreatedAtDesc(p: Post, s: seq<Post>): (r: seq<Post>)
    requires SortedByCreatedAtDesc(s)
    ensures SortedByCreatedAtDesc(r)
    ensures multiset(r) == multiset(s) + multiset{p}
  {
    if s == [] || s[0].createdAt <= p.createdAt then
      PrependSorted(p, s);
      [p] + s
    else
      var rest := InsertByCreatedAtDesc(p, s[1..]);
      SplitFirst(s);
      assert forall j :: 0 <= j < |rest| ==> s[0].createdAt >= rest[j].createdAt by {
        forall j | 0 <= j < |rest| ensures s[0].createdAt >= rest[j].createdAt {
          assert rest[j] in multiset(rest);
        }
      }
      PrependSorted(s[0], rest);
      [s[0]] + rest
  }

  /** ORDER BY createdAt DESC: a stable insertion sort. */
  function SortByCreatedAtDesc(s: seq<Post>): (r: seq<Post>)
    ensures SortedByCreatedAtDesc(r)
    ensures multiset(r) == multiset(s)
  {
    if s == [] then []
    else
      assert s == [s[0]] + s[1..];
      InsertByCreatedAtDesc(s[0], SortByCreatedAtDesc(s[1..]))
  }

  /** findByAuthorOrderByCreatedAtDesc: every row whose author is exactly
      `author`, as often as the table holds it, newest first. */
  function FindByAuthorOrderByCreatedAtDesc(rows: seq<Post>, author: string): (r: seq<Post>)
    ensures SortedByCreatedAtDesc(r)
    ensures forall p :: multiset(r)[p] == if p.author == author then multiset(rows)[p] else 0
  {
    SortByCreatedAtDesc(Where(rows, (p: Post) => p.author == author))
  }

  /** findByIsPublishedTrueOrderByCreatedAtDesc: every published row, newest first. */
  function FindByIsPublishedTrueOrderByCreatedAtDesc(rows: seq<Post>): (r: seq<Post>)
    ensures SortedByCreatedAtDesc(r)
    ensures forall p :: multiset(r)[p] == if p.published then multiset(rows)[p] else 0
  {
    SortByCreatedAtDesc(Where(rows, (p: Post) => p.published))
  }

  ghost predicate HasTagNamed(p: Post, name: string) {
    p.tags.Some? && exists t :: t in p.tags.value && t.name == name
  }

  /** The names of a post's tags; a null tag list has none. */
  function TagNamesOf(p: Post): (names: seq<string>)
    ensures forall n :: n in names <==> HasTagNamed(p, n)
  {
    if p.tags.None? then []
    else
      var names := NamesOf(p.tags.value);
      assert forall n :: n in names ==> HasTagNamed(p, n) by {
        forall n | n in names ensures HasTagNamed(p, n) {
          var k :| 0 <= k < |names| && names[k] == n;
          assert p.tags.value[k] in p.tags.value;
        }
      }
      names
  }

  /** How many entries of the post's tag list carry `name`. */
  function TagCount(p: Post, name: string): nat {
    if p.tags.None? then 0 else Count(NamesOf(p.tags.value), name)
  }

  function Count(s: seq<string>, x: string): (c: nat)
    ensures c > 0 <==> x in s
  {
    if s == [] then 0 else Count(s[..|s| - 1], x) + (if s[|s| - 1] == x then 1 else 0)
  }

  function Repeat(p: Post, k: nat): (r: seq<Post>)
    ensures forall x :: multiset(r)[x] == if x == p then k else 0
  {
    if k == 0 then [] else Repeat(p, k - 1) + [p]
  }

  /** JOIN p.tags t WHERE t.name = :tag, before the ORDER BY: one result row per
      (post, matching tag entry) pair, in table order. */
  function JoinTagNamed(rows: seq<Post>, name: string): (r: seq<Post>)
    ensures forall p :: p in r <==> p in rows && HasTagNamed(p, name)
  {
    if rows == [] then []
    else
      var init, last := rows[..|rows| - 1], rows[|rows| - 1];
      SplitLast(rows);
      var more := Repeat(last, TagCount(last, name));
      assert forall p :: p in more <==> p == last && TagCount(last, name) > 0 by {
        forall p ensures p in more <==> p == last && TagCount(last, name) > 0 {
          assert p in more <==> multiset(more)[p] > 0;
        }
      }
      assert TagCount(last, name) > 0 <==> HasTagNamed(last, name) by {
        if last.tags.Some? {
          assert TagNamesOf(last) == NamesOf(last.tags.value);
        }
      }
      JoinTagNamed(init, name) + more
  }

  /** The join yields each post once per entry of its tag list carrying the name. */
  lemma {:induction false} JoinTagNamedCount(rows: seq<Post>, name: string)
    ensures forall p :: multiset(JoinTagNamed(rows, name))[p] == multiset(rows)[p] * TagCount(p, name)
  {
    if rows != [] {
      var init, last := rows[..|rows| - 1], rows[|rows| - 1];
      SplitLast(rows);
      var more := Repeat(last, TagCount(last, name));
      assert JoinTagNamed(rows, name) == JoinTagNamed(init, name) + more;
      assert multiset(JoinTagNamed(rows, name)) == multiset(JoinTagNamed(init, name)) + multiset(more);
      assert multiset(rows) == multiset(init) + multiset{last};
      JoinTagNamedCount(init, name);
      forall p ensures multiset(JoinTagNamed(rows, name))[p] == multiset(rows)[p] * TagCount(p, name) {
        var m, c, j := multiset(init)[p], TagCount(p, name), multiset(JoinTagNamed(init, name))[p];
        var k := multiset(rows)[p];
        assert j == m * c;
        if p == last {
          assert multiset(more)[p] == c && k == m + 1;
          assert (m + 1) * c == m * c + c;
          assert k * c == j + c;
        } else {
          assert multiset(more)[p] == 0 && k == m;
          assert k * c == j;
        }
      }
    }
  }

  /** findByTagOrderByCreatedAtDesc: the rows having a tag named `tag`,
      newest first (how often each appears: JoinTagNamedCount). */
  function FindByTagOrderByCreatedAtDesc(rows: seq<Post>, tag: string): (r: seq<Post>)
    ensures SortedByCreatedAtDesc(r)
    ensures forall p :: p in r <==> p in rows && HasTagNamed(p, tag)
    ensures multiset(r) == multiset(JoinTagNamed(rows, tag))
  {
    var r := SortByCreatedAtDesc(JoinTagNamed(rows, tag));
    assert forall p :: p in r <==> p in JoinTagNamed(rows, tag) by {
      forall p ensures p in r <==> p in JoinTagNamed(rows, tag) {
        assert p in r <==> p in multiset(r);
      }
    }
    r
  }

  /** The keyword occurs in the title, the content or the author. */
  ghost predicate MentionsKeyword(p: Post, keyword: string) {
    IsInfix(keyword, p.title) || IsInfix(keyword, p.content) || IsInfix(keyword, p.author)
  }

  /** p.title LIKE %:keyword% OR p.content LIKE ... OR p.author LIKE ... */
  predicate LikeKeyword(p: Post, keyword: string) {
    Contains(p.title, keyword) || Contains(p.content, keyword) || Contains(p.author, keyword)
  }

  lemma LikeIsMention(keyword: string)
    ensures forall p :: LikeKeyword(p, keyword) <==> MentionsKeyword(p, keyword)
  {
    forall p ensures LikeKeyword(p, keyword) <==> MentionsKeyword(p, keyword) {
      ContainsIsInfix(p.title, keyword);
      ContainsIsInfix(p.content, keyword);
      ContainsIsInfix(p.author, keyword);
    }
  }

  /** searchByKeyword: every row whose title, content or author contains the
      keyword, newest first. */
  function SearchByKeyword(rows: seq<Post>, keyword: string): (r: seq<Post>)
    ensures SortedByCreatedAtDesc(r)
    ensures forall p :: multiset(r)[p] == if MentionsKeyword(p, keyword) then multiset(rows)[p] else 0
  {
    LikeIsMention(keyword);
    SortByCreatedAtDesc(Where(rows, (p: Post) => LikeKeyword(p, keyword)))
  }

  predicate NoDuplicates(s: seq<string>) {
    forall i, j :: 0 <= i < j < |s| ==> s[i] != s[j]
  }

  /** DISTINCT: the first occurrence of every element, in order. */
  function Distinct(s: seq<string>): (r: seq<string>)
    ensures NoDuplicates(r)
    ensures forall x :: x in r <==> x in s
  {
    if s == [] then []
    else
      var init, last := s[..|s| - 1], s[|s| - 1];
      SplitLast(s);
      var d := Distinct(init);
      if last in d then d else d + [last]
  }

  /** t.name for every row of Post p JOIN p.tags t, in table order. */
  function JoinedTagNames(rows: seq<Post>): (names: seq<string>)
    ensures forall n :: n in names <==> exists p :: p in rows && HasTagNamed(p, n)
  {
    if rows == [] then []
    else
      var init, last := rows[..|rows| - 1], rows[|rows| - 1];
      SplitLast(rows);
      JoinedTagNames(init) + TagNamesOf(last)
  }

  /** findAllTags: SELECT DISTINCT t.name FROM Post p JOIN p.tags t. Every name
      attached to some post, once; names of tags no post carries never appear. */
  function FindAllTags(rows: seq<Post>): (names: seq<string>)
    ensures NoDuplicates(names)
    ensures forall n :: n in names <==> exists p :: p in rows && HasTagNamed(p, n)
  {
    Distinct(JoinedTagNames(rows))
  }
}
