/** The post list of the board page: the posts of the current board whose
    title or tags contain the search term, sorted by the chosen order with
    the largest key first. `Array.prototype.sort` is stable, so posts with
    equal keys keep the order in which they are stored; the model sorts by
    insertion, which is stable in the same way. */
module PostList {
  import opened JsText
  import opened BoardData

  /** The three orders of the sort selector. */
  datatype SortOrder = Popular | MostViewed | Latest

  /** The selector's value: "popular" and "views" name their orders, and
      any other value falls to the default, newest first. */
  function SortOrderOf(sortBy: string): (order: SortOrder)
    ensures order == Popular <==> sortBy == "popular"
    ensures order == MostViewed <==> sortBy == "views"
  {
    if sortBy == "popular" then Popular
    else if sortBy == "views" then MostViewed
    else Latest
  }

  /** The number the comparator subtracts for an order. */
  function SortKey(p: Post, order: SortOrder): int {
    match order
    case Popular => p.likes
    case MostViewed => p.views
    case Latest => p.createdAt
  }

  /** Some tag contains the term, ignoring ASCII case. */
  predicate TagMatches(tags: seq<string>, term: string) {
    exists i | 0 <= i < |tags| :: Includes(LowerAscii(tags[i]), term)
  }

  /** The search filter for an already lower-cased term: an empty term
      lets everything through, otherwise the lower-cased title or a
      lower-cased tag must contain it. */
  predicate MatchesSearch(p: Post, term: string) {
    term == [] || Includes(LowerAscii(p.title), term) || TagMatches(p.tags, term)
  }

  /** The filter callback: the post is on the current board and matches
      the search. */
  predicate Shown(p: Post, board: string, term: string) {
    p.boardId == board && MatchesSearch(p, term)
  }

  /** `posts.filter(...)`: the shown posts, in stored order. */
  function FilterPosts(posts: seq<Post>, board: string, term: string): (r: seq<Post>)
    ensures |r| <= |posts|
    ensures forall p :: p in r ==> Shown(p, board, term)
    ensures forall p {:trigger multiset(r)[p]} :: multiset(r)[p] == if Shown(p, board, term) then multiset(posts)[p] else 0
  {
    if posts == [] then []
    else
      assert posts == [posts[0]] + posts[1..];
      (if Shown(posts[0], board, term) then [posts[0]] else []) + FilterPosts(posts[1..], board, term)
  }

  /** Filtering a post in front of a list decides that post on its own. */
  lemma FilterPostsCons(x: Post, t: seq<Post>, board: string, term: string)
    ensures FilterPosts([x] + t, board, term)
      == (if Shown(x, board, term) then [x] else []) + FilterPosts(t, board, term)
  {
    assert ([x] + t)[0] == x && ([x] + t)[1..] == t;
  }

  /** The filter keeps stored order: it works post by post, so filtering a
      concatenation filters each part in place. */
  lemma {:induction false} FilterPostsAppend(a: seq<Post>, b: seq<Post>, board: string, term: string)
    ensures FilterPosts(a + b, board, term) == FilterPosts(a, board, term) + FilterPosts(b, board, term)
  {
    if a == [] {
      assert a + b == b;
    } else {
      var x, t := a[0], a[1..];
      var head := if Shown(x, board, term) then [x] else [];
      var ft, fb := FilterPosts(t, board, term), FilterPosts(b, board, term);
      assert a == [x] + t && a + b == [x] + (t + b);
      assert FilterPosts(a + b, board, term) == head + (ft + fb) by {
        FilterPostsCons(x, t + b, board, term);
        FilterPostsAppend(t, b, board, term);
      }
      assert FilterPosts(a, board, term) == head + ft by {
        FilterPostsCons(x, t, board, term);
      }
      ConcatAssociates(head, ft, fb);
    }
  }

  lemma ConcatAssociates(a: seq<Post>, b: seq<Post>, c: seq<Post>)
    ensures a + (b + c) == (a + b) + c
  {
  }

  /** A single post is kept exactly when it is shown. */
  lemma FilterPostsSingle(p: Post, board: string, term: string)
    ensures FilterPosts([p], board, term) == if Shown(p, board, term) then [p] else []
  {
    assert [p][1..] == [];
  }

  /** Keys never increase from left to right. */
  predicate SortedByKey(s: seq<Post>, order: SortOrder) {
    forall i, j :: 0 <= i < j < |s| ==> SortKey(s[i], order) >= SortKey(s[j], order)
  }

  /** Places `p` in front of the first post whose key is not larger, so
      it comes before every post of equal key already placed. */
  function Insert(p: Post, sorted: seq<Post>, order: SortOrder): (r: seq<Post>)
    ensures |r| == |sorted| + 1
  {
    if sorted == [] || SortKey(sorted[0], order) <= SortKey(p, order) then [p] + sorted
    else [sorted[0]] + Insert(p, sorted[1..], order)
  }

  /** Inserting adds `p` and loses nothing. */
  lemma {:induction false} InsertIsPermutation(p: Post, sorted: seq<Post>, order: SortOrder)
    ensures multiset(Insert(p, sorted, order)) == multiset(sorted) + multiset{p}
  {
    if sorted != [] && SortKey(sorted[0], order) > SortKey(p, order) {
      InsertIsPermutation(p, sorted[1..], order);
      assert sorted == [sorted[0]] + sorted[1..];
    }
  }

  /** No key in `s` exceeds `bound`. */
  predicate KeysAtMost(s: seq<Post>, order: SortOrder, bound: int) {
    forall i :: 0 <= i < |s| ==> SortKey(s[i], order) <= bound
  }

  /** Inserting a post whose key is within a bound keeps every key within
      it. */
  lemma {:induction false} InsertKeepsBound(p: Post, s: seq<Post>, order: SortOrder, bound: int)
    requires KeysAtMost(s, order, bound) && SortKey(p, order) <= bound
    ensures KeysAtMost(Insert(p, s, order), order, bound)
  {
    if s != [] && SortKey(s[0], order) > SortKey(p, order) {
      assert KeysAtMost(s[1..], order, bound) by {
        forall i | 0 <= i < |s[1..]| ensures SortKey(s[1..][i], order) <= bound {
          assert s[1..][i] == s[i + 1];
        }
      }
      InsertKeepsBound(p, s[1..], order, bound);
    }
  }

  /** A post put in front of a sorted list whose keys it bounds gives a
      sorted list. */
  lemma ConsSorted(x: Post, rest: seq<Post>, order: SortOrder)
    requires SortedByKey(rest, order) && KeysAtMost(rest, order, SortKey(x, order))
    ensures SortedByKey([x] + rest, order)
  {
    var r := [x] + rest;
    forall i, j | 0 <= i < j < |r| ensures SortKey(r[i], order) >= SortKey(r[j], order) {
      assert r[j] == rest[j - 1];
      if i > 0 {
        assert r[i] == rest[i - 1];
      }
    }
  }

  /** Inserting into a sorted list keeps it sorted. */
  lemma {:induction false} InsertKeepsSorted(p: Post, sorted: seq<Post>, order: SortOrder)
    requires SortedByKey(sorted, order)
    ensures SortedByKey(Insert(p, sorted, order), order)
  {
    if sorted == [] || SortKey(sorted[0], order) <= SortKey(p, order) {
      assert KeysAtMost(sorted, order, SortKey(p, order)) by {
        forall i | 0 <= i < |sorted| ensures SortKey(sorted[i], order) <= SortKey(p, order) {
          if i > 0 {
            assert SortKey(sorted[0], order) >= SortKey(sorted[i], order);
          }
        }
      }
      ConsSorted(p, sorted, order);
    } else {
      var top := SortKey(sorted[0], order);
      SortedTail(sorted, order);
      assert KeysAtMost(sorted[1..], order, top) by {
        forall i | 0 <= i < |sorted[1..]| ensures SortKey(sorted[1..][i], order) <= top {
          assert sorted[1..][i] == sorted[i + 1];
        }
      }
      InsertKeepsSorted(p, sorted[1..], order);
      InsertKeepsBound(p, sorted[1..], order, top);
      ConsSorted(sorted[0], Insert(p, sorted[1..], order), order);
    }
  }

  /** `filteredPosts.sort(...)` with the comparator for `order`. */
  function SortPosts(posts: seq<Post>, order: SortOrder): (r: seq<Post>)
    ensures multiset(r) == multiset(posts)
    ensures SortedByKey(r, order)
  {
    if posts == [] then []
    else
      assert posts == [posts[0]] + posts[1..];
      var rest := SortPosts(posts[1..], order);
      InsertIsPermutation(posts[0], rest, order);
      InsertKeepsSorted(posts[0], rest, order);
      Insert(posts[0], rest, order)
  }

  /** The posts of `s` with key `k`, in order. */
  function WithKey(s: seq<Post>, order: SortOrder, k: int): seq<Post> {
    if s == [] then []
    else (if SortKey(s[0], order) == k then [s[0]] else []) + WithKey(s[1..], order, k)
  }

  lemma WithKeyCons(x: Post, t: seq<Post>, order: SortOrder, k: int)
    ensures WithKey([x] + t, order, k) == (if SortKey(x, order) == k then [x] else []) + WithKey(t, order, k)
  {
    assert ([x] + t)[0] == x && ([x] + t)[1..] == t;
  }

  lemma {:induction false} WithKeyOfInsert(p: Post, sorted: seq<Post>, order: SortOrder, k: int)
    ensures WithKey(Insert(p, sorted, order), order, k)
      == (if SortKey(p, order) == k then [p] else []) + WithKey(sorted, order, k)
  {
    if sorted == [] || SortKey(sorted[0], order) <= SortKey(p, order) {
      WithKeyCons(p, sorted, order, k);
    } else {
      var rest := Insert(p, sorted[1..], order);
      WithKeyCons(sorted[0], rest, order, k);
      WithKeyOfInsert(p, sorted[1..], order, k);
      WithKeyCons(sorted[0], sorted[1..], order, k);
      assert [sorted[0]] + sorted[1..] == sorted;
    }
  }

  /** The sort is stable: for every key, the posts with that key appear in
      the same relative order before and after sorting. */
  lemma {:induction false} SortIsStable(posts: seq<Post>, order: SortOrder, k: int)
    ensures WithKey(SortPosts(posts, order), order, k) == WithKey(posts, order, k)
  {
    if posts != [] {
      SortIsStable(posts[1..], order, k);
      WithKeyOfInsert(posts[0], SortPosts(posts[1..], order), order, k);
      WithKeyCons(posts[0], posts[1..], order, k);
      assert [posts[0]] + posts[1..] == posts;
    }
  }

  /** In a sorted list the first post has the largest key. */
  lemma HeadHasLargestKey(s: seq<Post>, order: SortOrder, q: Post)
    requires SortedByKey(s, order) && q in s
    ensures SortKey(s[0], order) >= SortKey(q, order)
  {
    var i :| 0 <= i < |s| && s[i] == q;
  }

  lemma SortedTail(s: seq<Post>, order: SortOrder)
    requires SortedByKey(s, order) && s != []
    ensures SortedByKey(s[1..], order)
  {
    forall i, j | 0 <= i < j < |s[1..]| ensures SortKey(s[1..][i], order) >= SortKey(s[1..][j], order) {
      assert s[1..][i] == s[i + 1] && s[1..][j] == s[j + 1];
    }
  }

  /** Two sorted lists of the same posts that agree on the order within
      every key start with the same post: both heads carry the largest key,
      and the list of posts with that key starts with the head. */
  lemma SameFirstPost(a: seq<Post>, b: seq<Post>, order: SortOrder)
    requires a != [] && b != [] && a[0] in b && b[0] in a
    requires SortedByKey(a, order) && SortedByKey(b, order)
    requires WithKey(a, order, SortKey(a[0], order)) == WithKey(b, order, SortKey(a[0], order))
    ensures a[0] == b[0]
  {
    HeadHasLargestKey(a, order, b[0]);
    HeadHasLargestKey(b, order, a[0]);
    var ka := SortKey(a[0], order);
    assert a == [a[0]] + a[1..] && b == [b[0]] + b[1..];
    assert SortKey(b[0], order) == ka;
    WithKeyCons(a[0], a[1..], order, ka);
    WithKeyCons(b[0], b[1..], order, ka);
    assert WithKey(a, order, ka)[0] == a[0];
    assert WithKey(b, order, ka)[0] == b[0];
  }

  lemma SameOrderAfterFirst(a: seq<Post>, b: seq<Post>, order: SortOrder)
    requires a != [] && b != [] && a[0] == b[0]
    requires forall k :: WithKey(a, order, k) == WithKey(b, order, k)
    ensures forall k :: WithKey(a[1..], order, k) == WithKey(b[1..], order, k)
  {
    forall k ensures WithKey(a[1..], order, k) == WithKey(b[1..], order, k) {
      assert WithKey(a, order, k) == WithKey(b, order, k);
      var h := if SortKey(a[0], order) == k then [a[0]] else [];
      assert WithKey(a, order, k) == h + WithKey(a[1..], order, k);
      assert WithKey(b, order, k) == h + WithKey(b[1..], order, k);
      assert WithKey(a[1..], order, k) == WithKey(a, order, k)[|h|..];
    }
  }

  /** Dropping the head of a list drops one copy of it from the multiset. */
  lemma MultisetOfTail(s: seq<Post>)
    requires s != []
    ensures multiset(s[1..]) == multiset(s) - multiset{s[0]}
  {
    assert s == [s[0]] + s[1..];
  }

  /** A stable descending sort has only one possible outcome: two lists
      holding the same posts, both sorted by key and agreeing on the order
      within every key, are equal. So the model's result is the very list
      the browser's sort produces. */
  lemma {:induction false} StableSortIsUnique(a: seq<Post>, b: seq<Post>, order: SortOrder)
    requires multiset(a) == multiset(b)
    requires SortedByKey(a, order) && SortedByKey(b, order)
    requires forall k :: WithKey(a, order, k) == WithKey(b, order, k)
    ensures a == b
  {
    if a == [] || b == [] {
      assert |multiset(a)| == |a| && |multiset(b)| == |b|;
    } else {
      assert a[0] in multiset(b) && b[0] in multiset(a);
      SameFirstPost(a, b, order);
      SameOrderAfterFirst(a, b, order);
      MultisetOfTail(a);
      MultisetOfTail(b);
      SortedTail(a, order);
      SortedTail(b, order);
      StableSortIsUnique(a[1..], b[1..], order);
    }
  }

  /** Filtering and picking out one key commute: the shown posts of a key
      are the posts of that key that are shown, in the same order. */
  lemma {:induction false} WithKeyOfFilter(s: seq<Post>, board: string, term: string, order: SortOrder, k: int)
    ensures WithKey(FilterPosts(s, board, term), order, k) == FilterPosts(WithKey(s, order, k), board, term)
  {
    if s != [] {
      var x, t := s[0], s[1..];
      assert s == [x] + t;
      var keyed := if SortKey(x, order) == k then [x] else [];
      var shownKeyed := if Shown(x, board, term) then keyed else [];
      var rest := FilterPosts(WithKey(t, order, k), board, term);
      assert WithKey(FilterPosts(s, board, term), order, k) == shownKeyed + rest by {
        FilterPostsCons(x, t, board, term);
        WithKeyOfFilter(t, board, term, order, k);
        if Shown(x, board, term) {
          WithKeyCons(x, FilterPosts(t, board, term), order, k);
        } else {
          assert FilterPosts(s, board, term) == FilterPosts(t, board, term);
          assert shownKeyed + rest == rest;
        }
      }
      assert FilterPosts(WithKey(s, order, k), board, term) == shownKeyed + rest by {
        WithKeyCons(x, t, order, k);
        assert WithKey(s, order, k) == keyed + WithKey(t, order, k);
        FilterPostsAppend(keyed, WithKey(t, order, k), board, term);
        FilterPostsSingle(x, board, term);
        assert FilterPosts(keyed, board, term) == shownKeyed;
        assert [] + rest == rest;
      }
    }
  }

  /** What `filterAndDisplayPosts` hands to the display: the current
      board's posts matching the lower-cased search input, sorted by the
      selected order. */
  function DisplayedPosts(posts: seq<Post>, currentBoard: string, searchInput: string, sortBy: string): (r: seq<Post>)
    ensures forall p :: multiset(r)[p] == if Shown(p, currentBoard, LowerAscii(searchInput)) then multiset(posts)[p] else 0
    ensures SortedByKey(r, SortOrderOf(sortBy))
  {
    SortPosts(FilterPosts(posts, currentBoard, LowerAscii(searchInput)), SortOrderOf(sortBy))
  }

  /** Posts with equal sort key keep their stored order on the page: the
      displayed posts of key `k` are the stored posts of key `k` that pass
      the filter, in stored order. */
  lemma DisplayedPostsKeepStoredOrder(posts: seq<Post>, currentBoard: string, searchInput: string, sortBy: string, k: int)
    ensures WithKey(DisplayedPosts(posts, currentBoard, searchInput, sortBy), SortOrderOf(sortBy), k)
      == WithKey(FilterPosts(posts, currentBoard, LowerAscii(searchInput)), SortOrderOf(sortBy), k)
    ensures WithKey(DisplayedPosts(posts, currentBoard, searchInput, sortBy), SortOrderOf(sortBy), k)
      == FilterPosts(WithKey(posts, SortOrderOf(sortBy), k), currentBoard, LowerAscii(searchInput))
  {
    SortIsStable(FilterPosts(posts, currentBoard, LowerAscii(searchInput)), SortOrderOf(sortBy), k);
    WithKeyOfFilter(posts, currentBoard, LowerAscii(searchInput), SortOrderOf(sortBy), k);
  }

  /** The displayed list is characterised without the insertion sort: it
      is the one arrangement of the filtered posts that is sorted by key and
      keeps the stored order among equal keys, which is what a stable
      `sort` with the comparator returns. */
  lemma DisplayedPostsAreTheStableSort(posts: seq<Post>, currentBoard: string, searchInput: string, sortBy: string, c: seq<Post>)
    requires multiset(c) == multiset(FilterPosts(posts, currentBoard, LowerAscii(searchInput)))
    requires SortedByKey(c, SortOrderOf(sortBy))
    requires forall k :: WithKey(c, SortOrderOf(sortBy), k)
                         == WithKey(FilterPosts(posts, currentBoard, LowerAscii(searchInput)), SortOrderOf(sortBy), k)
    ensures c == DisplayedPosts(posts, currentBoard, searchInput, sortBy)
  {
    var filtered := FilterPosts(posts, currentBoard, LowerAscii(searchInput));
    var order := SortOrderOf(sortBy);
    forall k ensures WithKey(c, order, k) == WithKey(SortPosts(filtered, order), order, k) {
      SortIsStable(filtered, order, k);
    }
    StableSortIsUnique(c, SortPosts(filtered, order), order);
  }
}
