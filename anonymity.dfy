/** Per-post anonymous numbering: within one post every writer is shown as
    "익명N", where N is handed out 1, 2, 3, ... in order of first appearance
    and never changes afterwards. The page keeps one table for all posts,
    from post id to that post's counter and user-to-number map. */
module Anonymity {
  import opened BoardData

  /** The numbering of one post: the next number to hand out, and the number
      each student already holds. */
  datatype PostNumbers = PostNumbers(counter: int, userMap: map<StudentId, int>)

  type Table = map<PostId, PostNumbers>

  /** The entry a post gets when it is first seen. */
  const FRESH: PostNumbers := PostNumbers(1, map[])

  /** The entry of post `p`, or the fresh one the lookup would create. */
  function EntryOf(t: Table, p: PostId): PostNumbers {
    if p in t then t[p] else FRESH
  }

  /** The truthiness test `userMap[studentId]`: present and non-zero. */
  predicate HasNumber(e: PostNumbers, s: StudentId) {
    s in e.userMap && e.userMap[s] != 0
  }

  /** The table after `getAnonymousIdForPost(p, s)`: the post's entry is
      created if missing, and a student without a number gets the counter's
      value, after which the counter moves on by one. */
  function Assign(t: Table, p: PostId, s: StudentId): (t': Table)
    ensures p in t'
    ensures forall q :: q != p ==> (q in t' <==> q in t)
    ensures forall q :: q != p && q in t ==> t'[q] == t[q]
  {
    var e := EntryOf(t, p);
    if HasNumber(e, s) then t[p := e]
    else t[p := Admitted(e, s)]
  }

  /** The number `getAnonymousIdForPost(p, s)` returns: what the student
      holds on the post once the call has updated the table. */
  function NumberOf(t: Table, p: PostId, s: StudentId): int {
    var e := Assign(t, p, s)[p];
    if s in e.userMap then e.userMap[s] else 0
  }

  /** The invariant of one post's numbering: the counter is one more than
      the number of students seen, the numbers in use are exactly
      1 .. counter-1, and no two students share one. */
  ghost predicate WellNumbered(e: PostNumbers) {
    && e.counter == |e.userMap| + 1
    && (forall s :: s in e.userMap ==> 1 <= e.userMap[s] < e.counter)
    && (forall n :: 1 <= n < e.counter ==> Held(e, n))
    && forall s1, s2 :: s1 in e.userMap && s2 in e.userMap && s1 != s2 ==> e.userMap[s1] != e.userMap[s2]
  }

  /** Some student holds number `n` on the post. */
  ghost predicate Held(e: PostNumbers, n: int) {
    exists s :: s in e.userMap && e.userMap[s] == n
  }

  /** Every post of the table is well numbered. */
  ghost predicate ValidTable(t: Table) {
    forall p {:trigger WellNumbered(t[p])} :: p in t ==> WellNumbered(t[p])
  }

  lemma FreshIsWellNumbered()
    ensures WellNumbered(FRESH)
  {
  }

  /** In a well-numbered entry every number held is at least 1, so the
      truthiness test is plain membership. */
  lemma HasNumberIsMembership(e: PostNumbers, s: StudentId)
    requires WellNumbered(e)
    ensures HasNumber(e, s) <==> s in e.userMap
    ensures s in e.userMap ==> 1 <= e.userMap[s] < e.counter
  {
  }

  /** The entry after newcomer `s` takes the counter's value. */
  function Admitted(e: PostNumbers, s: StudentId): PostNumbers {
    PostNumbers(e.counter + 1, e.userMap[s := e.counter])
  }

  /** After a newcomer is admitted, every number from 1 up to the new
      counter's predecessor is still held by someone. */
  lemma AdmittedHoldsAllNumbers(e: PostNumbers, s: StudentId)
    requires WellNumbered(e) && s !in e.userMap
    ensures forall n :: 1 <= n < Admitted(e, s).counter ==> Held(Admitted(e, s), n)
  {
    var e' := Admitted(e, s);
    forall n | 1 <= n < e'.counter ensures Held(e', n) {
      if n == e.counter {
        assert e'.userMap[s] == n;
      } else {
        assert Held(e, n);
        var x :| x in e.userMap && e.userMap[x] == n;
        assert e'.userMap[x] == n;
      }
    }
  }

  /** After a newcomer is admitted, no two students share a number. */
  lemma AdmittedKeepsNumbersDistinct(e: PostNumbers, s: StudentId)
    requires WellNumbered(e) && s !in e.userMap
    ensures var m := Admitted(e, s).userMap;
      forall s1, s2 :: s1 in m && s2 in m && s1 != s2 ==> m[s1] != m[s2]
  {
    var m := Admitted(e, s).userMap;
    forall s1, s2 | s1 in m && s2 in m && s1 != s2 ensures m[s1] != m[s2] {
      if s1 == s {
        HasNumberIsMembership(e, s2);
      } else if s2 == s {
        HasNumberIsMembership(e, s1);
      }
    }
  }

  /** A newcomer to a well-numbered entry takes the counter's value, and
      the entry stays well numbered. */
  lemma NewcomerKeepsWellNumbered(e: PostNumbers, s: StudentId)
    requires WellNumbered(e) && s !in e.userMap
    ensures WellNumbered(Admitted(e, s))
  {
    var e' := Admitted(e, s);
    assert e'.userMap.Keys == e.userMap.Keys + {s};
    AdmittedHoldsAllNumbers(e, s);
    AdmittedKeepsNumbersDistinct(e, s);
  }

  /** Handing out a number keeps every post well numbered. */
  lemma {:induction false} AssignKeepsWellNumbered(t: Table, p: PostId, s: StudentId)
    requires ValidTable(t)
    ensures ValidTable(Assign(t, p, s))
  {
    EntryIsWellNumbered(t, p);
    var e := EntryOf(t, p);
    HasNumberIsMembership(e, s);
    if !HasNumber(e, s) {
      NewcomerKeepsWellNumbered(e, s);
    }
  }

  /** Asking again for the same post and student returns the same number
      and leaves the table as it is. */
  lemma AssignIsStable(t: Table, p: PostId, s: StudentId)
    requires ValidTable(t)
    ensures Assign(Assign(t, p, s), p, s) == Assign(t, p, s)
    ensures NumberOf(Assign(t, p, s), p, s) == NumberOf(t, p, s)
  {
    var t1 := Assign(t, p, s);
    AssignGivesNumber(t, p, s);
    assert EntryOf(t1, p) == t1[p];
    assert t1[p := t1[p]] == t1;
  }

  /** Every entry of a valid table, and the fresh entry, is well numbered. */
  lemma EntryIsWellNumbered(t: Table, p: PostId)
    requires ValidTable(t)
    ensures WellNumbered(EntryOf(t, p))
  {
    FreshIsWellNumbered();
  }

  /** After the call the student holds a number, at least 1, and that is
      the number returned. */
  lemma AssignGivesNumber(t: Table, p: PostId, s: StudentId)
    requires ValidTable(t)
    ensures HasNumber(Assign(t, p, s)[p], s)
    ensures NumberOf(t, p, s) == Assign(t, p, s)[p].userMap[s] >= 1
  {
    EntryIsWellNumbered(t, p);
    HasNumberIsMembership(EntryOf(t, p), s);
  }

  /** A student seen for the first time on a post gets the next number in
      order: one more than the number of students already seen there, so 1
      on a post the table does not know yet. Every other student on that
      post keeps the number held before. */
  lemma NextNumberForNewcomer(t: Table, p: PostId, s: StudentId)
    requires ValidTable(t)
    requires s !in EntryOf(t, p).userMap
    ensures NumberOf(t, p, s) == |EntryOf(t, p).userMap| + 1
    ensures p !in t ==> NumberOf(t, p, s) == 1
    ensures forall x :: x in EntryOf(t, p).userMap ==>
      x in Assign(t, p, s)[p].userMap && Assign(t, p, s)[p].userMap[x] == EntryOf(t, p).userMap[x]
  {
    FreshIsWellNumbered();
    assert WellNumbered(EntryOf(t, p));
  }

  /** A post id the table has never seen, as a newly written post has,
      gives its first caller, the post's author, number 1. */
  lemma NewPostAuthorIsOne(t: Table, p: PostId, s: StudentId)
    requires ValidTable(t) && p !in t
    ensures NumberOf(t, p, s) == 1
    ensures Assign(t, p, s)[p] == PostNumbers(2, map[s := 1])
  {
    NextNumberForNewcomer(t, p, s);
  }

  /** A student who already holds a number on a post gets that number back
      and the table does not change. */
  lemma ReturningStudentKeepsNumber(t: Table, p: PostId, s: StudentId)
    requires ValidTable(t)
    requires p in t && s in t[p].userMap
    ensures NumberOf(t, p, s) == t[p].userMap[s]
    ensures Assign(t, p, s) == t
  {
    HasNumberIsMembership(t[p], s);
    assert t[p := t[p]] == t;
  }

  /** Two different students on the same post never receive the same
      number, whatever the order of their requests. */
  lemma DifferentStudentsDifferentNumbers(t: Table, p: PostId, s1: StudentId, s2: StudentId)
    requires ValidTable(t) && s1 != s2
    ensures NumberOf(t, p, s1) != NumberOf(Assign(t, p, s1), p, s2)
  {
    var t1 := Assign(t, p, s1);
    var t2 := Assign(t1, p, s2);
    AssignKeepsWellNumbered(t, p, s1);
    AssignKeepsWellNumbered(t1, p, s2);
    HasNumberIsMembership(t1[p], s1);
    if HasNumber(t1[p], s2) {
      assert t2[p] == t1[p];
    } else {
      HasNumberIsMembership(t1[p], s2);
      assert t2[p].userMap[s1] == t1[p].userMap[s1];
    }
  }

  // ---------------------------------------------------------------------
  // Replaying stored posts and comments

  /** One call of the numbering function. */
  datatype Request = Request(postId: PostId, studentId: StudentId)

  /** The table after the requests have been made one after another. */
  function Replay(t: Table, rs: seq<Request>): Table
  {
    if rs == [] then t
    else
      var last := rs[|rs| - 1];
      Assign(Replay(t, rs[..|rs| - 1]), last.postId, last.studentId)
  }

  /** The requests `rebuildAnonymousMap` makes for the posts: one per post
      whose author is known, in list order. */
  function PostRequests(posts: seq<Post>): (rs: seq<Request>)
    ensures |rs| <= |posts|
  {
    if posts == [] then []
    else
      var last := posts[|posts| - 1];
      PostRequests(posts[..|posts| - 1])
      + (if last.authorStudentId != "" then [Request(last.id, last.authorStudentId)] else [])
  }

  /** The requests it then makes for the comments. */
  function CommentRequests(comments: seq<Comment>): (rs: seq<Request>)
    ensures |rs| <= |comments|
  {
    if comments == [] then []
    else
      var last := comments[|comments| - 1];
      CommentRequests(comments[..|comments| - 1])
      + (if last.authorStudentId != "" then [Request(last.postId, last.authorStudentId)] else [])
  }

  /** All posts first, then all comments. */
  function RebuildRequests(posts: seq<Post>, comments: seq<Comment>): seq<Request> {
    PostRequests(posts) + CommentRequests(comments)
  }

  /** Replaying two batches is replaying the first, then the second. */
  lemma {:induction false} ReplayAppend(t: Table, a: seq<Request>, b: seq<Request>)
    ensures Replay(t, a + b) == Replay(Replay(t, a), b)
  {
    if b != [] {
      assert (a + b)[..|a + b| - 1] == a + b[..|b| - 1];
      assert (a + b)[|a + b| - 1] == b[|b| - 1];
      ReplayAppend(t, a, b[..|b| - 1]);
    } else {
      assert a + b == a;
    }
  }

  lemma {:induction false} PostRequestsAppend(a: seq<Post>, b: seq<Post>)
    ensures PostRequests(a + b) == PostRequests(a) + PostRequests(b)
  {
    if b != [] {
      assert (a + b)[..|a + b| - 1] == a + b[..|b| - 1];
      assert (a + b)[|a + b| - 1] == b[|b| - 1];
      PostRequestsAppend(a, b[..|b| - 1]);
    } else {
      assert a + b == a;
    }
  }

  /** One more request is one more call on the table it leaves. */
  lemma ReplayStep(t: Table, rs: seq<Request>, r: Request)
    ensures Replay(t, rs + [r]) == Assign(Replay(t, rs), r.postId, r.studentId)
  {
    assert (rs + [r])[..|rs|] == rs;
  }

  /** Taking one more post adds its request, if its author is known. */
  lemma PostRequestsStep(posts: seq<Post>, i: nat)
    requires i < |posts|
    ensures PostRequests(posts[..i + 1]) == PostRequests(posts[..i])
      + (if posts[i].authorStudentId != "" then [Request(posts[i].id, posts[i].authorStudentId)] else [])
  {
    assert posts[..i + 1][..i] == posts[..i];
  }

  lemma CommentRequestsStep(comments: seq<Comment>, j: nat)
    requires j < |comments|
    ensures CommentRequests(comments[..j + 1]) == CommentRequests(comments[..j])
      + (if comments[j].authorStudentId != "" then [Request(comments[j].postId, comments[j].authorStudentId)] else [])
  {
    assert comments[..j + 1][..j] == comments[..j];
  }

  /** One more post replays one more request when its author is known,
      and none otherwise. */
  lemma ReplayPostsStep(t: Table, posts: seq<Post>, i: nat)
    requires i < |posts|
    ensures posts[i].authorStudentId != "" ==>
      (Replay(t, PostRequests(posts[..i + 1])) == Assign(Replay(t, PostRequests(posts[..i])), posts[i].id, posts[i].authorStudentId))
    ensures posts[i].authorStudentId == "" ==>
      (Replay(t, PostRequests(posts[..i + 1])) == Replay(t, PostRequests(posts[..i])))
  {
    PostRequestsStep(posts, i);
    if posts[i].authorStudentId != "" {
      ReplayStep(t, PostRequests(posts[..i]), Request(posts[i].id, posts[i].authorStudentId));
    } else {
      assert PostRequests(posts[..i + 1]) == PostRequests(posts[..i]);
    }
  }

  lemma ReplayCommentsStep(t: Table, comments: seq<Comment>, j: nat)
    requires j < |comments|
    ensures comments[j].authorStudentId != "" ==>
      (Replay(t, CommentRequests(comments[..j + 1])) == Assign(Replay(t, CommentRequests(comments[..j])), comments[j].postId, comments[j].authorStudentId))
    ensures comments[j].authorStudentId == "" ==>
      (Replay(t, CommentRequests(comments[..j + 1])) == Replay(t, CommentRequests(comments[..j])))
  {
    CommentRequestsStep(comments, j);
    if comments[j].authorStudentId != "" {
      ReplayStep(t, CommentRequests(comments[..j]), Request(comments[j].postId, comments[j].authorStudentId));
    } else {
      assert CommentRequests(comments[..j + 1]) == CommentRequests(comments[..j]);
    }
  }

  /** Every request made for the posts names one of the posts and its
      author. */
  lemma {:induction false} PostRequestsFromPosts(posts: seq<Post>, r: Request)
    requires r in PostRequests(posts)
    ensures exists i :: 0 <= i < |posts| && posts[i].id == r.postId && posts[i].authorStudentId == r.studentId
                     && posts[i].authorStudentId != ""
  {
    var last := posts[|posts| - 1];
    if r in PostRequests(posts[..|posts| - 1]) {
      PostRequestsFromPosts(posts[..|posts| - 1], r);
      var i :| 0 <= i < |posts| - 1 && posts[..|posts| - 1][i].id == r.postId
        && posts[..|posts| - 1][i].authorStudentId == r.studentId && posts[..|posts| - 1][i].authorStudentId != "";
      assert posts[i] == posts[..|posts| - 1][i];
    } else {
      assert r == Request(last.id, last.authorStudentId);
    }
  }

  /** Replaying requests keeps every post well numbered. */
  lemma {:induction false} ReplayKeepsValid(t: Table, rs: seq<Request>)
    requires ValidTable(t)
    ensures ValidTable(Replay(t, rs))
  {
    if rs != [] {
      ReplayKeepsValid(t, rs[..|rs| - 1]);
      var last := rs[|rs| - 1];
      AssignKeepsWellNumbered(Replay(t, rs[..|rs| - 1]), last.postId, last.studentId);
    }
  }

  /** A number once handed out is never changed by later requests. */
  lemma {:induction false} ReplayKeepsNumbers(t: Table, rs: seq<Request>, p: PostId, s: StudentId)
    requires ValidTable(t) && p in t && s in t[p].userMap
    ensures p in Replay(t, rs) && s in Replay(t, rs)[p].userMap
    ensures Replay(t, rs)[p].userMap[s] == t[p].userMap[s]
  {
    if rs != [] {
      var init := rs[..|rs| - 1];
      var last := rs[|rs| - 1];
      ReplayKeepsNumbers(t, init, p, s);
      var t0 := Replay(t, init);
      ReplayKeepsValid(t, init);
      HasNumberIsMembership(t0[p], s);
    }
  }

  /** The students who write on post `p` in the order they first appear
      among the requests. */
  function Arrivals(rs: seq<Request>, p: PostId): (a: seq<StudentId>)
    ensures forall i, j :: 0 <= i < j < |a| ==> a[i] != a[j]
  {
    if rs == [] then []
    else
      var a := Arrivals(rs[..|rs| - 1], p);
      var last := rs[|rs| - 1];
      if last.postId == p && last.studentId !in a then a + [last.studentId] else a
  }

  /** On a post the table did not know, numbers follow the order of first
      appearance: the k-th distinct student to write holds k+1, and the
      counter is one past the last number given. */
  lemma {:induction false} NumbersFollowArrivalOrder(t: Table, rs: seq<Request>, p: PostId)
    requires ValidTable(t) && p !in t
    ensures EntryOf(Replay(t, rs), p).counter == |Arrivals(rs, p)| + 1
    ensures forall s :: s in EntryOf(Replay(t, rs), p).userMap <==> s in Arrivals(rs, p)
    ensures forall k :: 0 <= k < |Arrivals(rs, p)| ==>
      EntryOf(Replay(t, rs), p).userMap[Arrivals(rs, p)[k]] == k + 1
  {
    if rs != [] {
      var init := rs[..|rs| - 1];
      var last := rs[|rs| - 1];
      NumbersFollowArrivalOrder(t, init, p);
      var t0 := Replay(t, init);
      ReplayKeepsValid(t, init);
      FreshIsWellNumbered();
      var e0 := EntryOf(t0, p);
      assert WellNumbered(e0);
      if last.postId == p {
        HasNumberIsMembership(e0, last.studentId);
      }
    }
  }

  /** Right after it is made, the first request for a post the table did
      not know holds number 1, and the table is still valid. */
  lemma FirstRequestStep(t: Table, rs: seq<Request>, i: nat)
    requires ValidTable(t) && i < |rs| && rs[i].postId !in t
    requires forall j :: 0 <= j < i ==> rs[j].postId != rs[i].postId
    ensures ValidTable(Replay(t, rs[..i + 1]))
    ensures rs[i].postId in Replay(t, rs[..i + 1])
    ensures rs[i].studentId in Replay(t, rs[..i + 1])[rs[i].postId].userMap
    ensures Replay(t, rs[..i + 1])[rs[i].postId].userMap[rs[i].studentId] == 1
  {
    var p, s := rs[i].postId, rs[i].studentId;
    NotYetRequested(t, rs[..i], p);
    ReplayStep(t, rs[..i], rs[i]);
    assert rs[..i] + [rs[i]] == rs[..i + 1];
    ReplayKeepsValid(t, rs[..i]);
    NextNumberForNewcomer(Replay(t, rs[..i]), p, s);
    AssignKeepsWellNumbered(Replay(t, rs[..i]), p, s);
  }

  /** The first request for a post the table did not know gets number 1,
      and keeps it through all later requests. */
  lemma {:induction false} FirstRequestGetsOne(t: Table, rs: seq<Request>, i: nat)
    requires ValidTable(t) && i < |rs| && rs[i].postId !in t
    requires forall j :: 0 <= j < i ==> rs[j].postId != rs[i].postId
    ensures rs[i].postId in Replay(t, rs)
    ensures rs[i].studentId in Replay(t, rs)[rs[i].postId].userMap
    ensures Replay(t, rs)[rs[i].postId].userMap[rs[i].studentId] == 1
  {
    FirstRequestStep(t, rs, i);
    var t1 := Replay(t, rs[..i + 1]);
    ReplayKeepsNumbers(t1, rs[i + 1..], rs[i].postId, rs[i].studentId);
    ReplayAppend(t, rs[..i + 1], rs[i + 1..]);
    assert rs[..i + 1] + rs[i + 1..] == rs;
  }

  /** Requests that never name post `p` leave it out of the table. */
  lemma {:induction false} NotYetRequested(t: Table, rs: seq<Request>, p: PostId)
    requires p !in t
    requires forall j :: 0 <= j < |rs| ==> rs[j].postId != p
    ensures p !in Replay(t, rs)
  {
    if rs != [] {
      NotYetRequested(t, rs[..|rs| - 1], p);
    }
  }

  /** `rebuildAnonymousMap` never changes a number already handed out. */
  lemma RebuildKeepsNumbers(t: Table, posts: seq<Post>, comments: seq<Comment>, p: PostId, s: StudentId)
    requires ValidTable(t) && p in t && s in t[p].userMap
    ensures p in Replay(t, RebuildRequests(posts, comments))
    ensures s in Replay(t, RebuildRequests(posts, comments))[p].userMap
    ensures Replay(t, RebuildRequests(posts, comments))[p].userMap[s] == t[p].userMap[s]
  {
    ReplayKeepsNumbers(t, RebuildRequests(posts, comments), p, s);
  }

  /** The request for the first post with id `posts[i].id` and a known
      author follows only requests for other posts. */
  lemma AuthorRequestIsFirstForPost(posts: seq<Post>, i: nat)
    requires i < |posts| && posts[i].authorStudentId != ""
    requires forall j :: 0 <= j < i && posts[j].id == posts[i].id ==> posts[j].authorStudentId == ""
    ensures PostRequests(posts)
      == PostRequests(posts[..i]) + [Request(posts[i].id, posts[i].authorStudentId)] + PostRequests(posts[i + 1..])
    ensures forall j :: 0 <= j < |PostRequests(posts[..i])| ==> PostRequests(posts[..i])[j].postId != posts[i].id
  {
    var before := PostRequests(posts[..i]);
    PostRequestsStep(posts, i);
    forall j | 0 <= j < |before| ensures before[j].postId != posts[i].id {
      PostRequestsFromPosts(posts[..i], before[j]);
    }
    assert posts == posts[..i + 1] + posts[i + 1..];
    PostRequestsAppend(posts[..i + 1], posts[i + 1..]);
  }

  /** On a post without a prior mapping, its author (the first listed post
      with that id and a known author) is numbered before any commenter and
      is "익명1". */
  lemma RebuildNumbersAuthorFirst(t: Table, posts: seq<Post>, comments: seq<Comment>, i: nat)
    requires ValidTable(t) && i < |posts| && posts[i].id !in t && posts[i].authorStudentId != ""
    requires forall j :: 0 <= j < i && posts[j].id == posts[i].id ==> posts[j].authorStudentId == ""
    ensures var t' := Replay(t, RebuildRequests(posts, comments));
      posts[i].id in t' && posts[i].authorStudentId in t'[posts[i].id].userMap
      && t'[posts[i].id].userMap[posts[i].authorStudentId] == 1
  {
    var before := PostRequests(posts[..i]);
    var r := Request(posts[i].id, posts[i].authorStudentId);
    AuthorRequestIsFirstForPost(posts, i);
    var rs := RebuildRequests(posts, comments);
    assert rs == before + [r] + (PostRequests(posts[i + 1..]) + CommentRequests(comments));
    assert rs[|before|] == r;
    FirstRequestGetsOne(t, rs, |before|);
  }

  /** The page's numbering table. */
  class AnonymousRegistry {
    var table: Table

    ghost predicate Valid()
      reads this
    {
      ValidTable(table)
    }

    constructor ()
      ensures Valid() && table == map[]
    {
      table := map[];
    }

    /** `getAnonymousIdForPost`. */
    method AnonymousIdForPost(postId: PostId, studentId: StudentId) returns (n: int)
      requires Valid()
      modifies this
      ensures Valid()
      ensures table == Assign(old(table), postId, studentId)
      ensures n == NumberOf(old(table), postId, studentId) && n >= 1
    {
      ghost var before := table;
      // The entry is created when missing and then updated in place; the
      // table receives it in one write.
      var entry := if postId in table then table[postId] else PostNumbers(1, map[]);
      if !HasNumber(entry, studentId) {
        entry := entry.(userMap := entry.userMap[studentId := entry.counter]);
        entry := entry.(counter := entry.counter + 1);
      }
      table := table[postId := entry];
      AssignKeepsWellNumbered(before, postId, studentId);
      AssignGivesNumber(before, postId, studentId);
      n := entry.userMap[studentId];
    }

    /** The first loop of `rebuildAnonymousMap`: each post's author, in
        list order, when the author is known. */
    method ReplayPosts(posts: seq<Post>)
      requires Valid()
      modifies this
      ensures Valid()
      ensures table == Replay(old(table), PostRequests(posts))
    {
      ghost var start := table;
      var i := 0;
      while i < |posts|
        invariant 0 <= i <= |posts|
        invariant Valid()
        invariant table == Replay(start, PostRequests(posts[..i]))
      {
        var post := posts[i];
        ReplayPostsStep(start, posts, i);
        if post.authorStudentId != "" {
          var _ := AnonymousIdForPost(post.id, post.authorStudentId);
        }
        i := i + 1;
      }
      assert posts[..|posts|] == posts;
    }

    /** The second loop: each comment's author, in list order, when the
        author is known. */
    method ReplayComments(comments: seq<Comment>)
      requires Valid()
      modifies this
      ensures Valid()
      ensures table == Replay(old(table), CommentRequests(comments))
    {
      ghost var start := table;
      var j := 0;
      while j < |comments|
        invariant 0 <= j <= |comments|
        invariant Valid()
        invariant table == Replay(start, CommentRequests(comments[..j]))
      {
        var comment := comments[j];
        ReplayCommentsStep(start, comments, j);
        if comment.authorStudentId != "" {
          var _ := AnonymousIdForPost(comment.postId, comment.authorStudentId);
        }
        j := j + 1;
      }
      assert comments[..|comments|] == comments;
    }

    /** `rebuildAnonymousMap`: the posts' authors first, then the
        comments' authors, each through the numbering function. */
    method Rebuild(posts: seq<Post>, comments: seq<Comment>)
      requires Valid()
      modifies this
      ensures Valid()
      ensures table == Replay(old(table), RebuildRequests(posts, comments))
    {
      ghost var start := table;
      ReplayPosts(posts);
      ReplayComments(comments);
      ReplayAppend(start, PostRequests(posts), CommentRequests(comments));
    }
  }
}
