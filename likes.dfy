/** Like toggling for posts and for comments. The page keeps, per session, the
    set of ids the user has liked, and every post or comment carries its like
    count. Both toggles work the same way on their own set and records, so
    one ledger models either: the records are reduced to the count of the
    first record with each id, which is the one `find` returns. */
module Likes {

  type ItemId = string

  /** The liked set and the like count of every known item. */
  datatype Ledger = Ledger(liked: set<ItemId>, likes: map<ItemId, int>)

  function Max(a: int, b: int): int {
    if a >= b then a else b
  }

  /** The ledger after one toggle of `id`: an unknown id changes nothing; a
      liked id is unliked and its count drops by one but not below zero;
      any other id is liked and its count rises by one. */
  function Toggled(l: Ledger, id: ItemId): Ledger {
    if id !in l.likes then l
    else if id in l.liked then Ledger(l.liked - {id}, l.likes[id := Max(0, l.likes[id] - 1)])
    else Ledger(l.liked + {id}, l.likes[id := l.likes[id] + 1])
  }

  /** No count is negative. */
  predicate CountsNonNegative(l: Ledger) {
    forall id :: id in l.likes ==> l.likes[id] >= 0
  }

  /** What one toggle does to the toggled id: membership flips, the count
      rises by one on a like, and on an unlike falls by one or stays at zero
      (and is never negative afterwards, whatever it was before). */
  lemma ToggleEffect(l: Ledger, id: ItemId)
    requires id in l.likes
    ensures id in Toggled(l, id).likes
    ensures id in Toggled(l, id).liked <==> id !in l.liked
    ensures id !in l.liked ==> Toggled(l, id).likes[id] == l.likes[id] + 1
    ensures id in l.liked ==> Toggled(l, id).likes[id] >= 0
    ensures id in l.liked && l.likes[id] >= 1 ==> Toggled(l, id).likes[id] == l.likes[id] - 1
    ensures id in l.liked && l.likes[id] <= 0 ==> Toggled(l, id).likes[id] == 0
  {
  }

  /** A toggle touches nothing but the toggled id, and an unknown id not
      even that. */
  lemma ToggleIsLocal(l: Ledger, id: ItemId, other: ItemId)
    requires other != id
    ensures other in Toggled(l, id).liked <==> other in l.liked
    ensures other in Toggled(l, id).likes <==> other in l.likes
    ensures other in l.likes ==> Toggled(l, id).likes[other] == l.likes[other]
    ensures id !in l.likes ==> Toggled(l, id) == l
  {
  }

  /** Counts never become negative. */
  lemma ToggleKeepsCountsNonNegative(l: Ledger, id: ItemId)
    requires CountsNonNegative(l)
    ensures CountsNonNegative(Toggled(l, id))
  {
  }

  /** Liking and then unliking restores both the set and the count. */
  lemma LikeThenUnlikeRestores(l: Ledger, id: ItemId)
    requires id in l.likes && id !in l.liked && l.likes[id] >= 0
    ensures Toggled(Toggled(l, id), id) == l
  {
    assert l.likes[id := l.likes[id]] == l.likes;
    assert l.liked + {id} - {id} == l.liked;
  }

  /** Unliking and then liking restores both as long as the count was
      positive; from a liked item with count zero the pair ends at one,
      because the unlike cannot go below zero. */
  lemma UnlikeThenLike(l: Ledger, id: ItemId)
    requires id in l.likes && id in l.liked && l.likes[id] >= 0
    ensures l.likes[id] >= 1 ==> Toggled(Toggled(l, id), id) == l
    ensures l.likes[id] == 0 ==> Toggled(Toggled(l, id), id) == l.(likes := l.likes[id := 1])
  {
    assert l.likes[id := l.likes[id]] == l.likes;
    assert l.liked - {id} + {id} == l.liked;
  }

  /** The liked set of one kind of item with the records' counts. */
  class LikeBook {
    var liked: set<ItemId>
    var likes: map<ItemId, int>

    function State(): Ledger
      reads this
    {
      Ledger(liked, likes)
    }

    /** An empty liked set over the records loaded for the page. */
    constructor (counts: map<ItemId, int>)
      ensures liked == {} && likes == counts
    {
      liked := {};
      likes := counts;
    }

    /** The set and count part of `toggleLike` and `toggleCommentLike`: an
        id with no record returns at once; a liked id leaves the set and its
        count becomes `Math.max(0, likes - 1)`; any other id joins the set
        and its count grows by one. */
    method Toggle(id: ItemId)
      modifies this
      ensures State() == Toggled(old(State()), id)
      ensures CountsNonNegative(old(State())) ==> CountsNonNegative(State())
    {
      if CountsNonNegative(State()) {
        ToggleKeepsCountsNonNegative(State(), id);
      }
      if id !in likes {
        return;
      }
      if id in liked {
        liked := liked - {id};
        likes := likes[id := Max(0, likes[id] - 1)];
      } else {
        liked := liked + {id};
        likes := likes[id := likes[id] + 1];
      }
    }
  }
}
