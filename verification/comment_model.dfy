/** The comment record (models/comment.js:5-21) and the collection of comments as a finite map. */
module CommentModel {
  import opened Optional
  import opened UserModel

  type CommentId = nat

  /** `date` and `userId` are required; `editDate` and `content` are optional. */
  datatype Comment = Comment(
    date: int,
    editDate: Option<int>,
    content: Option<string>,
    userId: UserId)

  type Comments = map<CommentId, Comment>

  /** Every comment's `userId` refers to a stored user. */
  predicate OwnersExist(comments: Comments, users: Users) {
    forall k :: k in comments ==> comments[k].userId in users
  }

  /**
   * `order` lists every comment exactly once, newest first
   * (`find().sort({ date: -1 })`); comments with equal dates may come in
   * either order.
   */
  predicate IsListing(comments: Comments, order: seq<CommentId>) {
    && (forall i :: 0 <= i < |order| ==> order[i] in comments)
    && (forall k :: k in comments ==> k in order)
    && (forall i, j :: 0 <= i < j < |order| ==> order[i] != order[j])
    && (forall i, j :: 0 <= i < j < |order| ==> comments[order[i]].date >= comments[order[j]].date)
  }

  /** A listing enumerates the collection: it is exactly as long as the collection is large. */
  lemma {:induction false} ListingLength(comments: Comments, order: seq<CommentId>)
    requires IsListing(comments, order)
    ensures |order| == |comments|
  {
    var elems := set i | 0 <= i < |order| :: order[i];
    assert elems == comments.Keys;
    DistinctCardinality(order);
  }

  lemma {:induction false} DistinctCardinality(order: seq<CommentId>)
    requires forall i, j :: 0 <= i < j < |order| ==> order[i] != order[j]
    ensures |set i | 0 <= i < |order| :: order[i]| == |order|
  {
    if |order| > 0 {
      var init := order[..|order| - 1];
      DistinctCardinality(init);
      var a := set i | 0 <= i < |init| :: init[i];
      var b := set i | 0 <= i < |order| :: order[i];
      assert b == a + {order[|order| - 1]};
      assert order[|order| - 1] !in a;
    }
  }
}
