/**
 * The comment board actions of controllers/comment.js. Adding, editing and
 * deleting run only behind the authentication guard (routes/comment.js:7-11),
 * so they take the current user's id; the clock is the `now` parameter and a
 * new comment's id is the fresh id the store hands out.
 */
module CommentController {
  import opened Optional
  import opened JsText
  import opened UserModel
  import opened CommentModel
  import opened Http
  import opened Pagination

  datatype BoardOutcome = BoardOutcome(comments: Comments, response: Response)

  /** What the listing page shows: one window of the newest-first listing, with its pagination record. */
  datatype CommentsView =
    | CommentsPage(entries: seq<(CommentId, Comment)>, itemCounterStart: int, pagination: Pagination)
    | ListingError

  /**
   * `parseInt(req.query.page) || 1`: an absent query reads as the text
   * "undefined"; NaN and zero (of either sign) both fall back to page 1.
   */
  function PageNumber(query: Option<string>): (page: int)
    ensures page != 0
  {
    var text := if query.Some? then query.value else "undefined";
    match ParseInt(text)
    case None => 1
    case Some(n) => if n == 0 then 1 else n
  }

  lemma PageNumberOfDecimal(n: nat)
    ensures PageNumber(Some(Decimal(n))) == if n == 0 then 1 else n
  {
    ParseIntDecimal(n);
  }

  lemma PageNumberOfNegative(n: nat)
    requires n > 0
    ensures PageNumber(Some("-" + Decimal(n))) == -(n as int)
  {
    ParseIntNegativeDecimal(n);
  }

  lemma PageNumberWithoutQuery()
    ensures PageNumber(None) == 1
  {
    ParseIntLetterIsNaN("undefined");
  }

  /** A comment no later than every comment in `pool`, as the newest-first sort takes next. */
  predicate IsNewestIn(comments: Comments, pool: set<CommentId>, m: CommentId)
    requires pool <= comments.Keys
  {
    m in pool && forall k :: k in pool ==> comments[k].date <= comments[m].date
  }

  lemma {:induction false} NewestExists(comments: Comments, pool: set<CommentId>)
    requires pool <= comments.Keys && pool != {}
    ensures exists m :: IsNewestIn(comments, pool, m)
  {
    var x :| x in pool;
    if pool == {x} {
      assert IsNewestIn(comments, pool, x);
    } else {
      var rest := pool - {x};
      NewestExists(comments, rest);
      var m :| IsNewestIn(comments, rest, m);
      var newest := if comments[x].date > comments[m].date then x else m;
      forall k | k in pool ensures comments[k].date <= comments[newest].date {
        if k != x { assert k in rest; }
      }
      assert IsNewestIn(comments, pool, newest);
    }
  }

  /** `Comment.find().sort({ date: -1 })`: every comment once, newest first. */
  method ListNewestFirst(comments: Comments) returns (order: seq<CommentId>)
    ensures IsListing(comments, order)
  {
    var pool := comments.Keys;
    order := [];
    while pool != {}
      invariant pool <= comments.Keys
      invariant forall i :: 0 <= i < |order| ==> order[i] in comments && order[i] !in pool
      invariant forall k :: k in comments ==> k in pool || k in order
      invariant forall i, j :: 0 <= i < j < |order| ==> order[i] != order[j]
      invariant forall i, j :: 0 <= i < j < |order| ==> comments[order[i]].date >= comments[order[j]].date
      invariant forall i, k :: 0 <= i < |order| && k in pool ==> comments[order[i]].date >= comments[k].date
      decreases pool
    {
      NewestExists(comments, pool);
      var m :| IsNewestIn(comments, pool, m);
      order := order + [m];
      pool := pool - {m};
    }
  }

  /**
   * The listing page (`getComments`): the page number is parsed from the
   * query, and the window at offset `(page - 1) * 5` of the newest-first
   * listing is shown. A negative page makes the skip negative, which the
   * store rejects.
   */
  method GetComments(comments: Comments, query: Option<string>) returns (listing: seq<CommentId>, view: CommentsView)
    ensures IsListing(comments, listing)
    ensures view.ListingError? <==> PageNumber(query) < 1
    ensures view.CommentsPage? ==>
              var page := PageNumber(query);
              && |view.entries| == |Window(listing, page)|
              && (forall i :: 0 <= i < |view.entries| ==>
                    view.entries[i] == (listing[Skip(page) + i], comments[listing[Skip(page) + i]]))
              && view.pagination == Paginator(page, |comments|)
              && view.itemCounterStart == |comments| - Skip(page)
    ensures view.CommentsPage? ==>
              (view.pagination.hasNextPage <==> |Window(listing, PageNumber(query) + 1)| > 0)
  {
    listing := ListNewestFirst(comments);
    var page := PageNumber(query);
    if page < 1 {
      view := ListingError;
    } else {
      ListingLength(comments, listing);
      HasNextPageIffNextWindow(listing, page);
      var shown := Window(listing, page);
      var entries := seq(|shown|, i requires 0 <= i < |shown| => (shown[i], comments[shown[i]]));
      view := CommentsPage(entries, |comments| - Skip(page), Paginator(page, |comments|));
    }
  }

  /**
   * `postAddComment`: one new comment dated `now`, with the submitted
   * content (absent when none was submitted) and the current user as owner.
   */
  function PostAddComment(comments: Comments, id: CommentId, currentUser: UserId, content: Option<string>, now: int): (r: BoardOutcome)
    requires id !in comments
    ensures r.comments.Keys == comments.Keys + {id}
    ensures r.comments[id].date == now && r.comments[id].editDate.None?
    ensures r.comments[id].content == content && r.comments[id].userId == currentUser
    ensures forall k :: k in comments ==> r.comments[k] == comments[k]
    ensures r.response == Redirect("/display-comments")
  {
    BoardOutcome(comments[id := Comment(now, None, content, currentUser)], Redirect("/display-comments"))
  }

  /**
   * `postEditComment`: only the owner may change a comment, and then only
   * its content and edit date. A missing comment is not checked for in the
   * handler and ends on the error path.
   */
  function PostEditComment(comments: Comments, id: CommentId, currentUser: UserId, content: Option<string>, now: int): (r: BoardOutcome)
    ensures id !in comments ==> r == BoardOutcome(comments, ServerError)
    ensures id in comments && comments[id].userId != currentUser ==> r == BoardOutcome(comments, Redirect("/"))
    ensures id in comments && comments[id].userId == currentUser ==>
              && r.response == Redirect("/display-comments")
              && r.comments.Keys == comments.Keys
              && r.comments[id].date == comments[id].date
              && r.comments[id].userId == currentUser
              && r.comments[id].content == content
              && r.comments[id].editDate == Some(now)
    ensures forall k :: k in comments && k != id ==> k in r.comments && r.comments[k] == comments[k]
  {
    if id !in comments then BoardOutcome(comments, ServerError)
    else if comments[id].userId != currentUser then BoardOutcome(comments, Redirect("/"))
    else
      var edited := comments[id].(content := content, editDate := Some(now));
      BoardOutcome(comments[id := edited], Redirect("/display-comments"))
  }

  /** `postDeleteComment`: `deleteOne({ _id: id, userId: currentUser })` removes the comment only for its owner. */
  function PostDeleteComment(comments: Comments, id: CommentId, currentUser: UserId): (r: BoardOutcome)
    ensures r.comments.Keys == if id in comments && comments[id].userId == currentUser
                               then comments.Keys - {id} else comments.Keys
    ensures forall k :: k in r.comments ==> r.comments[k] == comments[k]
    ensures r.response == Redirect("/display-comments")
  {
    var remaining := if id in comments && comments[id].userId == currentUser then comments - {id} else comments;
    BoardOutcome(remaining, Redirect("/display-comments"))
  }

  /** A comment that an edit or a delete changes or removes belongs to the user who asked. */
  predicate OnlyOwnCommentsTouched(before: Comments, after: Comments, currentUser: UserId) {
    forall k :: k in before && (k !in after || after[k] != before[k]) ==> before[k].userId == currentUser
  }

  lemma EditTouchesOnlyOwnComment(comments: Comments, id: CommentId, currentUser: UserId, content: Option<string>, now: int)
    ensures OnlyOwnCommentsTouched(comments, PostEditComment(comments, id, currentUser, content, now).comments, currentUser)
  {
  }

  lemma DeleteTouchesOnlyOwnComment(comments: Comments, id: CommentId, currentUser: UserId)
    ensures OnlyOwnCommentsTouched(comments, PostDeleteComment(comments, id, currentUser).comments, currentUser)
  {
  }

  /** Deleting a comment one has just added restores the board. */
  lemma DeleteUndoesAdd(comments: Comments, id: CommentId, currentUser: UserId, content: Option<string>, now: int)
    requires id !in comments
    ensures PostDeleteComment(PostAddComment(comments, id, currentUser, content, now).comments, id, currentUser).comments == comments
  {
  }

  /** Every action keeps each comment's owner a stored user, given the current user is one. */
  lemma ActionsKeepOwnersStored(comments: Comments, users: Users, id: CommentId, currentUser: UserId, content: Option<string>, now: int)
    requires OwnersExist(comments, users) && currentUser in users
    ensures id !in comments ==> OwnersExist(PostAddComment(comments, id, currentUser, content, now).comments, users)
    ensures OwnersExist(PostEditComment(comments, id, currentUser, content, now).comments, users)
    ensures OwnersExist(PostDeleteComment(comments, id, currentUser).comments, users)
  {
  }

  /** Repeating an edit with the same content at the same instant changes nothing more. */
  lemma EditIdempotent(comments: Comments, id: CommentId, currentUser: UserId, content: Option<string>, now: int)
    ensures var once := PostEditComment(comments, id, currentUser, content, now);
            PostEditComment(once.comments, id, currentUser, content, now) == once
  {
  }
}
