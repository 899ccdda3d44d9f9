/**
 * The review list of the early snapshot (iki-epep/src/pages/ReviewListPage.jsx),
 * where reviews are liked, commented on, edited and deleted in place. Every
 * handler changes the list the page shows and writes that list back, so the
 * stored order becomes the display order (newest first).
 */
module EarlyReviewList {
  import opened Wrappers
  import opened Text
  import opened Seqs
  import opened Sorting
  import opened Records
  import TopicDetail

  /** The `forEach` body of `loadReviews`: a missing `comments` list becomes empty. */
  function WithComments(t: Topic): (r: Topic)
    ensures r.comments == Some(t.comments.GetOr([]))
    ensures r == t.(comments := r.comments)
  {
    if t.comments.None? then t.(comments := Some([])) else t
  }

  /** `loadReviews` on a readable list: sorted newest first, then every review given its comments list. */
  function LoadedReviews(stored: seq<Topic>): (r: seq<Topic>)
    ensures |r| == |stored|
    ensures SortedDesc(r, DateKey)
    ensures forall k :: 0 <= k < |r| ==> r[k].comments.Some?
    ensures r == SortDesc(MapSeq(stored, WithComments), DateKey)
    ensures multiset(r) == multiset(MapSeq(stored, WithComments))
  {
    SortMap(stored, WithComments, DateKey, DateKey);
    MapSeq(SortDesc(stored, DateKey), WithComments)
  }

  /** `!prev[index]`: a panel never toggled counts as closed. */
  function Shown(m: map<nat, bool>, i: nat): bool {
    i in m && m[i]
  }

  /** `toggleComments`: flips the panel of review `i` and no other. */
  function ToggleShown(m: map<nat, bool>, i: nat): (r: map<nat, bool>)
    ensures Shown(r, i) == !Shown(m, i)
    ensures forall j :: j != i ==> Shown(r, j) == Shown(m, j)
  {
    m[i := !Shown(m, i)]
  }

  /** Toggling a panel twice leaves every panel as it was. */
  lemma {:induction false} ToggleShownTwice(m: map<nat, bool>, i: nat)
    ensures forall j :: Shown(ToggleShown(ToggleShown(m, i), i), j) == Shown(m, j)
  {
    var once := ToggleShown(m, i);
    assert Shown(once, i) == !Shown(m, i);
  }

  /** The page's state and the store it works on. */
  class ReviewListPage {
    const store: Store
    /** The logged-in user; the page sends anybody else to the login page. */
    const user: Session
    var reviews: seq<Topic>
    var showComments: map<nat, bool>
    var editingId: Option<nat>
    const editPicker: ImagePicker

    /** The list shown is newest first and every review has its comments list. */
    ghost predicate Valid()
      reads this
    {
      && SortedDesc(reviews, DateKey)
      && forall k :: 0 <= k < |reviews| ==> reviews[k].comments.Some?
    }

    constructor (store: Store, user: Session)
      ensures this.store == store && this.user == user
      ensures reviews == [] && showComments == map[] && editingId.None? && fresh(editPicker) && Valid()
    {
      this.store := store;
      this.user := user;
      reviews := [];
      showComments := map[];
      editingId := None;
      editPicker := new ImagePicker();
    }

    /**
     * `loadReviews`: a stored list is sorted newest first in place and every
     * review gets a comments list; a missing one leaves the page as it is; an
     * unparseable one throws and nothing changes.
     */
    method LoadReviews()
      requires Valid()
      modifies this`reviews
      ensures Valid()
      ensures store.reviews.Present? ==> reviews == LoadedReviews(store.reviews.items)
      ensures !store.reviews.Present? ==> reviews == old(reviews)
    {
      if !store.reviews.Present? {
        return;
      }
      var parsed := SortDesc(store.reviews.items, DateKey);
      ghost var sorted := parsed;
      var i := 0;
      while i < |parsed|
        invariant 0 <= i <= |parsed| == |sorted|
        invariant forall j :: 0 <= j < i ==> parsed[j] == WithComments(sorted[j])
        invariant forall j :: i <= j < |parsed| ==> parsed[j] == sorted[j]
      {
        if parsed[i].comments.None? {
          parsed := parsed[i := parsed[i].(comments := Some([]))];
        }
        i := i + 1;
      }
      reviews := parsed;
    }

    /** A change to review `index` that keeps its date keeps the list valid. */
    lemma {:induction false} ReplaceKeepsValid(index: nat, t: Topic)
      requires Valid() && index < |reviews|
      requires t.createdAt == reviews[index].createdAt && t.comments.Some?
      ensures var r := reviews[index := t];
              SortedDesc(r, DateKey) && forall k :: 0 <= k < |r| ==> r[k].comments.Some?
    {
    }

    /** `handleLike(index)`: toggles the user in review `index`, then stores the shown list. */
    method HandleLike(index: nat)
      requires Valid() && index < |reviews|
      modifies this`reviews, store`reviews
      ensures Valid()
      ensures reviews == old(reviews)[index := Like(old(reviews)[index], user.username)]
      ensures store.reviews == Present(reviews)
    {
      var review := reviews[index];
      var likeIndex := if review.likes.Some? then IndexOf(review.likes.value, user.username) else -1;
      var likes := review.likes.GetOr([]);
      if likeIndex == -1 {
        likes := likes + [user.username];
      } else {
        likes := RemoveAt(likes, likeIndex);
      }
      ReplaceKeepsValid(index, review.(likes := Some(likes)));
      reviews := reviews[index := review.(likes := Some(likes))];
      store.reviews := Present(reviews);
    }

    /**
     * `addComment(index)`: a blank text is ignored; otherwise one comment with
     * the trimmed text is appended to review `index`, the list is stored and
     * the review's comment panel is opened.
     */
    method AddCommentTo(index: nat, text: string, now: Time)
      requires Valid() && index < |reviews|
      modifies this`reviews, this`showComments, store`reviews
      ensures Valid()
      ensures IsBlank(text) ==>
                reviews == old(reviews) && showComments == old(showComments) && store.reviews == old(store.reviews)
      ensures !IsBlank(text) ==>
                && reviews == old(reviews)[index := AddComment(old(reviews)[index], TopicDetail.NewComment(user.username, text, now))]
                && store.reviews == Present(reviews)
                && showComments == old(showComments)[index := true]
    {
      if Trim(text) == [] {
        return;
      }
      var review := reviews[index];
      var comments := review.comments.GetOr([]);
      comments := comments + [Comment(user.username, Trim(text), now)];
      ReplaceKeepsValid(index, review.(comments := Some(comments)));
      reviews := reviews[index := review.(comments := Some(comments))];
      store.reviews := Present(reviews);
      showComments := showComments[index := true];
    }

    /** `deleteComment(reviewIndex, commentIndex)`: when confirmed, removes that comment of that review and stores the list. */
    method DeleteCommentAt(reviewIndex: nat, commentIndex: nat, confirmed: bool)
      requires Valid() && reviewIndex < |reviews|
      modifies this`reviews, store`reviews
      ensures Valid()
      ensures !confirmed ==> reviews == old(reviews) && store.reviews == old(store.reviews)
      ensures confirmed ==>
                && reviews == old(reviews)[reviewIndex := DeleteComment(old(reviews)[reviewIndex], commentIndex)]
                && store.reviews == Present(reviews)
    {
      if !confirmed {
        return;
      }
      var review := reviews[reviewIndex];
      var t := review.(comments := Some(RemoveAt(review.comments.value, commentIndex)));
      ReplaceKeepsValid(reviewIndex, t);
      reviews := reviews[reviewIndex := t];
      store.reviews := Present(reviews);
    }

    /** `startEdit(index)`: opens the form with the review's picture as preview. */
    method StartEdit(index: nat)
      requires index < |reviews|
      modifies this`editingId, editPicker`preview
      ensures editingId == Some(index) && editPicker.preview == reviews[index].imageUrl.GetOr("")
    {
      editingId := Some(index);
      editPicker.preview := reviews[index].imageUrl.GetOr("");
    }

    /**
     * `saveEdit(index)`: a blank text is rejected; otherwise review `index`
     * takes the text as typed, the preview as picture and the edit time, the
     * list is stored and the form closes.
     */
    method SaveEdit(index: nat, text: string, now: Time) returns (rejected: bool)
      requires Valid() && index < |reviews|
      modifies this`reviews, this`editingId, editPicker, store`reviews
      ensures Valid()
      ensures rejected <==> IsBlank(text)
      ensures rejected ==>
                && reviews == old(reviews) && store.reviews == old(store.reviews) && editingId == old(editingId)
                && editPicker.preview == old(editPicker.preview) && editPicker.image == old(editPicker.image)
      ensures !rejected ==>
                && reviews == old(reviews)[index := EditedAsTyped(old(reviews)[index], text, old(editPicker.preview), now)]
                && store.reviews == Present(reviews)
                && editingId.None? && editPicker.preview == [] && editPicker.image.None?
    {
      if Trim(text) == [] {
        return true;
      }
      rejected := false;
      var review := reviews[index].(content := Some(text));
      if Some(editPicker.preview) != reviews[index].imageUrl {
        review := review.(imageUrl := Some(editPicker.preview));
      }
      review := review.(editedAt := Some(now));
      ReplaceKeepsValid(index, review);
      reviews := reviews[index := review];
      store.reviews := Present(reviews);
      editingId := None;
      editPicker.HandleRemoveImage();
    }

    /** `deleteReview(index)`: when confirmed, removes exactly review `index` and stores the list. */
    method DeleteReview(index: nat, confirmed: bool)
      requires Valid() && index < |reviews|
      modifies this`reviews, store`reviews
      ensures Valid()
      ensures !confirmed ==> reviews == old(reviews) && store.reviews == old(store.reviews)
      ensures confirmed ==>
                && reviews == RemoveAt(old(reviews), index)
                && |reviews| == |old(reviews)| - 1
                && multiset(reviews) == multiset(old(reviews)) - multiset{old(reviews)[index]}
                && store.reviews == Present(reviews)
    {
      if !confirmed {
        return;
      }
      RemoveAtMultiset(reviews, index);
      reviews := RemoveAt(reviews, index);
      store.reviews := Present(reviews);
    }

    /** `toggleComments(index)`. */
    method ToggleComments(index: nat)
      modifies this`showComments
      ensures showComments == ToggleShown(old(showComments), index)
    {
      showComments := ToggleShown(showComments, index);
    }
  }
}
