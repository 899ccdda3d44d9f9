/**
 * Adding a review in the early snapshot (iki-epep/src/pages/ReviewAddPage.jsx):
 * like the early topic form, but the text field is `review`, the record has no
 * `comments` list, and it is appended to `reviews`.
 */
module EarlyReviewAdd {
  import opened Wrappers
  import opened Records

  /**
   * The record `handleSubmit` builds: the user, the title, the review text as
   * `content`, empty likes, no comments list, the current time, and the
   * preview as picture only when there is one.
   */
  function NewReview(user: Session, title: string, review: string, preview: string, now: Time): (t: Topic)
    ensures t.username == Some(user.username) && t.title == Some(title) && t.content == Some(review)
    ensures t.likes == Some([]) && t.comments.None?
    ensures t.createdAt == Some(now) && t.editedAt.None?
    ensures preview != [] <==> t.imageUrl.Some?
    ensures t.imageUrl.Some? ==> t.imageUrl.value == preview
  {
    Topic(Some(title), Some(review), Some(user.username), Some(now), None,
          if preview != [] then Some(preview) else None, Some([]), None)
  }

  /** The form of the review page. */
  class ReviewAddPage {
    const store: Store
    const user: Session
    const picker: ImagePicker
    var title: string
    var review: string

    constructor (store: Store, user: Session)
      ensures this.store == store && this.user == user
      ensures fresh(picker) && picker.preview == [] && title == [] && review == []
    {
      this.store := store;
      this.user := user;
      picker := new ImagePicker();
      title := "";
      review := "";
    }

    /**
     * `handleSubmit`: an empty title or review text is rejected and nothing is
     * written; an unreadable list makes the handler throw with nothing written;
     * otherwise the review is appended at the end of `reviews`.
     */
    method HandleSubmit(now: Time) returns (rejected: bool)
      modifies store`reviews
      ensures rejected <==> title == [] || review == []
      ensures rejected || store.reviews.Corrupt? ==> store.reviews == old(store.reviews)
      ensures !rejected && !old(store.reviews).Corrupt? ==>
                && store.reviews == Present(ReadList(old(store.reviews)).value + [NewReview(user, title, review, picker.preview, now)])
                && |store.reviews.items| == |ReadList(old(store.reviews)).value| + 1
                && store.reviews.items[..|store.reviews.items| - 1] == ReadList(old(store.reviews)).value
    {
      if title == [] || review == [] {
        return true;
      }
      var newReview := NewReview(user, title, review, picker.preview, now);
      var existing := ReadList(store.reviews);
      if existing.None? {
        return false;
      }
      store.reviews := Present(existing.value + [newReview]);
      assert store.reviews.items[..|existing.value|] == existing.value;
      return false;
    }
  }
}
