/**
 * The topic page of the early snapshot (iki-epep/src/pages/TopicDetailPage.jsx).
 * Unlike the later page, every handler changes the topic object the page holds
 * and writes that object into position `parseInt(id)` of the re-read list, so
 * changes to that stored record made since the page loaded are overwritten.
 */
module EarlyTopicDetail {
  import opened Wrappers
  import opened Text
  import opened Seqs
  import opened Records
  import TopicDetail

  /** The React state of the page and the store it works on. */
  class TopicDetailPage {
    const store: Store
    /** `parseInt` of the route's `:id`; `None` when it is `NaN`. */
    const id: Option<int>
    /** The logged-in user; the page sends anybody else to the login page. */
    const user: Session
    /** The topic shown, and the edit form's picture input. */
    var topic: Option<Topic>
    var notFound: bool
    var editing: bool
    var deleted: bool
    const editPicker: ImagePicker

    /** A shown topic has both lists, as `loadTopic` left it. */
    predicate Valid()
      reads this
    {
      topic.Some? ==> topic.value.likes.Some? && topic.value.comments.Some?
    }

    /**
     * The single-tab assumption of the handlers: the stored list, if readable,
     * still holds position `parseInt(id)`.
     */
    predicate StillStored()
      reads this, store
    {
      store.topics.Corrupt? || (store.topics.Present? && TopicDetail.ValidIndex(id, |store.topics.items|))
    }

    constructor (store: Store, id: Option<int>, user: Session)
      ensures this.store == store && this.id == id && this.user == user
      ensures topic.None? && !notFound && !editing && !deleted && fresh(editPicker) && Valid()
    {
      this.store := store;
      this.id := id;
      this.user := user;
      topic := None;
      notFound := false;
      editing := false;
      deleted := false;
      editPicker := new ImagePicker();
    }

    /**
     * `loadTopic`: shows the stored topic with its lists defaulted; a bad
     * position sets `notFound` (the alert and the way back to the list); an
     * unparseable list throws and nothing changes.
     */
    method LoadTopic()
      modifies this`topic, this`notFound
      ensures TopicDetail.LoadResult(store.topics, id).Success? ==>
                topic == Some(TopicDetail.LoadResult(store.topics, id).value) && notFound == old(notFound)
      ensures TopicDetail.LoadResult(store.topics, id) == Failure(TopicDetail.NotFound) ==> topic == old(topic) && notFound
      ensures store.topics.Corrupt? ==> topic == old(topic) && notFound == old(notFound)
      ensures old(Valid()) ==> Valid()
    {
      var read := ReadList(store.topics);
      if read.None? {
        return;
      }
      var all := read.value;
      if !(id.Some? && 0 <= id.value < |all|) {
        notFound := true;
        return;
      }
      var found := all[id.value];
      if found.comments.None? {
        found := found.(comments := Some([]));
      }
      if found.likes.None? {
        found := found.(likes := Some([]));
      }
      topic := Some(found);
    }

    /** `handleLike`: toggles the user in the shown topic and writes it back at its position. */
    method HandleLike()
      requires StillStored() && Valid()
      modifies this`topic, store`topics
      ensures Valid()
      ensures old(topic).None? || old(store.topics).Corrupt? ==> topic == old(topic) && store.topics == old(store.topics)
      ensures old(topic).Some? && !old(store.topics).Corrupt? ==>
                && topic == Some(Like(old(topic).value, user.username))
                && store.topics == Present(old(store.topics).items[id.value := topic.value])
    {
      if topic.None? {
        return;
      }
      var read := ReadList(store.topics);
      if read.None? {
        return;
      }
      var all := read.value;
      var current := topic.value;
      var likes := current.likes.value;
      var k := IndexOf(likes, user.username);
      if k == -1 {
        likes := likes + [user.username];
      } else {
        likes := RemoveAt(likes, k);
      }
      current := current.(likes := Some(likes));
      topic := Some(current);
      all := all[id.value := current];
      store.topics := Present(all);
    }

    /** `addComment`: appends `{username, text.trim(), now}` to the shown topic and writes it back. */
    method AddCommentTo(text: string, now: Time)
      requires StillStored() && Valid() && topic.Some?
      modifies this`topic, store`topics
      ensures Valid()
      ensures IsBlank(text) || old(store.topics).Corrupt? ==> topic == old(topic) && store.topics == old(store.topics)
      ensures !IsBlank(text) && !old(store.topics).Corrupt? ==>
                && topic == Some(AddComment(old(topic).value, TopicDetail.NewComment(user.username, text, now)))
                && store.topics == Present(old(store.topics).items[id.value := topic.value])
    {
      if Trim(text) == [] {
        return;
      }
      var read := ReadList(store.topics);
      if read.None? {
        return;
      }
      var all := read.value;
      var comment := Comment(user.username, Trim(text), now);
      var current := topic.value;
      current := current.(comments := Some(current.comments.value + [comment]));
      topic := Some(current);
      all := all[id.value := current];
      store.topics := Present(all);
    }

    /** `deleteComment`: when confirmed, `comments.splice(ci, 1)` on the shown topic, written back. */
    method DeleteCommentAt(ci: nat, confirmed: bool)
      requires StillStored() && Valid() && topic.Some?
      modifies this`topic, store`topics
      ensures Valid()
      ensures !confirmed || old(store.topics).Corrupt? ==> topic == old(topic) && store.topics == old(store.topics)
      ensures confirmed && !old(store.topics).Corrupt? ==>
                && topic == Some(DeleteComment(old(topic).value, ci))
                && store.topics == Present(old(store.topics).items[id.value := topic.value])
    {
      if !confirmed {
        return;
      }
      var read := ReadList(store.topics);
      if read.None? {
        return;
      }
      var all := read.value;
      var current := topic.value;
      current := current.(comments := Some(RemoveAt(current.comments.value, ci)));
      topic := Some(current);
      all := all[id.value := current];
      store.topics := Present(all);
    }

    /** `startEdit`: opens the form with the topic's picture as preview. */
    method StartEdit()
      requires topic.Some?
      modifies this`editing, editPicker`preview
      ensures editing && editPicker.preview == topic.value.imageUrl.GetOr("")
    {
      editing := true;
      editPicker.preview := topic.value.imageUrl.GetOr("");
    }

    /**
     * `saveEdit`: a blank text is rejected; otherwise the shown topic takes the
     * text as typed, the preview as picture and the edit time, is written back,
     * and the form closes.
     */
    method SaveEdit(text: string, now: Time) returns (rejected: bool)
      requires StillStored() && Valid() && topic.Some?
      modifies this`topic, this`editing, editPicker, store`topics
      ensures Valid()
      ensures rejected <==> IsBlank(text)
      ensures rejected || old(store.topics).Corrupt? ==>
                && topic == old(topic) && store.topics == old(store.topics) && editing == old(editing)
                && editPicker.preview == old(editPicker.preview) && editPicker.image == old(editPicker.image)
      ensures !rejected && !old(store.topics).Corrupt? ==>
                && topic == Some(EditedAsTyped(old(topic).value, text, old(editPicker.preview), now))
                && store.topics == Present(old(store.topics).items[id.value := topic.value])
                && !editing && editPicker.preview == [] && editPicker.image.None?
    {
      if Trim(text) == [] {
        return true;
      }
      rejected := false;
      var read := ReadList(store.topics);
      if read.None? {
        return;
      }
      var all := read.value;
      var current := topic.value.(content := Some(text));
      if Some(editPicker.preview) != current.imageUrl {
        current := current.(imageUrl := Some(editPicker.preview));
      }
      current := current.(editedAt := Some(now));
      topic := Some(current);
      all := all[id.value := current];
      store.topics := Present(all);
      editing := false;
      editPicker.HandleRemoveImage();
    }

    /** `deleteTopic`: when confirmed, `splice(topicIndex, 1)` on the re-read list. */
    method DeleteTopic(confirmed: bool)
      requires StillStored()
      modifies this`deleted, store`topics
      ensures !confirmed || old(store.topics).Corrupt? ==> store.topics == old(store.topics) && deleted == old(deleted)
      ensures confirmed && !old(store.topics).Corrupt? ==>
                && store.topics == Present(RemoveAt(old(store.topics).items, id.value))
                && |store.topics.items| == |old(store.topics).items| - 1
                && deleted
    {
      if !confirmed {
        return;
      }
      var read := ReadList(store.topics);
      if read.None? {
        return;
      }
      store.topics := Present(RemoveAt(read.value, id.value));
      deleted := true;
    }
  }

  /**
   * The page's write replaces only position `i`, with the shown topic: a change
   * another writer made to that record since the page loaded is lost, while
   * the later page's handlers start from the stored record.
   */
  lemma StaleWriteLosesStoredLike()
    ensures var shown := Topic(Some("t"), Some("c"), Some("u"), Some(1), None, None, Some([]), Some([]));
            var stored := shown.(likes := Some(["other"]));
            && HasLiked(TopicDetail.LikeStep([stored], Some(0), "me").value.shown.likes, "other")
            && !HasLiked([stored][0 := Like(shown, "me")][0].likes, "other")
  {
    var shown := Topic(Some("t"), Some("c"), Some("u"), Some(1), None, None, Some([]), Some([]));
    assert Toggle([], "me") == ["me"];
    assert "other" !in ["me"];
  }
}
