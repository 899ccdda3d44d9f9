/**
 * Adding a topic in the early snapshot (iki-epep/src/pages/TopicAddPage.jsx):
 * the record is built from the untrimmed form and appended to `topics`.
 */
module EarlyTopicAdd {
  import opened Wrappers
  import opened Records

  /**
   * The record `handleSubmit` builds: the user, the form's title and content,
   * empty likes and comments, the current time, and the preview as picture
   * only when there is one.
   */
  function NewTopic(user: Session, title: string, content: string, preview: string, now: Time): (t: Topic)
    ensures t.username == Some(user.username) && t.title == Some(title) && t.content == Some(content)
    ensures t.likes == Some([]) && t.comments == Some([])
    ensures t.createdAt == Some(now) && t.editedAt.None?
    ensures preview != [] <==> t.imageUrl.Some?
    ensures t.imageUrl.Some? ==> t.imageUrl.value == preview
  {
    Topic(Some(title), Some(content), Some(user.username), Some(now), None,
          if preview != [] then Some(preview) else None, Some([]), Some([]))
  }

  /** The user who adds a topic owns it, and nobody else does. */
  lemma NewTopicIsOwn(user: Session, v: Session, title: string, content: string, preview: string, now: Time)
    ensures IsOwnTopic(Some(NewTopic(user, title, content, preview, now)), Some(v)) <==> v.username == user.username
  {
  }

  /** The form of the add page. */
  class TopicAddPage {
    const store: Store
    const user: Session
    const picker: ImagePicker
    var title: string
    var content: string

    constructor (store: Store, user: Session)
      ensures this.store == store && this.user == user
      ensures fresh(picker) && picker.preview == [] && title == [] && content == []
    {
      this.store := store;
      this.user := user;
      picker := new ImagePicker();
      title := "";
      content := "";
    }

    /**
     * `handleSubmit`: an empty title or content (not trimmed) is rejected and
     * nothing is written; an unreadable list makes the handler throw with
     * nothing written; otherwise the new topic is appended at the end of
     * `topics` (a missing key starting from the empty list).
     */
    method HandleSubmit(now: Time) returns (rejected: bool)
      modifies store`topics
      ensures rejected <==> title == [] || content == []
      ensures rejected || store.topics.Corrupt? ==> store.topics == old(store.topics)
      ensures !rejected && !old(store.topics).Corrupt? ==>
                && store.topics == Present(ReadList(old(store.topics)).value + [NewTopic(user, title, content, picker.preview, now)])
                && |store.topics.items| == |ReadList(old(store.topics)).value| + 1
                && store.topics.items[..|store.topics.items| - 1] == ReadList(old(store.topics)).value
    {
      if title == [] || content == [] {
        return true;
      }
      var newTopic := NewTopic(user, title, content, picker.preview, now);
      var existing := ReadList(store.topics);
      if existing.None? {
        return false;
      }
      store.topics := Present(existing.value + [newTopic]);
      assert store.topics.items[..|existing.value|] == existing.value;
      return false;
    }
  }
}
