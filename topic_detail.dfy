/**
 * The topic page of the later snapshot (ikiEpep/src/pages/TopicDetailPage.jsx).
 * The topic's identity is its position `parseInt(id)` in the stored list. Every
 * handler re-reads the whole list, checks that the position still holds a
 * topic, changes that one topic (or removes it) and writes the whole list back.
 */
module TopicDetail {
  import opened Wrappers
  import opened Text
  import opened Seqs
  import opened Records

  datatype Failure =
    | NotFound            // the position names no stored topic (or comment)
    | Unreadable          // `JSON.parse` threw and the handler's catch block reported it
    | EmptyComment
    | EmptyContent
    | BadImage(problem: ImageError)

  /** `parseInt(id)` is a number `i` with `0 <= i < n`. */
  predicate ValidIndex(id: Option<int>, n: int) {
    id.Some? && 0 <= id.value < n
  }

  /** `loadTopic`: the topic the page shows, or the error it shows instead. */
  function LoadResult(slot: Slot<Topic>, id: Option<int>): (r: Result<Topic, Failure>)
    ensures slot.Corrupt? ==> r == Failure(Unreadable)
    ensures !slot.Corrupt? ==> (r.Success? <==> ValidIndex(id, |ReadList(slot).value|))
    ensures r.Failure? ==> r.error == Unreadable || r.error == NotFound
    ensures r.Success? ==> r.value == WithLists(ReadList(slot).value[id.value])
  {
    match ReadList(slot)
    case None => Failure(Unreadable)
    case Some(all) =>
      if ValidIndex(id, |all|) then Success(WithLists(all[id.value])) else Failure(NotFound)
  }

  /** What a successful handler writes back (the whole list) and the topic it then shows. */
  datatype Write = Write(list: seq<Topic>, shown: Topic)

  /**
   * The list after position `i` is replaced by `t`: same length, `t` at `i`,
   * every other topic as it was.
   */
  function ReplaceAt(all: seq<Topic>, i: nat, t: Topic): (r: seq<Topic>)
    requires i < |all|
    ensures |r| == |all| && r[i] == t
    ensures forall j :: 0 <= j < |all| && j != i ==> r[j] == all[j]
  {
    all[i := t]
  }

  /** `handleLike` on the re-read list `all`. */
  function LikeStep(all: seq<Topic>, id: Option<int>, u: string): (r: Option<Write>)
    ensures r.Some? <==> ValidIndex(id, |all|)
    ensures r.Some? ==> (r.value.shown == Like(all[id.value], u)
                         && r.value.list == ReplaceAt(all, id.value, r.value.shown))
  {
    if ValidIndex(id, |all|) then
      var t := Like(all[id.value], u);
      Some(Write(ReplaceAt(all, id.value, t), t))
    else None
  }

  /** Liking twice through the page gives every stored topic back the same set of likers. */
  lemma {:induction false} LikeStepTwice(all: seq<Topic>, id: Option<int>, u: string)
    requires ValidIndex(id, |all|)
    requires NoDuplicates(all[id.value].likes.GetOr([]))
    ensures LikeStep(all, id, u).Some?
    ensures LikeStep(LikeStep(all, id, u).value.list, id, u).Some?
    ensures var twice := LikeStep(LikeStep(all, id, u).value.list, id, u).value.list;
            |twice| == |all|
            && (forall j :: 0 <= j < |all| && j != id.value ==> twice[j] == all[j])
            && (forall v :: HasLiked(twice[id.value].likes, v) <==> HasLiked(all[id.value].likes, v))
  {
    var i := id.value;
    var likes := all[i].likes.GetOr([]);
    ToggleTwiceSameMembers(likes, u);
    var once := LikeStep(all, id, u).value.list;
    assert once[i].likes == Some(Toggle(likes, u));
  }

  /** `addComment` on the re-read list, with the comment already built. */
  function CommentStep(all: seq<Topic>, id: Option<int>, c: Comment): (r: Option<Write>)
    ensures r.Some? <==> ValidIndex(id, |all|)
    ensures r.Some? ==> (r.value.shown == AddComment(all[id.value], c)
                         && r.value.list == ReplaceAt(all, id.value, r.value.shown))
  {
    if ValidIndex(id, |all|) then
      var t := AddComment(all[id.value], c);
      Some(Write(ReplaceAt(all, id.value, t), t))
    else None
  }

  /** The comment `addComment` builds: the user, the trimmed text and the current time. */
  function NewComment(u: string, text: string, now: Time): (c: Comment)
    ensures c.text == Trim(text) && c.username == u && c.createdAt == now
    ensures !IsBlank(text) ==> c.text != [] && !IsSpace(c.text[0]) && !IsSpace(c.text[|c.text| - 1])
  {
    Comment(u, Trim(text), now)
  }

  /** The author of a new comment owns it, and nobody else does. */
  lemma NewCommentIsOwn(v: Session, u: string, text: string, now: Time)
    ensures IsOwnComment(Some(v), NewComment(u, text, now).username) <==> v.username == u
  {
  }

  /** Liking, commenting and editing never change who owns the topic. */
  lemma ChangesKeepOwner(t: Topic, user: Option<Session>, u: string, c: Comment, ci: nat, text: string, preview: string, now: Time)
    ensures IsOwnTopic(Some(Like(t, u)), user) == IsOwnTopic(Some(t), user)
    ensures IsOwnTopic(Some(AddComment(t, c)), user) == IsOwnTopic(Some(t), user)
    ensures t.comments.Some? ==> IsOwnTopic(Some(DeleteComment(t, ci)), user) == IsOwnTopic(Some(t), user)
    ensures IsOwnTopic(Some(Edited(t, text, preview, now)), user) == IsOwnTopic(Some(t), user)
  {
  }

  /** The guard of `confirmDeleteComment`: a stored topic with a comment at `ci`. */
  predicate CommentExists(all: seq<Topic>, id: Option<int>, ci: nat) {
    ValidIndex(id, |all|) && all[id.value].comments.Some? && ci < |all[id.value].comments.value|
  }

  /** `confirmDeleteComment` on the re-read list. */
  function DeleteCommentStep(all: seq<Topic>, id: Option<int>, ci: nat): (r: Option<Write>)
    ensures r.Some? <==> CommentExists(all, id, ci)
    ensures r.Some? ==> var cs := all[id.value].comments.value;
              && r.value.list == ReplaceAt(all, id.value, r.value.shown)
              && r.value.shown == all[id.value].(comments := r.value.shown.comments)
              && r.value.shown.comments.Some?
              && |r.value.shown.comments.value| == |cs| - 1
              && multiset(r.value.shown.comments.value) == multiset(cs) - multiset{cs[ci]}
              && r.value.shown.comments.value == cs[..ci] + cs[ci + 1..]
  {
    if CommentExists(all, id, ci) then
      var cs := all[id.value].comments.value;
      RemoveAtMultiset(cs, ci);
      var t := DeleteComment(all[id.value], ci);
      Some(Write(ReplaceAt(all, id.value, t), t))
    else None
  }

  /**
   * `saveEdit` on one topic: trimmed content, the preview as the image (null
   * when the preview is empty), `editedAt` set; title, author, creation time,
   * likes and comments untouched.
   */
  function Edited(t: Topic, text: string, preview: string, now: Time): (r: Topic)
    ensures r.content == Some(Trim(text))
    ensures r.imageUrl.None? <==> preview == []
    ensures r.imageUrl.Some? ==> r.imageUrl.value == preview
    ensures r.editedAt == Some(now)
    ensures r.title == t.title && r.username == t.username && r.createdAt == t.createdAt
    ensures r.likes == t.likes && r.comments == t.comments
  {
    t.(content := Some(Trim(text)),
       imageUrl := if preview == [] then None else Some(preview),
       editedAt := Some(now))
  }

  /** `saveEdit` on the re-read list. */
  function SaveStep(all: seq<Topic>, id: Option<int>, text: string, preview: string, now: Time): (r: Option<Write>)
    ensures r.Some? <==> ValidIndex(id, |all|)
    ensures r.Some? ==> (r.value.shown == Edited(all[id.value], text, preview, now)
                         && r.value.list == ReplaceAt(all, id.value, r.value.shown))
  {
    if ValidIndex(id, |all|) then
      var t := Edited(all[id.value], text, preview, now);
      Some(Write(ReplaceAt(all, id.value, t), t))
    else None
  }

  /**
   * `confirmDeleteTopic` on the re-read list: the list loses exactly position
   * `i`, earlier topics keep their positions and later ones move down by one.
   */
  function DeleteTopicStep(all: seq<Topic>, id: Option<int>): (r: Option<seq<Topic>>)
    ensures r.Some? <==> ValidIndex(id, |all|)
    ensures r.Some? ==> (|r.value| == |all| - 1
                         && (forall j :: 0 <= j < id.value ==> r.value[j] == all[j])
                         && (forall j :: id.value <= j < |r.value| ==> r.value[j] == all[j + 1])
                         && multiset(r.value) == multiset(all) - multiset{all[id.value]})
  {
    if ValidIndex(id, |all|) then
      RemoveAtMultiset(all, id.value);
      Some(RemoveAt(all, id.value))
    else None
  }

  /** The React state of the page and the store it works on. */
  class TopicDetailPage {
    const store: Store
    /** `parseInt` of the route's `:id`; `None` when it is `NaN`. */
    const id: Option<int>
    /** The logged-in user; the page sends anybody else to the login page. */
    const user: Session
    var topic: Option<Topic>
    var pageError: Option<Failure>
    var formError: Option<Failure>
    var editPreview: string

    constructor (store: Store, id: Option<int>, user: Session)
      ensures this.store == store && this.id == id && this.user == user
      ensures topic.None? && pageError.None? && formError.None? && editPreview == []
    {
      this.store := store;
      this.id := id;
      this.user := user;
      topic := None;
      pageError := None;
      formError := None;
      editPreview := "";
    }

    /** `loadTopic`: shows a copy of the stored topic with its lists defaulted, or an error. */
    method LoadTopic()
      modifies this`topic, this`pageError
      ensures LoadResult(store.topics, id).Success? ==>
                topic == Some(LoadResult(store.topics, id).value) && pageError.None?
      ensures LoadResult(store.topics, id).Failure? ==>
                topic.None? && pageError == Some(LoadResult(store.topics, id).error)
    {
      pageError := None;
      var read := ReadList(store.topics);
      if read.None? {
        pageError := Some(Unreadable);
        topic := None;
        return;
      }
      var all := read.value;
      if !(id.Some? && 0 <= id.value < |all|) {
        pageError := Some(NotFound);
        topic := None;
        return;
      }
      var found := all[id.value];
      if found.comments.None? {
        found := found.(comments := Some([]));
      }
      if found.likes.None? {
        found := found.(likes := Some([]));
      }
      topic := Some(found);
    }

    /** `handleLike`: toggles the user in the stored topic's likes. */
    method HandleLike()
      modifies this`topic, this`pageError, this`formError, store`topics
      ensures old(topic).None? ==>
                topic == old(topic) && pageError == old(pageError) && formError == old(formError)
                && store.topics == old(store.topics)
      ensures old(topic).Some? && old(store.topics).Corrupt? ==>
                store.topics == old(store.topics) && formError == Some(Unreadable)
                && topic == old(topic) && pageError == old(pageError)
      ensures old(topic).Some? && !old(store.topics).Corrupt? ==>
                var step := LikeStep(ReadList(old(store.topics)).value, id, user.username);
                if step.Some? then
                  store.topics == Present(step.value.list) && topic == Some(step.value.shown) && formError.None?
                  && pageError == old(pageError)
                else
                  store.topics == old(store.topics) && formError == Some(NotFound)
                  && topic.None? && pageError == Some(NotFound)
    {
      if topic.None? {
        return;
      }
      var read := ReadList(store.topics);
      if read.None? {
        formError := Some(Unreadable);
        return;
      }
      var all := read.value;
      if !(id.Some? && 0 <= id.value < |all|) {
        formError := Some(NotFound);
        LoadTopic();
        return;
      }
      var i := id.value;
      var current := all[i];
      var likes := current.likes.GetOr([]);
      var k := IndexOf(likes, user.username);
      if k == -1 {
        likes := likes + [user.username];
      } else {
        likes := RemoveAt(likes, k);
      }
      current := current.(likes := Some(likes));
      topic := Some(current);
      all := all[i := current];
      store.topics := Present(all);
      formError := None;
    }

    /** `addComment`: appends `{username, text.trim(), now}` to the stored topic's comments. */
    method AddCommentTo(text: string, now: Time)
      modifies this`topic, this`pageError, this`formError, store`topics
      ensures IsBlank(text) ==>
                store.topics == old(store.topics) && formError == Some(EmptyComment)
                && topic == old(topic) && pageError == old(pageError)
      ensures !IsBlank(text) && old(store.topics).Corrupt? ==>
                store.topics == old(store.topics) && formError == Some(Unreadable)
                && topic == old(topic) && pageError == old(pageError)
      ensures !IsBlank(text) && !old(store.topics).Corrupt? ==>
                var step := CommentStep(ReadList(old(store.topics)).value, id, NewComment(user.username, text, now));
                if step.Some? then
                  store.topics == Present(step.value.list) && topic == Some(step.value.shown) && formError.None?
                  && pageError == old(pageError)
                else
                  store.topics == old(store.topics) && formError == Some(NotFound)
                  && topic.None? && pageError == Some(NotFound)
    {
      if Trim(text) == [] {
        formError := Some(EmptyComment);
        return;
      }
      formError := None;
      var read := ReadList(store.topics);
      if read.None? {
        formError := Some(Unreadable);
        return;
      }
      var all := read.value;
      if !(id.Some? && 0 <= id.value < |all|) {
        formError := Some(NotFound);
        LoadTopic();
        return;
      }
      var i := id.value;
      var current := all[i];
      if current.comments.None? {
        current := current.(comments := Some([]));
      }
      var comment := Comment(user.username, Trim(text), now);
      current := current.(comments := Some(current.comments.value + [comment]));
      assert current == AddComment(all[i], NewComment(user.username, text, now));
      assert CommentStep(all, id, NewComment(user.username, text, now)) == Some(Write(all[i := current], current));
      topic := Some(current);
      all := all[i := current];
      store.topics := Present(all);
    }

    /**
     * `confirmDeleteComment`, with `pending` the comment index the modal was
     * opened for (`null` when none).
     */
    method ConfirmDeleteComment(pending: Option<nat>)
      modifies this`topic, this`pageError, this`formError, store`topics
      ensures pending.None? ==>
                store.topics == old(store.topics) && formError == old(formError)
                && topic == old(topic) && pageError == old(pageError)
      ensures pending.Some? && old(store.topics).Corrupt? ==>
                store.topics == old(store.topics) && formError == Some(Unreadable)
                && topic == old(topic) && pageError == old(pageError)
      ensures pending.Some? && !old(store.topics).Corrupt? ==>
                var step := DeleteCommentStep(ReadList(old(store.topics)).value, id, pending.value);
                if step.Some? then
                  store.topics == Present(step.value.list) && topic == Some(step.value.shown) && formError.None?
                  && pageError == old(pageError)
                else
                  store.topics == old(store.topics) && formError == Some(NotFound)
                  && (topic, pageError) == (match LoadResult(store.topics, id)
                                            case Success(t) => (Some(t), None)
                                            case Failure(e) => (None, Some(e)))
    {
      if pending.None? {
        return;
      }
      formError := None;
      var read := ReadList(store.topics);
      if read.None? {
        formError := Some(Unreadable);
        return;
      }
      var all := read.value;
      var ci := pending.value;
      if !(id.Some? && 0 <= id.value < |all|) || all[id.value].comments.None?
         || ci >= |all[id.value].comments.value| {
        formError := Some(NotFound);
        LoadTopic();
        return;
      }
      var i := id.value;
      var current := all[i];
      current := current.(comments := Some(RemoveAt(current.comments.value, ci)));
      topic := Some(current);
      all := all[i := current];
      store.topics := Present(all);
    }

    /** `saveEdit`: stores the trimmed content and the preview as the topic's image. */
    method SaveEdit(text: string, now: Time)
      modifies this`topic, this`pageError, this`formError, this`editPreview, store`topics
      ensures IsBlank(text) ==>
                store.topics == old(store.topics) && formError == Some(EmptyContent)
                && topic == old(topic) && pageError == old(pageError) && editPreview == old(editPreview)
      ensures !IsBlank(text) && old(store.topics).Corrupt? ==>
                store.topics == old(store.topics) && formError == Some(Unreadable)
                && topic == old(topic) && pageError == old(pageError) && editPreview == old(editPreview)
      ensures !IsBlank(text) && !old(store.topics).Corrupt? ==>
                var step := SaveStep(ReadList(old(store.topics)).value, id, text, old(editPreview), now);
                if step.Some? then
                  store.topics == Present(step.value.list) && topic == Some(step.value.shown)
                  && formError.None? && editPreview == [] && pageError == old(pageError)
                else
                  store.topics == old(store.topics) && formError == Some(NotFound)
                  && topic.None? && pageError == Some(NotFound) && editPreview == old(editPreview)
    {
      if Trim(text) == [] {
        formError := Some(EmptyContent);
        return;
      }
      formError := None;
      var read := ReadList(store.topics);
      if read.None? {
        formError := Some(Unreadable);
        return;
      }
      var all := read.value;
      if !(id.Some? && 0 <= id.value < |all|) {
        formError := Some(NotFound);
        LoadTopic();
        return;
      }
      var i := id.value;
      var current := all[i];
      current := current.(content := Some(Trim(text)));
      current := current.(imageUrl := if editPreview == [] then None else Some(editPreview));
      current := current.(editedAt := Some(now));
      topic := Some(current);
      all := all[i := current];
      store.topics := Present(all);
      editPreview := "";
    }

    /** `confirmDeleteTopic`: removes the topic at `parseInt(id)` from the stored list. */
    method ConfirmDeleteTopic()
      modifies this`topic, this`pageError, this`formError, store`topics
      ensures old(store.topics).Corrupt? ==>
                store.topics == old(store.topics) && formError == Some(Unreadable)
                && topic == old(topic) && pageError.None?
      ensures !old(store.topics).Corrupt? ==>
                var step := DeleteTopicStep(ReadList(old(store.topics)).value, id);
                if step.Some? then
                  store.topics == Present(step.value) && formError.None? && pageError.None? && topic == old(topic)
                else
                  store.topics == old(store.topics) && formError == Some(NotFound)
                  && topic.None? && pageError == Some(NotFound)
    {
      formError := None;
      pageError := None;
      var read := ReadList(store.topics);
      if read.None? {
        formError := Some(Unreadable);
        return;
      }
      var all := read.value;
      if !(id.Some? && 0 <= id.value < |all|) {
        formError := Some(NotFound);
        LoadTopic();
        return;
      }
      all := RemoveAt(all, id.value);
      store.topics := Present(all);
    }

    /**
     * `handleEditImageChange`: a rejected file reverts the preview to the
     * topic's own image (or nothing); an accepted one shows its data URL.
     */
    method HandleEditImageChange(file: Option<ImageFile>, dataUrl: string)
      requires topic.Some?
      modifies this`editPreview, this`formError
      ensures file.None? ==> editPreview == old(editPreview) && formError == old(formError)
      ensures file.Some? && ImageProblem(file.value).Some? ==>
                editPreview == topic.value.imageUrl.GetOr("")
                && formError == Some(BadImage(ImageProblem(file.value).value))
      ensures file.Some? && ImageProblem(file.value).None? ==> editPreview == dataUrl && formError.None?
    {
      if file.None? {
        return;
      }
      formError := None;
      var f := file.value;
      if !StartsWith(f.mimeType, "image/") {
        formError := Some(BadImage(NotAnImage));
        editPreview := topic.value.imageUrl.GetOr("");
        return;
      }
      if f.size > 2 * 1024 * 1024 {
        formError := Some(BadImage(TooLarge));
        editPreview := topic.value.imageUrl.GetOr("");
        return;
      }
      editPreview := dataUrl;
    }

    /** `handleRemoveEditImage`. */
    method HandleRemoveEditImage()
      modifies this`editPreview, this`formError
      ensures editPreview == [] && formError.None?
    {
      editPreview := "";
      formError := None;
    }
  }
}
