/**
 * The records the pages keep in `localStorage`, the store itself, and the
 * record-level edits that both snapshots of the app perform the same way.
 */
module Records {
  import opened Wrappers
  import opened Text
  import opened Seqs

  /** Instants (ISO date strings in the app) as integer timestamps. */
  type Time = int

  datatype Comment = Comment(username: string, text: string, createdAt: Time)

  /**
   * A topic (called a review in the early snapshot) as stored. Every field may be
   * missing from a stored record; `None` stands for a missing or null field.
   */
  datatype Topic = Topic(
    title: Option<string>,
    content: Option<string>,
    username: Option<string>,
    createdAt: Option<Time>,
    editedAt: Option<Time>,
    imageUrl: Option<string>,
    likes: Option<seq<string>>,
    comments: Option<seq<Comment>>)

  datatype User = User(username: string, email: string, password: string)

  /** The `loggedUser` record. */
  datatype Session = Session(username: string, email: string)

  /** What one storage key holds: nothing, text that `JSON.parse` rejects, or a list. */
  datatype Slot<T> = Absent | Corrupt | Present(items: seq<T>)

  /**
   * `JSON.parse(localStorage.getItem(key)) || []`: a missing key reads as the
   * empty list; `None` means `JSON.parse` throws.
   */
  function ReadList<T>(slot: Slot<T>): (r: Option<seq<T>>)
    ensures r.None? <==> slot.Corrupt?
    ensures slot.Absent? ==> r == Some([])
    ensures slot.Present? ==> r == Some(slot.items)
  {
    match slot
    case Absent => Some([])
    case Corrupt => None
    case Present(items) => Some(items)
  }

  /**
   * The legacy-key fallback of both list pages: when `topics` is missing and
   * `reviews` holds anything, `topics` becomes a copy of `reviews`.
   */
  function Migrated(topics: Slot<Topic>, reviews: Slot<Topic>): (r: Slot<Topic>)
    ensures topics.Absent? && !reviews.Absent? ==> r == reviews
    ensures !topics.Absent? ==> r == topics
    ensures r.Absent? <==> topics.Absent? && reviews.Absent?
  {
    if topics.Absent? && !reviews.Absent? then reviews else topics
  }

  /** The browser's `localStorage`, one field per key the app uses. */
  class Store {
    var topics: Slot<Topic>
    var reviews: Slot<Topic>
    var users: Slot<User>
    var loggedUser: Option<Session>

    constructor (topics: Slot<Topic>, reviews: Slot<Topic>, users: Slot<User>, loggedUser: Option<Session>)
      ensures this.topics == topics && this.reviews == reviews
      ensures this.users == users && this.loggedUser == loggedUser
    {
      this.topics := topics;
      this.reviews := reviews;
      this.users := users;
      this.loggedUser := loggedUser;
    }

    /**
     * Reads `topics`, falling back to `reviews` and copying that value to
     * `topics` when `topics` is missing; `reviews` itself is left as it is.
     * Returns what was read.
     */
    method MigrateLegacyTopics() returns (stored: Slot<Topic>)
      modifies this`topics
      ensures stored == Migrated(old(topics), reviews)
      ensures topics == stored
    {
      stored := topics;
      if stored.Absent? {
        stored := reviews;
        if !stored.Absent? {
          topics := stored;
        }
      }
    }
  }

  // ---------------------------------------------------------------------------
  // Likes

  /** No user appears twice. */
  predicate NoDuplicates(s: seq<string>) {
    forall i, j :: 0 <= i < j < |s| ==> s[i] != s[j]
  }

  /**
   * The like toggle of both snapshots: find the user with `indexOf`, then
   * `push` the name when it is absent or `splice` its first occurrence out.
   */
  function Toggle(likes: seq<string>, u: string): (r: seq<string>)
    ensures u !in likes ==> r == likes + [u]
    ensures u in likes ==> |r| == |likes| - 1 && multiset(r) == multiset(likes) - multiset{u}
    ensures forall v :: v != u ==> (v in r <==> v in likes)
    ensures NoDuplicates(likes) ==> (u in r <==> u !in likes)
  {
    var k := IndexOf(likes, u);
    if k == -1 then
      likes + [u]
    else
      var r := RemoveAt(likes, k);
      RemoveAtMultiset(likes, k);
      assert forall v :: v != u ==> multiset(r)[v] == multiset(likes)[v];
      r
  }

  /** Toggling keeps the "a user likes a topic at most once" invariant. */
  lemma {:induction false} ToggleKeepsNoDuplicates(likes: seq<string>, u: string)
    requires NoDuplicates(likes)
    ensures NoDuplicates(Toggle(likes, u))
  {
    var k := IndexOf(likes, u);
    if k != -1 {
      var r := RemoveAt(likes, k);
      forall i, j | 0 <= i < j < |r| ensures r[i] != r[j] {
        var i' := if i < k then i else i + 1;
        var j' := if j < k then j else j + 1;
        assert r[i] == likes[i'] && r[j] == likes[j'] && i' < j';
      }
    }
  }

  /** Liking twice restores the set of users who like the topic. */
  lemma {:induction false} ToggleTwiceSameMembers(likes: seq<string>, u: string)
    requires NoDuplicates(likes)
    ensures forall v :: v in Toggle(Toggle(likes, u), u) <==> v in likes
  {
    ToggleKeepsNoDuplicates(likes, u);
  }

  /** Liking then unliking a topic one had not liked restores the exact list. */
  lemma {:induction false} ToggleTwiceRestores(likes: seq<string>, u: string)
    requires u !in likes
    ensures Toggle(Toggle(likes, u), u) == likes
  {
    var once := likes + [u];
    assert IndexOf(once, u) == |likes| by {
      assert once[|likes|] == u;
      assert once[..|likes|] == likes;
    }
    RemoveLastAppended(likes, u);
  }

  /**
   * `likes.includes(username)`, false when `likes` is missing: the heart the
   * page shows agrees with the `indexOf` test the like toggle branches on.
   */
  function HasLiked(likes: Option<seq<string>>, u: string): (r: bool)
    ensures r <==> likes.Some? && IndexOf(likes.value, u) != -1
    ensures likes.None? || likes == Some([]) ==> !r
  {
    likes.Some? && u in likes.value
  }

  /** Both like handlers: create a missing `likes` list, then toggle the user in it. */
  function Like(t: Topic, u: string): (r: Topic)
    ensures r.likes.Some?
    ensures NoDuplicates(t.likes.GetOr([])) ==> (HasLiked(r.likes, u) <==> !HasLiked(t.likes, u))
    ensures forall v :: v != u ==> (HasLiked(r.likes, v) <==> HasLiked(t.likes, v))
    ensures r == t.(likes := r.likes)
  {
    t.(likes := Some(Toggle(t.likes.GetOr([]), u)))
  }

  // ---------------------------------------------------------------------------
  // Comments

  /** Both comment handlers: create a missing `comments` list and push `c` at its end. */
  function AddComment(t: Topic, c: Comment): (r: Topic)
    ensures r.comments.Some? && |r.comments.value| == |t.comments.GetOr([])| + 1
    ensures r.comments.value[..|r.comments.value| - 1] == t.comments.GetOr([])
    ensures r.comments.value[|r.comments.value| - 1] == c
    ensures r == t.(comments := r.comments)
  {
    var old_ := t.comments.GetOr([]);
    assert (old_ + [c])[..|old_|] == old_;
    t.(comments := Some(old_ + [c]))
  }

  /** `comments.splice(i, 1)` on a topic whose comments exist. */
  function DeleteComment(t: Topic, i: nat): (r: Topic)
    requires t.comments.Some?
    ensures r.comments == Some(RemoveAt(t.comments.value, i))
    ensures r == t.(comments := r.comments)
  {
    t.(comments := Some(RemoveAt(t.comments.value, i)))
  }

  /** Deleting the comment just added restores the topic's comment list. */
  lemma {:induction false} AddThenDeleteComment(t: Topic, c: Comment)
    requires t.comments.Some?
    ensures DeleteComment(AddComment(t, c), |t.comments.value|) == t
  {
    RemoveLastAppended(t.comments.value, c);
  }

  /** The detail pages' load: a missing `comments` or `likes` list becomes empty, nothing else changes. */
  function WithLists(t: Topic): (r: Topic)
    ensures r.comments == Some(t.comments.GetOr([])) && r.likes == Some(t.likes.GetOr([]))
    ensures r == t.(comments := r.comments, likes := r.likes)
    ensures t.comments.Some? && t.likes.Some? ==> r == t
  {
    t.(comments := Some(t.comments.GetOr([])), likes := Some(t.likes.GetOr([])))
  }

  /**
   * The early snapshot's `saveEdit` on one record: the content becomes the
   * edit text as typed (not trimmed), `imageUrl` is assigned the preview only
   * when it differs from it, and `editedAt` is set. Either way the record ends
   * with the preview as its picture, an empty preview included.
   */
  function EditedAsTyped(t: Topic, text: string, preview: string, now: Time): (r: Topic)
    ensures r.content == Some(text) && r.editedAt == Some(now)
    ensures r.imageUrl == Some(preview)
    ensures r.title == t.title && r.username == t.username && r.createdAt == t.createdAt
    ensures r.likes == t.likes && r.comments == t.comments
  {
    var withText := t.(content := Some(text));
    var withImage := if Some(preview) != t.imageUrl then withText.(imageUrl := Some(preview)) else withText;
    withImage.(editedAt := Some(now))
  }

  // ---------------------------------------------------------------------------
  // Sort keys

  /** `b.likes?.length || 0`: a missing list counts as no likes. */
  function LikeCount(t: Topic): int {
    |t.likes.GetOr([])|
  }

  /** `new Date(createdAt)` as a sort key; a missing date counts as time 0. */
  function DateKey(t: Topic): int {
    t.createdAt.GetOr(0)
  }

  // ---------------------------------------------------------------------------
  // Images

  datatype ImageFile = ImageFile(mimeType: string, size: nat)

  datatype ImageError = NotAnImage | TooLarge

  /** `2 * 1024 * 1024` bytes. */
  const MaxImageBytes: nat := 2 * 1024 * 1024

  /**
   * The check every image input runs before reading the file: the type is
   * tested first, then the size.
   */
  function ImageProblem(f: ImageFile): (r: Option<ImageError>)
    ensures r.None? <==> StartsWith(f.mimeType, "image/") && f.size <= 2097152
    ensures r == Some(NotAnImage) <==> !StartsWith(f.mimeType, "image/")
    ensures r == Some(TooLarge) ==> f.size > 2097152
  {
    if !StartsWith(f.mimeType, "image/") then Some(NotAnImage)
    else if f.size > MaxImageBytes then Some(TooLarge)
    else None
  }

  /**
   * The picture input of the add pages (the same handlers in each): the chosen
   * file and its preview, the data URL `FileReader` produces, which is a
   * parameter here.
   */
  class ImagePicker {
    var image: Option<ImageFile>
    var preview: string

    constructor ()
      ensures image.None? && preview == []
    {
      image := None;
      preview := "";
    }

    /**
     * `handleImageChange`: no file changes nothing; a rejected file changes
     * nothing and its problem is reported (the alert); an accepted file becomes
     * the image and its data URL the preview.
     */
    method HandleImageChange(file: Option<ImageFile>, dataUrl: string) returns (problem: Option<ImageError>)
      modifies this
      ensures file.None? ==> problem.None?
      ensures file.Some? ==> problem == ImageProblem(file.value)
      ensures file.Some? && problem.None? ==> image == file && preview == dataUrl
      ensures file.None? || problem.Some? ==> image == old(image) && preview == old(preview)
    {
      problem := None;
      if file.Some? {
        problem := ImageProblem(file.value);
        if problem.Some? {
          return;
        }
        preview := dataUrl;
        image := file;
      }
    }

    /** `handleRemoveImage`: no image and an empty preview. */
    method HandleRemoveImage()
      modifies this
      ensures image.None? && preview == []
    {
      image := None;
      preview := "";
    }
  }

  // ---------------------------------------------------------------------------
  // Storage positions

  /** A topic on a card, with its position in the stored list. */
  datatype Card = Card(index: nat, topic: Topic)

  function CardTopic(c: Card): Topic {
    c.topic
  }

  /** The date of the card's topic, as a sort key. */
  function CardDate(c: Card): int {
    DateKey(c.topic)
  }

  /** `topics.map((topic, index) => ...)`: every topic with its storage position. */
  function Indexed(topics: seq<Topic>): (r: seq<Card>)
    ensures |r| == |topics|
    ensures forall i :: 0 <= i < |r| ==> r[i] == Card(i, topics[i])
  {
    seq(|topics|, i requires 0 <= i < |topics| => Card(i, topics[i]))
  }

  /** Every card's link opens the stored topic the card shows. */
  predicate LinksResolve(topics: seq<Topic>, cards: seq<Card>) {
    forall k :: 0 <= k < |cards| ==> cards[k].index < |topics| && topics[cards[k].index] == cards[k].topic
  }

  /** Any selection of indexed cards links correctly. */
  lemma {:induction false} SelectedCardsResolve(topics: seq<Topic>, cards: seq<Card>)
    requires multiset(cards) <= multiset(Indexed(topics))
    ensures LinksResolve(topics, cards)
  {
    var all := Indexed(topics);
    forall k | 0 <= k < |cards|
      ensures cards[k].index < |topics| && topics[cards[k].index] == cards[k].topic
    {
      assert cards[k] in multiset(all);
      var i :| 0 <= i < |all| && all[i] == cards[k];
    }
  }

  // ---------------------------------------------------------------------------
  // Ownership

  /**
   * `user.username === topic.username`: nobody owns a missing topic or one
   * without an author, and nobody owns anything when logged out.
   */
  function IsOwnTopic(topic: Option<Topic>, user: Option<Session>): (r: bool)
    ensures topic.None? || user.None? ==> !r
    ensures topic.Some? && topic.value.username.None? ==> !r
    ensures topic.Some? && user.Some? ==> (r <==> topic.value.username == Some(user.value.username))
  {
    topic.Some? && user.Some? && topic.value.username == Some(user.value.username)
  }

  /** A topic has at most one owning username. */
  lemma OneOwner(t: Topic, a: Session, b: Session)
    requires IsOwnTopic(Some(t), Some(a)) && IsOwnTopic(Some(t), Some(b))
    ensures a.username == b.username
  {
  }

  /**
   * `user?.username === commentUsername`: nobody owns a comment when logged
   * out, and a comment has one owning username.
   */
  function IsOwnComment(user: Option<Session>, author: string): (r: bool)
    ensures user.None? ==> !r
    ensures user.Some? ==> (r <==> author == user.value.username)
  {
    user.Some? && user.value.username == author
  }
}
