/**
 * The topic list of the later snapshot (ikiEpep/src/pages/TopicListPage.jsx):
 * load with the legacy-key fallback, normalise every record and remember its
 * storage position, then filter by a search term and sort by a chosen key.
 */
module TopicList {
  import opened Wrappers
  import opened Text
  import opened Seqs
  import opened Sorting
  import opened Records

  /**
   * A normalised record as the page holds it: every field the page reads is
   * present, and `originalIndex` is the record's position in storage.
   */
  datatype ListedTopic = ListedTopic(
    title: string,
    content: string,
    username: string,
    createdAt: Time,
    editedAt: Option<Time>,
    imageUrl: Option<string>,
    likes: seq<string>,
    comments: seq<Comment>,
    originalIndex: nat)

  /** `value || fallback` on an optional string: missing and empty both give the fallback. */
  function OrIfEmpty(value: Option<string>, fallback: string): (r: string)
    ensures value.Some? && value.value != [] ==> r == value.value
    ensures value.None? || value.value == [] ==> r == fallback
  {
    if value.Some? && value.value != [] then value.value else fallback
  }

  /** The record a listed topic stands for, without its `originalIndex`. */
  function Record(t: ListedTopic): Topic {
    Topic(Some(t.title), Some(t.content), Some(t.username), Some(t.createdAt), t.editedAt,
          t.imageUrl, Some(t.likes), Some(t.comments))
  }

  /**
   * The normalising `map` for the record at position `i`: missing lists become
   * empty, a missing date becomes `now`, and a missing or empty title, content
   * or author becomes "Tanpa Judul", "" or "Anonim". Fields that are already
   * present (and non-empty) are kept.
   */
  function Normalized(t: Topic, i: nat, now: Time): (r: ListedTopic)
    ensures r.originalIndex == i
    ensures r.likes == t.likes.GetOr([]) && r.comments == t.comments.GetOr([])
    ensures r.createdAt == t.createdAt.GetOr(now)
    ensures r.title == OrIfEmpty(t.title, "Tanpa Judul") && r.title != []
    ensures r.content == t.content.GetOr("")
    ensures r.username == OrIfEmpty(t.username, "Anonim") && r.username != []
    ensures r.editedAt == t.editedAt && r.imageUrl == t.imageUrl
  {
    ListedTopic(
      OrIfEmpty(t.title, "Tanpa Judul"),
      OrIfEmpty(t.content, ""),
      OrIfEmpty(t.username, "Anonim"),
      t.createdAt.GetOr(now),
      t.editedAt,
      t.imageUrl,
      t.likes.GetOr([]),
      t.comments.GetOr([]),
      i)
  }

  /** Normalising a record that is already normalised changes nothing, whatever the time. */
  lemma NormalizedIdempotent(t: Topic, i: nat, now: Time, later: Time)
    ensures Normalized(Record(Normalized(t, i, now)), i, later) == Normalized(t, i, now)
  {
  }

  /** The normalised list: same length, and element `i` stands for stored record `i`. */
  function NormalizeAll(stored: seq<Topic>, now: Time): (r: seq<ListedTopic>)
    ensures |r| == |stored|
    ensures forall i :: 0 <= i < |r| ==> r[i] == Normalized(stored[i], i, now)
    ensures forall i :: 0 <= i < |r| ==> r[i].originalIndex == i
  {
    seq(|stored|, i requires 0 <= i < |stored| => Normalized(stored[i], i, now))
  }

  /** The search: lowercased title, content or author contains the lowercased term. */
  predicate Matches(term: string, t: ListedTopic) {
    || Contains(Lower(t.title), Lower(term))
    || Contains(Lower(t.content), Lower(term))
    || Contains(Lower(t.username), Lower(term))
  }

  /** The `switch (sortBy)` comparators, each as a descending integer key. */
  function SortKey(sortBy: string): (key: ListedTopic -> int)
    ensures sortBy == "oldest" ==> forall t :: key(t) == -t.createdAt
    ensures sortBy == "mostLikes" ==> forall t :: key(t) == |t.likes|
    ensures sortBy == "mostComments" ==> forall t :: key(t) == |t.comments|
    ensures sortBy !in {"oldest", "mostLikes", "mostComments"} ==> forall t :: key(t) == t.createdAt
  {
    if sortBy == "oldest" then (t: ListedTopic) => -t.createdAt
    else if sortBy == "mostLikes" then (t: ListedTopic) => |t.likes|
    else if sortBy == "mostComments" then (t: ListedTopic) => |t.comments|
    else (t: ListedTopic) => t.createdAt
  }

  /** `processedTopics`: the filter, then the stable sort. */
  function Processed(topics: seq<ListedTopic>, term: string, sortBy: string): seq<ListedTopic> {
    SortDesc(Filter(topics, t => Matches(term, t)), SortKey(sortBy))
  }

  /**
   * What the list shows: ordered by the chosen key, exactly the matching
   * topics (as a multiset, every stored copy of each), with topics of equal
   * key in their stored order.
   */
  lemma {:induction false} ProcessedSpec(topics: seq<ListedTopic>, term: string, sortBy: string)
    ensures var r := Processed(topics, term, sortBy);
            && SortedDesc(r, SortKey(sortBy))
            && multiset(r) == multiset(Filter(topics, t => Matches(term, t)))
            && (forall k :: 0 <= k < |r| ==> Matches(term, r[k]) && r[k] in topics)
            && (forall k :: 0 <= k < |topics| && Matches(term, topics[k]) ==> topics[k] in r)
            && (forall x :: x in topics && Matches(term, x) ==> multiset(r)[x] == multiset(topics)[x])
            && (forall c :: WithKey(r, SortKey(sortBy), c)
                            == WithKey(Filter(topics, t => Matches(term, t)), SortKey(sortBy), c))
  {
    var f := Filter(topics, t => Matches(term, t));
    var r := Processed(topics, term, sortBy);
    forall k | 0 <= k < |r| ensures Matches(term, r[k]) && r[k] in topics {
      assert r[k] in multiset(f);
    }
    forall k | 0 <= k < |topics| && Matches(term, topics[k]) ensures topics[k] in r {
      assert topics[k] in multiset(f);
    }
    forall c ensures WithKey(r, SortKey(sortBy), c) == WithKey(f, SortKey(sortBy), c) {
      SortKeepsTies(f, SortKey(sortBy), c);
    }
  }

  /** An empty search term keeps every topic: the list is a reordering of all of them. */
  lemma {:induction false} EmptyTermKeepsAll(topics: seq<ListedTopic>, sortBy: string)
    ensures multiset(Processed(topics, "", sortBy)) == multiset(topics)
  {
    forall k | 0 <= k < |topics| ensures Matches("", topics[k]) {
      ContainsEmpty(Lower(topics[k].title));
    }
    FilterAll(topics, t => Matches("", t));
  }

  /** The cut of a long content: 149 or 150 units, followed by "...", 153 units at most. */
  lemma PreviewCut(content: string)
    requires Utf16Length(content) > 150
    ensures var p := UnitPrefix(content, 150);
            && |p| < |content|
            && 149 <= Utf16Length(p) <= 150
            && Utf16Length(p + "...") <= 153
            && (NoPairs(content) ==> |content| > 150 && p == content[..150])
  {
    var p := UnitPrefix(content, 150);
    assert p != content;
    Utf16LengthAppend(p, "...");
    assert Utf16Length("...") == 3 by {
      assert "..."[1..] == ".." && ".."[1..] == "." && "."[1..] == [];
    }
    if NoPairs(content) {
      Utf16LengthPlain(content);
      UnitPrefixPlain(content, 150);
    }
  }

  /**
   * `getContentPreview`: "" for empty content, the content itself up to 150
   * code units, otherwise its first 150 code units followed by "...".
   */
  function Preview(content: string): (r: string)
    ensures Utf16Length(content) <= 150 ==> r == content
    ensures Utf16Length(content) > 150 ==>
              && |r| >= 3 && r[|r| - 3..] == "..."
              && var p := r[..|r| - 3];
                 && |p| < |content| && p == content[..|p|]
                 && 149 <= Utf16Length(p) <= 150
                 && Utf16Length(p) + Units(content[|p|]) > 150
    ensures NoPairs(content) && |content| > 150 ==> r == content[..150] + "..."
    ensures Utf16Length(r) <= 153
  {
    if content == [] then ""
    else if Utf16Length(content) <= 150 then
      assert NoPairs(content) ==> |content| <= 150;
      content
    else
      var p := UnitPrefix(content, 150);
      PreviewCut(content);
      assert (p + "...")[..|p|] == p;
      p + "..."
  }

  /** `handleTopicClick(topic.originalIndex)`: the route position the list navigates to. */
  function ClickTarget(t: ListedTopic): nat {
    t.originalIndex
  }

  /**
   * Clicking any item of any filtered and sorted view opens the stored record
   * the item was made from: its target is a valid storage position, and
   * normalising the record stored there gives back the item.
   */
  lemma {:induction false} ClickOpensClickedTopic(stored: seq<Topic>, now: Time, term: string, sortBy: string, k: nat)
    requires k < |Processed(NormalizeAll(stored, now), term, sortBy)|
    ensures var item := Processed(NormalizeAll(stored, now), term, sortBy)[k];
            && ClickTarget(item) < |stored|
            && Normalized(stored[ClickTarget(item)], ClickTarget(item), now) == item
  {
    var all := NormalizeAll(stored, now);
    ProcessedSpec(all, term, sortBy);
    var item := Processed(all, term, sortBy)[k];
    assert item in all;
    var j :| 0 <= j < |all| && all[j] == item;
    assert item.originalIndex == j;
  }

  /** The React state of the list page and the store it reads. */
  class TopicListPage {
    const store: Store
    var topics: seq<ListedTopic>
    var pageError: bool

    constructor (store: Store)
      ensures this.store == store && topics == [] && !pageError
    {
      this.store := store;
      topics := [];
      pageError := false;
    }

    /**
     * `loadTopics`: migrates the legacy key, then holds the normalised list;
     * an absent value gives the empty list, an unparseable one the empty list
     * and an error.
     */
    method LoadTopics(now: Time)
      modifies this`topics, this`pageError, store`topics
      ensures store.topics == Migrated(old(store.topics), store.reviews)
      ensures store.reviews == old(store.reviews) && store.users == old(store.users)
      ensures store.topics.Present? ==> topics == NormalizeAll(store.topics.items, now) && pageError == old(pageError)
      ensures store.topics.Absent? ==> topics == [] && pageError == old(pageError)
      ensures store.topics.Corrupt? ==> topics == [] && pageError
    {
      var stored := store.MigrateLegacyTopics();
      match stored {
        case Present(items) =>
          var parsed: seq<ListedTopic> := [];
          var i := 0;
          while i < |items|
            invariant 0 <= i <= |items|
            invariant |parsed| == i
            invariant forall j :: 0 <= j < i ==> parsed[j] == Normalized(items[j], j, now)
          {
            parsed := parsed + [Normalized(items[i], i, now)];
            i := i + 1;
          }
          topics := parsed;
        case Absent =>
          topics := [];
        case Corrupt =>
          pageError := true;
          topics := [];
      }
    }
  }
}
