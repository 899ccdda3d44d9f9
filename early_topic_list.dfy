/**
 * The topic list of the early snapshot (iki-epep/src/pages/TopicListPage.jsx):
 * load with the legacy-key fallback, sort newest first in place, give every
 * topic its lists, and filter by title.
 */
module EarlyTopicList {
  import opened Wrappers
  import opened Text
  import opened Seqs
  import opened Sorting
  import opened Records

  /** The `forEach` body: a missing `comments` or `likes` list becomes empty. */
  function Defaulted(c: Card): (r: Card)
    ensures r.index == c.index && r.topic == WithLists(c.topic)
  {
    Card(c.index, WithLists(c.topic))
  }

  // ---------------------------------------------------------------------------
  // The list as the page builds it, and the navigation it does

  /** `parsedTopics.sort(newest first)` then the `forEach` defaults: what the page shows. */
  function ShownAsWritten(stored: seq<Topic>): seq<Topic> {
    MapSeq(SortDesc(stored, DateKey), WithLists)
  }

  /** `onClick={() => handleTopicClick(index)}` with `index` the item's position in the filtered list. */
  function ClickTargetAsWritten(k: nat): nat {
    k
  }

  /**
   * The list's navigation opens another topic: with an older topic stored
   * first and an empty search, the first item shows the newer topic but opens
   * storage position 0, whose topic is the older one.
   */
  lemma ViewPositionOpensOtherTopic()
    ensures var older := Topic(Some("a"), Some(""), Some("u"), Some(1), None, None, Some([]), Some([]));
            var newer := Topic(Some("b"), Some(""), Some("u"), Some(2), None, None, Some([]), Some([]));
            var stored := [older, newer];
            && ShownAsWritten(stored)[0] == newer
            && WithLists(stored[ClickTargetAsWritten(0)]) == older
            && older != newer
  {
    var older := Topic(Some("a"), Some(""), Some("u"), Some(1), None, None, Some([]), Some([]));
    var newer := Topic(Some("b"), Some(""), Some("u"), Some(2), None, None, Some([]), Some([]));
    var stored := [older, newer];
    assert stored[1..] == [newer];
    assert SortDesc([newer], DateKey) == [newer] by {
      assert [newer][1..] == [];
    }
    assert SortDesc(stored, DateKey) == Insert(older, [newer], DateKey);
    assert Insert(older, [newer], DateKey)[0] == newer;
  }

  // ---------------------------------------------------------------------------
  // The list with every item keeping its storage position

  /** The loaded list: newest first, lists defaulted, each item with its storage position. */
  function Loaded(stored: seq<Topic>): seq<Card> {
    MapSeq(SortDesc(Indexed(stored), CardDate), Defaulted)
  }

  /** Sorting the indexed topics and dropping the positions sorts the topics. */
  lemma {:induction false} SortedIndexedTopics(stored: seq<Topic>)
    ensures MapSeq(SortDesc(Indexed(stored), CardDate), CardTopic) == SortDesc(stored, DateKey)
  {
    SortMap(Indexed(stored), CardTopic, CardDate, DateKey);
    assert MapSeq(Indexed(stored), CardTopic) == stored;
  }

  /** Without the positions, the loaded list is the list the page shows. */
  lemma {:induction false} LoadedShowsPage(stored: seq<Topic>)
    ensures MapSeq(Loaded(stored), CardTopic) == ShownAsWritten(stored)
  {
    var sorted := SortDesc(Indexed(stored), CardDate);
    SortedIndexedTopics(stored);
    var topics := MapSeq(sorted, CardTopic);
    var loaded := Loaded(stored);
    var lhs := MapSeq(loaded, CardTopic);
    var rhs := MapSeq(topics, WithLists);
    assert |lhs| == |rhs|;
    forall k | 0 <= k < |lhs| ensures lhs[k] == rhs[k] {
      assert loaded[k] == Defaulted(sorted[k]);
      assert lhs[k] == loaded[k].topic && rhs[k] == WithLists(topics[k]) && topics[k] == sorted[k].topic;
    }
    assert lhs == rhs;
  }

  /** The loaded list is newest first. */
  lemma {:induction false} LoadedNewestFirst(stored: seq<Topic>)
    ensures forall i, j :: 0 <= i < j < |Loaded(stored)| ==> DateKey(Loaded(stored)[i].topic) >= DateKey(Loaded(stored)[j].topic)
  {
    var sorted := SortDesc(Indexed(stored), CardDate);
    var loaded := Loaded(stored);
    assert SortedDesc(sorted, CardDate);
    forall i, j | 0 <= i < j < |loaded| ensures DateKey(loaded[i].topic) >= DateKey(loaded[j].topic) {
      assert loaded[i] == Defaulted(sorted[i]) && loaded[j] == Defaulted(sorted[j]);
    }
  }

  /** Every loaded item is its stored topic with the lists defaulted. */
  lemma {:induction false} LoadedResolves(stored: seq<Topic>)
    ensures forall k :: 0 <= k < |Loaded(stored)| ==>
              Loaded(stored)[k].index < |stored| && Loaded(stored)[k].topic == WithLists(stored[Loaded(stored)[k].index])
  {
    var sorted := SortDesc(Indexed(stored), CardDate);
    var loaded := Loaded(stored);
    SelectedCardsResolve(stored, sorted);
    forall k | 0 <= k < |loaded|
      ensures loaded[k].index < |stored| && loaded[k].topic == WithLists(stored[loaded[k].index])
    {
      assert loaded[k] == Defaulted(sorted[k]);
    }
  }

  /**
   * The loaded list shows exactly what the page shows, newest first, and
   * every item is its stored topic with the lists defaulted.
   */
  lemma {:induction false} LoadedSpec(stored: seq<Topic>)
    ensures MapSeq(Loaded(stored), CardTopic) == ShownAsWritten(stored)
    ensures |Loaded(stored)| == |stored|
    ensures forall i, j :: 0 <= i < j < |Loaded(stored)| ==> DateKey(Loaded(stored)[i].topic) >= DateKey(Loaded(stored)[j].topic)
    ensures forall k :: 0 <= k < |Loaded(stored)| ==>
              Loaded(stored)[k].index < |stored| && Loaded(stored)[k].topic == WithLists(stored[Loaded(stored)[k].index])
  {
    LoadedShowsPage(stored);
    LoadedNewestFirst(stored);
    LoadedResolves(stored);
  }

  /** The title search: `topic.title.toLowerCase().includes(searchTerm.toLowerCase())`. */
  predicate TitleMatches(term: string, c: Card)
    requires c.topic.title.Some?
  {
    Contains(Lower(c.topic.title.value), Lower(term))
  }

  /** Every item has a title, so the search does not throw. */
  predicate AllTitled(cards: seq<Card>) {
    forall k :: 0 <= k < |cards| ==> cards[k].topic.title.Some?
  }

  /**
   * `filteredTopics`: the items whose title contains the term, in list order;
   * `None` when an item has no title, where `toLowerCase` throws.
   */
  function TitleFiltered(cards: seq<Card>, term: string): (r: Option<seq<Card>>)
    ensures r.Some? <==> AllTitled(cards)
    ensures r.Some? ==> && IsSubsequence(r.value, cards)
                        && (forall k :: 0 <= k < |r.value| ==> r.value[k] in cards)
                        && (forall k :: 0 <= k < |r.value| ==> r.value[k].topic.title.Some? && TitleMatches(term, r.value[k]))
                        && (forall k :: 0 <= k < |cards| && TitleMatches(term, cards[k]) ==> cards[k] in r.value)
                        && (forall c :: c in cards && TitleMatches(term, c) ==> multiset(r.value)[c] == multiset(cards)[c])
  {
    if AllTitled(cards) then
      Some(Filter(cards, (c: Card) => c.topic.title.Some? && TitleMatches(term, c)))
    else None
  }

  /** The corrected navigation: the storage position of the item clicked. */
  function ClickTarget(c: Card): nat {
    c.index
  }

  /**
   * Clicking any item of the searched list opens the topic it shows: the
   * target is a stored position, and the detail page's load of it (the stored
   * topic with its lists defaulted) is the item.
   */
  lemma {:induction false} ClickOpensShownTopic(stored: seq<Topic>, term: string, k: nat)
    requires TitleFiltered(Loaded(stored), term).Some?
    requires k < |TitleFiltered(Loaded(stored), term).value|
    ensures var item := TitleFiltered(Loaded(stored), term).value[k];
            ClickTarget(item) < |stored| && WithLists(stored[ClickTarget(item)]) == item.topic
  {
    LoadedSpec(stored);
    var item := TitleFiltered(Loaded(stored), term).value[k];
    assert item in Loaded(stored);
  }

  /**
   * The `forEach` over the sorted list: every item's missing `comments` or
   * `likes` list is set to empty, one item at a time.
   */
  method DefaultLists(cards: seq<Card>) returns (r: seq<Card>)
    ensures r == MapSeq(cards, Defaulted)
  {
    r := cards;
    var i := 0;
    while i < |r|
      invariant 0 <= i <= |r| == |cards|
      invariant forall j :: 0 <= j < i ==> r[j] == Defaulted(cards[j])
      invariant forall j :: i <= j < |r| ==> r[j] == cards[j]
    {
      var t := r[i].topic;
      if t.comments.None? {
        t := t.(comments := Some([]));
      }
      if t.likes.None? {
        t := t.(likes := Some([]));
      }
      assert Card(r[i].index, t) == Defaulted(cards[i]);
      r := r[i := Card(r[i].index, t)];
      i := i + 1;
    }
  }

  /**
   * The list page's state and the store it reads, as corrected: each shown
   * topic carries its storage position, which the page as written does not
   * keep (it holds the bare topics and opens the view position instead).
   * `LoadedShowsPage` ties the topics shown to the page's own list.
   */
  class TopicListPage {
    const store: Store
    var topics: seq<Card>
    var loading: bool

    constructor (store: Store)
      ensures this.store == store && topics == [] && loading
    {
      this.store := store;
      topics := [];
      loading := true;
    }

    /**
     * `loadTopics`: migrates the legacy key, then sorts the list newest first
     * and defaults every topic's lists one by one. A missing list leaves the
     * page empty; an unparseable one makes the handler throw, with only the
     * migration done.
     */
    method LoadTopics()
      modifies this, store`topics
      ensures store.topics == Migrated(old(store.topics), store.reviews)
      ensures store.reviews == old(store.reviews) && store.users == old(store.users)
      ensures store.topics.Present? ==> topics == Loaded(store.topics.items) && !loading
      ensures store.topics.Absent? ==> topics == old(topics) && !loading
      ensures store.topics.Corrupt? ==> topics == old(topics) && loading == old(loading)
    {
      var stored := store.MigrateLegacyTopics();
      if stored.Corrupt? {
        return;
      }
      if stored.Present? {
        var parsed := SortDesc(Indexed(stored.items), CardDate);
        topics := DefaultLists(parsed);
      }
      loading := false;
    }
  }
}
