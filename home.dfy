/**
 * The derived views of the later home page (ikiEpep/src/pages/HomePage.jsx):
 * the latest four topics, the five most liked, and up to three featured
 * topics drawn from the ones with a picture. Each card links to a topic page.
 */
module Home {
  import opened Wrappers
  import opened Seqs
  import opened Sorting
  import opened Records

  /** `topic.imageUrl` is truthy: present and not empty. */
  predicate HasImage(t: Topic) {
    t.imageUrl.Some? && t.imageUrl.value != []
  }

  // ---------------------------------------------------------------------------
  // The views as the page computes them: the topics, with the card's link
  // target being its position in the view.

  /** `[...topics].sort(newest first).slice(0, 4)`. */
  function LatestAsWritten(topics: seq<Topic>): seq<Topic> {
    TopN(topics, DateKey, 4)
  }

  /** `to={`/topics/${index}`}` on the card at position `k` of a view. */
  function ViewLink(k: nat): nat {
    k
  }

  /**
   * The card links do not open the topic on the card: with an older topic
   * stored first, the first card of the latest view shows the newer topic but
   * links to storage position 0, which holds the older one.
   */
  lemma LinkOpensOtherTopic()
    ensures var older := Topic(Some("a"), Some(""), Some("u"), Some(1), None, None, None, None);
            var newer := Topic(Some("b"), Some(""), Some("u"), Some(2), None, None, None, None);
            var stored := [older, newer];
            && LatestAsWritten(stored)[0] == newer
            && stored[ViewLink(0)] == older
            && older != newer
  {
    var older := Topic(Some("a"), Some(""), Some("u"), Some(1), None, None, None, None);
    var newer := Topic(Some("b"), Some(""), Some("u"), Some(2), None, None, None, None);
    var stored := [older, newer];
    assert stored[1..] == [newer];
    assert SortDesc([newer], DateKey) == [newer] by {
      assert [newer][1..] == [];
    }
    assert SortDesc(stored, DateKey) == Insert(older, [newer], DateKey);
    assert Insert(older, [newer], DateKey)[0] == newer;
  }

  // ---------------------------------------------------------------------------
  // The views with every card carrying the storage position of its topic, so
  // that its link opens the topic it shows.

  function CardLikes(c: Card): int {
    LikeCount(c.topic)
  }

  predicate CardHasImage(c: Card) {
    HasImage(c.topic)
  }

  /** The latest view: the four newest topics, newest first. */
  function Latest(topics: seq<Topic>): seq<Card> {
    TopN(Indexed(topics), CardDate, 4)
  }

  /** The popular view: the five most liked topics, a missing `likes` counting as none. */
  function Popular(topics: seq<Topic>): seq<Card> {
    TopN(Indexed(topics), CardLikes, 5)
  }

  /** The cards of a top-`n` view by a card key that is a topic key are in non-increasing topic-key order. */
  lemma {:induction false} IndexedTopNOrder(topics: seq<Topic>, cardKey: Card -> int, key: Topic -> int, n: nat)
    requires forall c :: cardKey(c) == key(CardTopic(c))
    ensures var r := TopN(Indexed(topics), cardKey, n);
            forall i, j :: 0 <= i < j < |r| ==> key(r[i].topic) >= key(r[j].topic)
  {
    var r := TopN(Indexed(topics), cardKey, n);
    assert SortedDesc(r, cardKey);
    forall i, j | 0 <= i < j < |r| ensures key(r[i].topic) >= key(r[j].topic) {
      assert cardKey(r[i]) == key(CardTopic(r[i])) && cardKey(r[j]) == key(CardTopic(r[j]));
    }
  }

  /** No card left out of a top-`n` view ranks above a card in it. */
  lemma {:induction false} IndexedTopNBest(topics: seq<Topic>, cardKey: Card -> int, key: Topic -> int, n: nat)
    requires forall c :: cardKey(c) == key(CardTopic(c))
    ensures var r := TopN(Indexed(topics), cardKey, n);
            forall c :: c in multiset(Indexed(topics)) - multiset(r) ==>
              forall j :: 0 <= j < |r| ==> key(c.topic) <= key(r[j].topic)
  {
    var all := Indexed(topics);
    var r := TopN(all, cardKey, n);
    forall c: Card, j: int | c in multiset(all) - multiset(r) && 0 <= j < |r|
      ensures key(c.topic) <= key(r[j].topic)
    {
      TopNKeepsLargest(all, cardKey, n, c);
      assert cardKey(c) == key(CardTopic(c)) && cardKey(r[j]) == key(CardTopic(r[j]));
    }
  }

  /**
   * A view that takes the first `n` indexed topics by a key on topics: `min(n, len)`
   * cards in non-increasing key order, showing the topics of the page's own
   * view, each linking to the topic it shows, no topic left out ranking
   * above one shown, and ties kept in storage order from the first stored.
   */
  lemma {:induction false} IndexedTopNSpec(topics: seq<Topic>, cardKey: Card -> int, key: Topic -> int, n: nat)
    requires forall c :: cardKey(c) == key(CardTopic(c))
    ensures var r := TopN(Indexed(topics), cardKey, n);
            && |r| == Min(n, |topics|)
            && (forall i, j :: 0 <= i < j < |r| ==> key(r[i].topic) >= key(r[j].topic))
            && MapSeq(r, CardTopic) == TopN(topics, key, n)
            && LinksResolve(topics, r)
            && (forall c :: c in multiset(Indexed(topics)) - multiset(r) ==>
                  forall j :: 0 <= j < |r| ==> key(c.topic) <= key(r[j].topic))
            && (forall k :: WithKey(r, cardKey, k) <= WithKey(Indexed(topics), cardKey, k))
  {
    var all := Indexed(topics);
    var r := TopN(all, cardKey, n);
    forall k ensures WithKey(r, cardKey, k) <= WithKey(all, cardKey, k) {
      TopNKeepsTies(all, cardKey, n, k);
    }
    IndexedTopNOrder(topics, cardKey, key, n);
    IndexedTopNBest(topics, cardKey, key, n);
    TopNMap(all, CardTopic, cardKey, key, n);
    assert MapSeq(all, CardTopic) == topics;
    SelectedCardsResolve(topics, r);
  }

  /**
   * The latest view holds `min(4, n)` cards in non-increasing date order, shows
   * exactly the topics the page's own view shows, and every card links to the
   * topic it shows. No topic left out is newer than one shown, and among
   * topics of equal date the ones shown are the first stored.
   */
  lemma {:induction false} LatestSpec(topics: seq<Topic>)
    ensures var r := Latest(topics);
            && |r| == Min(4, |topics|)
            && (forall i, j :: 0 <= i < j < |r| ==> DateKey(r[i].topic) >= DateKey(r[j].topic))
            && MapSeq(r, CardTopic) == LatestAsWritten(topics)
            && LinksResolve(topics, r)
            && (forall c :: c in multiset(Indexed(topics)) - multiset(r) ==>
                  forall j :: 0 <= j < |r| ==> DateKey(c.topic) <= DateKey(r[j].topic))
            && (forall k :: WithKey(r, CardDate, k) <= WithKey(Indexed(topics), CardDate, k))
  {
    IndexedTopNSpec(topics, CardDate, DateKey, 4);
  }

  /**
   * The popular view holds `min(5, n)` cards in non-increasing like count, and
   * every card links to the topic it shows. No topic left out has more likes
   * than one shown, and among topics with equal counts the ones shown are the
   * first stored, in storage order.
   */
  lemma {:induction false} PopularSpec(topics: seq<Topic>)
    ensures var r := Popular(topics);
            && |r| == Min(5, |topics|)
            && (forall i, j :: 0 <= i < j < |r| ==> LikeCount(r[i].topic) >= LikeCount(r[j].topic))
            && MapSeq(r, CardTopic) == TopN(topics, LikeCount, 5)
            && LinksResolve(topics, r)
            && (forall c :: c in multiset(Indexed(topics)) - multiset(r) ==>
                  forall j :: 0 <= j < |r| ==> LikeCount(c.topic) <= LikeCount(r[j].topic))
            && (forall k :: WithKey(r, CardLikes, k) <= WithKey(Indexed(topics), CardLikes, k))
  {
    IndexedTopNSpec(topics, CardLikes, LikeCount, 5);
  }

  /** Some stored topic has a picture. */
  predicate AnyImage(topics: seq<Topic>) {
    exists i :: 0 <= i < |topics| && HasImage(topics[i])
  }

  /** The topics the featured cards are drawn from: those with a picture, or all when none has one. */
  function FeaturedPool(topics: seq<Topic>): (r: seq<Card>)
    ensures multiset(r) <= multiset(Indexed(topics))
    ensures AnyImage(topics) ==> forall k :: 0 <= k < |r| ==> HasImage(r[k].topic)
    ensures AnyImage(topics) ==> forall i :: 0 <= i < |topics| && HasImage(topics[i]) ==> Card(i, topics[i]) in r
    ensures !AnyImage(topics) ==> r == Indexed(topics)
  {
    if AnyImage(topics) then Filter(Indexed(topics), CardHasImage) else Indexed(topics)
  }

  /** A prefix of a reordering of the pool links correctly, and has pictures where the pool has them. */
  lemma {:induction false} PoolPrefix(topics: seq<Topic>, shuffled: seq<Card>, m: nat)
    requires multiset(shuffled) == multiset(FeaturedPool(topics))
    requires m <= |shuffled|
    ensures |shuffled| == |FeaturedPool(topics)|
    ensures LinksResolve(topics, shuffled[..m])
    ensures AnyImage(topics) ==> forall k :: 0 <= k < m ==> HasImage(shuffled[k].topic)
    ensures multiset(shuffled[..m]) <= multiset(FeaturedPool(topics))
  {
    var pool := FeaturedPool(topics);
    assert |shuffled| == |multiset(shuffled)| == |multiset(pool)| == |pool|;
    var prefix := shuffled[..m];
    assert multiset(prefix) <= multiset(shuffled) by {
      assert shuffled == prefix + shuffled[m..];
    }
    SelectedCardsResolve(topics, prefix);
    forall k | 0 <= k < m ensures shuffled[k] in pool {
      assert shuffled[k] in multiset(shuffled);
    }
  }

  /**
   * The featured view: the first three of `shuffled`, the pool in the order the
   * random sort left it (the shuffle is a parameter, since `Math.random` is not
   * modelled). At most three distinct cards of the pool, each linking to the
   * topic it shows, all with a picture when any topic has one, drawn from all
   * topics otherwise.
   */
  function Featured(topics: seq<Topic>, shuffled: seq<Card>): (r: seq<Card>)
    requires multiset(shuffled) == multiset(FeaturedPool(topics))
    ensures |r| == Min(3, |FeaturedPool(topics)|)
    ensures !AnyImage(topics) ==> |r| == Min(3, |topics|)
    ensures LinksResolve(topics, r)
    ensures AnyImage(topics) ==> forall k :: 0 <= k < |r| ==> HasImage(r[k].topic)
    ensures multiset(r) <= multiset(FeaturedPool(topics))
  {
    PoolPrefix(topics, shuffled, Min(3, |shuffled|));
    shuffled[..Min(3, |shuffled|)]
  }

  datatype Views = Views(latest: seq<Card>, popular: seq<Card>, featured: seq<Card>)

  /**
   * The page's effect: reads `topics` (a missing key gives empty views; text
   * that `JSON.parse` rejects makes the effect throw, `None`) and builds the
   * three views.
   */
  function LoadViews(slot: Slot<Topic>, shuffled: seq<Card>): (r: Option<Views>)
    requires multiset(shuffled) == multiset(FeaturedPool(ReadList(slot).GetOr([])))
    ensures r.None? <==> slot.Corrupt?
    ensures slot.Absent? ==> r == Some(Views([], [], []))
    ensures slot.Present? ==> r == Some(Views(Latest(slot.items), Popular(slot.items), Featured(slot.items, shuffled)))
  {
    match ReadList(slot)
    case None => None
    case Some(topics) => Some(Views(Latest(topics), Popular(topics), Featured(topics, shuffled)))
  }
}
