/**
 * The derived views of the early home page (iki-epep/src/pages/HomePage.jsx):
 * the three newest and the three most liked reviews, each from its own sorted
 * copy of the stored list.
 */
module EarlyHome {
  import opened Wrappers
  import opened Sorting
  import opened Records

  datatype Views = Views(latest: seq<Topic>, popular: seq<Topic>)

  /**
   * The page's effect: reads `reviews` (a missing key gives empty views; text
   * that `JSON.parse` rejects makes the effect throw, `None`) and keeps the
   * first three of a newest-first copy and of a most-liked copy. The sort is
   * stable, so among equal dates or counts the first stored are kept.
   */
  function LoadViews(slot: Slot<Topic>): (r: Option<Views>)
    ensures r.None? <==> slot.Corrupt?
    ensures slot.Absent? ==> r == Some(Views([], []))
    ensures r.Some? ==> |r.value.latest| == Min(3, |ReadList(slot).value|) && |r.value.popular| == Min(3, |ReadList(slot).value|)
    ensures r.Some? ==> SortedDesc(r.value.latest, DateKey) && SortedDesc(r.value.popular, LikeCount)
    ensures r.Some? ==> multiset(r.value.latest) <= multiset(ReadList(slot).value)
                        && multiset(r.value.popular) <= multiset(ReadList(slot).value)
    ensures r.Some? ==> forall k :: WithKey(r.value.latest, DateKey, k) <= WithKey(ReadList(slot).value, DateKey, k)
    ensures r.Some? ==> forall k :: WithKey(r.value.popular, LikeCount, k) <= WithKey(ReadList(slot).value, LikeCount, k)
  {
    match ReadList(slot)
    case None => None
    case Some(reviews) =>
      assert forall k :: WithKey(TopN(reviews, DateKey, 3), DateKey, k) <= WithKey(reviews, DateKey, k) by {
        forall k ensures WithKey(TopN(reviews, DateKey, 3), DateKey, k) <= WithKey(reviews, DateKey, k) {
          TopNKeepsTies(reviews, DateKey, 3, k);
        }
      }
      assert forall k :: WithKey(TopN(reviews, LikeCount, 3), LikeCount, k) <= WithKey(reviews, LikeCount, k) by {
        forall k ensures WithKey(TopN(reviews, LikeCount, 3), LikeCount, k) <= WithKey(reviews, LikeCount, k) {
          TopNKeepsTies(reviews, LikeCount, 3, k);
        }
      }
      Some(Views(TopN(reviews, DateKey, 3), TopN(reviews, LikeCount, 3)))
  }

  /**
   * No review left out of the latest view is newer than one in it, and none
   * left out of the popular view has more likes than one in it.
   */
  lemma {:induction false} ViewsKeepTheBest(reviews: seq<Topic>, x: Topic)
    ensures var v := LoadViews(Present(reviews)).value;
            && (x in multiset(reviews) - multiset(v.latest) ==>
                  forall j :: 0 <= j < |v.latest| ==> DateKey(x) <= DateKey(v.latest[j]))
            && (x in multiset(reviews) - multiset(v.popular) ==>
                  forall j :: 0 <= j < |v.popular| ==> LikeCount(x) <= LikeCount(v.popular[j]))
  {
    if x in multiset(reviews) - multiset(TopN(reviews, DateKey, 3)) {
      TopNKeepsLargest(reviews, DateKey, 3, x);
    }
    if x in multiset(reviews) - multiset(TopN(reviews, LikeCount, 3)) {
      TopNKeepsLargest(reviews, LikeCount, 3, x);
    }
  }
}
