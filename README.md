# Topic and review store of the IKI forum app

The app is a small React forum. Users register, log in, post topics (called
reviews in the earliest version), like and comment on them, edit and delete
them. All data lives in the browser's `localStorage`:

- `topics`: the list of topic records (`reviews` in the early version);
- `users`: the list of accounts;
- `loggedUser`: the session record.

Every page handler works the same way. It reads a whole list, changes one
record or one position, and writes the whole list back.

This project models that store logic as it appears in two snapshots of the
repository:

- `ikiEpep/`, the later version;
- `iki-epep/`, the earlier one.

Each page handler is modelled as a method of a class holding the page's state
and a shared `Records.Store` (one field per storage key). Each handler is
specified against pure functions:

- `TopicDetail.LikeStep`, `Records.Toggle` and similar functions say what
  happens to a record or a list.
- Lemmas prove the properties the app relies on:
  - a like toggled twice restores who likes a topic;
  - a delete removes exactly one position;
  - filters give subsequences;
  - sorts give ordered permutations that keep ties in place;
  - the top-N views keep the largest elements;
  - registration keeps accounts unique;
  - a list click opens the topic it shows.

How the model represents the browser:

- **Storage keys.** A key holds `Absent`, `Corrupt` (text that `JSON.parse`
  rejects) or `Present(items)`.
- **Reads.** `Records.ReadList` models `JSON.parse(x) || []`. A missing key
  reads as the empty list.
- **Missing fields.** Record fields that may be missing are `Option`s.
- **Times.** Timestamps are integers.
- **Outside inputs.** The current time, the answer to a confirmation dialog,
  the data URL a `FileReader` produces and the order `Math.random` shuffles
  into are all parameters.
- **Pure checks.** `Records.HasLiked`, `Records.IsOwnTopic` and
  `Records.IsOwnComment` are plain functions (`hasLiked`, `isOwnTopic`,
  `isOwnComment`).
- **String lengths.** JavaScript's `length` and `substring` count UTF-16 code
  units. `Text.Utf16Length` counts them (two for a character above U+FFFF),
  and the password and preview checks use it.

Modules, one file each:

- **Shared:**
  - `Wrappers`: Option and Result.
  - `Text`: ECMAScript `trim`, ASCII `toLowerCase`, `includes`, `startsWith`, UTF-16 `length` and `substring`.
  - `Seqs`: `indexOf`, `splice(i, 1)`, `filter`.
  - `Sorting`: the stable sort, sort-then-slice, and sorting after a map.
  - `Records`: the records, the store, likes, comments, the image check, storage positions.
- **Later snapshot (`ikiEpep/`):** `TopicDetail`, `TopicList`, `Home`, `Register`, `TopicAdd`.
- **Earlier snapshot (`iki-epep/`):** `EarlyTopicDetail`, `EarlyTopicList`, `EarlyReviewList`,
  `EarlyHome`, `EarlyRegister`, `EarlyLogin`, `EarlyTopicAdd`, `EarlyReviewAdd`.

## Model

| member | source | states |
|---|---|---|
| Text.Trim | ikiEpep/src/pages/TopicDetailPage.jsx:166 | the trimmed string is `s` without its leading and trailing ECMAScript white space: empty iff `s` is all white space, otherwise starting and ending with a non-space character and equal to the middle of `s` |
| Text.TrimIdempotent | ikiEpep/src/pages/TopicAddPage.jsx:85 | trimming a trimmed string changes nothing |
| Text.Lower | ikiEpep/src/pages/TopicListPage.jsx:97-99 | `toLowerCase` keeps the length, lowercases each character and leaves no ASCII capital |
| Text.Contains | ikiEpep/src/pages/TopicListPage.jsx:97-99 | `includes` is true iff the needle occurs at some position of the haystack |
| Text.ContainsEmpty | ikiEpep/src/pages/TopicListPage.jsx:96-100 | every string includes the empty search term |
| Text.Utf16Length | ikiEpep/src/pages/RegisterPage.jsx:35 | `length` counts between one and two units per character |
| Text.Utf16LengthPlain | ikiEpep/src/pages/RegisterPage.jsx:35 | `length` equals the number of characters iff no character lies above U+FFFF |
| Text.Utf16LengthAppend | ikiEpep/src/pages/TopicListPage.jsx:118 | the units of a concatenation are the sum of the units of its parts |
| Text.UnitPrefix | ikiEpep/src/pages/TopicListPage.jsx:118 | `substring(0, n)` cut at whole characters: a prefix of at most `n` units that no further character fits into |
| Text.UnitPrefixPlain | ikiEpep/src/pages/TopicListPage.jsx:118 | without characters above U+FFFF the cut is the ordinary first `n` characters |
| Seqs.IndexOf | ikiEpep/src/pages/TopicDetailPage.jsx:147 | `indexOf` is -1 iff the element is absent, otherwise the position of its first occurrence |
| Seqs.RemoveAt | ikiEpep/src/pages/TopicDetailPage.jsx:349 | `splice(i, 1)` drops exactly position `i` (earlier elements stay, later ones move down one), and changes nothing when `i` is past the end |
| Seqs.RemoveAtThenReinsert | ikiEpep/src/pages/TopicDetailPage.jsx:240 | putting the removed element back at `i` restores the list |
| Seqs.RemoveLastAppended | ikiEpep/src/pages/TopicDetailPage.jsx:147-153 | splicing out the element just pushed restores the list |
| Seqs.RemoveAtMultiset | iki-epep/src/pages/ReviewListPage.jsx:185 | a splice removes exactly one copy of the element at `i` |
| Seqs.Filter | ikiEpep/src/pages/TopicListPage.jsx:96-100 | `filter` keeps exactly the elements satisfying the predicate, every copy of each, as a subsequence, in order |
| Seqs.FilterAll | ikiEpep/src/pages/TopicListPage.jsx:96-100 | a filter that every element passes returns the list unchanged |
| Sorting.Insert | iki-epep/src/pages/ReviewListPage.jsx:37 | inserting adds exactly the one element: one more element, the same multiset plus it |
| Sorting.InsertSorted | iki-epep/src/pages/ReviewListPage.jsx:37 | inserting into a sorted list keeps it sorted, the new first key being the inserted one's or the old first one |
| Sorting.SortDesc | iki-epep/src/pages/ReviewListPage.jsx:37 | the sort returns a permutation in non-increasing key order |
| Sorting.InsertKeepsTies | ikiEpep/src/pages/TopicListPage.jsx:101-113 | insertion puts the new element before the elements of equal key |
| Sorting.SortKeepsTies | ikiEpep/src/pages/TopicListPage.jsx:101-113 | the sort is stable: elements of equal key keep their relative order |
| Sorting.TopN | ikiEpep/src/pages/HomePage.jsx:24-26 | sort-then-`slice(0, n)` gives `min(n, len)` elements of the list in non-increasing key order |
| Sorting.LeftOutPosition | ikiEpep/src/pages/HomePage.jsx:24-26 | an element left out of the top `n` sits in the sorted copy at a position past the first `n` |
| Sorting.WithKeyPrefix | ikiEpep/src/pages/HomePage.jsx:24-31 | the equal-key elements of a prefix are a prefix of those of the whole list |
| Sorting.TopNKeepsTies | ikiEpep/src/pages/HomePage.jsx:24-31 | among elements of equal key, those kept are the first of them in input order, as a slice of a stable sort keeps them |
| Sorting.TopNKeepsLargest | ikiEpep/src/pages/HomePage.jsx:24-31 | no element left out ranks above one kept |
| Sorting.MapSeq | iki-epep/src/pages/TopicListPage.jsx:45-48 | a per-element map keeps the length and maps each position |
| Sorting.InsertMap | iki-epep/src/pages/ReviewListPage.jsx:37-44 | inserting commutes with a map that keeps the sort key |
| Sorting.SortMap | iki-epep/src/pages/ReviewListPage.jsx:37-44 | sorting then defaulting fields equals defaulting then sorting, when the defaults keep the key |
| Sorting.TopNMap | ikiEpep/src/pages/HomePage.jsx:24-31 | taking the top `n` commutes with a map that keeps the key |
| Records.ReadList | ikiEpep/src/pages/HomePage.jsx:21 | `JSON.parse(x) or []`: a missing key reads as `[]`, a stored list as itself, and unparseable text throws |
| Records.Migrated | ikiEpep/src/pages/TopicListPage.jsx:42-48 | `topics` falls back to `reviews` only when `topics` is missing |
| Records.Store.MigrateLegacyTopics | ikiEpep/src/pages/TopicListPage.jsx:42-48 | the value read is the migrated one, it is copied to `topics`, and `reviews` is not written |
| Records.Toggle | ikiEpep/src/pages/TopicDetailPage.jsx:144-153 | an absent user is appended; a present one loses its first occurrence (one copy fewer); nobody else's membership changes; without duplicates membership flips |
| Records.ToggleKeepsNoDuplicates | ikiEpep/src/pages/TopicDetailPage.jsx:144-153 | toggling keeps the "likes at most once" invariant |
| Records.ToggleTwiceSameMembers | ikiEpep/src/pages/TopicDetailPage.jsx:144-153 | toggling twice restores the set of likers |
| Records.ToggleTwiceRestores | iki-epep/src/pages/ReviewListPage.jsx:76-88 | liking then unliking a topic one had not liked restores the exact list |
| Records.HasLiked | ikiEpep/src/pages/TopicDetailPage.jsx:256-259 | `includes` on the likes agrees with the `indexOf` test the toggle branches on; a missing or empty list is liked by nobody |
| Records.IsOwnTopic | ikiEpep/src/pages/TopicDetailPage.jsx:371-374 | with a topic and a logged-in user, the user owns the topic exactly when the usernames are equal; nobody owns a missing topic or one without an author, and nobody owns anything when logged out |
| Records.OneOwner | ikiEpep/src/pages/TopicDetailPage.jsx:371-374 | two users who both own a topic have the same username |
| Records.IsOwnComment | ikiEpep/src/pages/TopicDetailPage.jsx:376-378 | logged out, no comment is one's own; logged in, exactly the comments whose author is one's username |
| Records.Like | iki-epep/src/pages/ReviewListPage.jsx:76-88 | a missing `likes` is created; the user's like flips and nobody else's changes; no other field changes |
| Records.AddComment | ikiEpep/src/pages/TopicDetailPage.jsx:186-197 | a missing `comments` is created and exactly one comment is appended at its end, earlier ones unchanged |
| Records.DeleteComment | iki-epep/src/pages/ReviewListPage.jsx:128-130 | only the comment list changes, by `splice(i, 1)` |
| Records.AddThenDeleteComment | iki-epep/src/pages/TopicDetailPage.jsx:104-130 | deleting the comment just added restores the topic |
| Records.WithLists | iki-epep/src/pages/TopicListPage.jsx:45-48 | missing `comments` and `likes` become empty, nothing else changes, and complete records are left as they are |
| Records.EditedAsTyped | iki-epep/src/pages/TopicDetailPage.jsx:148-174 | the early `saveEdit`: untrimmed content, the preview as picture, `editedAt` set, every other field unchanged |
| Records.ImageProblem | ikiEpep/src/pages/TopicDetailPage.jsx:384-399 | a file is accepted iff its type starts with `image/` and its size is at most 2097152 bytes; the type is checked first |
| Records.ImagePicker.constructor | iki-epep/src/pages/TopicAddPage.jsx:11-12 | no image and an empty preview |
| Records.ImagePicker.HandleImageChange | iki-epep/src/pages/TopicAddPage.jsx:25-49 | a rejected file reports its problem and changes nothing; an accepted one becomes the image with its data URL as preview |
| Records.ImagePicker.HandleRemoveImage | iki-epep/src/pages/TopicAddPage.jsx:51-57 | clears the image and the preview |
| Records.Indexed | ikiEpep/src/pages/TopicListPage.jsx:51-53 | every topic paired with its storage position |
| Records.SelectedCardsResolve | ikiEpep/src/pages/TopicListPage.jsx:51-53 | any selection of indexed topics links each card to the stored topic it shows |
| TopicDetail.LoadResult | ikiEpep/src/pages/TopicDetailPage.jsx:89-119 | a topic is shown iff the list is readable and `parseInt(id)` is a position in it; it is the stored record with its lists defaulted |
| TopicDetail.ReplaceAt | ikiEpep/src/pages/TopicDetailPage.jsx:156-157 | writing position `i` leaves every other position unchanged |
| TopicDetail.LikeStep | ikiEpep/src/pages/TopicDetailPage.jsx:135-157 | the like is applied to the re-read stored record, only at its position, and only when the position exists |
| TopicDetail.LikeStepTwice | ikiEpep/src/pages/TopicDetailPage.jsx:135-157 | liking twice through the page restores the likers and changes no other topic |
| TopicDetail.CommentStep | ikiEpep/src/pages/TopicDetailPage.jsx:179-201 | the comment is appended to the re-read record, at its position only |
| TopicDetail.NewComment | ikiEpep/src/pages/TopicDetailPage.jsx:191-197 | the comment is `{username, trimmed text, now}`, and its text is non-empty and has no surrounding white space when the input is not blank |
| TopicDetail.NewCommentIsOwn | ikiEpep/src/pages/TopicDetailPage.jsx:376-378 | the author of a new comment is the one user who owns it |
| TopicDetail.ChangesKeepOwner | ikiEpep/src/pages/TopicDetailPage.jsx:371-374 | liking, commenting, deleting a comment and editing never change who owns the topic |
| TopicDetail.DeleteCommentStep | ikiEpep/src/pages/TopicDetailPage.jsx:231-240 | nothing is written unless the topic and the comment index exist; otherwise exactly that comment goes and the rest keep their order |
| TopicDetail.Edited | ikiEpep/src/pages/TopicDetailPage.jsx:298-300 | trimmed content, the preview or null as picture, `editedAt` set; title, author, creation time, likes and comments untouched |
| TopicDetail.SaveStep | ikiEpep/src/pages/TopicDetailPage.jsx:286-304 | the edit is applied to the re-read record, at its position only |
| TopicDetail.DeleteTopicStep | ikiEpep/src/pages/TopicDetailPage.jsx:341-351 | out of range writes nothing; otherwise the list loses exactly that position, earlier topics keep theirs and later ones move down one |
| TopicDetail.TopicDetailPage.constructor | ikiEpep/src/pages/TopicDetailPage.jsx:40-58 | no topic, no errors, empty edit preview |
| TopicDetail.TopicDetailPage.LoadTopic | ikiEpep/src/pages/TopicDetailPage.jsx:89-119 | shows `LoadResult`'s topic, or no topic and its error |
| TopicDetail.TopicDetailPage.HandleLike | ikiEpep/src/pages/TopicDetailPage.jsx:131-163 | writes `LikeStep`'s list and shows its topic; a vanished position reports not-found and reloads; an unreadable list writes nothing |
| TopicDetail.TopicDetailPage.AddCommentTo | ikiEpep/src/pages/TopicDetailPage.jsx:165-210 | a blank comment is rejected with nothing written; otherwise writes `CommentStep`'s list |
| TopicDetail.TopicDetailPage.ConfirmDeleteComment | ikiEpep/src/pages/TopicDetailPage.jsx:217-254 | no pending comment does nothing; otherwise writes `DeleteCommentStep`'s list, or reports not-found and reloads |
| TopicDetail.TopicDetailPage.SaveEdit | ikiEpep/src/pages/TopicDetailPage.jsx:273-316 | blank content is rejected with nothing written; otherwise writes `SaveStep`'s list and clears the preview; a vanished position reports not-found and keeps the preview |
| TopicDetail.TopicDetailPage.ConfirmDeleteTopic | ikiEpep/src/pages/TopicDetailPage.jsx:330-369 | writes `DeleteTopicStep`'s list, or reports not-found with nothing written |
| TopicDetail.TopicDetailPage.HandleEditImageChange | ikiEpep/src/pages/TopicDetailPage.jsx:380-408 | a rejected file reports its problem and reverts the preview to the topic's own picture; an accepted one shows its data URL |
| TopicDetail.TopicDetailPage.HandleRemoveEditImage | ikiEpep/src/pages/TopicDetailPage.jsx:410-417 | empty preview and no error |
| TopicList.OrIfEmpty | ikiEpep/src/pages/TopicListPage.jsx:57-59 | `value or fallback`: missing and empty both give the fallback |
| TopicList.Normalized | ikiEpep/src/pages/TopicListPage.jsx:51-60 | `originalIndex = i`; lists, date, title, content and author defaulted, with present values kept |
| TopicList.NormalizedIdempotent | ikiEpep/src/pages/TopicListPage.jsx:51-60 | normalising a normalised record changes nothing, whatever the time |
| TopicList.NormalizeAll | ikiEpep/src/pages/TopicListPage.jsx:51-60 | keeps the length; element `i` is stored record `i` normalised, with `originalIndex = i` |
| TopicList.SortKey | ikiEpep/src/pages/TopicListPage.jsx:101-113 | `oldest` is ascending date, `mostLikes` and `mostComments` descending counts, anything else descending date |
| TopicList.ProcessedSpec | ikiEpep/src/pages/TopicListPage.jsx:95-113 | the list shown is ordered by the chosen key, is a permutation of exactly the matching topics with every stored copy of each, and keeps ties in stored order |
| TopicList.EmptyTermKeepsAll | ikiEpep/src/pages/TopicListPage.jsx:96-100 | an empty search keeps every topic |
| TopicList.PreviewCut | ikiEpep/src/pages/TopicListPage.jsx:118 | a long content is cut to a proper prefix of 149 or 150 units (150 without surrogate pairs), and the preview with `...` has at most 153 units |
| TopicList.Preview | ikiEpep/src/pages/TopicListPage.jsx:115-119 | content of at most 150 UTF-16 units is shown unchanged; longer content becomes a maximal prefix of at most 150 units plus `...` (exactly the first 150 characters when no character takes a surrogate pair), 153 units at most |
| TopicList.ClickOpensClickedTopic | ikiEpep/src/pages/TopicListPage.jsx:91-93 | clicking any item of any filtered and sorted view opens the stored record it was made from |
| TopicList.TopicListPage.constructor | ikiEpep/src/pages/TopicListPage.jsx:9-14 | an empty list and no error |
| TopicList.TopicListPage.LoadTopics | ikiEpep/src/pages/TopicListPage.jsx:40-72 | migrates the legacy key; holds the normalised list, or `[]` when absent, or `[]` and an error when unparseable |
| Home.LinkOpensOtherTopic | ikiEpep/src/pages/HomePage.jsx:119-121 | as written, a card's link (its view position) can open a topic other than the one it shows |
| Home.IndexedTopNOrder | ikiEpep/src/pages/HomePage.jsx:24-31 | the cards of a top-`n` view are in non-increasing order of their topics' key |
| Home.IndexedTopNBest | ikiEpep/src/pages/HomePage.jsx:24-31 | no card left out of a top-`n` view ranks above one in it |
| Home.IndexedTopNSpec | ikiEpep/src/pages/HomePage.jsx:24-31 | a top-`n` view of indexed topics: size, order, the page's own topics, links that resolve, nothing left out ranks higher, ties kept in storage order from the first stored |
| Home.LatestSpec | ikiEpep/src/pages/HomePage.jsx:24-26 | `min(4, n)` cards, newest first, the topics the page shows, each card linking to its own topic, no newer topic left out, and among equal dates the first stored shown in storage order |
| Home.PopularSpec | ikiEpep/src/pages/HomePage.jsx:29-31 | `min(5, n)` cards by like count (a missing list counting 0), the topics the page shows, each linking to its own topic, none left out with more likes, and among equal counts the first stored shown in storage order (a stable sort) |
| Home.FeaturedPool | ikiEpep/src/pages/HomePage.jsx:34-37 | the topics with a picture, all of them, when any has one; otherwise every topic |
| Home.PoolPrefix | ikiEpep/src/pages/HomePage.jsx:36-37 | the first cards of any reordering of the pool link to their own topics, have pictures when any topic has one, and take no pool card more often than the pool holds it |
| Home.Featured | ikiEpep/src/pages/HomePage.jsx:34-37 | at most 3 distinct cards of the pool (a sub-multiset), all with a picture when any topic has one; with the corrected links (see Findings) each card links to its own topic, where the page links by view position |
| Home.LoadViews | ikiEpep/src/pages/HomePage.jsx:19-41 | a missing key gives empty views, unparseable text throws, otherwise the three views with the corrected links (see Findings): the page links each card by its view position |
| Register.IsEmailIffShape | ikiEpep/src/pages/RegisterPage.jsx:46-50 | the direct email test accepts exactly the strings of the shape `^[^\s@]+@[^\s@]+\.[^\s@]+$` |
| Register.FormProblem | ikiEpep/src/pages/RegisterPage.jsx:30-50 | each form error holds exactly when the earlier checks pass and its own fails, the password length counted in UTF-16 units |
| Register.Registered | ikiEpep/src/pages/RegisterPage.jsx:26-78 | the first failing check decides the error and nothing is written; success iff all pass, appending exactly the new account |
| Register.RegisterKeepsUnique | ikiEpep/src/pages/RegisterPage.jsx:55-70 | success keeps usernames and emails unique, grows the list by one and leaves earlier accounts unchanged |
| Register.RegisterPage.constructor | ikiEpep/src/pages/RegisterPage.jsx:8-10 | empty form, no banners |
| Register.RegisterPage.HandleRegister | ikiEpep/src/pages/RegisterPage.jsx:26-78 | stores `Registered`'s list and clears the form on success; sets the error and writes nothing otherwise |
| TopicAdd.SubmitBody | ikiEpep/src/pages/TopicAddPage.jsx:60-85 | a blank title is reported first, then a blank content; otherwise the body is exactly the trimmed fields, both non-empty |
| TopicAdd.SubmitBodyStable | ikiEpep/src/pages/TopicAddPage.jsx:85 | resubmitting a sent body sends it unchanged |
| EarlyTopicAdd.NewTopic | iki-epep/src/pages/TopicAddPage.jsx:66-78 | the user, title, content, empty lists, `createdAt = now`, and a picture iff the preview is non-empty |
| EarlyTopicAdd.NewTopicIsOwn | iki-epep/src/pages/TopicAddPage.jsx:66-78 | the user who adds a topic is the one user who owns it |
| EarlyTopicAdd.TopicAddPage.constructor | iki-epep/src/pages/TopicAddPage.jsx:8-12 | empty form and picture |
| EarlyTopicAdd.TopicAddPage.HandleSubmit | iki-epep/src/pages/TopicAddPage.jsx:59-86 | rejected iff the title or content is empty; otherwise appended at the end of `topics`, the length grown by one and earlier topics unchanged |
| EarlyReviewAdd.NewReview | iki-epep/src/pages/ReviewAddPage.jsx:66-77 | like `NewTopic`, but the text is the review field and there is no `comments` |
| EarlyReviewAdd.ReviewAddPage.constructor | iki-epep/src/pages/ReviewAddPage.jsx:8-12 | empty form and picture |
| EarlyReviewAdd.ReviewAddPage.HandleSubmit | iki-epep/src/pages/ReviewAddPage.jsx:59-85 | rejected iff the title or review is empty; otherwise appended at the end of `reviews`, earlier reviews unchanged |
| EarlyLogin.FindUser | iki-epep/src/pages/LoginPage.jsx:27-31 | none iff no account matches both username and password; otherwise the first match |
| EarlyLogin.SessionOf | iki-epep/src/pages/LoginPage.jsx:33-39 | the session keeps the username and email only |
| EarlyLogin.LoginPage.constructor | iki-epep/src/pages/LoginPage.jsx:8-9 | no error |
| EarlyLogin.LoginPage.HandleLogin | iki-epep/src/pages/LoginPage.jsx:24-49 | a match sets the session to that account's username and email; no match (a missing list included) sets the error and keeps the session |
| EarlyRegister.Registered | iki-epep/src/pages/RegisterPage.jsx:17-49 | empty fields, then a password under 8 UTF-16 units, then a taken username; success appends exactly the new account |
| EarlyRegister.RegisterKeepsUniqueUsernames | iki-epep/src/pages/RegisterPage.jsx:34-42 | success keeps usernames unique, grows the list by one and leaves earlier accounts unchanged |
| EarlyRegister.SharedEmailAccepted | iki-epep/src/pages/RegisterPage.jsx:34-38 | two accounts may share an email |
| EarlyRegister.RegisterPage.constructor | iki-epep/src/pages/RegisterPage.jsx:7-9 | no banners |
| EarlyRegister.RegisterPage.HandleRegister | iki-epep/src/pages/RegisterPage.jsx:17-49 | on success stores `Registered`'s list and logs in as `{username, email}`; otherwise sets the error and writes nothing |
| EarlyHome.LoadViews | iki-epep/src/pages/HomePage.jsx:20-30 | a missing key gives empty views, unparseable text throws; otherwise `min(3, n)` reviews newest first and `min(3, n)` by likes, drawn from the stored list, and among equal dates or counts the first stored, in storage order (a stable sort) |
| EarlyHome.ViewsKeepTheBest | iki-epep/src/pages/HomePage.jsx:23-30 | no review left out is newer, or has more likes, than one shown |
| EarlyTopicList.ViewPositionOpensOtherTopic | iki-epep/src/pages/TopicListPage.jsx:138-141 | as written, a click (the view position) can open a topic other than the one clicked |
| EarlyTopicList.Defaulted | iki-epep/src/pages/TopicListPage.jsx:45-48 | the item keeps its position and gets its lists defaulted |
| EarlyTopicList.SortedIndexedTopics | iki-epep/src/pages/TopicListPage.jsx:42 | sorting the topics with their positions, then dropping the positions, is the page's sort of the topics |
| EarlyTopicList.LoadedShowsPage | iki-epep/src/pages/TopicListPage.jsx:39-48 | without the storage positions, the loaded list is the page's sorted and defaulted list |
| EarlyTopicList.LoadedNewestFirst | iki-epep/src/pages/TopicListPage.jsx:42 | the loaded list is newest first |
| EarlyTopicList.LoadedResolves | iki-epep/src/pages/TopicListPage.jsx:39-48 | each loaded item is the stored topic at its position, with lists defaulted |
| EarlyTopicList.LoadedSpec | iki-epep/src/pages/TopicListPage.jsx:39-50 | the loaded list shows exactly the page's list, newest first, each item its stored topic with lists defaulted |
| EarlyTopicList.TitleFiltered | iki-epep/src/pages/TopicListPage.jsx:62-64 | exactly the items whose lowercased title contains the lowercased term, every copy of each, in order; throws when a title is missing |
| EarlyTopicList.ClickOpensShownTopic | iki-epep/src/pages/TopicListPage.jsx:72-74 | with storage positions, a click opens the topic the item shows |
| EarlyTopicList.DefaultLists | iki-epep/src/pages/TopicListPage.jsx:45-48 | the in-place loop gives every item its missing `comments` and `likes` lists as empty and changes nothing else |
| EarlyTopicList.TopicListPage.constructor | iki-epep/src/pages/TopicListPage.jsx:8-11 | empty list, loading |
| EarlyTopicList.TopicListPage.LoadTopics | iki-epep/src/pages/TopicListPage.jsx:27-53 | migrates the legacy key; a stored list is loaded newest first with lists defaulted; the page state is the corrected one, each shown topic carrying its storage position (see Findings), and `LoadedShowsPage` ties it to the page's own list |
| EarlyTopicDetail.TopicDetailPage.constructor | iki-epep/src/pages/TopicDetailPage.jsx:9-16 | no topic, not editing |
| EarlyTopicDetail.TopicDetailPage.LoadTopic | iki-epep/src/pages/TopicDetailPage.jsx:33-58 | a bad position sets not-found; otherwise the stored topic with lists defaulted |
| EarlyTopicDetail.TopicDetailPage.HandleLike | iki-epep/src/pages/TopicDetailPage.jsx:73-94 | the in-memory topic's like flips and it is written at its position of the re-read list |
| EarlyTopicDetail.TopicDetailPage.AddCommentTo | iki-epep/src/pages/TopicDetailPage.jsx:97-117 | a blank comment is ignored; otherwise one trimmed comment is appended and the topic is written back |
| EarlyTopicDetail.TopicDetailPage.DeleteCommentAt | iki-epep/src/pages/TopicDetailPage.jsx:120-132 | when confirmed, that comment is spliced out and the topic written back |
| EarlyTopicDetail.TopicDetailPage.StartEdit | iki-epep/src/pages/TopicDetailPage.jsx:141-145 | the form opens with the topic's picture as preview |
| EarlyTopicDetail.TopicDetailPage.SaveEdit | iki-epep/src/pages/TopicDetailPage.jsx:148-174 | blank content is rejected; otherwise `EditedAsTyped` is written back and the form closes |
| EarlyTopicDetail.TopicDetailPage.DeleteTopic | iki-epep/src/pages/TopicDetailPage.jsx:185-196 | when confirmed, the position is spliced out and the length drops by one |
| EarlyTopicDetail.StaleWriteLosesStoredLike | iki-epep/src/pages/TopicDetailPage.jsx:76-93 | writing the in-memory topic overwrites a like stored since the page loaded, which the later page's re-read keeps |
| EarlyReviewList.WithComments | iki-epep/src/pages/ReviewListPage.jsx:41-45 | a missing `comments` becomes empty, nothing else changes |
| EarlyReviewList.LoadedReviews | iki-epep/src/pages/ReviewListPage.jsx:32-48 | newest first, a permutation of the stored reviews with comments defaulted |
| EarlyReviewList.ToggleShown | iki-epep/src/pages/ReviewListPage.jsx:63-68 | only the panel of `index` flips (a panel never toggled counts as closed) |
| EarlyReviewList.ToggleShownTwice | iki-epep/src/pages/ReviewListPage.jsx:63-68 | toggling twice restores every panel |
| EarlyReviewList.ReviewListPage.constructor | iki-epep/src/pages/ReviewListPage.jsx:8-16 | empty list, no panel open, not editing |
| EarlyReviewList.ReviewListPage.LoadReviews | iki-epep/src/pages/ReviewListPage.jsx:32-48 | holds `LoadedReviews` of the stored list; a missing list changes nothing |
| EarlyReviewList.ReviewListPage.ReplaceKeepsValid | iki-epep/src/pages/ReviewListPage.jsx:91-92 | changing a review without its date keeps the shown list newest first |
| EarlyReviewList.ReviewListPage.HandleLike | iki-epep/src/pages/ReviewListPage.jsx:71-93 | the review's like flips, and the shown list (newest first) is what is stored |
| EarlyReviewList.ReviewListPage.AddCommentTo | iki-epep/src/pages/ReviewListPage.jsx:96-124 | a blank comment is ignored; otherwise one trimmed comment is appended, the list stored, and the panel opened |
| EarlyReviewList.ReviewListPage.DeleteCommentAt | iki-epep/src/pages/ReviewListPage.jsx:127-134 | when confirmed, that comment of that review only is removed and the list stored |
| EarlyReviewList.ReviewListPage.StartEdit | iki-epep/src/pages/ReviewListPage.jsx:143-147 | the form opens with the review's picture as preview |
| EarlyReviewList.ReviewListPage.SaveEdit | iki-epep/src/pages/ReviewListPage.jsx:150-171 | blank content is rejected, keeping the list, the open form and the chosen picture; otherwise `EditedAsTyped` replaces the review and the list is stored |
| EarlyReviewList.ReviewListPage.DeleteReview | iki-epep/src/pages/ReviewListPage.jsx:182-189 | when confirmed, exactly that review is removed and the list stored |
| EarlyReviewList.ReviewListPage.ToggleComments | iki-epep/src/pages/ReviewListPage.jsx:63-68 | the panel map becomes `ToggleShown` of the old one |

## Left out

- Rendering is not modelled: JSX, Tailwind markup, skeletons, the confirmation modal, the navigation bars and the banners.
- React plumbing is not modelled: hooks and effect ordering, `navigate` and redirects to the login page, `alert`, and the `setTimeout` delays. A redirect for a missing session is modelled by giving every page a logged-in `user`.
- `FileReader` is not modelled. Its data URL is a parameter, and it is applied at once rather than asynchronously.
- `Math.random` is not modelled. The featured shuffle is a parameter, required to be a permutation of the pool.
- The later add page's `fetch` to the server, its loading state and its response handling are not modelled. `TopicAdd.SubmitBody` covers the checks and the request body.
- Dates are integers. A record without `createdAt` sorts as time 0, whereas `new Date(undefined)` gives `NaN` and an inconsistent comparator in the app.
- `Text.Lower`: lowercases ASCII letters only. Other Unicode case mappings of `toLowerCase` are not modelled.
- `Records.Migrated`: a `topics` key holding the empty string is falsy, so `if (!stored)` falls back to `reviews` there too; the model counts that text as `Corrupt` and keeps it. The app never writes an empty string to the key.
- A key holding JSON that parses to something other than a list (`null`, an object) is treated like unparseable text.
- `Corrupt` covers every value that makes the handler throw. Where the source has no `catch`, an uncaught throw is modelled as the handler changing nothing further.
- The `...topic` spread copies fields the app does not read. The model carries only the fields the app uses.
- The later detail page's `startEdit`, `cancelEdit` and the modal-opening requests are not modelled. They only set form state, and their effect is the `editPreview` and `pending` values the modelled handlers take.
- The early pages' `cancelEdit` is not modelled, for the same reason.
- The early pages' edit-image handlers are the same code as the add pages' image input, and are modelled by the shared `Records.ImagePicker`.
- `EarlyTopicDetail.TopicDetailPage.HandleLike` (and the page's other writers): requires that the stored list still has position `parseInt(id)` (single-tab use). If another tab removed topics, the source's assignment past the end of the list is not modelled.
- The early `getContentPreview` throws on a missing `content`. It is modelled by `TopicList.Preview` on strings, since the early list defaults nothing there.
- `EarlyTopicList.TitleFiltered`: the throw on a missing title is modelled as `None`. What the page renders after that is not modelled.
- `TopicList.Preview`: when the 150th code unit is the first half of a surrogate pair, `substring` keeps that lone half, which a Dafny string cannot hold. The model cuts before the whole pair, keeping 149 units.
- Form fields typed into the pages are parameters of the handlers, or fields of the page classes, rather than change events.

## Findings

| source | as written | input that shows it | evidently intended | confidence | as-written member | corrected member |
|---|---|---|---|---|---|---|
| ikiEpep/src/pages/HomePage.jsx:119-121 (also 164-166, 245-247) | each card links to `/topics/${index}`, with `index` its position in the sorted view | stored `[older (date 1), newer (date 2)]`: the first latest card shows the newer topic and links to position 0, the older one | each card links to the storage position of the topic it shows | high, not executed | Home.LinkOpensOtherTopic | Home.LatestSpec |
| iki-epep/src/pages/TopicListPage.jsx:72-74, 138-141 | a click navigates to the item's position in the sorted, filtered list | stored `[older (date 1), newer (date 2)]`, empty search: the first item shows the newer topic and opens position 0, the older one | a click opens the storage position of the topic clicked | high, not executed | EarlyTopicList.ViewPositionOpensOtherTopic | EarlyTopicList.ClickOpensShownTopic |
