# Content service: verified model

A Dafny 4.11 model of the parts of the content API that keep derived data in step with base tables, and of
the two text and tree transforms it relies on. Tables are sequences, sets or maps of rows; services that
update them are classes whose methods are proved equal to a specification function on the old rows, and
the theorems are about those functions, their runs and their interleavings. `dafny verify dfyconfig.toml`
checks everything.

| file | module | what it models |
|---|---|---|
| `follow_table.dfy` | `FollowTable` | the `follows` table and the `zindex` cursor query |
| `newsfeed.dfy` | `Newsfeed` | `user_newsfeed`: `follow`, `unfollow`, the paged `fanoutOnWrite` |
| `feed_runs.dfy` | `FeedRuns` | runs of follow, unfollow, publish, regroup, hide, archive |
| `fanout_race.dfy` | `FanoutRace` | one fan-out page by page, with follows and unfollows in between |
| `pinning.dfy` | `Pinning` | pin, unpin, reorder and the pinned read |
| `privacy.dfy`, `privacy_repair.dfy` | `Privacy`, `PrivacyRepair` | the scan, the incremental fold and the batch repair of post privacy |
| `quiz_text.dfy`, `quiz.dfy` | `QuizText`, `Quiz` | the quiz text format and its line parser |
| `comment_paging.dfy` | `CommentPaging` | row grouping, `limit + 1` pages, replies |
| `counters.dfy`, `reactions.dfy` | `Counters`, `Reactions` | hook-maintained counters and their recounts; the reaction procedure |
| `paging.dfy`, `archive.dfy` | `Paging`, `Archive` | recursive paging; archive and restore of groups and the search payload |
| `content_tree.dfy`, `content_backup.dfy` | `ContentTree`, `ContentBackup` | image extraction, in-place url replacement, base64 scrubbing, its rollback |
| `link_rows.dfy`, `series_events.dfy` | `LinkRows`, `SeriesEvents` | delete/insert diffs, series order, the events of a post update |
| `ids.dfy`, `lists.dfy`, `wrappers.dfy` | `Ids`, `Lists`, `Wrappers` | identifiers, list operations, the option type |

## What came out

Several properties hold only under a condition. In each case the code is modelled as it is, the exact condition
on the input is proved, and a lemma shows an input on which the property fails.

* A fan-out call makes the post's rows exactly the followers of the new groups if and only if they already
  lie between the followers of both group sets and the followers of either (`FeedRuns.FanoutIsExactIff`).
* Between the pages of a fan-out, a follow breaks the "has the row or is still ahead of the cursor"
  invariant exactly when it is a `HarmfulFollow`, and an unfollow breaks "no stale row" exactly when it is a
  `HarmfulUnfollow`; both harms are final and both are shown on three-step runs from an exact table. Other posts are
  never affected (`FanoutRace.OtherPostsSeeNoFanout`).
* The events of a publication or an update carry unarchived groups only. A publication keeps the feed equal to its
  recomputation if and only if every follower of an archived group of the post also follows one it is published to; an
  update, if and only if whoever follows an archived and a removed group also follows a new one
  (`FeedRuns.PublishKeeps`, `FeedRuns.RegroupKeeps`). A run is exact after every step if and only if every publish,
  update and follow meets its condition (`FeedRuns.AlwaysExactIff`).
* A follow keeps the feed equal to its recomputation if and only if every published post it passes over, because
  it is hidden, archived in all newly followed groups or behind 10000 visible posts, is in a group followed before.
* An accepted reorder, with repeated ids or not, keeps pinned indices distinct if and only if no hidden pinned post
  sits on an index a listed post ends on; the query for signed-out readers has no pinned filter, so it equals the
  pinned list if and only if every unarchived row is pinned.
* The incremental privacy fold equals the scan when the group service already stores the new privacy; with
  a stale service, if and only if the stale privacy is no more open than the new one or than another group's.
  The batch equals the scan over all groups if and only if every archived group is secret or no more open than some
  unarchived one.
* The quiz round trip holds if and only if no choice reads as a question, no question text reads as an
  answer, and no stray key marks a wrong answer; texts without markers and "=>" are a special case. A text with
  Windows line ends parses to no question at all (`Quiz.CarriageReturnsHideEverything`).
* The counter hooks do not find soft-deleted posts. The handlers refuse comments on such posts, but a reply may sit
  on another post than its parent: the comment recount changes nothing after a run if and only if no delete removed
  a reply from a post soft-deleted at the time.
* The counter of readers goes wrong in two ways. Publishing an article marks it seen without looking, so an author
  who has opened the draft is counted twice; a reader of a soft-deleted post is recorded but not counted. The recount
  changes nothing if and only if each live post has as many of the one as of the other. The service restores no post,
  and then that says: nobody who had seen a post that is live at the end published it.
* Extraction commutes with url replacement if and only if no image gains or loses a url; the scrubbing
  recursion finishes if and only if no node below the second level has `children: null`; rolling back the
  scrubbing restores a content if and only if the rollback's text pattern matches it or nothing had changed.
* The suppression lists of series events are overwritten per owner, so suppression matches the combined
  events if and only if at most one owner has both kinds.

## Model

| member | source | states |
|---|---|---|
| FollowTable.PageCovers | apps/api/src/modules/follow/follow.service.ts:155-205 | a page holds only eligible rows beyond the cursor, advances the cursor, and omits an eligible row only when full and that row lies beyond the new cursor |
| FollowTable.JoinedGroupIds | apps/api/src/modules/follow/follow.service.ts:78-85 | exactly the groups the user follows |
| FollowTable.AddFollowsAdds | apps/api/src/modules/follow/follow.service.ts:87-95 | bulk creation appends the missing pairs under larger `zindex`, keeps the table well formed and every other pair as it was |
| FollowTable.AddFollowsInOrder | apps/api/src/modules/follow/follow.service.ts:87-95 | the pairs are appended in the listed order; every attempt, skipped or not, takes a sequence value |
| FollowTable.RemoveFollowsRemoves | apps/api/src/modules/follow/follow.service.ts:99-145 | deletion removes exactly the user's follows of the groups |
| FollowTable.RemoveFollowsKeepsOrder | apps/api/src/modules/follow/follow.service.ts:99-145 | deletion keeps `zindex` order and keys |
| Newsfeed.PageAdvances | apps/api/src/modules/follow/follow.service.ts:155-196 | users reached before a page plus the page's users are the users reached up to the new cursor; after a short page they are followers of the target minus followers of the excluded groups |
| Newsfeed.TakenIff | apps/api/src/modules/follow/follow.service.ts:34-76 | the limited query takes a post if and only if it is visible and fewer visible posts than the limit come before it |
| Newsfeed.PassedOverIff | apps/api/src/modules/follow/follow.service.ts:34-76 | a follow inserts no row for a published post if and only if it is hidden, archived in every newly followed group it is in, or has the limit of visible posts before it |
| Newsfeed.FeedDatabase.GetUserFollowGroupIds | apps/api/src/modules/follow/follow.service.ts:155-196 | returns the users of the page and the last row's cursor |
| Newsfeed.FeedDatabase.AttachPostToUserIds | apps/api/src/modules/feed-publisher/feed-publisher.service.ts:71-97 | inserts the missing rows unseen and leaves existing ones alone |
| Newsfeed.FeedDatabase.DetachPostFromUserIds | apps/api/src/modules/feed-publisher/feed-publisher.service.ts:104-118 | removes exactly the post's rows of those users |
| Newsfeed.FeedDatabase.AttachLoop | apps/api/src/modules/feed-publisher/feed-publisher.service.ts:128-152 | the paged loop ends and equals one attach of all followers of the target who follow nothing excluded |
| Newsfeed.FeedDatabase.DetachLoop | apps/api/src/modules/feed-publisher/feed-publisher.service.ts:154-178 | the paged loop ends and equals one detach of that set |
| Newsfeed.FeedDatabase.FanoutOnWrite | apps/api/src/modules/feed-publisher/feed-publisher.service.ts:120-179 | for any table and page size the two loops equal the one-shot set form |
| Newsfeed.FeedDatabase.Follow | apps/api/src/modules/follow/follow.service.ts:34-76 | the method makes the follow step described by FeedRuns.AfterFollow and Newsfeed.PassedOverIff, which inserts unseen rows and keeps existing marks |
| Newsfeed.FeedDatabase.Unfollow | apps/api/src/modules/follow/follow.service.ts:99-145 | the method makes the unfollow step described by FeedRuns.AfterUnfollow |
| FeedRuns.FanoutRows | apps/api/src/modules/feed-publisher/feed-publisher.service.ts:120-179 | who has a row after a fan-out, in terms of what they follow; other posts and seen marks are untouched |
| FeedRuns.FanoutIsExactIff | apps/api/src/modules/feed-publisher/feed-publisher.service.ts:120-179 | readers become exactly the followers of the new groups if and only if they were between the intersection and the union |
| FeedRuns.FanoutNeedsOldReaders | apps/api/src/modules/feed-publisher/feed-publisher.service.ts:120-179 | a follower of old and new groups who had no row still has none after the call |
| FeedRuns.AfterFollow | apps/api/src/modules/follow/follow.service.ts:34-76 | follows and rows after a follow, row by row: earlier rows keep their seen mark, new rows are unseen |
| FeedRuns.AfterUnfollow | apps/api/src/modules/follow/follow.service.ts:99-145 | follows and rows after an unfollow, row by row: the rows that stay keep their seen mark |
| FeedRuns.DraftsAfter | apps/api/src/modules/v2-post/application/command/create-draft-post/create-draft-post.handler.ts:28-44 | a new draft is listed first, unpublished, visible and archived nowhere |
| FeedRuns.PostAfter | apps/api/src/modules/v2-post/driven-adapter/repository/content.repository.ts:120-145 | which step changes which column of an existing post: handlers set unarchived groups, and an archived row stays archived until its group is restored |
| FeedRuns.RunMarksNothing | apps/api/src/modules/feed-publisher/feed-publisher.service.ts:71-118 | no run of follows, unfollows, publications and updates marks a row as seen |
| FeedRuns.FollowIsExactIff | apps/api/src/modules/follow/follow.service.ts:34-76 | a follow keeps an exact feed exact if and only if every published post of the new groups that is hidden, archived in all of them or beyond the limit is also in a group followed before |
| FeedRuns.VisibleFeedCovers | apps/api/src/modules/follow/follow.service.ts:34-76 | without hidden posts, archived groups or too many posts that condition holds |
| FeedRuns.HiddenPostIsPassedOver | apps/api/src/modules/follow/follow.service.ts:34-76 | from empty tables: publish, hide, follow; the follower has no row |
| FeedRuns.FollowKeepsSound | apps/api/src/modules/follow/follow.service.ts:34-76 | a follow, even truncated, gives nobody a post they may not see |
| FeedRuns.UnfollowKeepsSound | apps/api/src/modules/follow/follow.service.ts:99-145 | an unfollow keeps the feed sound, and exact if it was |
| FeedRuns.FanoutKeepsIff | apps/api/src/modules/feed-publisher/feed-publisher.consumer.ts:15-24 | a fan-out from the post's unarchived groups to the event's keeps the feed sound, and an exact feed exact if and only if nobody follows an archived group and no new one while the call leaves them out or removes them |
| FeedRuns.PublishKeeps | apps/api/src/modules/v2-post/application/command/publish-post/publish-post.handler.ts:40-63 | a publication, which knows no archived groups, keeps the feed sound, and an exact one exact if and only if every follower of an archived group of the post also follows a group it is published to |
| FeedRuns.RegroupKeeps | apps/api/src/modules/v2-post/application/command/update-post/update-post.handler.ts:41-67 | an update of a published post keeps the feed sound, and an exact one exact if and only if whoever follows an archived and a removed group follows a new one |
| FeedRuns.ArchivedFollowerIsPassedOver | apps/api/src/modules/v2-post/driven-adapter/repository/content.repository.ts:370-384 | a draft in an archived and an unarchived group: once published, the follower of the archived one has no row |
| FeedRuns.RunsStaySound | apps/api/src/modules/feed-publisher/feed-publisher.service.ts:120-179 | over every run with archiving and hiding a user has posts of followed groups only |
| FeedRuns.RunsStayExact | apps/api/src/modules/feed-publisher/feed-publisher.service.ts:120-179 | the feed equals its recomputation at the end of every run in which each follow, publication and update meets the condition of FollowIsExactIff, PublishKeeps or RegroupKeeps |
| FeedRuns.AlwaysExactIff | apps/api/src/modules/feed-publisher/feed-publisher.service.ts:120-179 | a run that starts exact is exact after every step if and only if all of them do |
| FeedRuns.OpenRunsStayExact | apps/api/src/modules/feed-publisher/feed-publisher.service.ts:120-179 | the feed equals its recomputation over every run that starts without hidden or archived rows, hides and archives nothing, and has at most the limit of posts to insert per follow |
| FanoutRace.StartKeepsBoth | apps/api/src/modules/feed-publisher/feed-publisher.service.ts:120-135 | a call that starts from the followers of the old groups satisfies both invariants |
| FanoutRace.StartsWhen | apps/api/src/modules/feed-publisher/feed-publisher.service.ts:130-160 | an attach loop runs when a group is attached, a detach loop when one is detached, none when the groups are the same |
| FanoutRace.AttachPageKeeps | apps/api/src/modules/feed-publisher/feed-publisher.service.ts:136-151 | an attach page keeps both invariants |
| FanoutRace.DetachPageKeeps | apps/api/src/modules/feed-publisher/feed-publisher.service.ts:162-177 | a detach page keeps both invariants; what it leaves alone is PageTouchesThePost |
| FanoutRace.PageTouchesThePost | apps/api/src/modules/feed-publisher/feed-publisher.service.ts:71-118 | a page writes rows of its own post only, keeps the seen mark of every row that stays and inserts unseen rows |
| FanoutRace.OtherPostsSeeNoFanout | apps/api/src/modules/feed-publisher/feed-publisher.service.ts:120-179 | for every other post, rows and marks end as if only the follows and unfollows had run, whatever the interleaving |
| FanoutRace.FanoutMarksNothing | apps/api/src/modules/feed-publisher/feed-publisher.service.ts:120-179 | a row seen at the end was there and seen at the start |
| FanoutRace.PagesAloneAreFanout | apps/api/src/modules/feed-publisher/feed-publisher.service.ts:120-179 | from any rows the pages alone end in exactly the one-shot fan-out |
| FanoutRace.FollowCallKeepsIff | apps/api/src/modules/follow/follow.service.ts:34-76 | a follow between pages keeps completeness if and only if it is not harmful: no row yet, the post passed over, a new group followed, and the attach loop over or an old group followed; it never creates a stale row |
| FanoutRace.UnfollowCallKeepsIff | apps/api/src/modules/follow/follow.service.ts:99-145 | an unfollow between pages keeps "no stale row" if and only if it is not harmful, and never loses completeness |
| FanoutRace.InterleavedFanoutIsComplete | apps/api/src/modules/feed-publisher/feed-publisher.service.ts:120-179 | with no harmful follow, at the end every follower of a new group has the post, whatever the interleaving |
| FanoutRace.InterleavedFanoutIsExact | apps/api/src/modules/feed-publisher/feed-publisher.service.ts:120-179 | with neither harm, at the end the post's readers are exactly the followers of the new groups |
| FanoutRace.EnoughPagesFinish | apps/api/src/modules/feed-publisher/feed-publisher.service.ts:136-178 | once no more follows come the call ends within twice the next `zindex` pages, whatever unfollows come between |
| FanoutRace.HarmfulFollowLosesForGood | apps/api/src/modules/follow/follow.service.ts:34-76 | after a harmful follow no further page gives the user the row |
| FanoutRace.HarmfulUnfollowStaysStale | apps/api/src/modules/follow/follow.service.ts:99-145 | after a harmful unfollow no further page takes the row away |
| FanoutRace.FollowDuringFanoutLosesPost | apps/api/src/modules/feed-publisher/feed-publisher.service.ts:120-179 | a three-step run that starts exact and ends with a follower without the post |
| FanoutRace.UnfollowDuringFanoutLeavesStaleRow | apps/api/src/modules/feed-publisher/feed-publisher.service.ts:120-179 | a three-step run that starts exact and ends with a row of somebody who follows nothing |
| Pinning.OrderIsUnique | apps/api/src/modules/post/post.service.ts:1241-1268 | an index order determines the list |
| Pinning.PinAppends | apps/api/src/modules/post/post.service.ts:1610-1631 | pin keeps indices positive and distinct and moves or appends the post to the end of the group's list |
| Pinning.UnpinRemoves | apps/api/src/modules/post/post.service.ts:1633-1653 | unpin removes the post, keeps the rest in order and the indices positive and distinct |
| Pinning.PinWrites | apps/api/src/modules/post/post.service.ts:1610-1631 | pin writes two columns of the listed rows: pinned, and an index one above the largest of the group; archived marks and other rows stay |
| Pinning.UnpinWrites | apps/api/src/modules/post/post.service.ts:1633-1653 | unpin writes the same two columns; archived marks and other rows stay |
| Pinning.ReorderSetsLast | apps/api/src/modules/post/post.service.ts:1677-1692 | for any listing and completion order a listed post ends on the position of its last update plus one; nothing else changes |
| Pinning.ReorderSetsIndices | apps/api/src/modules/post/post.service.ts:1677-1692 | for a duplicate-free listing every completion order gives post `i` index `i + 1` |
| Pinning.ReorderIff | apps/api/src/modules/post/application/post.app-service.ts:266-291 | an accepted reorder, repeated ids included, keeps the indices well formed if and only if no hidden pinned post sits on an index a listed post ends on |
| Pinning.DistinctClashes | apps/api/src/modules/post/application/post.app-service.ts:266-291 | for a duplicate-free listing of `n` posts those indices are `1..n` |
| Pinning.HiddenPinIsHit | apps/api/src/modules/post/application/post.app-service.ts:266-291 | two pins, the first post hidden, `[second]` listed: both end on index 1 |
| Pinning.ReorderListing | apps/api/src/modules/post/application/post.app-service.ts:266-291 | for a duplicate-free listing without a collision the visible pinned list is the listing |
| Pinning.ReorderElsewhere | apps/api/src/modules/post/post.service.ts:1677-1692 | whatever is listed, other groups keep their lists |
| Pinning.SignedInReadIsListing | apps/api/src/modules/post/post.service.ts:1241-1268 | every answer of the signed-in read is the list restricted to unarchived, unreported posts |
| Pinning.AnonymousReadIsListingIff | apps/api/src/modules/post/post.service.ts:1241-1268 | the signed-out read is the pinned list if and only if every unarchived row is pinned |
| Pinning.UnpinnedIsRead | apps/api/src/modules/post/post.service.ts:1241-1268 | a group with unpinned posts whose signed-out read is not the pinned list |
| Pinning.StepRefines | apps/api/src/modules/post/post.service.ts:1610-1692 | each operation on indices is the abstract operation on the group's list |
| Pinning.RunRefines | apps/api/src/modules/post/post.service.ts:1610-1692 | every run of pins, unpins and reorders that list all pinned posts refines the run on abstract lists and keeps the indices well formed |
| Pinning.RunKeepsRows | apps/api/src/modules/post/post.service.ts:1610-1692 | no run adds or removes a row or changes an archived mark |
| Pinning.ReadFollowsRun | apps/api/src/modules/post/post.service.ts:1241-1268 | after any run the signed-in read is the abstract list without the posts archived at the start and the reported ones |
| Pinning.AcceptedRunsIff | apps/api/src/modules/post/application/post.app-service.ts:266-291 | a run of pins, unpins and accepted reorders, hidden pinned posts included, has well-formed indices after every step if and only if no reorder puts a listed post on a hidden pinned post's index |
| Pinning.PostGroupTable.PinPostToGroupIds | apps/api/src/modules/post/post.service.ts:1610-1631 | the method makes the pin step described by Pinning.PinAppends |
| Pinning.PostGroupTable.UnpinPostToGroupIds | apps/api/src/modules/post/post.service.ts:1633-1653 | the method makes the unpin step described by Pinning.UnpinRemoves |
| Pinning.PostGroupTable.ReorderPinnedContent | apps/api/src/modules/post/application/post.app-service.ts:266-291 | when each error is raised and with which ids; a refused reorder changes nothing |
| Pinning.PostGroupTable.GetIdsPinnedInGroup | apps/api/src/modules/post/post.service.ts:1241-1268 | returns an ascending duplicate-free list of exactly the rows the query selects |
| Privacy.GetPrivacy | apps/api/src/modules/post/post.service.ts:554-572 | the early-exit scan returns the most open privacy of the groups, or the error exactly for no groups |
| Privacy.MostOpenIsUnique | apps/api/src/modules/post/post.service.ts:554-572 | the groups and the group service determine the most open privacy |
| Privacy.Compare | apps/api/src/modules/post/post.service.ts:1007-1021 | the pairwise comparison is the maximum of the two |
| Privacy.FoldRows | apps/api/src/modules/post/post.service.ts:1023-1050 | after folding rows in any order each post holds the most open of the new privacy and its groups' |
| Privacy.FilterPostIdsNeedToUpdatePrivacy | apps/api/src/modules/post/post.service.ts:1023-1059 | each post with a row is in a bucket, once, keyed by that privacy; nothing else is in a bucket |
| Privacy.BucketIsUnique | apps/api/src/modules/post/post.service.ts:1023-1059 | no post is in two buckets |
| Privacy.FoldIsScan | apps/api/src/modules/post/post-consummer.controller.ts:23-33 | with the changed group among the post's groups and already stored, the fold's privacy is the scan's |
| Privacy.StaleFoldIsScanIff | apps/api/src/modules/post/post-consummer.controller.ts:23-33 | with a stale group service they agree if and only if the stale privacy is no more open than the new one or than that of another group of the post |
| Privacy.StaleFoldKeepsOpen | apps/api/src/modules/post/post-consummer.controller.ts:23-33 | a group turned private that the service still calls open leaves the post open |
| PrivacyRepair.MostOpen | apps/api/src/command/fix-content-privacy.command.ts:133-150 | the counting rule computes the most open privacy of the known groups |
| PrivacyRepair.BatchIsScanIff | apps/api/src/command/fix-content-privacy.command.ts:78-99 | the batch, which sees unarchived groups only, agrees with the scan over all groups if and only if every known archived group is secret or no more open than some known unarchived group |
| PrivacyRepair.ArchivedGroupIsIgnored | apps/api/src/command/fix-content-privacy.command.ts:78-99 | a secret group and an archived open one: the batch says secret, the scan open |
| PrivacyRepair.FilterIsStable | apps/api/src/command/fix-content-privacy.command.ts:78-99 | the run's writes change neither the page query's rows nor their order |
| PrivacyRepair.TallyIsTotal | apps/api/src/command/fix-content-privacy.command.ts:41-69 | updated, kept and failed add up to the posts visited |
| PrivacyRepair.RepairWrites | apps/api/src/command/fix-content-privacy.command.ts:45-61 | only the privacy of published visible posts with an unarchived group and a working UPDATE is written; hidden and unpublished rows are untouched |
| PrivacyRepair.TallyCountsRows | apps/api/src/command/fix-content-privacy.command.ts:78-99 | the three counts are counts over the whole table; hidden and unpublished rows are in none |
| PrivacyRepair.FixContentPrivacy.BuildGroupPrivacy | apps/api/src/command/fix-content-privacy.command.ts:115-131 | the memo built in chunks agrees with the group service and covers the asked groups |
| PrivacyRepair.FixContentPrivacy.GetPrivacyFrom | apps/api/src/command/fix-content-privacy.command.ts:133-150 | the counter loop with early return equals the most open privacy under the memo |
| PrivacyRepair.FixContentPrivacy.RepairPage | apps/api/src/command/fix-content-privacy.command.ts:45-61 | one page repairs exactly its posts and counts them |
| PrivacyRepair.FixContentPrivacy.Run | apps/api/src/command/fix-content-privacy.command.ts:23-76 | the paged run ends having repaired every live post once and no other row; total is the number of live posts and the sum of the three counts |
| QuizText.SplitUndoesJoin | libs/openai/src/openai.service.ts:170 | splitting joined lines gives the lines back |
| QuizText.KeyReadsAt | libs/openai/src/openai.service.ts:201-203 | the key is read at the first visible character from the third visible position on |
| QuizText.KeyLetterIff | libs/openai/src/openai.service.ts:201-203 | which characters mark which answer: a letter in either case, and the two others whose lower case is an ASCII letter |
| QuizText.BareKeyMarksNothing | libs/openai/src/openai.service.ts:201-206 | a key sign with nothing visible after it marks no answer |
| QuizText.BlankIff | libs/openai/src/openai.service.ts:175 | a line is skipped if and only if it holds nothing but the white space of ECMAScript |
| QuizText.QuestionTextIff | libs/openai/src/openai.service.ts:176 | a question is what the leftmost match of the expression captures, and none exactly when nothing matches |
| QuizText.AnswerTextIff | libs/openai/src/openai.service.ts:190 | the same for answers |
| QuizText.HasKeyIff | libs/openai/src/openai.service.ts:201 | a key is read if and only if the line contains "=>" |
| Quiz.ParseLine | libs/openai/src/openai.service.ts:174-208 | the body of the line loop is one step of the reading machine, including lines that are question, answer and key at once |
| Quiz.GetQuestionFromText | libs/openai/src/openai.service.ts:157-212 | the parser is the fold of the line readings |
| Quiz.QuestionLineReads | libs/openai/src/openai.service.ts:111-123 | a printed question line reads as its text, plus what the text itself contains |
| Quiz.ChoiceLineReads | libs/openai/src/openai.service.ts:111-123 | a printed choice line, its label in either case, reads as its text, plus what the text itself contains |
| Quiz.KeyLineReads | libs/openai/src/openai.service.ts:111-123 | a printed key line marks exactly its letter's index, whatever the case of the letter |
| Quiz.ContainedItemsDecode | libs/openai/src/openai.service.ts:157-212 | when no choice reads as a question and no question text as an answer, parsing the print gives the items with the marks their texts add |
| Quiz.RoundTripIff | libs/openai/src/openai.service.ts:157-212 | with every label and key in any case, parsing the print gives back questions, answers, order and correct flags if and only if the texts are contained and carry no stray key |
| Quiz.StrayKeyBreaksRoundTrip | libs/openai/src/openai.service.ts:200-206 | a choice "a => b" marks the first answer although the key line says the second |
| Quiz.CarriageReturnsHideEverything | libs/openai/src/openai.service.ts:157-212 | a text with Windows line ends parses to no question: neither expression matches up to a carriage return |
| CommentPaging.GroupComments | apps/api/src/modules/comment/comment.service.ts:306-366 | the loop with in-place pushes is the fold of rows |
| CommentPaging.GroupIsPerComment | apps/api/src/modules/comment/comment.service.ts:306-366 | for any interleaving of rows the result lists comments by first appearance, each with its own rows' reactions once |
| CommentPaging.GroupUndoesFlatten | apps/api/src/modules/comment/comment.service.ts:306-366 | grouping the left join of comments gives the comments back |
| CommentPaging.GroupedResult | apps/api/src/modules/comment/comment.service.ts:306-366 | grouping a query result gives each joined comment once, with exactly the reader's reactions |
| CommentPaging.GroupedInOrder | apps/api/src/modules/comment/comment.service.ts:306-366 | grouping rows ordered by time gives comments ordered by time |
| CommentPaging.GetCommentsPage | apps/api/src/modules/comment/comment.service.ts:170-190 | the method computes the page described by CommentPaging.PageIsFirst |
| CommentPaging.PageIsFirst | apps/api/src/database/models/comment.model.ts:285-347 | against the stored rows: the page is the first `limit` rows that are not hidden, meet the request and are not reported by the reader, ties anyhow; each shows exactly the reader's own reactions; `hasNextPage` holds exactly when there are more |
| CommentPaging.TiesAreFree | apps/api/src/database/models/comment.model.ts:285-347 | of equally old comments the query may take and list either |
| CommentPaging.BindChildrenToComment | apps/api/src/modules/comment/comment.service.ts:235-260 | every comment object gets the cut of its own replies |
| CommentPaging.RepliesArePages | apps/api/src/database/models/comment.model.ts:431-493 | every listed comment gets its newest `limit` stored replies that are neither hidden nor reported, with a correct `hasNextPage`, though all replies come back in one result |
| Counters.CountedIffRepairsChangeNothing | apps/api/src/command/fix-comment-replies-count.command.ts:20-63 | counters equal row counts if and only if the repair commands change nothing |
| Counters.RepliesRepaired | apps/api/src/command/fix-comment-replies-count.command.ts:20-63 | from any tables the repair makes the two counters the row counts and changes no other column and no row |
| Counters.SeenRepaired | apps/api/src/command/fix_total_users_seen.command.ts:14-33 | from any tables the repair makes the counters of live posts the row counts and changes nothing else |
| Counters.CreateKeeps | apps/api/src/database/models/comment.model.ts:174-182 | a create keeps all counters right |
| Counters.CreateInserts | apps/api/src/database/models/comment.model.ts:174-182 | the row is stored whatever the hooks find; only its parent's counter and a live post's counter change, by one |
| Counters.DestroySets | apps/api/src/database/models/comment.model.ts:184-192 | a destroy takes exactly one row out of the counted sets |
| Counters.DestroyOneKeeps | apps/api/src/database/models/comment.model.ts:184-192 | a destroy of a comment without replies keeps all counters right |
| Counters.DestroyUndoesCreate | apps/api/src/database/models/comment.model.ts:174-228 | destroying a fresh comment restores rows and counters |
| Counters.RepliesFirst | apps/api/src/modules/v2-post/driven-adapter/repository/comment.repository.ts:137-167 | deleting the replies and then the comment is a safe order |
| Counters.DestroyAllKeeps | apps/api/src/modules/v2-post/driven-adapter/repository/comment.repository.ts:137-167 | deleting a comment with its replies keeps all counters of live posts right |
| Counters.DestroyAllRemoves | apps/api/src/modules/v2-post/driven-adapter/repository/comment.repository.ts:137-167 | it removes exactly those rows |
| Counters.SeenKeeps | apps/api/src/modules/post/post.service.ts:1717-1740 | the guarded mark, which looks for the row first, keeps all counters right |
| Counters.PublishedDrifts | apps/api/src/modules/v2-post/driven-adapter/repository/content.repository.ts:306-316 | the unguarded mark of a publication counts one reader too many exactly when that reader has a row already, and otherwise moves no post's counter against its rows |
| Counters.StepDrift | apps/api/src/database/models/comment.model.ts:174-228 | relative to its rows a post's counter never falls, and it rises exactly when a step deletes a reply on that post while it is soft-deleted |
| Counters.CommentRecountIff | apps/api/src/command/fix-comment-replies-count.command.ts:20-63 | after any run of creates, deletes, marks, soft deletions and restores from right counters, the recount changes nothing if and only if no step deletes a reply that sits on a post soft-deleted at that time |
| Counters.StrandedReply | apps/api/src/modules/v2-post/application/command/reply-comment/reply-comment.handler.ts:53-94 | a run that ends with a wrong counter: a reply on another post than its parent's, that post soft-deleted, the parent deleted |
| Counters.SeenRecountIff | apps/api/src/command/fix_total_users_seen.command.ts:14-33 | after any run the recount of readers changes nothing if and only if every post live at the end got as many new readers while it was soft-deleted as publications by somebody who had seen it |
| Counters.SeenRecountWithoutRestoreIff | apps/api/src/command/fix_total_users_seen.command.ts:14-33 | without restores, and the service has none, it changes nothing if and only if no post live at the end was published by somebody who had seen it |
| Counters.PublishingCountsAuthorTwice | apps/api/src/modules/v2-post/application/command/publish-article/publish-article.handler.ts:63-69 | an author opens a draft article and publishes it: one row, counted twice, without restores or soft deletions |
| Counters.RestoredPostMissesReader | apps/api/src/modules/post/post.service.ts:1717-1740 | a run with a restore that ends with a wrong counter |
| Counters.CommentStore.CreateComment | apps/api/src/modules/v2-post/driven-adapter/repository/comment.repository.ts:27-45 | insert and hook, and when the hook fails for a missing parent |
| Counters.CommentStore.DestroyComment | apps/api/src/modules/v2-post/driven-adapter/repository/comment.repository.ts:137-167 | replies one by one, then the comment; nothing for an unknown id |
| Counters.CommentStore.MarkSeenPost | apps/api/src/modules/post/post.service.ts:1717-1740 | the method makes the step described by Counters.SeenKeeps |
| Counters.CommentStore.MarkSeenOnPublish | apps/api/src/modules/v2-post/driven-adapter/repository/content.repository.ts:306-316 | the method makes the step described by Counters.PublishedDrifts |
| Counters.CommentStore.CountPerPost | apps/api/src/command/fix_total_users_seen.command.ts:19-25 | the reduce counts each post's rows |
| Counters.CommentStore.FixTotalUsersSeen | apps/api/src/command/fix_total_users_seen.command.ts:14-33 | every live post gets its row count |
| Reactions.StepKeepsBounded | sequelize/migrations/20220620042725-recreate_post_reaction_procedure.js:34-53 | at most 21 distinct names per post after every create or delete |
| Reactions.StepKeepsUnique | sequelize/migrations/20211103045511-create_post_reaction_table.js:40-45 | no user has the same reaction to a post twice after every create or delete |
| Reactions.RunsStayBounded | sequelize/migrations/20220620042725-recreate_post_reaction_procedure.js:34-53 | both over every serial run |
| Reactions.RefusedIff | sequelize/migrations/20220620042725-recreate_post_reaction_procedure.js:34-53 | the kind check refuses exactly a new name on a post that has 21 |
| Reactions.KnownKindIsAccepted | sequelize/migrations/20220620042725-recreate_post_reaction_procedure.js:34-53 | a name the post already has is never refused by the kind check |
| Reactions.StepRows | sequelize/migrations/20220620042725-recreate_post_reaction_procedure.js:34-53 | a create adds at most its row and a delete takes exactly its row; every other row stays |
| Reactions.AcceptedIff | sequelize/migrations/20220620042725-recreate_post_reaction_procedure.js:34-53 | accepted if and only if the id is fresh, the user has not the same reaction already, and the kind is known or there are fewer than 21 |
| Reactions.FurtherKindIsAccepted | sequelize/migrations/20211103045511-create_post_reaction_table.js:40-45 | a user's earlier reactions of other kinds are no reason to refuse; the new row joins them |
| Reactions.ReactionTable.CreatePostReaction | sequelize/migrations/20220620042725-recreate_post_reaction_procedure.js:34-53 | the outcome, and an unchanged table when refused or duplicate |
| LinkRows.DistinctIff | apps/api/src/modules/mention/mention.service.ts:152-186 | the insert meets no key twice if and only if no new target is listed twice |
| LinkRows.DiffReachesTarget | apps/api/src/modules/mention/mention.service.ts:152-186 | deleting old-minus-new and inserting new-minus-old makes the entity's targets the requested set, keeps kept rows' columns, and leaves other entities alone |
| LinkRows.LinkTable.SetTargets | apps/api/src/modules/category/category.service.ts:122-150 | the same for the method over the table, with its failure case |
| LinkRows.AddedReadsLast | apps/api/src/modules/post/post.service.ts:1553-1589 | a listing of a series is, after the post is added, exactly the earlier listing followed by the post |
| LinkRows.NextZindexIs | apps/api/src/modules/post/post.service.ts:1571-1584 | a new item's `zindex` is one above the largest of its series, and 1 in an empty series |
| LinkRows.SeriesTable.UpdateSeriesToPost | apps/api/src/modules/post/post.service.ts:1553-1589 | the post's series become the requested set with a `zindex` above every item of each series |
| LinkRows.SeriesTable.LastZindices | apps/api/src/modules/post/post.service.ts:1571-1584 | the maximum plus one of each series |
| Lists.Difference | apps/api/src/common/helpers/array.helper.ts:10-15 | exactly the members of the first list not in the second, without repeats if it had none |
| Lists.DifferenceAppend | apps/api/src/common/helpers/array.helper.ts:10-15 | the filter keeps order and repeats |
| Paging.GetAllIsWhole | apps/api/src/common/helpers/model.helper.ts:4-26 | for any limit of at least 1 the recursion ends with the whole list |
| Archive.StaleUpdateIsFull | apps/api/src/modules/post/post.service.ts:1495-1516 | updating only the groups found in the other state sets them all, and nothing is found exactly when nothing would change |
| Archive.StateWrites | apps/api/src/modules/post/post.service.ts:1495-1516 | the update writes the archived mark of the listed groups' rows and nothing else |
| Archive.RestoreUndoesArchiveIff | apps/api/src/modules/post/post.service.ts:1495-1516 | archive then restore is the identity if and only if no row of the groups was archived |
| Archive.GroupsFromRows | apps/api/src/modules/post/post.service.ts:1518-1538 | a post's unarchived groups can be read from the collected rows |
| Archive.GroupsInScanOrder | apps/api/src/modules/post/post.service.ts:1518-1538 | a post's groups are listed in the order of its rows |
| Archive.PostGroupStore.UpdateGroupState | apps/api/src/modules/post/post.service.ts:1495-1516 | the new rows, and exactly the posts of the flipped groups, or null when nothing changed |
| Archive.PostGroupStore.GetPayload | apps/api/src/modules/post/post.service.ts:1518-1538 | maps every listed post to exactly its unarchived groups and holds the listed posts that are not deleted |
| Archive.PostGroupStore.OnGroupStateChanged | apps/api/src/modules/post/post-consummer.controller.ts:49-63 | emits a payload exactly when a row changed; it maps posts to their unarchived groups after the event, and every changed row belongs to a post in it |
| SeriesEvents.OnPostUpdated | apps/api/src/listeners/post/post.listener.ts:359-467 | the emitted events are the three runs of events of the diff |
| SeriesEvents.GroupSameOwner | apps/api/src/listeners/post/post.listener.ts:384-406 | the map keyed by owner and the pass over it |
| SeriesEvents.EventsAreExactDiff | apps/api/src/listeners/post/post.listener.ts:427-467 | added events are exactly new minus old, removed events exactly old minus new, each once |
| SeriesEvents.ChangedEventsAreMixedOwners | apps/api/src/listeners/post/post.listener.ts:384-425 | a changed event holds all diff items of one owner with both kinds, and every such owner has one |
| SeriesEvents.CombinedOncePerOwner | apps/api/src/listeners/post/post.listener.ts:384-425 | a visible post emits first exactly one combined event per such owner, with each of the owner's items once |
| SeriesEvents.OwnersAppear | apps/api/src/listeners/post/post.listener.ts:384-395 | owners come in the order of their first items |
| SeriesEvents.AddedFirst | apps/api/src/listeners/post/post.listener.ts:387-395 | within a combined event additions come before removals |
| SeriesEvents.SuppressedAreTheLast | apps/api/src/listeners/post/post.listener.ts:397-406 | the suppressed events are those of the last such owner |
| SeriesEvents.InEmitted | apps/api/src/listeners/post/post.listener.ts:408-467 | membership in the emitted events, with the notification flag of each |
| SeriesEvents.SuppressionIsExactIff | apps/api/src/listeners/post/post.listener.ts:397-467 | the suppressed events of a visible post are the combined ones if and only if at most one owner has both kinds |
| SeriesEvents.TwoMixedOwnersAreNotSuppressed | apps/api/src/listeners/post/post.listener.ts:397-467 | two owners who each lose and get a series: combined and suppressed events differ |
| ContentTree.NodeToUrlImages | apps/api/src/common/helpers/object.helper.ts:21-35 | the images with a url of all nodes at every depth, in document order |
| ContentTree.ExtractionCommutesIff | apps/api/src/common/helpers/object.helper.ts:21-53 | extracting after replacement equals the first-match replacement of the earlier extraction, in the same order, if and only if no image gains or loses a url |
| ContentTree.EmptyImageBreaksExtraction | apps/api/src/common/helpers/object.helper.ts:21-53 | an image without a url for which they differ |
| ContentTree.ContentReplaceUrl | apps/api/src/common/helpers/object.helper.ts:37-53 | the in-place recursion over node objects gives every object its first-match url, so the tree becomes the mapped tree; only urls are written |
| ContentTree.MapAllKeepsShapes | apps/api/src/common/helpers/object.helper.ts:37-53 | a rewrite leaves everything but image urls as it was |
| ContentTree.MapAllRetags | apps/api/src/common/helpers/object.helper.ts:37-53 | a rewrite acts once on every node and keeps document order |
| ContentTree.UrlsAfter | apps/api/src/command/migrate-articles-contain-error-image.command.ts:177-191 | node by node: scrubbing empties exactly image urls that start with "data"; a replacement sets the first listed url for the id; every other url stays |
| ContentTree.TagsConcat | apps/api/src/common/helpers/object.helper.ts:21-35 | lists are walked in order |
| ContentTree.ShapesAndTagsDecide | apps/api/src/common/helpers/object.helper.ts:37-53 | a content is determined by its shape and its tags: keeping the shape keeps everything but image urls |
| ContentTree.ScrubIsFullMapIff | apps/api/src/command/migrate-articles-contain-error-image.command.ts:158-191 | the two recursions finish if and only if no deep `null` child list exists; then they are the full map: shape kept, no image url starting with "data", a second pass changes nothing |
| ContentTree.NullListStopsScrub | apps/api/src/command/migrate-articles-contain-error-image.command.ts:158-175 | a grandchild with `children: null` makes it throw |
| ContentBackup.MigratedIsClean | apps/api/src/command/migrate-articles-contain-error-image.command.ts:134-151 | an article is rewritten exactly when it parses and scrubs; the new text parses to the full scrubbing map, has no image url starting with "data", and migrating it again changes nothing |
| ContentBackup.FoundIff | apps/api/src/command/migrate-articles-contain-error-image.command.ts:88-110 | the query finds exactly live articles with either spelling of a data url |
| ContentBackup.MigrationWrites | apps/api/src/command/migrate-articles-contain-error-image.command.ts:88-156 | a migrated row keeps everything but its content, which goes to the backup; every other row stays |
| ContentBackup.RollBackWrites | apps/api/src/command/migrate-articles-contain-error-image.command.ts:47-86 | exactly live articles whose backup has one of two spellings get their content from it; nothing else is written |
| ContentBackup.PostTable.MigrateContent | apps/api/src/command/migrate-articles-contain-error-image.command.ts:88-156 | exactly the found rows before the first throw get the printed scrub of their parsed content and the backup |
| ContentBackup.PostTable.RollBack | apps/api/src/command/migrate-articles-contain-error-image.command.ts:47-86 | exactly the rows whose backup matches the pattern get it back; what that undoes is RollbackUndoesMigrationIff |
| ContentBackup.RollbackUndoesMigrationIff | apps/api/src/command/migrate-articles-contain-error-image.command.ts:47-156 | migrating and rolling back restores every content if and only if every row is restorable |
| ContentBackup.SpacedUrlIsNotRestored | apps/api/src/command/migrate-articles-contain-error-image.command.ts:47-156 | an article of one image with a space before its data url is found and migrated, and rolling back does not restore it |

## Left out

- Kafka, Redis, Elasticsearch, HTTP, S3 and OpenAI calls, logging and dependency injection: foreign calls; only the payload for the search index is kept.
- Caught and swallowed database errors, and failures part way through a step: every SQL statement is assumed to succeed as a whole.
- `attachPostsForUsersNewsFeed`, tag counters, authority checks, DTO transforms and the other migrations: separate paths or one-branch claims.
- Post deletion in the feed: runs of the newsfeed cover follow, unfollow, publish, regroup, hide and archive, not the `delete` state of the feed consumer.
- Ids are opaque numbers; dates matter only for order.
- The order of equally old posts in the follow query's `LIMIT` and in the repair's `OFFSET` paging is fixed by a listing; under a changing order the paging could skip or repeat rows.
- `zindex` is assumed to grow in commit order; gaps from ignored duplicates are modelled.
- Newsfeed.FeedDatabase.FanoutOnWrite: the page size 1000 is a parameter of at least 1.
- Newsfeed.FeedDatabase.Follow: `follow` and `unfollow` are one atomic step each; only fan-out pages interleave with them.
- Pinning.PostGroupTable.ReorderPinnedContent: makes the updates in listing order; the other completion orders are covered by the lemmas.
- PrivacyRepair.FixContentPrivacy.Run: which updates throw is a parameter, the same for the whole run.
- QuizText.KeyReadsAt: lower-casing covers ASCII, the Kelvin sign and dotted capital I; UTF-16 code units above the basic plane are not modelled.
- Quiz.RoundTripIff: generated ids and dates of questions and answers are left out.
- CommentPaging.GroupComments: for a reader without an account the reaction columns are absent; they are modelled as null, which agrees because each comment then has a single row.
- CommentPaging.PageIsFirst: the cursor filters of a request are one arbitrary condition on comments; `getListArroundId` is not modelled.
- FeedRuns.PublishKeeps: a draft post without unarchived groups is not found by its handler while a draft article is; runs allow the publication of both.
- FanoutRace.InterleavedFanoutIsExact: the groups of the post are those of the event, so none is archived during the call.
- Lists.Difference: states membership; order and repeats are Lists.DifferenceAppend.
- Counters.SeenRecountIff: handlers that update a whole content row also write its counters back as they loaded them, which changes nothing in a serial run.
- Counters.CommentRecountIff: runs are serial; the daily job that removes long-deleted posts for good, with their rows, is not modelled.
- Reactions.RunsStayBounded: calls are serial; two concurrent creates can both pass the check.
- LinkRows.LinkTable.SetTargets: looks for a repeated new target before writing instead of rolling back after the key violation.
- LinkRows.AddedReadsLast: the maximum of an empty series is read as `null`, and `null + 1` is 1.
- ContentTree.ContentReplaceUrl: node objects form a finite tree or share nodes, but have no cycles; `children` is absent, null or an array.
- ContentBackup.PostTable.MigrateContent: JSON parsing and printing are a pair of functions, and a parsed list with other image urls is assumed to parse back from its print; arrays with elements other than nodes, and nodes whose type, id or url is no string, count as unparseable, and the text patterns are substring tests.
