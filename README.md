# Ora Comigo: the mock backend, modelled in Dafny

This project models the core of the Ora Comigo prayer app. The app keeps
users, prayers and prayer circles (`Circulo`) in one in-memory database,
and every backend operation changes it in place. Each circle has a feed of
posts with nested replies and per-user emoji reactions, a moderator list and
a schedule. Users earn graces that decide their spiritual level, keep
favourite prayers and set a personal prayer schedule. Editors write prayers.

The model has four parts:

- **The backend.** `Api.Store` is a class holding the three tables as
  sequence fields. Each `api` operation is a method with `modifies this`.
  Its postcondition gives the whole new database, and the error or value
  returned, in terms of pure edit functions.
- **The edit functions.** These are pure functions in `Profile`, `Community`
  and `ContentTree`. The loops and recursive searches of the source are
  methods proved equal to them: `AddIn`, `ReactIn`, `DelIn`, `PinIn`,
  `UnpinAll`, `FindIndex` and `ScanLevels`. Lemmas state what the source
  promises about each edit. Edits of the nested post tree are stated on its
  outline: the pre-order list of its posts, each with its nesting depth.
  The outline determines the tree, so a lemma that leaves a line in place
  leaves that post in place in the tree.
- **The seed data.** `Levels` holds the level table `SPIRITUAL_LEVELS`, and
  `Seed` holds the seeded users and circles. Lemmas check the seed against
  the invariants.
- **The circle screen.** `View` and `Sorting` model its pure derivations:
  the reaction summary and top three reactions, the pinned-first feed order
  (a stable sort), the submit guards and the member-management permission.

Modules, in dependency order:

| module | file |
|---|---|
| `Common` | common.dfy |
| `Types` | types.dfy |
| `Levels` | levels.dfy |
| `Profile` | profile.dfy |
| `Community` | community.dfy |
| `ContentTree` | content_tree.dfy |
| `Sorting` | sorting.dfy |
| `View` | view.dfy |
| `Seed` | seed.dfy |
| `Api` | store.dfy |

### Behaviour of the code worth noting

The model follows the code, including where it departs from what the app's screens and data suggest:

- **No leader guard.** `updateMemberRole` and `removeMember` only check that
  the actor is a moderator. A moderator can therefore revoke the leader's role
  or remove the leader (`Community.LeaderUnguarded`, `Seed.SeedLeaderExposed`).
  Only the screen hides the member menu for the leader (`View.ScreenMatchesGate`).
- **`removeMember` recomputes the count.** It does not decrement
  `memberCount`. It recounts the users who list the circle
  (`Community.RemoveFromCircle`).
- **`memberCount` is not the number of members.** The seeded counts are 124,
  450 and 89, but the seeded users give 4, 2 and 1 (`Seed.SeedCountsDrift`).
  A toggle moves the stored count and the real count together, so it keeps
  the gap as it is (`Community.ToggleKeepsDrift`). Only `removeMember` closes it.
- **Pinning twice restores the post's original pin.** It does not always
  leave nothing pinned. A post that was pinned ends up pinned again. Every
  other post ends up unpinned (`ContentTree.PinTwice`).
- **`toggleCirculoMembership` also fails for an unknown user,** not only for
  an unknown circle. The error is "User or Circulo not found".
- **`addPost` does not check membership.** Only the screen shows the form to
  members alone.

## Model

| member | source | states |
|---|---|---|
| Common.IndexOf | api.ts:71 | `find`/`findIndex` by key: -1 exactly when no element has the key; otherwise the first index with the key |
| Common.FindIndex | api.ts:144 | the scanning loop returns the same index as `IndexOf` |
| Common.FilterOut | api.ts:76 | `filter(x => key(x) !== k)`: no kept element has the key; every other element is kept; nothing is added; a list without the key is returned unchanged |
| Common.Without | api.ts:76 | `ids.filter(id => id !== x)` keeps exactly the ids other than `x`, and changes nothing when `x` is absent |
| Common.FilterOutIdempotent | api.ts:158 | filtering by the same key twice is filtering once |
| Common.FilterOutKeepsNoDup | api.ts:278 | filtering never introduces a duplicate |
| Levels.Rank | constants.ts:159-164 | each level has its row in the table |
| Levels.LevelFor | api.ts:130-136 | the level `updateUserGraces` stores for a total (its partners: `ScanLevels`, `LevelIsHighestReached`, `LevelInRange`) |
| Levels.LastReached | api.ts:131-135 | index of the last row whose minimum the total reaches, -1 when none: every later row's minimum is above the total |
| Levels.ScanLevels | api.ts:130-136 | the `for...in` loop over the table ends with the level of the last row reached, or the current level when no row is reached |
| Levels.TableMinsIncrease | constants.ts:159-164 | the minimums strictly increase in declaration order: Peregrino, Devoto, Servo, Apóstolo |
| Levels.TableContiguous | constants.ts:159-164 | the first row starts at 0; each row's max + 1 is the next row's min; the last row is unbounded |
| Levels.ReachedIsPrefix | api.ts:131-135 | with increasing minimums, the rows a total reaches are exactly those up to the last one reached |
| Levels.LevelInRange | api.ts:131-136 | every non-negative total falls in the range of the row it selects, and that row's level is stored |
| Levels.LevelIsHighestReached | api.ts:131-136 | the stored level is the highest row whose minimum the total reaches |
| Levels.LevelMonotone | api.ts:131-136 | a larger total never selects a lower level |
| Levels.LevelIdempotent | api.ts:130-136 | rescanning from the selected level selects it again |
| Levels.NegativeKeepsLevel | api.ts:130-136 | a negative total reaches no row, so the level is left as it was |
| Levels.PromotionBoundary | constants.ts:160-163 | promotion happens exactly at each minimum: 50/51, 200/201, 500/501 |
| Profile.ToggleId | api.ts:74-79 | the id is in the result exactly when it was not in the list; every other id stays as it was |
| Profile.ToggleTwiceAbsent | api.ts:74-79 | toggling an absent id twice gives back the very same list |
| Profile.ToggleTwicePresent | api.ts:74-79 | toggling a present id twice keeps the same ids, with that id moved last |
| Profile.ToggleKeepsNoDup | api.ts:74-79 | a list without duplicates keeps none |
| Profile.SetSlotOutcome | api.ts:145-150 | after setting, the period holds the prayer and every other period holds what it held; an existing slot is reused in place, keeping its id, time and `completed`, and every other slot is untouched; a missing one is pushed with no `completed` |
| Profile.SetSlot | api.ts:144-150 | `setScheduledPrayer` on the schedule: reuse the period's first slot or push a new one (its partners: `SetSlotOutcome`, `SetSlotAt`, `SetSlotKeepsOne`) |
| Profile.SetSlotAt | api.ts:145-150 | after setting, looking the period up gives the new prayer and every other period gives what it gave before |
| Profile.SetSlotKeepsOne | api.ts:145-150 | setting keeps at most one slot per period |
| Profile.SetSlotIdempotent | api.ts:145-150 | setting the same prayer twice is setting it once |
| Profile.RemoveSlotsOutcome | api.ts:158 | after removal no slot holds the period, and every other period keeps its prayer |
| Profile.RemoveSlots | api.ts:158 | `removeScheduledPrayer` on the schedule: every slot of the period goes (its partners: `RemoveSlotsOutcome`, `RemoveKeepsOne`) |
| Profile.RemoveAfterSet | api.ts:141-161 | removing after setting is removing alone |
| Profile.RemoveKeepsOne | api.ts:158 | removal keeps at most one slot per period |
| Profile.AddGracesNeverDemotes | api.ts:128-136 | a non-negative reward raises graces by exactly the amount and never lowers a level that agrees with the table |
| Profile.AddGracesAgrees | api.ts:128-136 | after a reward the stored level agrees with the table again |
| Profile.AddGraces | api.ts:128-136 | the user after `updateUserGraces`: graces plus the amount, the table's level for the new total (its partners: `AddGracesNeverDemotes`, `AddGracesAgrees`) |
| Profile.NewPrayer | api.ts:88-101 | the created prayer always has a title: the submitted one, or "Sem Título" for an empty one; `isDevotion` is always set |
| Profile.ApplyDraft | api.ts:112 | an edit keeps the id, author, creation date, image and prayer count |
| Profile.ApplyDraftLastWins | api.ts:112 | of two edits, the last one wins |
| Profile.EditUnchangedIsNoOp | api.ts:84-115 | saving a new prayer's form again unchanged changes nothing, when it had a title |
| Profile.EditKeepsEmptyTitle | api.ts:90 | an edit stores an empty title as sent, while creation replaces it with "Sem Título" |
| Community.Members | api.ts:236 | exactly the users that list the circle |
| Community.MembersUpdate | api.ts:287-288 | replacing one user record moves the member count by exactly the change in that record's membership |
| Community.ToggleMembership | api.ts:166-173 | the circle id is in the user's list exactly when it was not; other circles and other fields are unchanged |
| Community.ToggleCount | api.ts:170-175 | the count goes down by one when the user was a member and up by one otherwise; nothing else changes |
| Community.ToggleKeepsDrift | api.ts:166-175 | the stored count and the true member count move together, so their difference is kept |
| Community.ToggleMembershipTwice | api.ts:166-175 | toggling twice restores the count, and restores the joined list exactly when the user had not joined (the same ids, reordered, when they had) |
| Community.ToggleOthersUnaffected | api.ts:166-175 | a toggle leaves every other circle's member count as it was |
| Community.Leave | api.ts:287 | the member's list loses every copy of the circle id; nothing else changes |
| Community.LeaveCount | api.ts:287-288 | the recount is one lower when the user was a member, and the removed user is not among the members |
| Community.RemoveFromCircle | api.ts:288-289 | after removal the count is exact, the member is no moderator, and other moderators and fields stay |
| Community.LeaderUnguarded | api.ts:276-289 | any moderator passes the gate of a circle, and revoking the leader's role leaves the leader out of the moderator list |
| Community.Allowed | api.ts:240-241 | the gate of the moderator operations: the circle exists and lists the actor as moderator (its partners: `Api.Store.Gate`, `View.ScreenMatchesGate`) |
| Community.SetModerator | api.ts:277-278 | the member is a moderator exactly when `isMod`; other moderators stay; granting an existing moderator changes nothing |
| Community.SetModeratorIdempotent | api.ts:277-278 | repeating a role change changes nothing more |
| Community.GrantThenRevoke | api.ts:277-278 | granting then revoking a non-moderator restores the list |
| Community.SetModeratorKeepsNoDup | api.ts:277-278 | the moderator list never gains a duplicate |
| Community.ApplyPatch | api.ts:242 | each field the edit sends replaces the stored one; unsent fields, id, leader, moderators, count, feed and schedule stay |
| Community.ApplyPatchIdempotent | api.ts:242 | saving the same edit twice is saving it once |
| Community.AddItem | api.ts:297 | the new item, with the fresh id, is appended after the unchanged old items |
| Community.DeleteItem | api.ts:314 | exactly the items without the id remain |
| Community.UpdateItemOutcome | api.ts:305-306 | the first item with the id gets the new fields and keeps its id; every other item and every id stay; an unknown id changes nothing |
| Community.UpdateItem | api.ts:305-306 | `updateScheduleItem` on the schedule: the first item with the id is replaced (its partner: `UpdateItemOutcome`) |
| Community.ItemIdsStayUnique | api.ts:294-317 | adding with a fresh id, updating and deleting keep item ids unique |
| Community.DeleteKeepsUnique | api.ts:314 | deleting keeps item ids unique |
| Community.DeleteAfterAdd | api.ts:294-317 | deleting an item just added is deleting alone |
| Community.UpdateAfterAdd | api.ts:294-309 | updating an item just added under a fresh id is adding the new fields directly |
| ContentTree.Find | api.ts:201-207 | the first post or reply in pre-order with the id is found exactly when one exists |
| ContentTree.AddReply | api.ts:201-208 | the recursive `add`'s effect on the tree (its partners: `AddReplyOutline`, `AddReplyAppends`, `AddReplyAbsent`) |
| ContentTree.AddPost | api.ts:188 | the new post is at index 0, followed by the old feed |
| ContentTree.AddPostNodes | api.ts:188 | a new post without replies becomes the first node of the tree; everything else follows unchanged |
| ContentTree.AddReplyAbsent | api.ts:201-208 | with no matching parent the tree is unchanged |
| ContentTree.AddReplyNodes | api.ts:201-208 | in the flat pre-order list, which forgets nesting, only the first match's block changes: it gains the reply, and the nodes before and after it stay |
| ContentTree.AddReplyOutline | api.ts:201-208 | in the outline (pre-order with depths, which determines the tree), the first match's subtree gains the reply one level below the match after all its earlier descendants; every other node keeps its content, depth and place |
| ContentTree.AddReplyBelowOutline | api.ts:204 | when `add` goes into the replies of the post where its search stops, the block it edits lies inside that post's replies |
| ContentTree.AppendedReplyNodes | api.ts:203 | the new reply comes after all earlier replies and their descendants |
| ContentTree.AddReplyAppends | api.ts:203 | the first match now ends with the new reply, its other replies kept in order |
| ContentTree.AddReplyAt | api.ts:201-206 | `add` stops at the first post that has the id or holds it among its replies |
| ContentTree.AddIn | api.ts:200-207 | the recursive `add` returns whether the parent exists, and the tree `AddReply` specifies |
| ContentTree.UserReaction | screens/CommunityDetailScreen.tsx:102 | the user's reaction is absent exactly when no reaction is theirs; otherwise its emoji is that of the user's first reaction in the list |
| ContentTree.ApplyReaction | api.ts:219-223 | one post's reactions after a click (its partners: `ApplyReactionSelf`, `ApplyReactionOthers`, `ReactTwice`) |
| ContentTree.React | api.ts:216-229 | the recursive `react`'s effect on the tree (its partners: `ReactOutline`, `ReactAbsent`, `ReactKeepsUnique`) |
| ContentTree.ApplyReactionKeepsUnique | api.ts:218-226 | reacting never gives a user a second reaction on a post |
| ContentTree.ApplyReactionSelf | api.ts:218-226 | no reaction yet: one is appended; the same emoji again: it is removed; another emoji: it is replaced in place |
| ContentTree.ApplyReactionOthers | api.ts:218-226 | reacting changes nobody else's reaction |
| ContentTree.RemovedReactionGone | api.ts:222 | removing a user's reaction leaves that user with no reaction on the post |
| ContentTree.ReactTwice | api.ts:218-226 | the same emoji twice leaves no reaction; switching emoji leaves exactly the new one |
| ContentTree.ReactAbsent | api.ts:216-230 | an unknown post id leaves the tree unchanged |
| ContentTree.ReactNodes | api.ts:216-230 | in the flat pre-order list, which forgets nesting, only the first match changes, and only in its reactions |
| ContentTree.ReactOutline | api.ts:216-230 | in the outline, one line changes: the first match's, only in its reactions; every other node keeps its content, depth and place |
| ContentTree.ReactKeepsUnique | api.ts:216-230 | at most one reaction per user on every post and reply is kept across the whole tree |
| ContentTree.ReactAt | api.ts:216-229 | `react` stops at the first post that has the id or holds it among its replies |
| ContentTree.ReactIn | api.ts:215-230 | the recursive `react` returns whether the post exists, and the tree `React` specifies |
| ContentTree.DeleteAbsent | api.ts:250-256 | an unknown id leaves the tree unchanged |
| ContentTree.Delete | api.ts:250-255 | the recursive `del`'s effect on the tree: the top-level match goes, else the search descends (its partners: `DeleteOutline`, `DeleteAbsent`) |
| ContentTree.DeleteBelow | api.ts:253 | the loop of `del` into each post's replies (its partner: `DeleteBelowOutline`) |
| ContentTree.DeleteRemovesSubtree | api.ts:250-256 | in the flat pre-order list, which forgets nesting, exactly one block goes: a node with the id and its descendants; a top-level match wins over an earlier reply |
| ContentTree.DeleteBelowRemovesSubtree | api.ts:254 | in the flat pre-order list, descending into replies removes exactly one block: a node with the id and its descendants |
| ContentTree.DeleteOutline | api.ts:250-256 | in the outline, exactly one block goes: a node with the id and its subtree; every other node keeps its content, depth and place; a top-level match at the list's own depth wins over an earlier reply |
| ContentTree.DeleteBelowOutline | api.ts:253 | with no top-level match, the removed block lies inside the replies of the first post holding the id among its replies, below that post's own line |
| ContentTree.OutlineDetermines | api.ts:201-256 | two forests with the same outline are equal, so an edit stated on the outline leaves the nesting of every other post as it was |
| ContentTree.BelowHit | api.ts:254 | the first post holding the id among its replies is the one `del` descends into |
| ContentTree.DelIn | api.ts:249-256 | the recursive `del` returns whether the post exists, and the tree `Delete` specifies |
| ContentTree.Unpinned | api.ts:267 | every post with its pin cleared, and nothing else changed |
| ContentTree.UnpinAll | api.ts:267 | the `forEach` loop clears every pin |
| ContentTree.Pin | api.ts:264-269 | the feed after `pinPost`'s gate (its partners: `PinOutcome`, `PinTwice`, `PinNotTopLevel`, `PinKeepsAtMostOne`) |
| ContentTree.PinIn | api.ts:264-269 | the find, clear and flip steps give the feed that `Pin` specifies |
| ContentTree.PinOutcome | api.ts:264-269 | pinning a top-level post flips its pin, unpins every other post, and leaves at most one pinned |
| ContentTree.PinNotTopLevel | api.ts:264-265 | an id that is no top-level post (a reply's id included) changes nothing |
| ContentTree.PinTwice | api.ts:264-269 | pinning twice unpins every other post and gives the target back its original pin |
| ContentTree.PinFindsSame | api.ts:264 | pinning keeps ids, so the same post is found again |
| ContentTree.PinKeepsAtMostOne | api.ts:264-269 | at most one pinned post survives any pin request |
| ContentTree.AddReplyKeepsPins | api.ts:201-208 | adding a reply changes no top-level post's pin |
| ContentTree.ReactKeepsPins | api.ts:216-230 | reacting changes no top-level post's pin |
| ContentTree.AddPostKeepsValid | api.ts:183-188 | adding a post keeps at most one pin and one reaction per user everywhere |
| ContentTree.AddReplyKeepsValid | api.ts:196-208 | adding a reply keeps the feed well formed |
| ContentTree.ReactKeepsValid | api.ts:216-230 | reacting keeps the feed well formed |
| ContentTree.DeleteKeepsValid | api.ts:250-256 | deleting keeps the feed well formed |
| ContentTree.PinKeepsValid | api.ts:264-269 | pinning keeps the feed well formed |
| Sorting.Insert | screens/CommunityDetailScreen.tsx:112-114 | one insertion step adds exactly one element |
| Sorting.SortDesc | screens/CommunityDetailScreen.tsx:112-114 | `sort((a, b) => key(b) - key(a))` as a stable insertion sort; the result has the input's length (its partners: `SortPermutes`, `SortSorted`, `SortStable`, `SortTies`) |
| Sorting.SortPermutes | screens/CommunityDetailScreen.tsx:112-114 | the sort gives a permutation of its input |
| Sorting.SortSorted | screens/CommunityDetailScreen.tsx:112-114 | larger keys come first |
| Sorting.SortStable | screens/CommunityDetailScreen.tsx:379 | among equal keys the input order is kept |
| Sorting.SortDistinct | screens/CommunityDetailScreen.tsx:112-114 | elements that differ in a field stay different after sorting |
| Sorting.TwoKeysSplit | screens/CommunityDetailScreen.tsx:379 | a list sorted on keys 1 and 0 is its 1s followed by its 0s |
| Sorting.SortTies | screens/CommunityDetailScreen.tsx:112-114 | when the input is in increasing rank, elements with equal keys leave the sort in increasing rank: a comparator result of 0 keeps the input order |
| View.TallySummary | screens/CommunityDetailScreen.tsx:103-110 | the summary has one entry per emoji, each count is the true number of reactions with that emoji, and the counts add up to `totalReactions` |
| View.BumpNew | screens/CommunityDetailScreen.tsx:108 | a new emoji gets an entry of 1 at the end; the counts rise by one for it only |
| View.BumpKnown | screens/CommunityDetailScreen.tsx:108 | a known emoji's entry goes up by one in place; no other count changes |
| View.Bump | screens/CommunityDetailScreen.tsx:108 | `acc[emoji]`, or 0 when missing, plus one, on the entry list (its partners: `BumpNew`, `BumpKnown`) |
| View.Tally | screens/CommunityDetailScreen.tsx:107-110 | the `reduce` building `reactionSummary` (its partners: `TallySummary`, `TallyInFirstUseOrder`) |
| View.TallyInFirstUseOrder | screens/CommunityDetailScreen.tsx:107-112 | the summary lists each emoji at the position of its first use, as the object's keys come out of `Object.entries` |
| View.Emojis | screens/CommunityDetailScreen.tsx:114 | the emojis of the entries, in order |
| View.SortedReactions | screens/CommunityDetailScreen.tsx:112-114 | `sortedReactions` (its partners: `SortedReactionsSpec`, `SortedReactionsTies`) |
| View.SortedReactionsTies | screens/CommunityDetailScreen.tsx:112-114 | of two emojis used equally often, the one used first comes first |
| View.SortedReactionsSpec | screens/CommunityDetailScreen.tsx:107-114 | every used emoji appears exactly once, none unused, in non-increasing order of use; emojis used equally often keep the order of their first use |
| View.TopReactions | screens/CommunityDetailScreen.tsx:116 | `topReactions` (its partner: `TopReactionsSpec`) |
| View.TopReactionsSpec | screens/CommunityDetailScreen.tsx:116 | the shown emojis are the first three of the sorted list, or all of it when shorter; so each is used at least as often as any emoji left out |
| View.SortedPosts | screens/CommunityDetailScreen.tsx:379 | `sortedPosts` (its partners: `SortedPostsSplit`, `PinnedShownFirst`) |
| View.SortedPostsSplit | screens/CommunityDetailScreen.tsx:379 | the feed shows the pinned posts, then the others, each group in feed order; it is a permutation of the feed |
| View.PinnedShownFirst | screens/CommunityDetailScreen.tsx:379 | with one pinned post, that post is shown first and the others follow in feed order |
| View.LeadingSpaces | screens/CommunityDetailScreen.tsx:39 | the number of leading white-space characters |
| View.TrailingSpaces | screens/CommunityDetailScreen.tsx:39 | the number of trailing white-space characters |
| View.Trim | screens/CommunityDetailScreen.tsx:39 | the trimmed text is empty exactly when the text is all white space; otherwise it starts and ends with a non-space; it is the slice that starts after the leading spaces, and only white space follows it |
| View.TrimIdempotent | screens/CommunityDetailScreen.tsx:39 | trimming a trimmed text changes nothing |
| View.SubmitText | screens/CommunityDetailScreen.tsx:39-40 | a post or reply is submitted exactly when the text has a non-space character, and what is submitted is `Trim` of the text |
| View.SubmitSchedule | screens/CommunityDetailScreen.tsx:303-304 | an item is saved exactly when title, time and prayer are all non-empty, and it carries those three |
| View.IsMember | screens/CommunityDetailScreen.tsx:338 | `isMember`: the circle is in the user's joined list |
| View.ToggleFlipsMember | screens/CommunityDetailScreen.tsx:338 | a toggle flips `isMember`, and a listed user is a member exactly when `getCirculoMembers` returns them |
| View.IsModerator | screens/CommunityDetailScreen.tsx:339 | `isModerator`: the user is in the moderator list (its partner: `ScreenMatchesGate`) |
| View.CanManage | screens/CommunityDetailScreen.tsx:506-508 | `canManage`: a moderator viewing another member who is not the leader (its partner: `ScreenMatchesGate`) |
| View.ScreenMatchesGate | screens/CommunityDetailScreen.tsx:506-508 | the screen's moderator test is the backend's gate, and the member menu is never offered on oneself or on the leader |
| Seed.SeedLevelsAgree | constants.ts:4-23 | each seeded user's level is the one its graces fall in (125 graces: Devoto) |
| Seed.MockUser | constants.ts:4-23 | `MOCK_USER`, field for field |
| Seed.InitialUsers | api.ts:23-29 | the seeded user list, `MOCK_USER` first, then user2 to user5 as written |
| Seed.MockCirculos | constants.ts:108-157 | `MOCK_CIRCULOS`, field for field |
| Seed.SeedIdsDistinct | api.ts:23-29 | seeded user ids and circle ids are distinct |
| Seed.SeedCirculosWellFormed | constants.ts:108-157 | every seeded leader is a moderator of their circle, and every seeded feed has one reaction per user per post, nothing pinned and unique schedule ids |
| Seed.SeedCountsDrift | constants.ts:108-157 | the seeded counts 124, 450, 89 are not the 4, 2, 1 users that list the circles |
| Seed.SeedLeaderExposed | constants.ts:113-114 | in c1 the signed-in user passes the gate and can revoke the leader's role |
| Seed.SeedPost1Summary | constants.ts:120 | the first seeded post shows a single reaction button, the heart |
| Api.Authored | api.ts:183-186 | a new post or reply has the fresh id, the author and text, no reactions, no replies, and no pin |
| Api.Store.constructor | api.ts:13-17 | a database loaded with the given tables |
| Api.Store.Initial | api.ts:22-32 | the initial database holds the seeded users and circles, and its feeds start well formed |
| Api.Store.ToggleFavorite | api.ts:69-82 | unknown user: "User not found", nothing changes; otherwise only that user's favourites are toggled, and the new list is returned |
| Api.Store.AddPrayer | api.ts:84-105 | a non-editor gets `null` and nothing changes; an editor's new prayer goes to the head of the catalogue and is returned |
| Api.Store.UpdatePrayer | api.ts:107-115 | an unknown prayer throws before the role is checked; a non-editor gets `null`; an editor's fields overwrite that prayer only |
| Api.Store.IncrementPrayerCount | api.ts:117-123 | unknown prayer: "Prayer not found"; otherwise only its count rises by one, and the new count is returned |
| Api.Store.UpdateUserGraces | api.ts:125-139 | unknown user: "User not found"; otherwise graces rise by exactly the amount, the level is the table's level for the new total, and no other field changes |
| Api.Store.SetScheduledPrayer | api.ts:141-153 | unknown user: "User not found"; otherwise only that user's schedule changes, as `SetSlot` specifies |
| Api.Store.RemoveScheduledPrayer | api.ts:155-161 | unknown user: "User not found"; otherwise only that user's slots for the period go |
| Api.Store.ToggleCirculoMembership | api.ts:163-178 | unknown user or circle: "User or Circulo not found", nothing changes; otherwise the membership and the count toggle together, and their gap is kept |
| Api.Store.GetCirculoMembers | api.ts:235-237 | exactly the users that list the circle, in table order |
| Api.Store.AddPost | api.ts:180-191 | unknown circle: "Circulo not found"; otherwise the new post heads that circle's feed, without a membership check, and the feeds stay well formed |
| Api.Store.AddReply | api.ts:193-211 | unknown circle: "Circulo not found"; otherwise that circle's tree is `AddReply`'s, and the feeds stay well formed |
| Api.Store.HandlePostReaction | api.ts:213-233 | unknown circle: "Circulo not found"; otherwise that circle's tree is `React`'s, and the feeds stay well formed |
| Api.Store.Gate | api.ts:240-241 | the circle's index when the actor moderates it; -1, meaning "Denied", when the circle is missing or the actor is not a moderator |
| Api.Store.UpdateCirculo | api.ts:239-245 | "Denied" with no change unless the actor moderates the circle; otherwise the edit is applied to that circle only |
| Api.Store.DeletePost | api.ts:247-259 | "Denied" with no change unless the actor moderates the circle; otherwise that circle's tree is `Delete`'s, and the feeds stay well formed |
| Api.Store.PinPost | api.ts:261-272 | "Denied" with no change unless the actor moderates the circle; otherwise the feed is `Pin`'s, with at most one pinned post when the post is top-level |
| Api.Store.UpdateMemberRole | api.ts:274-281 | "Denied" with no change unless the actor moderates the circle; otherwise the member is a moderator exactly when `isMod`, the leader included |
| Api.Store.RemoveMember | api.ts:283-292 | "Denied" with no change when the circle or member is missing or the actor is no moderator; otherwise the member leaves, the count is recounted and exact, and the member loses the moderator role |
| Api.Store.AddScheduleItem | api.ts:294-300 | "Denied" with no change unless the actor moderates the circle; otherwise the item is appended with the fresh id |
| Api.Store.UpdateScheduleItem | api.ts:302-309 | "Denied" with no change unless the actor moderates the circle; otherwise the first item with the id is overwritten and keeps its id |
| Api.Store.DeleteScheduleItem | api.ts:311-317 | "Denied" with no change unless the actor moderates the circle; otherwise every item with the id goes |

## Left out

- Persistence is not modelled: `localStorage`, `saveDB`, the JSON deep copies and the saved-database branch of `getInitialDB`. A saved database is any set of tables given to `Api.Store.constructor`.
- The simulated delays and the Promises are not modelled. Each operation runs to completion, one at a time, as the single-threaded source does.
- Ids drawn from `Date.now()` are parameters (`freshId`). Their freshness is assumed only where a lemma says so.
- `login`, `logout` and `getData` only read and copy records. They are not modelled, and neither is the aliasing between the screen's copies and the stored objects.
- The prayer catalogue `MOCK_PRAYERS` is not part of this model. `Api.Store.Initial` takes it as a parameter.
- `addCirculo` is called by a screen but does not exist in api.ts, so circle creation is not modelled.
- Streaks, the prayer history and multi-slot schedules are only displayed or typed. They are not modelled. `updateUserGraces` does not touch them either.
- `Partial<Prayer>` and `Partial<Circulo>` are limited to the fields their forms send: `PrayerDraft` and the four optional `CirculoPatch` fields. A caller sending other fields, such as `externalLinks`, is not modelled.
- Api.Store.SetScheduledPrayer: a user record without a `schedule` array is not modelled. The field is always present, so the `if (!user.schedule)` branch is not modelled.
- JavaScript numbers are IEEE-754 doubles; the model represents them as unbounded integers. Every amount the app passes is integral (a prayer earns `GRACES_PER_PRAYER = 5` graces, App.tsx:199) and the counts change by one at a time, so they stay integers far below 2^53, where doubles are exact.
- `undefined` and `false` are merged for `isPinned`.
- View.IsSpace: `trim` is modelled with the fixed set of white-space and line-terminator characters JavaScript defines. The engine's Unicode tables are not modelled.
- Object-key ordering in `reactionSummary` follows insertion order, which holds for the non-numeric emoji keys. Integer-like keys, which JavaScript orders first, are not modelled.
- The rest of the app is not modelled: the React components, their state and navigation, audio decoding, the generative-AI call, the home feed's locale-aware sort, and the regex text helpers.
