/** The circle-side edits of the backend: who belongs to a circle and how its
    `memberCount` moves, the moderator gate, the moderator list, the profile
    edit and the circle's schedule of items. */
module Community {
  import opened Common
  import opened Types
  import opened Profile

  // ---------------------------------------------------------------------
  // Membership

  /** `users.filter(u => u.joinedCirculoIds.includes(cid))`, the list
      `getCirculoMembers` returns and `removeMember` counts. */
  function Members(users: seq<User>, cid: string): (r: seq<User>)
    ensures |r| <= |users|
    ensures forall u :: u in r <==> u in users && cid in u.joinedCirculoIds
  {
    if users == [] then []
    else (if cid in users[0].joinedCirculoIds then [users[0]] else []) + Members(users[1..], cid)
  }

  function MemberCount(users: seq<User>, cid: string): nat
  {
    |Members(users, cid)|
  }

  /** Counting the members of a list splits off its first user. */
  lemma MemberCountCons(u: User, rest: seq<User>, cid: string)
    ensures MemberCount([u] + rest, cid) == (if cid in u.joinedCirculoIds then 1 else 0) + MemberCount(rest, cid)
  {
    assert ([u] + rest)[1..] == rest;
  }

  /** Replacing one user record moves the count by exactly the change in that
      record's membership. */
  lemma {:induction false} MembersUpdate(users: seq<User>, i: nat, u: User, cid: string)
    requires i < |users|
    ensures MemberCount(users[i := u], cid) ==
      MemberCount(users, cid) - (if cid in users[i].joinedCirculoIds then 1 else 0)
        + (if cid in u.joinedCirculoIds then 1 else 0)
  {
    var vs := users[i := u];
    if i == 0 {
      assert vs[1..] == users[1..];
    } else {
      assert vs[1..] == users[1..][i - 1 := u];
      MembersUpdate(users[1..], i - 1, u, cid);
    }
  }

  /** How far a circle's stored `memberCount` is from the number of users
      that list it: the seeded circles start with counts no user list backs. */
  function Drift(users: seq<User>, c: Circulo): int
  {
    c.memberCount - MemberCount(users, c.id)
  }

  /** `toggleCirculoMembership` on the user record: the circle id is toggled
      in `joinedCirculoIds`. */
  function ToggleMembership(u: User, cid: string): (v: User)
    ensures cid in v.joinedCirculoIds <==> cid !in u.joinedCirculoIds
    ensures forall other :: other != cid ==> (other in v.joinedCirculoIds <==> other in u.joinedCirculoIds)
    ensures v.(joinedCirculoIds := u.joinedCirculoIds) == u
  {
    u.(joinedCirculoIds := ToggleId(u.joinedCirculoIds, cid))
  }

  /** `toggleCirculoMembership` on the circle record: one less when the user
      was a member, one more otherwise, whatever the count was. */
  function ToggleCount(c: Circulo, wasMember: bool): (d: Circulo)
    ensures d.memberCount == if wasMember then c.memberCount - 1 else c.memberCount + 1
    ensures d.(memberCount := c.memberCount) == c
  {
    c.(memberCount := if wasMember then c.memberCount - 1 else c.memberCount + 1)
  }

  /** The step of the stored count matches the step of the real count, so a
      toggle keeps the drift, whatever it was: a count that starts right stays right. */
  lemma ToggleKeepsDrift(users: seq<User>, i: nat, c: Circulo)
    requires i < |users|
    ensures Drift(users[i := ToggleMembership(users[i], c.id)],
                  ToggleCount(c, c.id in users[i].joinedCirculoIds)) == Drift(users, c)
  {
    MembersUpdate(users, i, ToggleMembership(users[i], c.id), c.id);
  }

  /** Toggling twice restores the stored count, and the user's circles: the
      very same list when the user had not joined, the same ids with this one
      moved last when they had. */
  lemma ToggleMembershipTwice(u: User, c: Circulo)
    ensures var v := ToggleMembership(ToggleMembership(u, c.id), c.id);
      (c.id !in u.joinedCirculoIds ==> v == u) &&
      (forall y :: y in v.joinedCirculoIds <==> y in u.joinedCirculoIds) &&
      (c.id in u.joinedCirculoIds ==> v.joinedCirculoIds == Without(u.joinedCirculoIds, c.id) + [c.id])
    ensures var w := c.id in u.joinedCirculoIds;
      ToggleCount(ToggleCount(c, w), c.id in ToggleMembership(u, c.id).joinedCirculoIds) == c
  {
    if c.id in u.joinedCirculoIds {
      ToggleTwicePresent(u.joinedCirculoIds, c.id);
    } else {
      ToggleTwiceAbsent(u.joinedCirculoIds, c.id);
    }
  }

  /** A toggle leaves the member count of every other circle as it was. */
  lemma ToggleOthersUnaffected(users: seq<User>, i: nat, cid: string, other: string)
    requires i < |users| && other != cid
    ensures MemberCount(users[i := ToggleMembership(users[i], cid)], other) == MemberCount(users, other)
  {
    MembersUpdate(users, i, ToggleMembership(users[i], cid), other);
  }

  /** `removeMember` on the member's record: every copy of the circle id goes. */
  function Leave(u: User, cid: string): (v: User)
    ensures cid !in v.joinedCirculoIds
    ensures forall other :: other != cid ==> (other in v.joinedCirculoIds <==> other in u.joinedCirculoIds)
    ensures v.(joinedCirculoIds := u.joinedCirculoIds) == u
  {
    u.(joinedCirculoIds := Without(u.joinedCirculoIds, cid))
  }

  /** After a removal the recounted circle has one member less when the user
      was one, and the removed user is no longer among the members. */
  lemma LeaveCount(users: seq<User>, i: nat, cid: string)
    requires i < |users|
    ensures MemberCount(users[i := Leave(users[i], cid)], cid) ==
      MemberCount(users, cid) - (if cid in users[i].joinedCirculoIds then 1 else 0)
    ensures Leave(users[i], cid) !in Members(users[i := Leave(users[i], cid)], cid)
  {
    MembersUpdate(users, i, Leave(users[i], cid), cid);
  }

  /** `removeMember` on the circle record, given the users table after the
      member's record changed: the count is recomputed from that table, so
      it is exact whatever it was before, and the member loses any moderator role. */
  function RemoveFromCircle(c: Circulo, users: seq<User>, memberId: string): (d: Circulo)
    ensures Drift(users, d) == 0
    ensures memberId !in d.moderatorIds
    ensures forall m :: m != memberId ==> (m in d.moderatorIds <==> m in c.moderatorIds)
    ensures d.(memberCount := c.memberCount, moderatorIds := c.moderatorIds) == c
  {
    c.(memberCount := MemberCount(users, c.id), moderatorIds := Without(c.moderatorIds, memberId))
  }

  // ---------------------------------------------------------------------
  // The moderator gate

  /** The check every moderator operation makes first: the first circle with
      the id exists and lists the actor as a moderator; otherwise "Denied". */
  predicate Allowed(cs: seq<Circulo>, cid: string, actor: string)
  {
    var i := IndexOf(cs, CirculoId, cid);
    i != -1 && actor in cs[i].moderatorIds
  }

  /** The gate looks at the moderator list only: the leader is not protected,
      so a moderator may demote or remove the circle's own leader. */
  lemma {:induction false} LeaderUnguarded(cs: seq<Circulo>, k: nat, actor: string)
    requires k < |cs| && actor in cs[k].moderatorIds
    requires forall j :: 0 <= j < k ==> cs[j].id != cs[k].id
    ensures Allowed(cs, cs[k].id, actor)
    ensures cs[k].leaderId !in SetModerator(cs[k].moderatorIds, cs[k].leaderId, false)
  {
    assert IndexOf(cs, CirculoId, cs[k].id) == k;
  }

  // ---------------------------------------------------------------------
  // Moderators

  /** `updateMemberRole`: granting pushes the id unless it is already there;
      revoking filters out every copy of it. */
  function SetModerator(mods: seq<string>, memberId: string, isMod: bool): (r: seq<string>)
    ensures memberId in r <==> isMod
    ensures forall y :: y != memberId ==> (y in r <==> y in mods)
    ensures isMod && memberId in mods ==> r == mods
  {
    if isMod then (if memberId in mods then mods else mods + [memberId])
    else Without(mods, memberId)
  }

  /** Repeating a role change changes nothing more. */
  lemma SetModeratorIdempotent(mods: seq<string>, memberId: string, isMod: bool)
    ensures SetModerator(SetModerator(mods, memberId, isMod), memberId, isMod) == SetModerator(mods, memberId, isMod)
  {
    if !isMod {
      FilterOutIdempotent(mods, Identity, memberId);
    }
  }

  /** Granting a role to a non-moderator and revoking it again restores the list. */
  lemma GrantThenRevoke(mods: seq<string>, memberId: string)
    requires memberId !in mods
    ensures SetModerator(SetModerator(mods, memberId, true), memberId, false) == mods
  {
    FilterOutAppend(mods, [memberId], Identity, memberId);
    assert FilterOut([memberId], Identity, memberId) == [];
  }

  /** A list without duplicates keeps none. */
  lemma SetModeratorKeepsNoDup(mods: seq<string>, memberId: string, isMod: bool)
    requires NoDup(mods)
    ensures NoDup(SetModerator(mods, memberId, isMod))
  {
    if !isMod {
      FilterOutKeepsNoDup(mods, Identity, memberId);
    }
  }

  // ---------------------------------------------------------------------
  // Profile edit

  /** `Object.assign(circulo, data)` with the fields of the edit form: a field
      that is sent replaces the stored one, the rest of the record stays. */
  function ApplyPatch(c: Circulo, p: CirculoPatch): (d: Circulo)
    ensures d.id == c.id && d.leaderId == c.leaderId && d.moderatorIds == c.moderatorIds
    ensures d.memberCount == c.memberCount && d.posts == c.posts && d.schedule == c.schedule
    ensures d.externalLinks == c.externalLinks
    ensures p.name.Some? ==> d.name == p.name.value
    ensures p.name.None? ==> d.name == c.name
    ensures p.description.Some? ==> d.description == p.description.value
    ensures p.description.None? ==> d.description == c.description
    ensures p.imageUrl.Some? ==> d.imageUrl == p.imageUrl.value
    ensures p.imageUrl.None? ==> d.imageUrl == c.imageUrl
    ensures p.coverImageUrl.Some? ==> d.coverImageUrl == p.coverImageUrl.value
    ensures p.coverImageUrl.None? ==> d.coverImageUrl == c.coverImageUrl
  {
    c.(name := if p.name.Some? then p.name.value else c.name,
       description := if p.description.Some? then p.description.value else c.description,
       imageUrl := if p.imageUrl.Some? then p.imageUrl.value else c.imageUrl,
       coverImageUrl := if p.coverImageUrl.Some? then p.coverImageUrl.value else c.coverImageUrl)
  }

  /** Saving the same edit twice is saving it once. */
  lemma ApplyPatchIdempotent(c: Circulo, p: CirculoPatch)
    ensures ApplyPatch(ApplyPatch(c, p), p) == ApplyPatch(c, p)
  {
  }

  // ---------------------------------------------------------------------
  // The circle's schedule

  /** `schedule.push({ ...item, id })`. */
  function AddItem(s: seq<CirculoScheduleItem>, d: ScheduleDraft, id: string): (r: seq<CirculoScheduleItem>)
    ensures |r| == |s| + 1 && r[..|s|] == s
    ensures r[|s|] == CirculoScheduleItem(id, d.title, d.time, d.prayerId)
  {
    s + [CirculoScheduleItem(id, d.title, d.time, d.prayerId)]
  }

  /** The first item with the id gets the submitted fields and keeps its id;
      a missing id changes nothing. */
  function UpdateItem(s: seq<CirculoScheduleItem>, itemId: string, d: ScheduleDraft): seq<CirculoScheduleItem>
  {
    var i := IndexOf(s, ItemId, itemId);
    if i > -1 then s[i := CirculoScheduleItem(itemId, d.title, d.time, d.prayerId)] else s
  }

  /** `schedule.filter(s => s.id !== itemId)`: every item with the id goes. */
  function DeleteItem(s: seq<CirculoScheduleItem>, itemId: string): (r: seq<CirculoScheduleItem>)
    ensures forall x :: x in r <==> x in s && x.id != itemId
  {
    FilterOut(s, ItemId, itemId)
  }

  predicate UniqueItemIds(s: seq<CirculoScheduleItem>)
  {
    forall a, b :: 0 <= a < b < |s| ==> s[a].id != s[b].id
  }

  /** An update keeps the length and every item's id, rewrites the first item
      with the id and no other. */
  lemma UpdateItemOutcome(s: seq<CirculoScheduleItem>, itemId: string, d: ScheduleDraft)
    ensures var r := UpdateItem(s, itemId, d);
      |r| == |s| && forall j :: 0 <= j < |s| ==> r[j].id == s[j].id
    ensures var r := UpdateItem(s, itemId, d); var i := IndexOf(s, ItemId, itemId);
      forall j :: 0 <= j < |s| && j != i ==> r[j] == s[j]
    ensures var i := IndexOf(s, ItemId, itemId);
      i != -1 ==> UpdateItem(s, itemId, d)[i] == CirculoScheduleItem(itemId, d.title, d.time, d.prayerId)
    ensures (forall j :: 0 <= j < |s| ==> s[j].id != itemId) ==> UpdateItem(s, itemId, d) == s
  {
  }

  /** Adding with a fresh id keeps the ids unique; updating and deleting always do. */
  lemma ItemIdsStayUnique(s: seq<CirculoScheduleItem>, d: ScheduleDraft, id: string, itemId: string)
    requires UniqueItemIds(s)
    ensures (forall j :: 0 <= j < |s| ==> s[j].id != id) ==> UniqueItemIds(AddItem(s, d, id))
    ensures UniqueItemIds(UpdateItem(s, itemId, d))
    ensures UniqueItemIds(DeleteItem(s, itemId))
  {
    UpdateItemOutcome(s, itemId, d);
    DeleteKeepsUnique(s, itemId);
  }

  lemma {:induction false} DeleteKeepsUnique(s: seq<CirculoScheduleItem>, itemId: string)
    requires UniqueItemIds(s)
    ensures UniqueItemIds(DeleteItem(s, itemId))
  {
    if s != [] {
      DeleteKeepsUnique(s[1..], itemId);
      var r := DeleteItem(s[1..], itemId);
      assert forall x :: x in r ==> x in s[1..];
      assert forall x :: x in s[1..] ==> x.id != s[0].id;
    }
  }

  /** Deleting an item just added leaves the schedule as deleting alone would. */
  lemma DeleteAfterAdd(s: seq<CirculoScheduleItem>, d: ScheduleDraft, id: string)
    ensures DeleteItem(AddItem(s, d, id), id) == DeleteItem(s, id)
  {
    FilterOutAppend(s, [CirculoScheduleItem(id, d.title, d.time, d.prayerId)], ItemId, id);
  }

  /** Updating the item just added under a fresh id is adding the new fields directly. */
  lemma UpdateAfterAdd(s: seq<CirculoScheduleItem>, d: ScheduleDraft, d2: ScheduleDraft, id: string)
    requires forall j :: 0 <= j < |s| ==> s[j].id != id
    ensures UpdateItem(AddItem(s, d, id), id, d2) == AddItem(s, d2, id)
  {
    var item := CirculoScheduleItem(id, d.title, d.time, d.prayerId);
    IndexOfConcat(s, [item], ItemId, id);
    assert IndexOf([item], ItemId, id) == 0;
  }
}
