/** The mock backend `api`: one in-memory database of users, prayers and
    circles that every operation looks records up in, checks, and changes in
    place. Each method states the whole new database in terms of the edits
    specified in the other modules; the ids the backend draws from the clock
    are parameters. */
module Api {
  import opened Common
  import opened Types
  import opened Levels
  import opened Profile
  import opened ContentTree
  import opened Community
  import Seed

  /** Every circle's feed is well formed: the invariant the post edits keep. */
  predicate FeedsValid(cs: seq<Circulo>)
  {
    forall k :: 0 <= k < |cs| ==> PostsValid(cs[k].posts)
  }

  /** Replacing one circle by one with a well-formed feed keeps every feed well formed. */
  lemma FeedsValidUpdate(cs: seq<Circulo>, k: nat, c: Circulo)
    requires FeedsValid(cs) && k < |cs| && PostsValid(c.posts)
    ensures FeedsValid(cs[k := c])
  {
  }

  /** A new post or reply as `addPost` and `addReply` build it: no
      reactions, no replies, not pinned. */
  function Authored(id: string, author: User, text: string): (p: Post)
    ensures p.id == id && p.text == text && p.authorId == author.id
    ensures p.reactions == [] && p.replies == [] && !p.isPinned
  {
    Post(id, author.id, author.name, author.avatarUrl, text, "Agora", [], [], false)
  }

  class Store {
    var users: seq<User>
    var prayers: seq<Prayer>
    var circulos: seq<Circulo>

    /** A database holding the given records, as a saved database is loaded. */
    constructor(users0: seq<User>, prayers0: seq<Prayer>, circulos0: seq<Circulo>)
      ensures users == users0 && prayers == prayers0 && circulos == circulos0
    {
      users, prayers, circulos := users0, prayers0, circulos0;
    }

    /** The database `getInitialDB` builds when nothing is saved: the seeded
        users and circles and the given prayer catalogue; its feeds start well formed. */
    constructor Initial(mockPrayers: seq<Prayer>)
      ensures users == Seed.InitialUsers && prayers == mockPrayers && circulos == Seed.MockCirculos
      ensures FeedsValid(circulos)
    {
      users, prayers, circulos := Seed.InitialUsers, mockPrayers, Seed.MockCirculos;
      new;
      Seed.SeedCirculosWellFormed();
    }

    // -------------------------------------------------------------------
    // Favourites and prayers

    /** `toggleFavorite`: the prayer id leaves the user's favourites when it
        is there and is pushed otherwise; the new list is returned. */
    method ToggleFavorite(userId: string, prayerId: string) returns (r: Result<seq<string>>)
      modifies this
      ensures var i := IndexOf(old(users), UserId, userId);
        if i == -1 then r == Err(UserNotFound) && users == old(users)
        else
          users == old(users)[i := old(users)[i].(favoritePrayerIds := ToggleId(old(users)[i].favoritePrayerIds, prayerId))] &&
          r == Ok(users[i].favoritePrayerIds)
      ensures prayers == old(prayers) && circulos == old(circulos)
    {
      var i := FindIndex(users, UserId, userId);
      if i == -1 {
        return Err(UserNotFound);
      }
      var u := users[i];
      var favs := u.favoritePrayerIds;
      if prayerId in favs {
        favs := Without(favs, prayerId);
      } else {
        favs := favs + [prayerId];
      }
      users := users[i := u.(favoritePrayerIds := favs)];
      r := Ok(favs);
    }

    /** `addPrayer`: only an editor's prayer is stored, at the head of the
        catalogue; anyone else gets `null` and nothing changes. */
    method AddPrayer(draft: PrayerDraft, author: User, freshId: string) returns (r: Option<Prayer>)
      modifies this
      ensures author.role != Editor ==> r == None && prayers == old(prayers)
      ensures author.role == Editor ==>
        r == Some(NewPrayer(draft, author, freshId)) && prayers == [r.value] + old(prayers)
      ensures users == old(users) && circulos == old(circulos)
    {
      if author.role != Editor {
        return None;
      }
      var p := NewPrayer(draft, author, freshId);
      prayers := [p] + prayers;
      r := Some(p);
    }

    /** `updatePrayer`: an unknown prayer throws before the role is looked
        at; a non-editor gets `null`; an editor's form fields overwrite the
        prayer's and the new record is returned. */
    method UpdatePrayer(prayerId: string, draft: PrayerDraft, editor: User) returns (r: Result<Option<Prayer>>)
      modifies this
      ensures var i := IndexOf(old(prayers), PrayerId, prayerId);
        if i == -1 then r == Err(PrayerNotFound) && prayers == old(prayers)
        else if editor.role != Editor then r == Ok(None) && prayers == old(prayers)
        else prayers == old(prayers)[i := ApplyDraft(old(prayers)[i], draft)] && r == Ok(Some(prayers[i]))
      ensures users == old(users) && circulos == old(circulos)
    {
      var i := FindIndex(prayers, PrayerId, prayerId);
      if i == -1 {
        return Err(PrayerNotFound);
      }
      if editor.role != Editor {
        return Ok(None);
      }
      var p := ApplyDraft(prayers[i], draft);
      prayers := prayers[i := p];
      r := Ok(Some(p));
    }

    /** `incrementPrayerCount`: the prayer's count goes up by one and the new count is returned. */
    method IncrementPrayerCount(prayerId: string) returns (r: Result<int>)
      modifies this
      ensures var i := IndexOf(old(prayers), PrayerId, prayerId);
        if i == -1 then r == Err(PrayerNotFound) && prayers == old(prayers)
        else
          prayers == old(prayers)[i := old(prayers)[i].(prayerCount := old(prayers)[i].prayerCount + 1)] &&
          r == Ok(old(prayers)[i].prayerCount + 1)
      ensures users == old(users) && circulos == old(circulos)
    {
      var i := FindIndex(prayers, PrayerId, prayerId);
      if i == -1 {
        return Err(PrayerNotFound);
      }
      var p := prayers[i];
      prayers := prayers[i := p.(prayerCount := p.prayerCount + 1)];
      r := Ok(p.prayerCount + 1);
    }

    // -------------------------------------------------------------------
    // Graces and the personal schedule

    /** `updateUserGraces`: the amount is added, the level table is scanned
        for the new total, and only `graces` and `level` change. */
    method UpdateUserGraces(userId: string, amount: int) returns (r: Result<(int, SpiritualLevel)>)
      modifies this
      ensures var i := IndexOf(old(users), UserId, userId);
        if i == -1 then r == Err(UserNotFound) && users == old(users)
        else
          users == old(users)[i := AddGraces(old(users)[i], amount)] &&
          users[i].graces == old(users)[i].graces + amount &&
          users[i].level == LevelFor(users[i].graces, old(users)[i].level) &&
          r == Ok((users[i].graces, users[i].level))
      ensures prayers == old(prayers) && circulos == old(circulos)
    {
      var i := FindIndex(users, UserId, userId);
      if i == -1 {
        return Err(UserNotFound);
      }
      var u := users[i];
      var graces := u.graces + amount;
      var level := ScanLevels(graces, u.level);
      users := users[i := u.(graces := graces, level := level)];
      r := Ok((graces, level));
    }

    /** `setScheduledPrayer`: the first slot for the period takes the prayer;
        without one a new slot is pushed. The new schedule is returned. */
    method SetScheduledPrayer(userId: string, period: Period, prayerId: string, freshId: string)
      returns (r: Result<seq<PrayerSchedule>>)
      modifies this
      ensures var i := IndexOf(old(users), UserId, userId);
        if i == -1 then r == Err(UserNotFound) && users == old(users)
        else
          users == old(users)[i := old(users)[i].(schedule := SetSlot(old(users)[i].schedule, period, prayerId, freshId))] &&
          r == Ok(users[i].schedule)
      ensures prayers == old(prayers) && circulos == old(circulos)
    {
      var i := FindIndex(users, UserId, userId);
      if i == -1 {
        return Err(UserNotFound);
      }
      var u := users[i];
      var s := u.schedule;
      var idx := FindIndex(s, SlotPeriod, period);
      if idx > -1 {
        s := s[idx := s[idx].(prayerId := prayerId)];
      } else {
        s := s + [PrayerSchedule(freshId, period, prayerId, None)];
      }
      users := users[i := u.(schedule := s)];
      r := Ok(s);
    }

    /** `removeScheduledPrayer`: every slot for the period goes. */
    method RemoveScheduledPrayer(userId: string, period: Period) returns (r: Result<seq<PrayerSchedule>>)
      modifies this
      ensures var i := IndexOf(old(users), UserId, userId);
        if i == -1 then r == Err(UserNotFound) && users == old(users)
        else
          users == old(users)[i := old(users)[i].(schedule := RemoveSlots(old(users)[i].schedule, period))] &&
          r == Ok(users[i].schedule)
      ensures prayers == old(prayers) && circulos == old(circulos)
    {
      var i := FindIndex(users, UserId, userId);
      if i == -1 {
        return Err(UserNotFound);
      }
      var u := users[i];
      var s := RemoveSlots(u.schedule, period);
      users := users[i := u.(schedule := s)];
      r := Ok(s);
    }

    // -------------------------------------------------------------------
    // Membership

    /** `toggleCirculoMembership`: the user joins or leaves and the circle's
        count moves with it, so the distance between the stored count and
        the true number of members stays what it was. */
    method ToggleCirculoMembership(userId: string, cid: string) returns (r: Result<(seq<string>, int)>)
      modifies this
      ensures var i := IndexOf(old(users), UserId, userId); var k := IndexOf(old(circulos), CirculoId, cid);
        if i == -1 || k == -1 then
          r == Err(UserOrCirculoNotFound) && users == old(users) && circulos == old(circulos)
        else
          users == old(users)[i := ToggleMembership(old(users)[i], cid)] &&
          circulos == old(circulos)[k := ToggleCount(old(circulos)[k], cid in old(users)[i].joinedCirculoIds)] &&
          r == Ok((users[i].joinedCirculoIds, circulos[k].memberCount)) &&
          Drift(users, circulos[k]) == Drift(old(users), old(circulos)[k])
      ensures prayers == old(prayers)
      ensures FeedsValid(old(circulos)) ==> FeedsValid(circulos)
    {
      var i := FindIndex(users, UserId, userId);
      var k := FindIndex(circulos, CirculoId, cid);
      if i == -1 || k == -1 {
        return Err(UserOrCirculoNotFound);
      }
      var u := users[i];
      var c := circulos[k];
      var isMember := cid in u.joinedCirculoIds;
      ToggleKeepsDrift(users, i, c);
      if FeedsValid(circulos) {
        FeedsValidUpdate(circulos, k, ToggleCount(c, isMember));
      }
      users := users[i := ToggleMembership(u, cid)];
      circulos := circulos[k := ToggleCount(c, isMember)];
      r := Ok((users[i].joinedCirculoIds, circulos[k].memberCount));
    }

    /** `getCirculoMembers`: the users that list the circle, in table order. */
    method GetCirculoMembers(cid: string) returns (r: seq<User>)
      ensures forall u :: u in r <==> u in users && cid in u.joinedCirculoIds
      ensures r == Members(users, cid)
    {
      r := Members(users, cid);
    }

    // -------------------------------------------------------------------
    // The feed

    /** `addPost`: the new post goes to the head of the circle's feed; the
        author's membership is not checked. */
    method AddPost(cid: string, text: string, author: User, freshId: string) returns (r: Result<Post>)
      modifies this
      ensures var k := IndexOf(old(circulos), CirculoId, cid);
        if k == -1 then r == Err(CirculoNotFound) && circulos == old(circulos)
        else
          var p := Authored(freshId, author, text);
          circulos == old(circulos)[k := old(circulos)[k].(posts := ContentTree.AddPost(old(circulos)[k].posts, p))] &&
          r == Ok(p)
      ensures users == old(users) && prayers == old(prayers)
      ensures FeedsValid(old(circulos)) ==> FeedsValid(circulos)
    {
      var k := FindIndex(circulos, CirculoId, cid);
      if k == -1 {
        return Err(CirculoNotFound);
      }
      var c := circulos[k];
      var p := Authored(freshId, author, text);
      if FeedsValid(circulos) {
        AddPostKeepsValid(c.posts, p);
        FeedsValidUpdate(circulos, k, c.(posts := ContentTree.AddPost(c.posts, p)));
      }
      circulos := circulos[k := c.(posts := [p] + c.posts)];
      r := Ok(p);
    }

    /** `addReply`: the reply goes to the end of the replies of the first
        post or reply with the parent id, in pre-order; with no such post
        nothing changes. The circle is returned. */
    method AddReply(cid: string, parentId: string, text: string, author: User, freshId: string) returns (r: Result<Circulo>)
      modifies this
      ensures var k := IndexOf(old(circulos), CirculoId, cid);
        if k == -1 then r == Err(CirculoNotFound) && circulos == old(circulos)
        else
          circulos == old(circulos)[k := old(circulos)[k].(posts :=
            ContentTree.AddReply(old(circulos)[k].posts, parentId, Authored(freshId, author, text)))] &&
          r == Ok(circulos[k])
      ensures users == old(users) && prayers == old(prayers)
      ensures FeedsValid(old(circulos)) ==> FeedsValid(circulos)
    {
      var k := FindIndex(circulos, CirculoId, cid);
      if k == -1 {
        return Err(CirculoNotFound);
      }
      var c := circulos[k];
      var reply := Authored(freshId, author, text);
      var posts, _ := AddIn(c.posts, parentId, reply);
      if FeedsValid(circulos) {
        AddReplyKeepsValid(c.posts, parentId, reply);
        FeedsValidUpdate(circulos, k, c.(posts := posts));
      }
      circulos := circulos[k := c.(posts := posts)];
      r := Ok(circulos[k]);
    }

    /** `handlePostReaction`: on the first post or reply with the id, the
        user's reaction is added, removed (same emoji) or switched. */
    method HandlePostReaction(cid: string, postId: string, userId: string, emoji: string) returns (r: Result<Circulo>)
      modifies this
      ensures var k := IndexOf(old(circulos), CirculoId, cid);
        if k == -1 then r == Err(CirculoNotFound) && circulos == old(circulos)
        else
          circulos == old(circulos)[k := old(circulos)[k].(posts := React(old(circulos)[k].posts, postId, userId, emoji))] &&
          r == Ok(circulos[k])
      ensures users == old(users) && prayers == old(prayers)
      ensures FeedsValid(old(circulos)) ==> FeedsValid(circulos)
    {
      var k := FindIndex(circulos, CirculoId, cid);
      if k == -1 {
        return Err(CirculoNotFound);
      }
      var c := circulos[k];
      var posts, _ := ReactIn(c.posts, postId, userId, emoji);
      if FeedsValid(circulos) {
        ReactKeepsValid(c.posts, postId, userId, emoji);
        FeedsValidUpdate(circulos, k, c.(posts := posts));
      }
      circulos := circulos[k := c.(posts := posts)];
      r := Ok(circulos[k]);
    }

    // -------------------------------------------------------------------
    // Moderation

    /** The lookup and check that open every moderator operation: the index
        of the first circle with the id when `actor` moderates it, -1 when
        the call throws "Denied". */
    method Gate(cid: string, actor: string) returns (k: int)
      ensures k == -1 <==> !Allowed(circulos, cid, actor)
      ensures k != -1 ==> k == IndexOf(circulos, CirculoId, cid)
    {
      k := FindIndex(circulos, CirculoId, cid);
      if k != -1 && actor !in circulos[k].moderatorIds {
        k := -1;
      }
    }

    /** `updateCirculo`: a moderator's edit overwrites the fields it sends. */
    method UpdateCirculo(cid: string, patch: CirculoPatch, updaterId: string) returns (r: Result<Circulo>)
      modifies this
      ensures !Allowed(old(circulos), cid, updaterId) ==> r == Err(Denied) && circulos == old(circulos)
      ensures Allowed(old(circulos), cid, updaterId) ==>
        var k := IndexOf(old(circulos), CirculoId, cid);
        circulos == old(circulos)[k := ApplyPatch(old(circulos)[k], patch)] && r == Ok(circulos[k])
      ensures users == old(users) && prayers == old(prayers)
      ensures FeedsValid(old(circulos)) ==> FeedsValid(circulos)
    {
      var k := Gate(cid, updaterId);
      if k == -1 {
        return Err(Denied);
      }
      circulos := circulos[k := ApplyPatch(circulos[k], patch)];
      r := Ok(circulos[k]);
    }

    /** `deletePost`: a moderator removes the first match, with its replies,
        looking through each list before going into its replies. */
    method DeletePost(cid: string, postId: string, deleterId: string) returns (r: Result<Circulo>)
      modifies this
      ensures !Allowed(old(circulos), cid, deleterId) ==> r == Err(Denied) && circulos == old(circulos)
      ensures Allowed(old(circulos), cid, deleterId) ==>
        var k := IndexOf(old(circulos), CirculoId, cid);
        circulos == old(circulos)[k := old(circulos)[k].(posts := Delete(old(circulos)[k].posts, postId))] &&
        r == Ok(circulos[k])
      ensures users == old(users) && prayers == old(prayers)
      ensures FeedsValid(old(circulos)) ==> FeedsValid(circulos)
    {
      var k := Gate(cid, deleterId);
      if k == -1 {
        return Err(Denied);
      }
      var c := circulos[k];
      var posts, _ := DelIn(c.posts, postId);
      if FeedsValid(circulos) {
        DeleteKeepsValid(c.posts, postId);
        FeedsValidUpdate(circulos, k, c.(posts := posts));
      }
      circulos := circulos[k := c.(posts := posts)];
      r := Ok(circulos[k]);
    }

    /** `pinPost`: when a top-level post has the id, every post is unpinned
        and that post takes the opposite of its former pin. */
    method PinPost(cid: string, postId: string, pinnerId: string) returns (r: Result<Circulo>)
      modifies this
      ensures !Allowed(old(circulos), cid, pinnerId) ==> r == Err(Denied) && circulos == old(circulos)
      ensures Allowed(old(circulos), cid, pinnerId) ==>
        var k := IndexOf(old(circulos), CirculoId, cid);
        circulos == old(circulos)[k := old(circulos)[k].(posts := Pin(old(circulos)[k].posts, postId))] &&
        r == Ok(circulos[k]) &&
        (IndexOf(old(circulos)[k].posts, PostId, postId) != -1 ==> AtMostOnePinned(circulos[k].posts))
      ensures users == old(users) && prayers == old(prayers)
      ensures FeedsValid(old(circulos)) ==> FeedsValid(circulos)
    {
      var k := Gate(cid, pinnerId);
      if k == -1 {
        return Err(Denied);
      }
      var c := circulos[k];
      var posts := PinIn(c.posts, postId);
      if IndexOf(c.posts, PostId, postId) != -1 {
        PinOutcome(c.posts, postId);
      }
      if FeedsValid(circulos) {
        PinKeepsValid(c.posts, postId);
        FeedsValidUpdate(circulos, k, c.(posts := posts));
      }
      circulos := circulos[k := c.(posts := posts)];
      r := Ok(circulos[k]);
    }

    /** `updateMemberRole`: a moderator grants or revokes the moderator role;
        nothing protects the leader. */
    method UpdateMemberRole(cid: string, memberId: string, isMod: bool, updaterId: string) returns (r: Result<Circulo>)
      modifies this
      ensures !Allowed(old(circulos), cid, updaterId) ==> r == Err(Denied) && circulos == old(circulos)
      ensures Allowed(old(circulos), cid, updaterId) ==>
        var k := IndexOf(old(circulos), CirculoId, cid);
        circulos == old(circulos)[k := old(circulos)[k].(moderatorIds := SetModerator(old(circulos)[k].moderatorIds, memberId, isMod))] &&
        r == Ok(circulos[k]) && (memberId in circulos[k].moderatorIds <==> isMod)
      ensures users == old(users) && prayers == old(prayers)
      ensures FeedsValid(old(circulos)) ==> FeedsValid(circulos)
    {
      var k := Gate(cid, updaterId);
      if k == -1 {
        return Err(Denied);
      }
      var c := circulos[k];
      var mods := c.moderatorIds;
      if isMod {
        if memberId !in mods {
          mods := mods + [memberId];
        }
      } else {
        mods := Without(mods, memberId);
      }
      circulos := circulos[k := c.(moderatorIds := mods)];
      r := Ok(circulos[k]);
    }

    /** `removeMember`: a moderator takes the member out of the circle; the
        count is recomputed from the users table and the member loses any
        moderator role. Nothing protects the leader. */
    method RemoveMember(cid: string, memberId: string, removerId: string) returns (r: Result<Circulo>)
      modifies this
      ensures var i := IndexOf(old(users), UserId, memberId);
        !Allowed(old(circulos), cid, removerId) || i == -1 ==>
          r == Err(Denied) && users == old(users) && circulos == old(circulos)
      ensures var i := IndexOf(old(users), UserId, memberId); var k := IndexOf(old(circulos), CirculoId, cid);
        Allowed(old(circulos), cid, removerId) && i != -1 ==>
          users == old(users)[i := Leave(old(users)[i], cid)] &&
          circulos == old(circulos)[k := RemoveFromCircle(old(circulos)[k], users, memberId)] &&
          r == Ok(circulos[k])
      ensures prayers == old(prayers)
      ensures FeedsValid(old(circulos)) ==> FeedsValid(circulos)
    {
      var k := Gate(cid, removerId);
      var i := FindIndex(users, UserId, memberId);
      if k == -1 || i == -1 {
        return Err(Denied);
      }
      var c := circulos[k];
      users := users[i := Leave(users[i], cid)];
      var count := |Members(users, cid)|;
      var c' := c.(memberCount := count, moderatorIds := Without(c.moderatorIds, memberId));
      if FeedsValid(circulos) {
        FeedsValidUpdate(circulos, k, c');
      }
      circulos := circulos[k := c'];
      r := Ok(c');
    }

    // -------------------------------------------------------------------
    // The circle's schedule

    /** `addScheduleItem`: a moderator appends an item with a fresh id. */
    method AddScheduleItem(cid: string, item: ScheduleDraft, adderId: string, freshId: string) returns (r: Result<Circulo>)
      modifies this
      ensures !Allowed(old(circulos), cid, adderId) ==> r == Err(Denied) && circulos == old(circulos)
      ensures Allowed(old(circulos), cid, adderId) ==>
        var k := IndexOf(old(circulos), CirculoId, cid);
        circulos == old(circulos)[k := old(circulos)[k].(schedule := AddItem(old(circulos)[k].schedule, item, freshId))] &&
        r == Ok(circulos[k])
      ensures users == old(users) && prayers == old(prayers)
      ensures FeedsValid(old(circulos)) ==> FeedsValid(circulos)
    {
      var k := Gate(cid, adderId);
      if k == -1 {
        return Err(Denied);
      }
      var c := circulos[k];
      var s := c.schedule + [CirculoScheduleItem(freshId, item.title, item.time, item.prayerId)];
      circulos := circulos[k := c.(schedule := s)];
      r := Ok(circulos[k]);
    }

    /** `updateScheduleItem`: a moderator overwrites the first item with the
        id, keeping the id; an unknown id changes nothing. */
    method UpdateScheduleItem(cid: string, itemId: string, item: ScheduleDraft, updaterId: string) returns (r: Result<Circulo>)
      modifies this
      ensures !Allowed(old(circulos), cid, updaterId) ==> r == Err(Denied) && circulos == old(circulos)
      ensures Allowed(old(circulos), cid, updaterId) ==>
        var k := IndexOf(old(circulos), CirculoId, cid);
        circulos == old(circulos)[k := old(circulos)[k].(schedule := UpdateItem(old(circulos)[k].schedule, itemId, item))] &&
        r == Ok(circulos[k])
      ensures users == old(users) && prayers == old(prayers)
      ensures FeedsValid(old(circulos)) ==> FeedsValid(circulos)
    {
      var k := Gate(cid, updaterId);
      if k == -1 {
        return Err(Denied);
      }
      var c := circulos[k];
      var s := c.schedule;
      var idx := FindIndex(s, ItemId, itemId);
      if idx > -1 {
        s := s[idx := CirculoScheduleItem(itemId, item.title, item.time, item.prayerId)];
      }
      circulos := circulos[k := c.(schedule := s)];
      r := Ok(circulos[k]);
    }

    /** `deleteScheduleItem`: a moderator removes every item with the id. */
    method DeleteScheduleItem(cid: string, itemId: string, deleterId: string) returns (r: Result<Circulo>)
      modifies this
      ensures !Allowed(old(circulos), cid, deleterId) ==> r == Err(Denied) && circulos == old(circulos)
      ensures Allowed(old(circulos), cid, deleterId) ==>
        var k := IndexOf(old(circulos), CirculoId, cid);
        circulos == old(circulos)[k := old(circulos)[k].(schedule := DeleteItem(old(circulos)[k].schedule, itemId))] &&
        r == Ok(circulos[k])
      ensures users == old(users) && prayers == old(prayers)
      ensures FeedsValid(old(circulos)) ==> FeedsValid(circulos)
    {
      var k := Gate(cid, deleterId);
      if k == -1 {
        return Err(Denied);
      }
      var c := circulos[k];
      circulos := circulos[k := c.(schedule := DeleteItem(c.schedule, itemId))];
      r := Ok(circulos[k]);
    }
  }
}
