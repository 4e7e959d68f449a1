/** The per-user edits of the backend: the id-list toggle behind favourites
    and circle membership, the personal schedule with one slot per period,
    the grace reward with its level update, and the prayer records an
    editor creates and edits. */
module Profile {
  import opened Common
  import opened Types
  import opened Levels

  // ---------------------------------------------------------------------
  // Toggling an id in a list

  /** `includes` decides: a present id is filtered out (every copy of it), an
      absent one is pushed at the end. */
  function ToggleId(xs: seq<string>, x: string): (r: seq<string>)
    ensures x in r <==> x !in xs
    ensures forall y :: y != x ==> (y in r <==> y in xs)
  {
    if x in xs then Without(xs, x) else xs + [x]
  }

  /** Toggling an absent id twice gives back the very same list. */
  lemma ToggleTwiceAbsent(xs: seq<string>, x: string)
    requires x !in xs
    ensures ToggleId(ToggleId(xs, x), x) == xs
  {
    FilterOutAppend(xs, [x], Identity, x);
    assert FilterOut([x], Identity, x) == [];
  }

  /** Toggling a present id twice keeps the same ids, now with the toggled one last. */
  lemma ToggleTwicePresent(xs: seq<string>, x: string)
    requires x in xs
    ensures ToggleId(ToggleId(xs, x), x) == Without(xs, x) + [x]
    ensures forall y :: y in ToggleId(ToggleId(xs, x), x) <==> y in xs
  {
  }

  /** A list without duplicates stays without duplicates. */
  lemma ToggleKeepsNoDup(xs: seq<string>, x: string)
    requires NoDup(xs)
    ensures NoDup(ToggleId(xs, x))
  {
    if x in xs {
      FilterOutKeepsNoDup(xs, Identity, x);
    }
  }

  // ---------------------------------------------------------------------
  // The personal schedule

  /** The prayer held by the first slot for `period`, the one `findIndex` by time finds. */
  function SlotFor(s: seq<PrayerSchedule>, period: Period): Option<string>
  {
    var i := IndexOf(s, SlotPeriod, period);
    if i == -1 then None else Some(s[i].prayerId)
  }

  /** No two slots share a period. */
  predicate OneSlotPerPeriod(s: seq<PrayerSchedule>)
  {
    forall i, j :: 0 <= i < j < |s| ==> s[i].time != s[j].time
  }

  /** `setScheduledPrayer`: the first slot for the period gets the prayer in
      place; with no such slot a new one is pushed, with no `completed`. */
  function SetSlot(s: seq<PrayerSchedule>, period: Period, prayerId: string, freshId: string): seq<PrayerSchedule>
  {
    var i := IndexOf(s, SlotPeriod, period);
    if i > -1 then s[i := s[i].(prayerId := prayerId)]
    else s + [PrayerSchedule(freshId, period, prayerId, None)]
  }

  /** `removeScheduledPrayer`: every slot for the period is dropped. */
  function RemoveSlots(s: seq<PrayerSchedule>, period: Period): seq<PrayerSchedule>
  {
    FilterOut(s, SlotPeriod, period)
  }

  /** After setting, the period holds the prayer and every other period holds
      what it held. An existing slot is reused in place, keeping its id and
      `completed`, and every other slot (a later one for the same period
      included) is untouched; only a missing one adds a slot. */
  lemma SetSlotOutcome(s: seq<PrayerSchedule>, period: Period, prayerId: string, freshId: string)
    ensures SlotFor(SetSlot(s, period, prayerId, freshId), period) == Some(prayerId)
    ensures forall q :: q != period ==> SlotFor(SetSlot(s, period, prayerId, freshId), q) == SlotFor(s, q)
    ensures SlotFor(s, period).Some? ==> |SetSlot(s, period, prayerId, freshId)| == |s|
    ensures var i := IndexOf(s, SlotPeriod, period); var r := SetSlot(s, period, prayerId, freshId);
      i > -1 ==> forall j :: 0 <= j < |s| ==>
        r[j].id == s[j].id && r[j].time == s[j].time && r[j].completed == s[j].completed &&
        (j != i ==> r[j] == s[j])
    ensures SlotFor(s, period).None? ==>
      SetSlot(s, period, prayerId, freshId) == s + [PrayerSchedule(freshId, period, prayerId, None)]
  {
    var r := SetSlot(s, period, prayerId, freshId);
    forall q {
      SetSlotAt(s, period, prayerId, freshId, q);
    }
  }

  lemma SetSlotAt(s: seq<PrayerSchedule>, period: Period, prayerId: string, freshId: string, q: Period)
    ensures SlotFor(SetSlot(s, period, prayerId, freshId), q) == if q == period then Some(prayerId) else SlotFor(s, q)
  {
    var i := IndexOf(s, SlotPeriod, period);
    var r := SetSlot(s, period, prayerId, freshId);
    if i > -1 {
      IndexOfSameKeys(r, s, SlotPeriod, SlotPeriod, q);
    } else {
      var slot := PrayerSchedule(freshId, period, prayerId, None);
      IndexOfConcat(s, [slot], SlotPeriod, q);
      assert SlotPeriod([slot][0]) == period;
    }
  }

  /** Setting keeps at most one slot per period. */
  lemma SetSlotKeepsOne(s: seq<PrayerSchedule>, period: Period, prayerId: string, freshId: string)
    requires OneSlotPerPeriod(s)
    ensures OneSlotPerPeriod(SetSlot(s, period, prayerId, freshId))
  {
    var i := IndexOf(s, SlotPeriod, period);
    var r := SetSlot(s, period, prayerId, freshId);
    if i == -1 {
      forall a, b | 0 <= a < b < |r| ensures r[a].time != r[b].time {
        if b == |s| {
          assert SlotPeriod(s[a]) != period;
        }
      }
    } else {
      assert forall a :: 0 <= a < |r| ==> r[a].time == s[a].time;
    }
  }

  /** Setting the same prayer twice is setting it once. */
  lemma SetSlotIdempotent(s: seq<PrayerSchedule>, period: Period, prayerId: string, id1: string, id2: string)
    ensures SetSlot(SetSlot(s, period, prayerId, id1), period, prayerId, id2) == SetSlot(s, period, prayerId, id1)
  {
    var i := IndexOf(s, SlotPeriod, period);
    var r := SetSlot(s, period, prayerId, id1);
    if i > -1 {
      IndexOfSameKeys(r, s, SlotPeriod, SlotPeriod, period);
    } else {
      var slot := PrayerSchedule(id1, period, prayerId, None);
      IndexOfConcat(s, [slot], SlotPeriod, period);
      assert SlotPeriod([slot][0]) == period;
    }
  }

  lemma SlotForCons(x: PrayerSchedule, xs: seq<PrayerSchedule>, q: Period)
    ensures SlotFor([x] + xs, q) == if x.time == q then Some(x.prayerId) else SlotFor(xs, q)
  {
    assert ([x] + xs)[1..] == xs;
  }

  /** After removal no slot holds the period; every other period keeps its prayer. */
  lemma {:induction false} RemoveSlotsOutcome(s: seq<PrayerSchedule>, period: Period)
    ensures SlotFor(RemoveSlots(s, period), period) == None
    ensures forall q :: q != period ==> SlotFor(RemoveSlots(s, period), q) == SlotFor(s, q)
  {
    if s != [] {
      RemoveSlotsOutcome(s[1..], period);
      var rest := RemoveSlots(s[1..], period);
      assert s == [s[0]] + s[1..];
      if s[0].time != period {
        assert RemoveSlots(s, period) == [s[0]] + rest;
        forall q | true ensures SlotFor(RemoveSlots(s, period), q) == (if q == period then None else SlotFor(s, q)) {
          SlotForCons(s[0], rest, q);
          SlotForCons(s[0], s[1..], q);
        }
      } else {
        assert RemoveSlots(s, period) == rest;
        forall q | q != period ensures SlotFor(rest, q) == SlotFor(s, q) {
          SlotForCons(s[0], s[1..], q);
        }
      }
    }
  }

  /** Removing after setting is removing: the set leaves no trace once the period is cleared. */
  lemma RemoveAfterSet(s: seq<PrayerSchedule>, period: Period, prayerId: string, freshId: string)
    ensures RemoveSlots(SetSlot(s, period, prayerId, freshId), period) == RemoveSlots(s, period)
  {
    var i := IndexOf(s, SlotPeriod, period);
    var r := SetSlot(s, period, prayerId, freshId);
    if i > -1 {
      FilterOutIgnoresDropped(r, s, SlotPeriod, period);
    } else {
      var slot := PrayerSchedule(freshId, period, prayerId, None);
      FilterOutAppend(s, [slot], SlotPeriod, period);
      assert FilterOut([slot], SlotPeriod, period) == [];
      assert FilterOut(s, SlotPeriod, period) + [] == FilterOut(s, SlotPeriod, period);
    }
  }

  /** Removal keeps at most one slot per period. */
  lemma {:induction false} RemoveKeepsOne(s: seq<PrayerSchedule>, period: Period)
    requires OneSlotPerPeriod(s)
    ensures OneSlotPerPeriod(RemoveSlots(s, period))
  {
    if s != [] {
      assert OneSlotPerPeriod(s[1..]);
      RemoveKeepsOne(s[1..], period);
      var rest := RemoveSlots(s[1..], period);
      if s[0].time != period {
        var r := [s[0]] + rest;
        assert forall y :: y in rest ==> y in s[1..];
        forall a, b | 0 <= a < b < |r| ensures r[a].time != r[b].time {
          if a == 0 {
            assert r[b] in s[1..];
          }
        }
      }
    }
  }

  // ---------------------------------------------------------------------
  // Graces and level

  /** `updateUserGraces` on one user record: the total rises by the amount and
      the level is the one the table selects for the new total; every other
      field, `totalPrayers`, `streak` and `history` included, is untouched. */
  function AddGraces(u: User, amount: int): User
  {
    u.(graces := u.graces + amount, level := LevelFor(u.graces + amount, u.level))
  }

  /** A non-negative reward, such as the five graces of one prayer, never
      lowers a level that agrees with the table. */
  lemma AddGracesNeverDemotes(u: User, amount: int)
    requires 0 <= u.graces && 0 <= amount
    requires u.level == LevelFor(u.graces, u.level)
    ensures AddGraces(u, amount).graces == u.graces + amount
    ensures Rank(u.level) <= Rank(AddGraces(u, amount).level)
    ensures AddGraces(u, amount).level == LevelFor(u.graces + amount, u.level)
  {
    LevelMonotone(u.graces, u.graces + amount, u.level, u.level);
  }

  /** The level after a reward agrees with the table again. */
  lemma AddGracesAgrees(u: User, amount: int)
    requires 0 <= u.graces + amount
    ensures var v := AddGraces(u, amount); v.level == LevelFor(v.graces, v.level)
  {
    LevelIdempotent(u.graces + amount, u.level);
  }

  // ---------------------------------------------------------------------
  // Prayers

  /** The title `addPrayer` gives a prayer submitted without one. */
  const UntitledTitle: string := "Sem Título"

  /** The record `addPrayer` builds from the form and its author: `title ||
      'Sem Título'`, `!!isDevotion`, no image, no prayers said yet. */
  function NewPrayer(d: PrayerDraft, author: User, id: string): (p: Prayer)
    ensures p.title != ""
    ensures d.title != "" ==> p.title == d.title
    ensures p.isDevotion.Some?
  {
    Prayer(
      id, if d.title == "" then UntitledTitle else d.title, d.text, d.latinText, d.category, d.tags,
      None, author.id, author.name, "Agora mesmo", 0, d.parentPrayerId, Some(d.isDevotion))
  }

  /** `Object.assign(prayer, prayerData)` with the fields the form sends: the
      seven form fields are overwritten, an absent value included, and
      nothing else moves. */
  function ApplyDraft(p: Prayer, d: PrayerDraft): (r: Prayer)
    ensures r.id == p.id && r.authorId == p.authorId && r.authorName == p.authorName
    ensures r.createdAt == p.createdAt && r.prayerCount == p.prayerCount && r.imageUrl == p.imageUrl
  {
    p.(title := d.title, text := d.text, latinText := d.latinText, category := d.category,
       tags := d.tags, parentPrayerId := d.parentPrayerId, isDevotion := Some(d.isDevotion))
  }

  /** The last edit wins: an earlier edit leaves no trace. */
  lemma ApplyDraftLastWins(p: Prayer, d1: PrayerDraft, d2: PrayerDraft)
    ensures ApplyDraft(ApplyDraft(p, d1), d2) == ApplyDraft(p, d2)
  {
  }

  /** Saving a new prayer's form again, unchanged, changes nothing, as long as
      it had a title. */
  lemma EditUnchangedIsNoOp(d: PrayerDraft, author: User, id: string)
    requires d.title != ""
    ensures ApplyDraft(NewPrayer(d, author, id), d) == NewPrayer(d, author, id)
  {
  }

  /** Unlike creation, an edit stores an empty title as it is. */
  lemma EditKeepsEmptyTitle(p: Prayer, d: PrayerDraft, author: User, id: string)
    requires d.title == ""
    ensures ApplyDraft(p, d).title == ""
    ensures NewPrayer(d, author, id).title == UntitledTitle
  {
  }
}
