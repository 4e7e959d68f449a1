/** What the circle screen derives from the records it is given: the
    reaction summary under each post, the order of the feed, the text and
    schedule forms' submit guards, and who is offered which control. */
module View {
  import opened Common
  import opened Types
  import opened ContentTree
  import opened Community
  import opened Sorting

  // ---------------------------------------------------------------------
  // Reaction summary

  /** One entry of `reactionSummary`: an emoji and how many reactions use it. */
  datatype Entry = Entry(emoji: string, count: int)

  function EntryEmoji(e: Entry): string { e.emoji }
  function EntryCount(e: Entry): int { e.count }

  /** `acc[emoji] = (acc[emoji] || 0) + 1`: a known emoji's entry goes up by
      one in place, a new emoji is added last with 1, as an object keeps its
      (non-numeric) keys in insertion order. */
  function Bump(t: seq<Entry>, emoji: string): seq<Entry>
  {
    var i := IndexOf(t, EntryEmoji, emoji);
    if i == -1 then t + [Entry(emoji, 1)] else t[i := Entry(emoji, t[i].count + 1)]
  }

  /** `post.reactions.reduce(...)`, left to right, as an entry list. */
  function Tally(rs: seq<Reaction>): seq<Entry>
  {
    if rs == [] then [] else Bump(Tally(rs[..|rs| - 1]), rs[|rs| - 1].emoji)
  }

  /** How many reactions carry the emoji: the reference the summary is checked against. */
  function CountEmoji(rs: seq<Reaction>, e: string): nat
  {
    if rs == [] then 0
    else CountEmoji(rs[..|rs| - 1], e) + (if rs[|rs| - 1].emoji == e then 1 else 0)
  }

  /** The count an entry list records for an emoji, 0 when it has no entry. */
  function CountIn(t: seq<Entry>, e: string): int
  {
    var i := IndexOf(t, EntryEmoji, e);
    if i == -1 then 0 else t[i].count
  }

  function Total(t: seq<Entry>): int
  {
    if t == [] then 0 else Total(t[..|t| - 1]) + t[|t| - 1].count
  }

  predicate WellFormedTally(t: seq<Entry>)
  {
    DistinctBy(t, EntryEmoji) && forall j :: 0 <= j < |t| ==> t[j].count >= 1
  }

  lemma TotalAppend(t: seq<Entry>, x: Entry)
    ensures Total(t + [x]) == Total(t) + x.count
  {
    assert (t + [x])[..|t|] == t;
  }

  lemma {:induction false} TotalUpdate(t: seq<Entry>, i: nat, x: Entry)
    requires i < |t|
    ensures Total(t[i := x]) == Total(t) - t[i].count + x.count
  {
    var u := t[i := x];
    if i < |t| - 1 {
      assert u[..|u| - 1] == t[..|t| - 1][i := x];
      TotalUpdate(t[..|t| - 1], i, x);
    } else {
      assert u[..|u| - 1] == t[..|t| - 1];
    }
  }

  /** The count recorded for the emoji of an entry of a well-formed list is that entry's. */
  lemma CountInAt(t: seq<Entry>, m: nat)
    requires DistinctBy(t, EntryEmoji) && m < |t|
    ensures CountIn(t, t[m].emoji) == t[m].count
  {
    var k := IndexOf(t, EntryEmoji, t[m].emoji);
    assert k <= m;
  }

  lemma BumpNew(t: seq<Entry>, emoji: string)
    requires WellFormedTally(t) && IndexOf(t, EntryEmoji, emoji) == -1
    ensures WellFormedTally(Bump(t, emoji))
    ensures forall e :: CountIn(Bump(t, emoji), e) == CountIn(t, e) + (if e == emoji then 1 else 0)
    ensures Total(Bump(t, emoji)) == Total(t) + 1
  {
    BumpNewWellFormed(t, emoji);
    forall e {
      BumpNewAt(t, emoji, e);
    }
    assert Bump(t, emoji) == t + [Entry(emoji, 1)];
    TotalAppend(t, Entry(emoji, 1));
  }

  lemma BumpNewWellFormed(t: seq<Entry>, emoji: string)
    requires WellFormedTally(t) && IndexOf(t, EntryEmoji, emoji) == -1
    ensures WellFormedTally(t + [Entry(emoji, 1)])
  {
    var b := t + [Entry(emoji, 1)];
    forall i, j | 0 <= i < j < |b| ensures b[i].emoji != b[j].emoji {
      assert b[i] == t[i];
    }
  }

  lemma BumpNewAt(t: seq<Entry>, emoji: string, e: string)
    requires IndexOf(t, EntryEmoji, emoji) == -1
    ensures CountIn(Bump(t, emoji), e) == CountIn(t, e) + (if e == emoji then 1 else 0)
  {
    var x := Entry(emoji, 1);
    IndexOfConcat(t, [x], EntryEmoji, e);
    assert IndexOf([x], EntryEmoji, e) == if e == emoji then 0 else -1;
  }

  lemma BumpKnown(t: seq<Entry>, emoji: string)
    requires WellFormedTally(t) && IndexOf(t, EntryEmoji, emoji) != -1
    ensures WellFormedTally(Bump(t, emoji))
    ensures forall e :: CountIn(Bump(t, emoji), e) == CountIn(t, e) + (if e == emoji then 1 else 0)
    ensures Total(Bump(t, emoji)) == Total(t) + 1
  {
    var i := IndexOf(t, EntryEmoji, emoji);
    BumpKnownWellFormed(t, emoji);
    forall e {
      BumpKnownAt(t, emoji, e);
    }
    var x := Entry(emoji, t[i].count + 1);
    assert Bump(t, emoji) == t[i := x];
    TotalUpdate(t, i, x);
  }

  lemma BumpKnownWellFormed(t: seq<Entry>, emoji: string)
    requires WellFormedTally(t) && IndexOf(t, EntryEmoji, emoji) != -1
    ensures WellFormedTally(Bump(t, emoji))
  {
    var b := Bump(t, emoji);
    assert forall j :: 0 <= j < |t| ==> b[j].emoji == t[j].emoji;
  }

  lemma BumpKnownAt(t: seq<Entry>, emoji: string, e: string)
    requires DistinctBy(t, EntryEmoji) && IndexOf(t, EntryEmoji, emoji) != -1
    ensures CountIn(Bump(t, emoji), e) == CountIn(t, e) + (if e == emoji then 1 else 0)
  {
    var i := IndexOf(t, EntryEmoji, emoji);
    var b := Bump(t, emoji);
    IndexOfSameKeys(b, t, EntryEmoji, EntryEmoji, e);
    var j := IndexOf(t, EntryEmoji, e);
    if j != -1 && j != i {
      assert b[j] == t[j];
      assert t[j].emoji != t[i].emoji;
    }
  }

  /** The summary has one entry per emoji used, each with the number of
      reactions using it, and its counts add up to `totalReactions`. */
  lemma {:induction false} TallySummary(rs: seq<Reaction>)
    ensures WellFormedTally(Tally(rs))
    ensures forall e :: CountIn(Tally(rs), e) == CountEmoji(rs, e)
    ensures Total(Tally(rs)) == |rs|
  {
    if rs != [] {
      var init := rs[..|rs| - 1];
      TallySummary(init);
      if IndexOf(Tally(init), EntryEmoji, rs[|rs| - 1].emoji) == -1 {
        BumpNew(Tally(init), rs[|rs| - 1].emoji);
      } else {
        BumpKnown(Tally(init), rs[|rs| - 1].emoji);
      }
    }
  }

  /** The emojis of a list of entries, in order. */
  function Emojis(t: seq<Entry>): (r: seq<string>)
    ensures |r| == |t| && forall j :: 0 <= j < |t| ==> r[j] == t[j].emoji
  {
    seq(|t|, j requires 0 <= j < |t| => t[j].emoji)
  }

  /** `sortedReactions`: the summary sorted by count, most used first. */
  function SortedReactions(rs: seq<Reaction>): seq<string>
  {
    Emojis(SortDesc(Tally(rs), EntryCount))
  }

  /** `topReactions`: the first three of them. */
  function TopReactions(rs: seq<Reaction>): seq<string>
  {
    var r := SortedReactions(rs);
    if |r| <= 3 then r else r[..3]
  }

  /** Every entry of the sorted summary holds the true count of its emoji. */
  lemma SortedCounts(rs: seq<Reaction>)
    ensures var s := SortDesc(Tally(rs), EntryCount);
      DistinctBy(s, EntryEmoji) && SortedDesc(s, EntryCount) &&
      (forall j :: 0 <= j < |s| ==> s[j].count == CountEmoji(rs, s[j].emoji) >= 1)
  {
    var t := Tally(rs);
    var s := SortDesc(t, EntryCount);
    TallySummary(rs);
    SortPermutes(t, EntryCount);
    SortSorted(t, EntryCount);
    SortDistinct(t, EntryCount, EntryEmoji);
    forall j | 0 <= j < |s| ensures s[j].count == CountEmoji(rs, s[j].emoji) >= 1 {
      assert s[j] in multiset(t);
      var m :| 0 <= m < |t| && t[m] == s[j];
      CountInAt(t, m);
    }
  }

  /** Every emoji used has an entry in the sorted summary. */
  lemma SortedCovers(rs: seq<Reaction>, e: string)
    requires CountEmoji(rs, e) > 0
    ensures exists j :: 0 <= j < |SortDesc(Tally(rs), EntryCount)| && SortDesc(Tally(rs), EntryCount)[j].emoji == e
  {
    var t := Tally(rs);
    var s := SortDesc(t, EntryCount);
    TallySummary(rs);
    SortPermutes(t, EntryCount);
    var k := IndexOf(t, EntryEmoji, e);
    assert t[k] in multiset(s);
    var j :| 0 <= j < |s| && s[j] == t[k];
  }

  /** Index of the first reaction that uses the emoji, -1 when none does. */
  function FirstUse(rs: seq<Reaction>, e: string): int
  {
    IndexOf(rs, ReactionEmoji, e)
  }

  /** An emoji has no reaction exactly when no reaction carries it. */
  lemma {:induction false} NoCountIffUnused(rs: seq<Reaction>, e: string)
    ensures CountEmoji(rs, e) == 0 <==> forall j :: 0 <= j < |rs| ==> rs[j].emoji != e
  {
    if rs != [] {
      var init := rs[..|rs| - 1];
      NoCountIffUnused(init, e);
      assert forall j :: 0 <= j < |init| ==> init[j] == rs[j];
    }
  }

  /** The entries appear in the order in which their emojis were first used. */
  predicate InFirstUseOrder(t: seq<Entry>, rs: seq<Reaction>)
  {
    (forall k :: 0 <= k < |t| ==> 0 <= FirstUse(rs, t[k].emoji) < |rs|) &&
    (forall i, j :: 0 <= i < j < |t| ==> FirstUse(rs, t[i].emoji) < FirstUse(rs, t[j].emoji))
  }

  /** One more reaction does not move the first use of an emoji already used. */
  lemma FirstUseExtend(t: seq<Entry>, init: seq<Reaction>, x: Reaction)
    requires InFirstUseOrder(t, init)
    ensures InFirstUseOrder(t, init + [x])
    ensures forall k :: 0 <= k < |t| ==> FirstUse(init + [x], t[k].emoji) == FirstUse(init, t[k].emoji)
  {
    forall k | 0 <= k < |t| ensures FirstUse(init + [x], t[k].emoji) == FirstUse(init, t[k].emoji) {
      IndexOfConcat(init, [x], ReactionEmoji, t[k].emoji);
    }
  }

  /** An emoji not used before is first used by the reaction just added. */
  lemma FirstUseLast(init: seq<Reaction>, x: Reaction)
    requires CountEmoji(init, x.emoji) == 0
    ensures FirstUse(init + [x], x.emoji) == |init|
  {
    NoCountIffUnused(init, x.emoji);
    IndexOfConcat(init, [x], ReactionEmoji, x.emoji);
  }

  /** A new emoji's entry goes last, after the entries of the emojis used before it. */
  lemma FirstUseNew(t: seq<Entry>, init: seq<Reaction>, x: Reaction)
    requires InFirstUseOrder(t, init) && CountEmoji(init, x.emoji) == 0
    ensures InFirstUseOrder(t + [Entry(x.emoji, 1)], init + [x])
  {
    var rs := init + [x];
    var u := t + [Entry(x.emoji, 1)];
    FirstUseExtend(t, init, x);
    FirstUseLast(init, x);
    forall k | 0 <= k < |u| ensures 0 <= FirstUse(rs, u[k].emoji) < |rs| {
      if k < |t| {
        assert u[k] == t[k];
      }
    }
    forall i, j | 0 <= i < j < |u| ensures FirstUse(rs, u[i].emoji) < FirstUse(rs, u[j].emoji) {
      assert u[i] == t[i];
      if j < |t| {
        assert u[j] == t[j];
      }
    }
  }

  /** Raising a count in place keeps every entry's emoji where it was. */
  lemma SameEmojisOrder(t: seq<Entry>, u: seq<Entry>, rs: seq<Reaction>)
    requires InFirstUseOrder(t, rs)
    requires |u| == |t| && forall k :: 0 <= k < |t| ==> u[k].emoji == t[k].emoji
    ensures InFirstUseOrder(u, rs)
  {
  }

  /** One reaction's step of `reduce` keeps the entries in first-use order. */
  lemma BumpInFirstUseOrder(init: seq<Reaction>, x: Reaction)
    requires InFirstUseOrder(Tally(init), init)
    ensures InFirstUseOrder(Bump(Tally(init), x.emoji), init + [x])
  {
    var t0 := Tally(init);
    var i := IndexOf(t0, EntryEmoji, x.emoji);
    if i == -1 {
      TallySummary(init);
      FirstUseNew(t0, init, x);
    } else {
      FirstUseExtend(t0, init, x);
      SameEmojisOrder(t0, Bump(t0, x.emoji), init + [x]);
    }
  }

  /** The summary lists the emojis in the order of their first use, as an
      object lists the keys `reduce` added. */
  lemma {:induction false} TallyInFirstUseOrder(rs: seq<Reaction>)
    ensures InFirstUseOrder(Tally(rs), rs)
  {
    if rs != [] {
      var init := rs[..|rs| - 1];
      TallyInFirstUseOrder(init);
      assert rs == init + [rs[|rs| - 1]];
      BumpInFirstUseOrder(init, rs[|rs| - 1]);
    }
  }

  /** Among emojis used equally often, the sorted list keeps the order of
      first use: the comparator returns 0 for them and the sort is stable. */
  lemma SortedReactionsTies(rs: seq<Reaction>)
    ensures var r := SortedReactions(rs);
      forall i, j :: 0 <= i < j < |r| && CountEmoji(rs, r[i]) == CountEmoji(rs, r[j]) ==>
        FirstUse(rs, r[i]) < FirstUse(rs, r[j])
  {
    var t := Tally(rs);
    var s := SortDesc(t, EntryCount);
    var rank := (e: Entry) => FirstUse(rs, e.emoji);
    TallyInFirstUseOrder(rs);
    assert forall i, j :: 0 <= i < j < |t| ==> rank(t[i]) < rank(t[j]);
    SortTies(t, EntryCount, rank);
    SortedCounts(rs);
    var r := SortedReactions(rs);
    forall i, j | 0 <= i < j < |r| && CountEmoji(rs, r[i]) == CountEmoji(rs, r[j])
      ensures FirstUse(rs, r[i]) < FirstUse(rs, r[j])
    {
      assert r[i] == s[i].emoji && r[j] == s[j].emoji;
      assert EntryCount(s[i]) == EntryCount(s[j]);
      assert rank(s[i]) < rank(s[j]);
    }
  }

  /** The sorted emojis: each used emoji exactly once, none unused, in
      non-increasing order of use, ties in the order of first use. */
  lemma SortedReactionsSpec(rs: seq<Reaction>)
    ensures NoDup(SortedReactions(rs))
    ensures forall e :: e in SortedReactions(rs) <==> CountEmoji(rs, e) > 0
    ensures var r := SortedReactions(rs);
      forall i, j :: 0 <= i < j < |r| ==> CountEmoji(rs, r[i]) >= CountEmoji(rs, r[j])
    ensures var r := SortedReactions(rs);
      forall i, j :: 0 <= i < j < |r| && CountEmoji(rs, r[i]) == CountEmoji(rs, r[j]) ==>
        FirstUse(rs, r[i]) < FirstUse(rs, r[j])
  {
    SortedCounts(rs);
    SortedReactionsTies(rs);
    var s := SortDesc(Tally(rs), EntryCount);
    var r := SortedReactions(rs);
    forall e | CountEmoji(rs, e) > 0 ensures e in r {
      SortedCovers(rs, e);
      var j :| 0 <= j < |s| && s[j].emoji == e;
      assert r[j] == e;
    }
  }

  /** The three shown are the first three of the sorted list (all of it when
      shorter), so they are used at least as often as any emoji left out, and
      with three emojis or fewer none is left out. */
  lemma TopReactionsSpec(rs: seq<Reaction>)
    ensures var r := SortedReactions(rs);
      TopReactions(rs) == r[..if |r| <= 3 then |r| else 3]
    ensures forall e :: e in TopReactions(rs) ==> CountEmoji(rs, e) > 0
    ensures forall e, f :: e in TopReactions(rs) && CountEmoji(rs, f) > 0 && f !in TopReactions(rs) ==>
      CountEmoji(rs, e) >= CountEmoji(rs, f)
    ensures |SortedReactions(rs)| <= 3 ==> forall e :: CountEmoji(rs, e) > 0 ==> e in TopReactions(rs)
  {
    SortedReactionsSpec(rs);
    var r := SortedReactions(rs);
    var top := TopReactions(rs);
    assert forall k :: 0 <= k < |top| ==> top[k] == r[k];
    forall e, f | e in top && CountEmoji(rs, f) > 0 && f !in top
      ensures CountEmoji(rs, e) >= CountEmoji(rs, f)
    {
      var i :| 0 <= i < |top| && top[i] == e;
      var j :| 0 <= j < |r| && r[j] == f;
    }
  }

  // ---------------------------------------------------------------------
  // The feed order

  function PinKey(p: Post): int { if p.isPinned then 1 else 0 }

  /** `sortedPosts`: the top-level posts sorted by `isPinned`, pinned first. */
  function SortedPosts(ps: seq<Post>): seq<Post>
  {
    SortDesc(ps, PinKey)
  }

  /** The feed shows the pinned posts, then the others, each group in feed order. */
  lemma SortedPostsSplit(ps: seq<Post>)
    ensures SortedPosts(ps) == Select(ps, PinKey, 1) + Select(ps, PinKey, 0)
    ensures multiset(SortedPosts(ps)) == multiset(ps)
  {
    var r := SortedPosts(ps);
    SortSorted(ps, PinKey);
    TwoKeysSplit(r, PinKey);
    SortStable(ps, PinKey, 1);
    SortStable(ps, PinKey, 0);
    SortPermutes(ps, PinKey);
  }

  /** In a feed with one pinned post, that post is shown first and the rest
      follow in feed order. */
  lemma PinnedShownFirst(ps: seq<Post>, i: nat)
    requires i < |ps| && ps[i].isPinned && AtMostOnePinned(ps)
    ensures SortedPosts(ps) == [ps[i]] + (ps[..i] + ps[i + 1..])
  {
    assert forall j :: 0 <= j < |ps| && j != i ==> PinKey(ps[j]) == 0;
    SelectSingleHigh(ps, PinKey, i);
    SelectRestLow(ps, PinKey, i);
    SortedPostsSplit(ps);
  }

  // ---------------------------------------------------------------------
  // Form guards

  /** The characters `String.prototype.trim` removes: white space and line terminators. */
  predicate IsSpace(c: char)
  {
    c == ' ' || c == '\t' || c == '\n' || c == '\r' || c == '\U{000B}' || c == '\U{000C}' ||
    c == '\U{00A0}' || c == '\U{1680}' || ('\U{2000}' <= c <= '\U{200A}') ||
    c == '\U{2028}' || c == '\U{2029}' || c == '\U{202F}' || c == '\U{205F}' ||
    c == '\U{3000}' || c == '\U{FEFF}'
  }

  function LeadingSpaces(s: string): (n: nat)
    ensures n <= |s|
    ensures forall k :: 0 <= k < n ==> IsSpace(s[k])
    ensures n < |s| ==> !IsSpace(s[n])
  {
    if s != [] && IsSpace(s[0]) then 1 + LeadingSpaces(s[1..]) else 0
  }

  function TrailingSpaces(s: string): (n: nat)
    ensures n <= |s|
    ensures forall k :: |s| - n <= k < |s| ==> IsSpace(s[k])
    ensures n < |s| ==> !IsSpace(s[|s| - 1 - n])
  {
    if s != [] && IsSpace(s[|s| - 1]) then 1 + TrailingSpaces(s[..|s| - 1]) else 0
  }

  /** `text.trim()`: the text without its leading and trailing white space. */
  function Trim(s: string): (r: string)
    ensures r == [] <==> forall k :: 0 <= k < |s| ==> IsSpace(s[k])
    ensures r != [] ==> !IsSpace(r[0]) && !IsSpace(r[|r| - 1])
    ensures LeadingSpaces(s) + |r| <= |s| && r == s[LeadingSpaces(s)..LeadingSpaces(s) + |r|]
    ensures forall k :: LeadingSpaces(s) + |r| <= k < |s| ==> IsSpace(s[k])
  {
    var a := LeadingSpaces(s);
    if a == |s| then [] else s[a..|s| - TrailingSpaces(s)]
  }

  /** Trimming a trimmed text changes nothing. */
  lemma TrimIdempotent(s: string)
    ensures Trim(Trim(s)) == Trim(s)
  {
    var r := Trim(s);
    if r != [] {
      assert LeadingSpaces(r) == 0;
      assert TrailingSpaces(r) == 0;
      assert r[0..|r|] == r;
    }
  }

  /** The reply and new-post forms: `if (text.trim()) onSubmit(text.trim())`. */
  function SubmitText(text: string): (r: Option<string>)
    ensures r.Some? <==> exists k :: 0 <= k < |text| && !IsSpace(text[k])
    ensures r.Some? ==> r.value != [] && !IsSpace(r.value[0]) && !IsSpace(r.value[|r.value| - 1])
    ensures r.Some? ==> r.value == Trim(text)
  {
    var t := Trim(text);
    if t != [] then Some(t) else None
  }

  /** The schedule form: `if (title && time && prayerId) onSave(...)`. */
  function SubmitSchedule(title: string, time: string, prayerId: string): (r: Option<ScheduleDraft>)
    ensures r.Some? <==> title != [] && time != [] && prayerId != []
    ensures r.Some? ==> r.value.title == title && r.value.time == time && r.value.prayerId == prayerId
  {
    if title != [] && time != [] && prayerId != [] then Some(ScheduleDraft(title, time, prayerId)) else None
  }

  // ---------------------------------------------------------------------
  // Who sees which control

  predicate IsMember(u: User, c: Circulo)
  {
    c.id in u.joinedCirculoIds
  }

  /** Joining or leaving flips what the screen shows for the circle, and a
      member is exactly a user the backend lists among the circle's members. */
  lemma ToggleFlipsMember(u: User, c: Circulo, users: seq<User>)
    ensures IsMember(ToggleMembership(u, c.id), c) <==> !IsMember(u, c)
    ensures u in users ==> (IsMember(u, c) <==> u in Members(users, c.id))
  {
  }

  predicate IsModerator(u: User, c: Circulo)
  {
    u.id in c.moderatorIds
  }

  /** `canManage`: the role and removal menu of a member row. */
  predicate CanManage(viewer: User, member: User, c: Circulo)
  {
    IsModerator(viewer, c) && member.id != viewer.id && member.id != c.leaderId
  }

  /** For the circle the backend finds, the screen's moderator test is the
      backend's gate, and the member menu asks for more than the gate: it is
      never offered on oneself or on the leader. */
  lemma ScreenMatchesGate(cs: seq<Circulo>, k: nat, viewer: User, member: User)
    requires k < |cs| && forall j :: 0 <= j < k ==> cs[j].id != cs[k].id
    ensures IsModerator(viewer, cs[k]) <==> Allowed(cs, cs[k].id, viewer.id)
    ensures CanManage(viewer, member, cs[k]) ==>
      Allowed(cs, cs[k].id, viewer.id) && member.id != viewer.id && member.id != cs[k].leaderId
  {
    assert IndexOf(cs, CirculoId, cs[k].id) == k;
  }
}
