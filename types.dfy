/** The records the mock backend stores: users, prayers, circles (`Circulo`)
    with their post trees and schedules. Text is `string`; JavaScript numbers
    that only ever hold whole values are `int`; a field the records may leave
    undefined is an `Option`, except `isPinned`, where undefined and `false`
    behave alike everywhere and are merged into `false`. */
module Types {
  import opened Common

  datatype SpiritualLevel = Peregrino | Devoto | Servo | Apostolo

  /** 'USER' and 'EDITOR'; only editors may author prayers. */
  datatype UserRole = RegularUser | Editor

  /** The three daily periods of the personal schedule: 'Manhã', 'Tarde', 'Noite'. */
  datatype Period = Manha | Tarde | Noite

  datatype PrayerCategory = Diarias | Marianas | Santos | MomentosDaVida | IntencaoEspecial

  datatype DayCompletion = DayCompletion(morning: bool, afternoon: bool, night: bool)

  /** A personal schedule slot. Slots the backend creates have no `completed`. */
  datatype PrayerSchedule = PrayerSchedule(id: string, time: Period, prayerId: string, completed: Option<bool>)

  /** A user record. The seeded users other than the first have no
      `totalPrayers`, `streak` or `history`. */
  datatype User = User(
    id: string,
    name: string,
    email: string,
    city: string,
    avatarUrl: string,
    graces: int,
    totalPrayers: Option<int>,
    streak: Option<int>,
    level: SpiritualLevel,
    favoritePrayerIds: seq<string>,
    joinedCirculoIds: seq<string>,
    role: UserRole,
    schedule: seq<PrayerSchedule>,
    history: Option<map<string, DayCompletion>>)

  datatype Prayer = Prayer(
    id: string,
    title: string,
    text: string,
    latinText: Option<string>,
    category: PrayerCategory,
    tags: seq<string>,
    imageUrl: Option<string>,
    authorId: string,
    authorName: string,
    createdAt: string,
    prayerCount: int,
    parentPrayerId: Option<string>,
    isDevotion: Option<bool>)

  /** The fields the prayer form submits, on creation and on edit alike;
      `None` is a field sent as `undefined`. */
  datatype PrayerDraft = PrayerDraft(
    title: string,
    text: string,
    latinText: Option<string>,
    category: PrayerCategory,
    tags: seq<string>,
    parentPrayerId: Option<string>,
    isDevotion: bool)

  datatype Reaction = Reaction(userId: string, emoji: string)

  /** A post of a circle's feed, or a reply: replies are posts, nested to any depth. */
  datatype Post = Post(
    id: string,
    authorId: string,
    authorName: string,
    authorAvatarUrl: string,
    text: string,
    createdAt: string,
    reactions: seq<Reaction>,
    replies: seq<Post>,
    isPinned: bool)

  datatype CirculoScheduleItem = CirculoScheduleItem(id: string, title: string, time: string, prayerId: string)

  /** A schedule item as the form submits it, before the backend gives it an id. */
  datatype ScheduleDraft = ScheduleDraft(title: string, time: string, prayerId: string)

  datatype ExternalLink = ExternalLink(title: string, url: string)

  datatype Circulo = Circulo(
    id: string,
    name: string,
    description: string,
    leaderId: string,
    moderatorIds: seq<string>,
    memberCount: int,
    imageUrl: string,
    coverImageUrl: string,
    externalLinks: seq<ExternalLink>,
    posts: seq<Post>,
    schedule: seq<CirculoScheduleItem>)

  /** The profile edit the circle's edit form sends; `None` leaves a field as it is. */
  datatype CirculoPatch = CirculoPatch(
    name: Option<string>,
    description: Option<string>,
    imageUrl: Option<string>,
    coverImageUrl: Option<string>)

  // Keys the searches of the backend look records up by.
  function UserId(u: User): string { u.id }
  function PrayerId(p: Prayer): string { p.id }
  function CirculoId(c: Circulo): string { c.id }
  function PostId(p: Post): string { p.id }
  function ReactionUser(r: Reaction): string { r.userId }
  function ReactionEmoji(r: Reaction): string { r.emoji }
  function SlotPeriod(s: PrayerSchedule): Period { s.time }
  function ItemId(s: CirculoScheduleItem): string { s.id }
}
