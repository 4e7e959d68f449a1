/** The records the backend starts from when nothing is saved: the signed-in
    user `MOCK_USER`, the four other users it lists beside it, and the three
    circles of `MOCK_CIRCULOS` with their feeds and schedules. */
module Seed {
  import opened Common
  import opened Types
  import opened Levels
  import opened ContentTree
  import opened Community
  import opened View
  import opened Sorting

  const Heart: string := "\U{2764}\U{FE0F}"
  const Praying: string := "\U{1F64F}"

  /** `MOCK_USER`, an editor who belongs to circle c1. */
  const MockUser: User := User(
    "user1", "Fiel Editor", "fiel@oracomigo.com", "Aparecida",
    "https://picsum.photos/seed/user1/100/100",
    125, Some(450), Some(7), Devoto, ["p1", "p3"], ["c1"], Editor, [],
    Some(map[
      "2024-05-20" := DayCompletion(true, true, true),
      "2024-05-21" := DayCompletion(true, false, true),
      "2024-05-22" := DayCompletion(true, true, true)]))

  const Carlos: User := User("user2", "Carlos", "carlos@email.com", "Piracicaba",
    "https://picsum.photos/seed/carlos/100/100",
    300, None, None, Servo, ["p2"], ["c1"], RegularUser, [], None)

  const Joao: User := User("user3", "João", "joao@email.com", "São Paulo",
    "https://picsum.photos/seed/joao/100/100",
    80, None, None, Devoto, [], ["c1", "c2"], RegularUser, [], None)

  const Mariana: User := User("user4", "Mariana", "mariana@email.com", "São Paulo",
    "https://picsum.photos/seed/mariana/100/100",
    450, None, None, Servo, ["p2", "p4"], ["c2"], RegularUser, [], None)

  const AnaClara: User := User("user5", "Ana Clara", "ana@email.com", "Campinas",
    "https://picsum.photos/seed/anaclara/100/100",
    150, None, None, Devoto, ["p3"], ["c3", "c1"], RegularUser, [], None)

  /** The user list of the initial database, `MOCK_USER` first. */
  const InitialUsers: seq<User> := [MockUser, Carlos, Joao, Mariana, AnaClara]

  const Reply1: Post := Post(
    "reply1", "user1", "Fiel Devoto", "https://picsum.photos/seed/user1/40/40",
    "Estaremos em oração, Carlos. Que Deus a abençoe.", "há 1 hora",
    [Reaction("user2", Heart)], [], false)

  const Post1: Post := Post(
    "post1", "user2", "Carlos", "https://picsum.photos/seed/carlos/40/40",
    "Pela saúde de minha esposa, que fará uma cirurgia em breve.", "há 2 horas",
    [Reaction("user1", Heart), Reaction("user3", Heart)], [Reply1], false)

  const Post2: Post := Post(
    "post2", "user3", "João", "https://picsum.photos/seed/joao/40/40",
    "Agradeço a todos pelas orações. Tive uma graça alcançada esta semana!", "há 5 horas",
    [Reaction("user1", Praying)], [], false)

  const Post3: Post := Post(
    "post3", "user4", "Mariana", "https://picsum.photos/seed/mariana/40/40",
    "Peço pelos jovens que estão distantes de Deus, para que encontrem o caminho de volta.", "há 1 dia",
    [Reaction("user1", Heart)], [], false)

  const Terco: Circulo :=
    Circulo("c1", "Terço dos Homens de Piracicaba",
      "Um grupo dedicado à oração semanal do Santo Terço, fortalecendo a fé e a fraternidade entre os homens da comunidade de Piracicaba e região.",
      "user2", ["user2", "user1"], 124,
      "https://picsum.photos/seed/terco/200/200", "https://picsum.photos/seed/terco_cover/800/200",
      [ExternalLink("Nosso Site", "#")],
      [Post1, Post2],
      [CirculoScheduleItem("s1", "Terço Semanal", "Toda Terça-feira, 20h", "p2")])

  const Jovens: Circulo :=
    Circulo("c2", "Jovens Sarados - Diocese de SP",
      "Movimento de jovens católicos que buscam a santidade no dia a dia. Realizamos encontros, retiros e missões para levar a alegria do Evangelho a todos.",
      "user4", ["user4"], 450,
      "https://picsum.photos/seed/jovens/200/200", "https://picsum.photos/seed/jovens_cover/800/200",
      [], [Post3], [])

  const Maes: Circulo :=
    Circulo("c3", "Mães que Oram pelos Filhos",
      "Um círculo de oração e intercessão onde mães se reúnem para rezar pela vida, vocação e bem-estar de seus filhos, confiando-os à proteção da Virgem Maria.",
      "user5", ["user5"], 89,
      "https://picsum.photos/seed/maes/200/200", "https://picsum.photos/seed/maes_cover/800/200",
      [], [], [])

  /** `MOCK_CIRCULOS`. */
  const MockCirculos: seq<Circulo> := [Terco, Jovens, Maes]

  /** Each seeded user's stored level is the level its graces fall in. */
  lemma SeedLevelsAgree()
    ensures forall i :: 0 <= i < |InitialUsers| ==>
      0 <= InitialUsers[i].graces && LevelFor(InitialUsers[i].graces, InitialUsers[i].level) == InitialUsers[i].level
  {
    LevelInRange(MockUser.graces, MockUser.level);
    LevelInRange(Carlos.graces, Carlos.level);
    LevelInRange(Joao.graces, Joao.level);
    LevelInRange(Mariana.graces, Mariana.level);
    LevelInRange(AnaClara.graces, AnaClara.level);
  }

  /** The seeded user ids and circle ids are distinct. */
  lemma SeedIdsDistinct()
    ensures forall i, j :: 0 <= i < j < |InitialUsers| ==> InitialUsers[i].id != InitialUsers[j].id
    ensures forall i, j :: 0 <= i < j < |MockCirculos| ==> MockCirculos[i].id != MockCirculos[j].id
  {
  }

  /** Each seeded leader is a moderator of their own circle, and every seeded
      feed is well formed with nothing pinned. */
  lemma SeedCirculosWellFormed()
    ensures forall k :: 0 <= k < |MockCirculos| ==>
      MockCirculos[k].leaderId in MockCirculos[k].moderatorIds &&
      PostsValid(MockCirculos[k].posts) && UniqueItemIds(MockCirculos[k].schedule) &&
      forall m :: 0 <= m < |MockCirculos[k].posts| ==> !MockCirculos[k].posts[m].isPinned
  {
    NodesSingle(Reply1);
    NodesSingle(Post1);
    NodesSingle(Post2);
    NodesSingle(Post3);
    NodesHead(Post1, [Post2]);
    assert Nodes(Terco.posts) == [Header(Post1), Reply1, Header(Post2)];
    assert Nodes(Jovens.posts) == [Post3];
  }

  /** The count of the members of `cid` among the seeded users, user by user. */
  lemma SeedMemberCount(cid: string)
    ensures MemberCount(InitialUsers, cid) ==
      (if cid in MockUser.joinedCirculoIds then 1 else 0) + (if cid in Carlos.joinedCirculoIds then 1 else 0) +
      (if cid in Joao.joinedCirculoIds then 1 else 0) + (if cid in Mariana.joinedCirculoIds then 1 else 0) +
      (if cid in AnaClara.joinedCirculoIds then 1 else 0)
  {
    assert InitialUsers == [MockUser] + ([Carlos] + ([Joao] + ([Mariana] + ([AnaClara] + []))));
    MemberCountCons(AnaClara, [], cid);
    MemberCountCons(Mariana, [AnaClara] + [], cid);
    MemberCountCons(Joao, [Mariana] + ([AnaClara] + []), cid);
    MemberCountCons(Carlos, [Joao] + ([Mariana] + ([AnaClara] + [])), cid);
    MemberCountCons(MockUser, [Carlos] + ([Joao] + ([Mariana] + ([AnaClara] + []))), cid);
  }

  /** The seeded `memberCount`s are not the number of users that list the
      circle: 124, 450 and 89 against 4, 2 and 1. */
  lemma SeedCountsDrift()
    ensures MemberCount(InitialUsers, "c1") == 4 && Drift(InitialUsers, MockCirculos[0]) == 120
    ensures MemberCount(InitialUsers, "c2") == 2 && Drift(InitialUsers, MockCirculos[1]) == 448
    ensures MemberCount(InitialUsers, "c3") == 1 && Drift(InitialUsers, MockCirculos[2]) == 88
  {
    SeedMemberCount("c1");
    SeedMemberCount("c2");
    SeedMemberCount("c3");
  }

  /** In c1 the signed-in user moderates beside the leader user2, so the gate
      lets them revoke the leader's moderator role or remove the leader. */
  lemma SeedLeaderExposed()
    ensures MockCirculos[0].leaderId == "user2" && Allowed(MockCirculos, "c1", MockUser.id)
    ensures "user2" !in SetModerator(MockCirculos[0].moderatorIds, "user2", false)
  {
    LeaderUnguarded(MockCirculos, 0, MockUser.id);
  }

  /** The first seeded post shows one reaction button, the heart. */
  lemma SeedPost1Summary()
    ensures TopReactions(Post1.reactions) == [Heart]
  {
    var rs := Post1.reactions;
    assert rs[..1] == [Reaction("user1", Heart)] && rs[..1][..0] == [];
    assert Tally(rs[..1]) == [Entry(Heart, 1)];
    assert Tally(rs) == [Entry(Heart, 2)];
    assert SortDesc(Tally(rs), EntryCount) == [Entry(Heart, 2)];
  }
}
