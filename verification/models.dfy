/** The entities of the pass database (passes/models.py): the submitting
    user, the coordinates, the difficulty level, the pass itself with its
    moderation status, and the images attached to a pass. A whole database
    state is a `Tables` value: one map from id to row per table, plus the next
    id each table will hand out. `Consistent` states the constraints the
    schema declares: unique e-mail, resolvable foreign keys, one-to-one
    coordinates and level, column widths. */
module Models {
  import opened Wrappers
  import opened Text
  import Decimals
  import Base64

  // Column widths (max_length) from the field declarations.
  const EmailLength: nat := 255
  const PersonNameLength: nat := 100
  const PhoneLength: nat := 20
  const GradeLength: nat := 10
  const TitleLength: nat := 255
  const StatusLength: nat := 10

  // ---------------------------------------------------------------- status

  /** The moderation status of a pass (STATUS_CHOICES). */
  datatype Status = New | Pending | Accepted | Rejected

  /** The status a pass gets when none is given. */
  const DefaultStatus: Status := New

  /** The code stored in the `status` column. */
  function StatusCode(s: Status): string
  {
    match s
    case New => "new"
    case Pending => "pending"
    case Accepted => "accepted"
    case Rejected => "rejected"
  }

  const StatusCodes: seq<string> := ["new", "pending", "accepted", "rejected"]

  /** The choices check on the `status` column: exactly the four codes are
      accepted, each for its own status. */
  function StatusFromCode(code: string): (r: Option<Status>)
    ensures r.Some? <==> code in StatusCodes
    ensures r.Some? ==> StatusCode(r.value) == code
  {
    if code == "new" then Some(New)
    else if code == "pending" then Some(Pending)
    else if code == "accepted" then Some(Accepted)
    else if code == "rejected" then Some(Rejected)
    else None
  }

  /** Every status is stored as one of the choices and fits the column. */
  lemma StatusCodeRoundTrip(s: Status)
    ensures StatusFromCode(StatusCode(s)) == Some(s)
    ensures |StatusCode(s)| <= StatusLength
  {
  }

  /** The column's default is the choice "new". */
  lemma DefaultStatusIsNew()
    ensures StatusFromCode("new") == Some(DefaultStatus)
  {
  }

  // ------------------------------------------------------------------ user

  datatype User = User(email: string, fam: string, name: string, otc: string, phone: string)

  predicate UserFits(u: User)
  {
    && |u.email| <= EmailLength
    && |u.fam| <= PersonNameLength && |u.name| <= PersonNameLength && |u.otc| <= PersonNameLength
    && |u.phone| <= PhoneLength
  }

  /** `User.__str__`: family name, a space, given name. */
  function UserDisplay(u: User): (r: string)
    ensures |r| == |u.fam| + 1 + |u.name|
    ensures r[..|u.fam|] == u.fam && r[|u.fam|] == ' ' && r[|u.fam| + 1..] == u.name
  {
    u.fam + " " + u.name
  }

  /** The text before the first space and the text after it. */
  function SplitAtFirstSpace(s: string): (string, string)
  {
    if s == [] then ("", "")
    else if s[0] == ' ' then ("", s[1..])
    else
      var (head, tail) := SplitAtFirstSpace(s[1..]);
      ([s[0]] + head, tail)
  }

  /** The display string determines family and given name whenever the
      family name has no space of its own. */
  lemma {:induction false} UserDisplaySplits(u: User)
    requires ' ' !in u.fam
    ensures SplitAtFirstSpace(UserDisplay(u)) == (u.fam, u.name)
  {
    SplitAfterSpaceFree(u.fam, u.name);
  }

  lemma {:induction false} SplitAfterSpaceFree(fam: string, name: string)
    requires ' ' !in fam
    ensures SplitAtFirstSpace(fam + " " + name) == (fam, name)
  {
    if fam != [] {
      assert (fam + " " + name)[1..] == fam[1..] + " " + name;
      SplitAfterSpaceFree(fam[1..], name);
      assert [fam[0]] + fam[1..] == fam;
    } else {
      assert (fam + " " + name)[1..] == name;
    }
  }

  // ---------------------------------------------------------------- coords

  /** Latitude and longitude in units of 10^-7 degree; height in metres. */
  datatype Coords = Coords(latitude: int, longitude: int, height: int)

  /** Decimal(max_digits=10, decimal_places=7): fewer than 10^10 units. */
  predicate CoordsFit(c: Coords)
  {
    && -Decimals.ColumnLimit < c.latitude < Decimals.ColumnLimit
    && -Decimals.ColumnLimit < c.longitude < Decimals.ColumnLimit
  }

  // ----------------------------------------------------------------- level

  /** Difficulty grades per season; the empty string means "not given". */
  datatype Level = Level(winter: string, summer: string, autumn: string, spring: string)

  predicate LevelFits(l: Level)
  {
    |l.winter| <= GradeLength && |l.summer| <= GradeLength
    && |l.autumn| <= GradeLength && |l.spring| <= GradeLength
  }

  const NotSpecified: string := "Не указано"

  /** Each season's label with its grade. */
  function Labelled(season: string, grade: string): string
  {
    season + ": " + grade
  }

  /** The labelled grades that are given, winter, summer, autumn, spring. */
  function LevelEntries(l: Level): seq<string>
  {
    (if l.winter != "" then [Labelled("зима", l.winter)] else [])
    + (if l.summer != "" then [Labelled("лето", l.summer)] else [])
    + (if l.autumn != "" then [Labelled("осень", l.autumn)] else [])
    + (if l.spring != "" then [Labelled("весна", l.spring)] else [])
  }

  /** `Level.__str__`. */
  function LevelDisplay(l: Level): string
  {
    var entries := LevelEntries(l);
    if entries == [] then NotSpecified else Join(", ", entries)
  }

  /** "Не указано" is shown exactly when no grade is given. */
  lemma LevelDisplayNotSpecified(l: Level)
    ensures LevelDisplay(l) == NotSpecified <==> l.winter == l.summer == l.autumn == l.spring == ""
  {
    var entries := LevelEntries(l);
    if entries != [] {
      var first := entries[0];
      assert first[0] in {'з', 'л', 'о', 'в'};
      JoinStartsWithFirst(", ", entries);
      assert LevelDisplay(l)[0] != NotSpecified[0];
    }
  }

  lemma {:induction false} JoinStartsWithFirst(sep: string, parts: seq<string>)
    requires parts != [] && parts[0] != []
    ensures Join(sep, parts) != [] && Join(sep, parts)[0] == parts[0][0]
  {
  }

  /** Every given grade appears, with its season's label, in the display. */
  lemma LevelDisplayShowsGrades(l: Level)
    ensures l.winter != "" ==> Contains(LevelDisplay(l), Labelled("зима", l.winter))
    ensures l.summer != "" ==> Contains(LevelDisplay(l), Labelled("лето", l.summer))
    ensures l.autumn != "" ==> Contains(LevelDisplay(l), Labelled("осень", l.autumn))
    ensures l.spring != "" ==> Contains(LevelDisplay(l), Labelled("весна", l.spring))
  {
    var entries := LevelEntries(l);
    forall x | x in entries
      ensures Contains(LevelDisplay(l), x)
    {
      var k :| 0 <= k < |entries| && entries[k] == x;
      JoinContainsPart(", ", entries, k);
    }
  }

  /** The seasons in display order, by number 0 to 3. */
  function SeasonLabel(k: nat): string
  {
    if k == 0 then "зима" else if k == 1 then "лето" else if k == 2 then "осень" else "весна"
  }

  function SeasonGrade(l: Level, k: nat): string
  {
    if k == 0 then l.winter else if k == 1 then l.summer else if k == 2 then l.autumn else l.spring
  }

  /** The labelled grade of season `k`. */
  function SeasonEntry(l: Level, k: nat): string
  {
    Labelled(SeasonLabel(k), SeasonGrade(l, k))
  }

  /** How many seasons before `k` have a grade. */
  function GivenBefore(l: Level, k: nat): nat
  {
    if k == 0 then 0 else GivenBefore(l, k - 1) + (if SeasonGrade(l, k - 1) != "" then 1 else 0)
  }

  /** A given grade is the entry after those of the earlier given seasons. */
  lemma LevelEntryAt(l: Level, k: nat)
    requires k < 4 && SeasonGrade(l, k) != ""
    ensures GivenBefore(l, k) < |LevelEntries(l)| && LevelEntries(l)[GivenBefore(l, k)] == SeasonEntry(l, k)
  {
    var e0 := if l.winter != "" then [SeasonEntry(l, 0)] else [];
    var e1 := if l.summer != "" then [SeasonEntry(l, 1)] else [];
    var e2 := if l.autumn != "" then [SeasonEntry(l, 2)] else [];
    var e3 := if l.spring != "" then [SeasonEntry(l, 3)] else [];
    assert LevelEntries(l) == e0 + e1 + e2 + e3;
    assert GivenBefore(l, 1) == |e0|;
    assert GivenBefore(l, 2) == |e0 + e1|;
    assert GivenBefore(l, 3) == |e0 + e1 + e2|;
    if k == 0 {
      assert (e0 + e1 + e2 + e3)[0] == e0[0];
    } else if k == 1 {
      assert (e0 + e1 + e2 + e3)[|e0|] == e1[0];
    } else if k == 2 {
      assert (e0 + e1 + e2 + e3)[|e0 + e1|] == e2[0];
    } else {
      assert (e0 + e1 + e2 + e3)[|e0 + e1 + e2|] == e3[0];
    }
  }

  lemma {:induction false} GivenBeforeGrows(l: Level, i: nat, j: nat)
    requires i < j && SeasonGrade(l, i) != ""
    ensures GivenBefore(l, i) < GivenBefore(l, j)
    decreases j
  {
    if j > i + 1 {
      GivenBeforeGrows(l, i, j - 1);
    }
  }

  /** For any level, the entry of an earlier season ends, with its ", ",
      before the entry of a later season begins. */
  lemma LevelDisplayInSeasonOrder(l: Level, i: nat, j: nat)
    requires i < j < 4 && SeasonGrade(l, i) != "" && SeasonGrade(l, j) != ""
    ensures exists a, b ::
              (a + |SeasonEntry(l, i)| + 2 <= b
               && OccursAt(LevelDisplay(l), SeasonEntry(l, i), a) && OccursAt(LevelDisplay(l), SeasonEntry(l, j), b))
  {
    var entries := LevelEntries(l);
    LevelEntryAt(l, i);
    LevelEntryAt(l, j);
    GivenBeforeGrows(l, i, j);
    var x, y := GivenBefore(l, i), GivenBefore(l, j);
    JoinPartAt(", ", entries, x);
    JoinPartAt(", ", entries, y);
    PartOffsetOrder(", ", entries, x, y);
    assert LevelDisplay(l) == Join(", ", entries);
    var a, b := PartOffset(", ", entries, x), PartOffset(", ", entries, y);
    assert OccursAt(LevelDisplay(l), SeasonEntry(l, i), a) && OccursAt(LevelDisplay(l), SeasonEntry(l, j), b);
  }

  /** When only one season has a grade, the display is that labelled grade,
      with no separator. */
  lemma LevelDisplayOnlyGrade(l: Level, k: nat)
    requires k < 4 && SeasonGrade(l, k) != ""
    requires forall m :: 0 <= m < 4 && m != k ==> SeasonGrade(l, m) == ""
    ensures LevelDisplay(l) == SeasonEntry(l, k)
  {
    assert SeasonGrade(l, 0) == l.winter && SeasonGrade(l, 1) == l.summer;
    assert SeasonGrade(l, 2) == l.autumn && SeasonGrade(l, 3) == l.spring;
    assert LevelEntries(l) == [SeasonEntry(l, k)];
  }

  // ------------------------------------------------------------ pass, image

  /** A row of `pereval_added`; `user`, `coords` and `level` are ids. */
  datatype Pass = Pass(
    beautyTitle: string, title: string, otherTitles: string, connect: string,
    addTime: int, user: nat, coords: nat, level: nat, status: Status)

  predicate PassFits(p: Pass)
  {
    |p.beautyTitle| <= TitleLength && |p.title| <= TitleLength && |p.otherTitles| <= TitleLength
  }

  /** `Pass.__str__`: display name, a space, official title. */
  function PassDisplay(p: Pass): (r: string)
    ensures |r| == |p.beautyTitle| + 1 + |p.title|
    ensures StartsWith(r, p.beautyTitle) && r[|p.beautyTitle|] == ' '
    ensures r[|p.beautyTitle| + 1..] == p.title
  {
    p.beautyTitle + " " + p.title
  }

  /** The display string gives back both titles when the display name has
      no space of its own. */
  lemma PassDisplaySplits(p: Pass)
    requires ' ' !in p.beautyTitle
    ensures SplitAtFirstSpace(PassDisplay(p)) == (p.beautyTitle, p.title)
  {
    SplitAfterSpaceFree(p.beautyTitle, p.title);
  }

  /** What the image field stores: a file name and the file's bytes. */
  datatype StoredFile = StoredFile(name: string, content: seq<Base64.Byte>)

  /** A row of `pereval_images`; `pass` is the id of its pass. */
  datatype Image = Image(title: string, data: StoredFile, pass: nat)

  predicate ImageFits(i: Image)
  {
    |i.title| <= TitleLength
  }

  // ---------------------------------------------------------------- tables

  /** The next id each table hands out (an autoincrement counter). */
  datatype Counters = Counters(user: nat, coords: nat, level: nat, pass: nat, image: nat)

  datatype Tables = Tables(
    users: map<nat, User>, coords: map<nat, Coords>, levels: map<nat, Level>,
    passes: map<nat, Pass>, images: map<nat, Image>, next: Counters)

  const EmptyTables: Tables := Tables(map[], map[], map[], map[], map[], Counters(1, 1, 1, 1, 1))

  /** `email = EmailField(unique=True)`: one user per address. */
  ghost predicate EmailsUnique(users: map<nat, User>)
  {
    forall i, j :: i in users && j in users && users[i].email == users[j].email ==> i == j
  }

  ghost predicate UniqueEmails(t: Tables)
  {
    EmailsUnique(t.users)
  }

  /** The user, coordinates and level of every pass exist. */
  ghost predicate PassLinksResolve(passes: map<nat, Pass>, users: map<nat, User>,
                                   coords: map<nat, Coords>, levels: map<nat, Level>)
  {
    forall k :: k in passes ==> passes[k].user in users && passes[k].coords in coords && passes[k].level in levels
  }

  /** The pass of every image exists. */
  ghost predicate ImageLinksResolve(images: map<nat, Image>, passes: map<nat, Pass>)
  {
    forall k :: k in images ==> images[k].pass in passes
  }

  /** Every foreign key resolves. */
  ghost predicate LinksResolve(t: Tables)
  {
    PassLinksResolve(t.passes, t.users, t.coords, t.levels) && ImageLinksResolve(t.images, t.passes)
  }

  /** `coords` and `level` are one-to-one: no two passes share either row. */
  ghost predicate LinksDistinct(passes: map<nat, Pass>)
  {
    forall i, j :: i in passes && j in passes && i != j ==>
      passes[i].coords != passes[j].coords && passes[i].level != passes[j].level
  }

  ghost predicate OneToOne(t: Tables)
  {
    LinksDistinct(t.passes)
  }

  /** Every id of a table is below its counter. */
  ghost predicate KeysBelow<V>(m: map<nat, V>, bound: nat)
  {
    forall k :: k in m ==> k < bound
  }

  ghost predicate IdsBelowCounters(t: Tables)
  {
    && KeysBelow(t.users, t.next.user) && KeysBelow(t.coords, t.next.coords)
    && KeysBelow(t.levels, t.next.level) && KeysBelow(t.passes, t.next.pass)
    && KeysBelow(t.images, t.next.image)
  }

  ghost predicate UsersFit(users: map<nat, User>)
  {
    forall k :: k in users ==> UserFits(users[k])
  }

  ghost predicate AllCoordsFit(coords: map<nat, Coords>)
  {
    forall k :: k in coords ==> CoordsFit(coords[k])
  }

  ghost predicate LevelsFit(levels: map<nat, Level>)
  {
    forall k :: k in levels ==> LevelFits(levels[k])
  }

  ghost predicate PassesFit(passes: map<nat, Pass>)
  {
    forall k :: k in passes ==> PassFits(passes[k])
  }

  ghost predicate ImagesFit(images: map<nat, Image>)
  {
    forall k :: k in images ==> ImageFits(images[k])
  }

  /** Every row fits its columns. */
  ghost predicate RowsFit(t: Tables)
  {
    UsersFit(t.users) && AllCoordsFit(t.coords) && LevelsFit(t.levels) && PassesFit(t.passes) && ImagesFit(t.images)
  }

  ghost predicate Consistent(t: Tables)
  {
    UniqueEmails(t) && LinksResolve(t) && OneToOne(t) && IdsBelowCounters(t) && RowsFit(t)
  }

  lemma EmptyTablesConsistent()
    ensures Consistent(EmptyTables)
  {
  }

  // ------------------------------------------------------------- insertion

  function AddUser(t: Tables, u: User): Tables
  {
    t.(users := t.users[t.next.user := u], next := t.next.(user := t.next.user + 1))
  }

  function AddCoords(t: Tables, c: Coords): Tables
  {
    t.(coords := t.coords[t.next.coords := c], next := t.next.(coords := t.next.coords + 1))
  }

  function AddLevel(t: Tables, l: Level): Tables
  {
    t.(levels := t.levels[t.next.level := l], next := t.next.(level := t.next.level + 1))
  }

  function AddPass(t: Tables, p: Pass): Tables
  {
    t.(passes := t.passes[t.next.pass := p], next := t.next.(pass := t.next.pass + 1))
  }

  function AddImage(t: Tables, i: Image): Tables
  {
    t.(images := t.images[t.next.image := i], next := t.next.(image := t.next.image + 1))
  }

  /** The user with this e-mail, if there is one. */
  ghost function FindUser(t: Tables, email: string): (r: Option<nat>)
    ensures r.Some? ==> r.value in t.users && t.users[r.value].email == email
    ensures r.None? <==> forall k :: k in t.users ==> t.users[k].email != email
    ensures UniqueEmails(t) ==> forall k :: k in t.users && t.users[k].email == email ==> r == Some(k)
  {
    if exists k :: k in t.users && t.users[k].email == email then
      var k :| k in t.users && t.users[k].email == email;
      Some(k)
    else None
  }

  /** `User.objects.get_or_create(email=..., defaults=...)`: the existing
      row, left as it is, or a new row made from `u`. */
  ghost function GetOrCreateUser(t: Tables, u: User): (r: (Tables, nat))
    ensures r.1 in r.0.users && r.0.users[r.1].email == u.email
    ensures FindUser(t, u.email).Some? ==> r == (t, FindUser(t, u.email).value)
    ensures FindUser(t, u.email).None? ==> r == (AddUser(t, u), t.next.user)
    ensures UniqueEmails(t) ==> UniqueEmails(r.0)
  {
    match FindUser(t, u.email)
    case Some(id) => (t, id)
    case None => (AddUser(t, u), t.next.user)
  }

  /** The pass row with this id does not share its coordinates or level
      with any stored pass. */
  predicate LinksFree(t: Tables, p: Pass)
  {
    forall k :: k in t.passes ==> t.passes[k].coords != p.coords && t.passes[k].level != p.level
  }

  // Each insertion keeps the database consistent when the new row fits
  // its columns and its references resolve.

  lemma AddUserKeepsConsistency(t: Tables, u: User)
    requires Consistent(t) && UserFits(u)
    requires forall k :: k in t.users ==> t.users[k].email != u.email
    ensures Consistent(AddUser(t, u))
  {
    var r := AddUser(t, u);
    assert forall k :: k in r.users ==> k == t.next.user || (k in t.users && r.users[k] == t.users[k]);
  }

  lemma AddCoordsKeepsConsistency(t: Tables, c: Coords)
    requires Consistent(t) && CoordsFit(c)
    ensures Consistent(AddCoords(t, c))
  {
  }

  lemma AddLevelKeepsConsistency(t: Tables, l: Level)
    requires Consistent(t) && LevelFits(l)
    ensures Consistent(AddLevel(t, l))
  {
  }

  lemma AddPassKeepsConsistency(t: Tables, p: Pass)
    requires Consistent(t) && PassFits(p)
    requires p.user in t.users && p.coords in t.coords && p.level in t.levels
    requires LinksFree(t, p)
    ensures Consistent(AddPass(t, p))
  {
    AddPassKeepsLinks(t, p);
    var r := AddPass(t, p);
    assert forall k :: k in r.passes ==> k == t.next.pass || (k in t.passes && r.passes[k] == t.passes[k]);
  }

  lemma AddPassKeepsLinks(t: Tables, p: Pass)
    requires LinksResolve(t) && OneToOne(t) && IdsBelowCounters(t)
    requires p.user in t.users && p.coords in t.coords && p.level in t.levels
    requires LinksFree(t, p)
    ensures LinksResolve(AddPass(t, p)) && OneToOne(AddPass(t, p))
  {
    var r := AddPass(t, p);
    assert forall k :: k in r.passes ==> k == t.next.pass || (k in t.passes && r.passes[k] == t.passes[k]);
  }

  lemma AddImageKeepsConsistency(t: Tables, i: Image)
    requires Consistent(t) && ImageFits(i) && i.pass in t.passes
    ensures Consistent(AddImage(t, i))
  {
  }

  // -------------------------------------------------------------- cascades

  /** Removes the given passes and, by `on_delete=CASCADE` on
      `Image.pass_instance`, their images. */
  function RemovePasses(t: Tables, gone: set<nat>): (r: Tables)
    ensures r.passes.Keys == t.passes.Keys - gone
    ensures forall k :: k in r.passes ==> r.passes[k] == t.passes[k]
    ensures forall k :: k in r.images ==> r.images[k].pass !in gone && k in t.images && r.images[k] == t.images[k]
    ensures forall k :: k in t.images && t.images[k].pass !in gone ==> k in r.images
    ensures r.users == t.users && r.coords == t.coords && r.levels == t.levels && r.next == t.next
  {
    t.(passes := map k | k in t.passes && k !in gone :: t.passes[k],
       images := map k | k in t.images && t.images[k].pass !in gone :: t.images[k])
  }

  /** Deleting a pass deletes its images and nothing else: its coordinates,
      level and user stay. */
  function DeletePass(t: Tables, id: nat): (r: Tables)
    ensures id !in r.passes && r.passes.Keys == t.passes.Keys - {id}
    ensures forall k :: k in r.passes ==> r.passes[k] == t.passes[k]
    ensures forall k :: k in r.images ==> r.images[k].pass != id && k in t.images && r.images[k] == t.images[k]
    ensures forall k :: k in t.images && t.images[k].pass != id ==> k in r.images
    ensures r.users == t.users && r.coords == t.coords && r.levels == t.levels && r.next == t.next
  {
    RemovePasses(t, {id})
  }

  function PassesOfUser(t: Tables, id: nat): set<nat>
  {
    set k | k in t.passes && t.passes[k].user == id
  }

  function PassesAt(t: Tables, id: nat): set<nat>
  {
    set k | k in t.passes && t.passes[k].coords == id
  }

  function PassesRated(t: Tables, id: nat): set<nat>
  {
    set k | k in t.passes && t.passes[k].level == id
  }

  /** Deleting a user deletes that user's passes and their images. */
  function DeleteUser(t: Tables, id: nat): (r: Tables)
    ensures r.users == t.users - {id}
    ensures forall k :: k in r.passes ==> r.passes[k].user != id
    ensures forall k :: k in t.passes && t.passes[k].user != id ==> k in r.passes
    ensures r.coords == t.coords && r.levels == t.levels
    ensures forall k :: k in r.passes ==> k in t.passes && r.passes[k] == t.passes[k]
    ensures forall k :: k in r.images <==> k in t.images && t.images[k].pass !in PassesOfUser(t, id)
    ensures forall k :: k in r.images ==> r.images[k] == t.images[k]
    ensures r.next == t.next
  {
    RemovePasses(t, PassesOfUser(t, id)).(users := t.users - {id})
  }

  /** Deleting coordinates deletes the pass located there, and its images. */
  function DeleteCoords(t: Tables, id: nat): (r: Tables)
    ensures r.coords == t.coords - {id}
    ensures forall k :: k in r.passes ==> r.passes[k].coords != id
    ensures forall k :: k in t.passes && t.passes[k].coords != id ==> k in r.passes
    ensures r.users == t.users && r.levels == t.levels
    ensures forall k :: k in r.passes ==> k in t.passes && r.passes[k] == t.passes[k]
    ensures forall k :: k in r.images <==> k in t.images && t.images[k].pass !in PassesAt(t, id)
    ensures forall k :: k in r.images ==> r.images[k] == t.images[k]
    ensures r.next == t.next
  {
    RemovePasses(t, PassesAt(t, id)).(coords := t.coords - {id})
  }

  /** Deleting a level deletes the pass rated by it, and its images. */
  function DeleteLevel(t: Tables, id: nat): (r: Tables)
    ensures r.levels == t.levels - {id}
    ensures forall k :: k in r.passes ==> r.passes[k].level != id
    ensures forall k :: k in t.passes && t.passes[k].level != id ==> k in r.passes
    ensures r.users == t.users && r.coords == t.coords
    ensures forall k :: k in r.passes ==> k in t.passes && r.passes[k] == t.passes[k]
    ensures forall k :: k in r.images <==> k in t.images && t.images[k].pass !in PassesRated(t, id)
    ensures forall k :: k in r.images ==> r.images[k] == t.images[k]
    ensures r.next == t.next
  {
    RemovePasses(t, PassesRated(t, id)).(levels := t.levels - {id})
  }

  /** What any cascade keeps: the remaining rows are unchanged, so only the
      links to removed rows need checking. */
  lemma RemovePassesKeeps(t: Tables, gone: set<nat>)
    requires Consistent(t)
    ensures UniqueEmails(RemovePasses(t, gone)) && OneToOne(RemovePasses(t, gone))
    ensures IdsBelowCounters(RemovePasses(t, gone)) && RowsFit(RemovePasses(t, gone))
    ensures LinksResolve(RemovePasses(t, gone))
  {
  }

  /** Every cascade leaves a consistent database: no dangling foreign key. */
  lemma DeletePassKeepsConsistency(t: Tables, id: nat)
    requires Consistent(t)
    ensures Consistent(DeletePass(t, id))
  {
    RemovePassesKeeps(t, {id});
  }

  lemma DeleteUserKeepsConsistency(t: Tables, id: nat)
    requires Consistent(t)
    ensures Consistent(DeleteUser(t, id))
  {
    RemovePassesKeeps(t, PassesOfUser(t, id));
  }

  lemma DeleteCoordsKeepsConsistency(t: Tables, id: nat)
    requires Consistent(t)
    ensures Consistent(DeleteCoords(t, id))
  {
    RemovePassesKeeps(t, PassesAt(t, id));
  }

  lemma DeleteLevelKeepsConsistency(t: Tables, id: nat)
    requires Consistent(t)
    ensures Consistent(DeleteLevel(t, id))
  {
    RemovePassesKeeps(t, PassesRated(t, id));
  }
}
