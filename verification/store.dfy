/** The database the ORM calls write to: one mutable map per table and the
    id counters, with the operations `PassSerializer.create` uses
    (`get_or_create` on users, `create` on the other four tables) and the
    snapshot-and-restore that `transaction.atomic()` performs. */
module Store {
  import opened Wrappers
  import opened Models

  /** The ORM calls of one submission, in the order they run; `ImageStep(i)`
      is the insert for the i-th image entry. */
  datatype Step = UserStep | CoordsStep | LevelStep | PassStep | ImageStep(index: nat)

  /** What the database driver can raise: `IntegrityError`, or any other
      exception, each with its text. */
  datatype DbError = IntegrityError(text: string) | OtherError(text: string)

  /** A database exception raised at one step. Which call raises, if any,
      depends on the database server and is a parameter of the model. */
  datatype Fault = Fault(at: Step, error: DbError)

  predicate RaisesAt(fault: Option<Fault>, step: Step)
  {
    fault.Some? && fault.value.at == step
  }

  class Database {
    var users: map<nat, User>
    var coords: map<nat, Coords>
    var levels: map<nat, Level>
    var passes: map<nat, Pass>
    var images: map<nat, Image>
    var next: Counters

    /** The whole content of the database as a value. */
    function State(): Tables
      reads this
    {
      Tables(users, coords, levels, passes, images, next)
    }

    /** The schema's constraints hold. */
    ghost predicate Valid()
      reads this
    {
      Consistent(State())
    }

    /** A freshly migrated, empty database. */
    constructor ()
      ensures State() == EmptyTables && Valid()
    {
      users, coords, levels, passes, images := map[], map[], map[], map[], map[];
      next := Counters(1, 1, 1, 1, 1);
      EmptyTablesConsistent();
    }

    /** Puts back a state saved before a transaction: every table and every
        counter. */
    method Restore(saved: Tables)
      modifies this
      ensures State() == saved
    {
      users, coords, levels, passes, images := saved.users, saved.coords, saved.levels, saved.passes, saved.images;
      next := saved.next;
    }

    /** `User.objects.get_or_create(email=u.email, defaults=u)`: returns the
        id of the user with that e-mail, unchanged, or inserts `u`. */
    method GetOrCreateUser(u: User) returns (id: nat, created: bool)
      requires UniqueEmails(State())
      modifies this
      ensures (State(), id) == Models.GetOrCreateUser(old(State()), u)
      ensures created <==> FindUser(old(State()), u.email).None?
    {
      if exists k :: k in users && users[k].email == u.email {
        id :| id in users && users[id].email == u.email;
        created := false;
      } else {
        id := next.user;
        users := users[id := u];
        next := next.(user := next.user + 1);
        created := true;
      }
    }

    /** `Coords.objects.create(...)`: the new row gets the next id. */
    method CreateCoords(c: Coords) returns (id: nat)
      modifies this
      ensures id == old(next.coords) && State() == AddCoords(old(State()), c)
    {
      id := next.coords;
      coords := coords[id := c];
      next := next.(coords := id + 1);
    }

    /** `Level.objects.create(...)`. */
    method CreateLevel(l: Level) returns (id: nat)
      modifies this
      ensures id == old(next.level) && State() == AddLevel(old(State()), l)
    {
      id := next.level;
      levels := levels[id := l];
      next := next.(level := id + 1);
    }

    /** `Pass.objects.create(...)`. */
    method CreatePass(p: Pass) returns (id: nat)
      modifies this
      ensures id == old(next.pass) && State() == AddPass(old(State()), p)
    {
      id := next.pass;
      passes := passes[id := p];
      next := next.(pass := id + 1);
    }

    /** `Image.objects.create(...)`. */
    method CreateImage(i: Image) returns (id: nat)
      modifies this
      ensures id == old(next.image) && State() == AddImage(old(State()), i)
    {
      id := next.image;
      images := images[id := i];
      next := next.(image := id + 1);
    }
  }
}
