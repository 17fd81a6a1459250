/** The submission endpoint of passes/views.py: `PassDataHandler.create_pass`
    runs validation and `PassSerializer.create` inside a transaction and
    reports a (success, result, id) triple; `submit_data` checks the four
    required keys first and turns the triple into the JSON response. */
module Views {
  import opened Wrappers
  import opened Text
  import opened Models
  import opened Store
  import opened Serializers

  // ------------------------------------------------------------ messages

  /** The text whose presence in a failure message selects status 400. */
  const NotEnoughFields: string := "Недостаточно полей"
  const InvalidMessage: string := "Недостаточно полей или некорректные данные"
  const MissingPrefix: string := "Недостаточно полей. Отсутствуют: "
  const IntegrityPrefix: string := "Ошибка целостности данных: "
  const DatabasePrefix: string := "Ошибка сервера/БД: "
  const ServerPrefix: string := "Ошибка сервера: "

  /** The keys `submit_data` requires, in the order it reports them. */
  const RequiredFields: seq<string> := ["title", "user", "coords", "level"]

  /** `key in data` for the request body: a key is present even when its
      value is malformed. Keys outside `Meta.fields` play no part. */
  predicate HasKey(p: PassPayload, key: string)
  {
    match key
    case "beauty_title" => !p.beautyTitle.Absent?
    case "title" => !p.title.Absent?
    case "other_titles" => !p.otherTitles.Absent?
    case "connect" => !p.connect.Absent?
    case "add_time" => !p.addTime.Absent?
    case "user" => !p.user.Absent?
    case "coords" => !p.coords.Absent?
    case "level" => !p.level.Absent?
    case "images" => !p.images.Absent?
    case "status" => !p.status.Absent?
    case _ => false
  }

  /** `[field for field in keys if field not in data]`: the absent keys, in
      the order of `keys`. */
  function MissingFields(keys: seq<string>, p: PassPayload): (r: seq<string>)
    ensures IsSubsequence(r, keys)
    ensures forall k :: k in r <==> k in keys && !HasKey(p, k)
    ensures NoRepeats(keys) ==> NoRepeats(r)
  {
    if keys == [] then []
    else
      var rest := MissingFields(keys[1..], p);
      assert forall k :: k in keys <==> k == keys[0] || k in keys[1..];
      assert NoRepeats(keys) ==> NoRepeats(keys[1..]) && keys[0] !in keys[1..] by {
        if NoRepeats(keys) {
          forall i, j | 0 <= i < j < |keys[1..]|
            ensures keys[1..][i] != keys[1..][j]
          {
            assert keys[1..][i] == keys[i + 1] && keys[1..][j] == keys[j + 1];
          }
          forall i | 0 <= i < |keys[1..]|
            ensures keys[1..][i] != keys[0]
          {
            assert keys[1..][i] == keys[i + 1];
          }
        }
      }
      if HasKey(p, keys[0]) then rest
      else
        assert ([keys[0]] + rest)[1..] == rest;
        [keys[0]] + rest
  }

  /** Line 86: the absent keys, comma-separated, after a fixed prefix. */
  function MissingMessage(missing: seq<string>): string
  {
    MissingPrefix + Join(", ", missing)
  }

  /** Lines 50 and 55: the text of a database exception after the prefix
      of its kind. */
  function ErrorMessage(e: DbError): string
  {
    match e
    case IntegrityError(text) => IntegrityPrefix + text
    case OtherError(text) => DatabasePrefix + text
  }

  // ------------------------------------------------------- create_pass

  /** The middle of the triple: the new pass, or a message. */
  datatype Outcome = Created(pass: Pass) | Message(text: string)

  /** `(success, result, pass_id)`. */
  datatype Triple = Triple(success: bool, result: Outcome, passId: Option<nat>)

  /** `str(result)`: a pass shows as `Pass.__str__` does. */
  function Str(o: Outcome): string
  {
    match o
    case Created(p) => PassDisplay(p)
    case Message(text) => text
  }

  /** `PassDataHandler.create_pass`, validating under `rules` (the source
      runs `Rules.AsWritten`). Validation failure reports the fixed message;
      a database error at any insert is caught outside the transaction,
      which has undone every insert of the submission, and is reported with
      its text; otherwise the new pass and its id. The database stays
      consistent throughout. */
  method CreatePass(db: Database, rules: Rules, p: PassPayload, emailOk: string -> bool, now: int, fault: Option<Fault>)
    returns (r: Triple)
    requires db.Valid()
    modifies db
    ensures db.Valid()
    ensures r.success <==> r.passId.Some?
    ensures r.success <==> ValidateUnder(rules, p, old(db.State()), emailOk).Some? && !HitsRow(fault)
                           && !HitsImage(fault, Validate(p, emailOk).value.images)
    ensures r.success ==>
      (db.State(), r.passId.value) == Assemble(old(db.State()), Validate(p, emailOk).value, now)
      && r.passId.value in db.passes && r.result == Created(db.passes[r.passId.value])
    ensures !r.success ==> db.State() == old(db.State())
    ensures ValidateUnder(rules, p, old(db.State()), emailOk).None? ==> r.result == Message(InvalidMessage)
    ensures ValidateUnder(rules, p, old(db.State()), emailOk).Some? && !r.success ==>
      r.result == Message(ErrorMessage(fault.value.error))
    ensures rules.AsWritten? && Validate(p, emailOk).Some? && EmailTaken(old(db.State()), Validate(p, emailOk).value.user.email) ==>
      r == Triple(false, Message(InvalidMessage), None) && db.State() == old(db.State())
  {
    var saved := db.State();
    var valid := ValidateUnder(rules, p, saved, emailOk);
    if valid.None? {
      return Triple(false, Message(InvalidMessage), None);
    }
    var created := Create(db, valid.value, now, fault);
    if created.Err? {
      db.Restore(saved);
      return Triple(false, Message(ErrorMessage(created.error)), None);
    }
    AssembleKeepsConsistency(saved, valid.value, now);
    AssembleLinksUser(saved, valid.value, now);
    var id := created.value;
    return Triple(true, Created(db.passes[id]), Some(id));
  }

  // -------------------------------------------------------- submit_data

  /** The JSON body of the response. */
  datatype Body = Body(status: int, message: Option<string>, id: Option<nat>)

  /** The HTTP status and the body. */
  datatype Response = Response(http: int, body: Body)

  /** A request body that could not be parsed, with the parser's message,
      or one that was read as an object. */
  datatype Request = Unreadable(reason: string) | Json(payload: PassPayload)

  function Reply(status: int, message: Option<string>, id: Option<nat>): Response
  {
    Response(status, Body(status, message, id))
  }

  /** Lines 94-117: the response to the triple of `create_pass`. */
  function Respond(t: Triple): (resp: Response)
    ensures resp.http == resp.body.status && resp.http in {200, 400, 500}
    ensures resp.http == 200 <==> t.success
    ensures resp.http == 200 ==> resp.body == Body(200, None, t.passId)
    ensures resp.http != 200 ==> resp.body.message == Some(Str(t.result)) && resp.body.id.None?
    ensures !t.success ==> (resp.http == 400 <==> Contains(Str(t.result), NotEnoughFields))
  {
    if t.success then Reply(200, None, t.passId)
    else if Contains(Str(t.result), NotEnoughFields) then Reply(400, Some(Str(t.result)), None)
    else Reply(500, Some(Str(t.result)), None)
  }

  /** `submit_data`, validating under `rules` (the source runs
      `Rules.AsWritten`). An unreadable body raises when it is read and is
      answered 500; a body without one of the four required keys is
      answered 400 naming them; anything else goes to `create_pass`, whose
      triple `Respond` turns into the response. */
  method SubmitData(db: Database, rules: Rules, request: Request, emailOk: string -> bool, now: int, fault: Option<Fault>)
    returns (resp: Response)
    requires db.Valid()
    modifies db
    ensures db.Valid()
    ensures resp.http == resp.body.status && resp.http in {200, 400, 500}
    ensures resp.http == 200 ==> resp.body.message.None?
    ensures request.Unreadable? ==>
      resp == Reply(500, Some(ServerPrefix + request.reason), None) && db.State() == old(db.State())
    ensures request.Json? && MissingFields(RequiredFields, request.payload) != [] ==>
      resp == Reply(400, Some(MissingMessage(MissingFields(RequiredFields, request.payload))), None)
      && db.State() == old(db.State())
    ensures request.Json? && MissingFields(RequiredFields, request.payload) == []
            && ValidateUnder(rules, request.payload, old(db.State()), emailOk).None? ==>
      resp == Reply(400, Some(InvalidMessage), None)
    ensures request.Json? && MissingFields(RequiredFields, request.payload) == []
            && ValidateUnder(rules, request.payload, old(db.State()), emailOk).Some?
            && (HitsRow(fault) || HitsImage(fault, Validate(request.payload, emailOk).value.images)) ==>
      resp == Respond(Triple(false, Message(ErrorMessage(fault.value.error)), None))
    ensures rules.AsWritten? && request.Json? && MissingFields(RequiredFields, request.payload) == []
            && Validate(request.payload, emailOk).Some?
            && EmailTaken(old(db.State()), Validate(request.payload, emailOk).value.user.email) ==>
      resp == Reply(400, Some(InvalidMessage), None) && db.State() == old(db.State())
    ensures resp.http == 200 <==>
      && request.Json? && MissingFields(RequiredFields, request.payload) == []
      && ValidateUnder(rules, request.payload, old(db.State()), emailOk).Some? && !HitsRow(fault)
      && !HitsImage(fault, Validate(request.payload, emailOk).value.images)
    ensures resp.http == 200 ==>
      resp.body.id.Some?
      && (db.State(), resp.body.id.value) == Assemble(old(db.State()), Validate(request.payload, emailOk).value, now)
    ensures resp.http != 200 ==> db.State() == old(db.State())
  {
    if request.Unreadable? {
      return Reply(500, Some(ServerPrefix + request.reason), None);
    }
    var missing := MissingFields(RequiredFields, request.payload);
    if missing != [] {
      return Reply(400, Some(MissingMessage(missing)), None);
    }
    var t := CreatePass(db, rules, request.payload, emailOk, now, fault);
    InvalidAnswered400();
    resp := Respond(t);
  }

  // -------------------------------------------------------------- lemmas

  /** The missing keys are exactly the required keys the payload lacks;
      none are missing exactly when all four are present. */
  lemma NoneMissing(p: PassPayload)
    ensures MissingFields(RequiredFields, p) == [] <==>
      HasKey(p, "title") && HasKey(p, "user") && HasKey(p, "coords") && HasKey(p, "level")
  {
    var m := MissingFields(RequiredFields, p);
    if m != [] {
      assert m[0] in m;
    }
    if !(HasKey(p, "title") && HasKey(p, "user") && HasKey(p, "coords") && HasKey(p, "level")) {
      assert exists k :: k in RequiredFields && !HasKey(p, k);
    }
  }

  /** A payload the key check passes can still fail validation, and then
      gets the generic message: `images` is required by the serializer
      although the view does not check for it. */
  lemma ImagesNotCheckedByView(p: PassPayload, emailOk: string -> bool)
    requires p.images.Absent?
    ensures Validate(p, emailOk).None?
  {
    MissingKeyInvalid(p, emailOk);
  }

  /** The 400 message names every missing key. */
  lemma MissingMessageNamesAll(missing: seq<string>, k: nat)
    requires k < |missing|
    ensures Contains(MissingMessage(missing), missing[k])
  {
    JoinContainsPart(", ", missing, k);
    ContainsInRight(MissingPrefix, Join(", ", missing), missing[k]);
  }

  /** `NotEnoughFields` begins the prefix, hence every missing-keys message. */
  lemma MissingMessageHasMarker(missing: seq<string>)
    ensures Contains(MissingMessage(missing), NotEnoughFields)
  {
    var m := MissingMessage(missing);
    assert m[..|NotEnoughFields|] == NotEnoughFields;
    assert OccursAt(m, NotEnoughFields, 0);
  }

  /** An invalid payload is answered 400 with the generic message. */
  lemma InvalidAnswered400()
    ensures Respond(Triple(false, Message(InvalidMessage), None)) == Reply(400, Some(InvalidMessage), None)
  {
    assert OccursAt(InvalidMessage, NotEnoughFields, 0) by {
      assert InvalidMessage[..|NotEnoughFields|] == NotEnoughFields;
    }
  }

  /** A database error is answered 400 exactly when its own text contains
      `NotEnoughFields`, and 500 otherwise: neither prefix contributes to an
      occurrence, as neither contains its first letter. */
  lemma ErrorStatus(e: DbError)
    ensures var resp := Respond(Triple(false, Message(ErrorMessage(e)), None));
      (resp.http == 400 <==> Contains(e.text, NotEnoughFields))
      && (resp.http == 500 <==> !Contains(e.text, NotEnoughFields))
  {
    assert NotEnoughFields[0] !in IntegrityPrefix;
    assert NotEnoughFields[0] !in DatabasePrefix;
    match e
    case IntegrityError(text) => ContainsBehindPrefix(IntegrityPrefix, text, NotEnoughFields);
    case OtherError(text) => ContainsBehindPrefix(DatabasePrefix, text, NotEnoughFields);
  }
}
