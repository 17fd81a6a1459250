/** The serializers of passes/serializers.py: validation of the JSON payload
    (the nested user, coordinates, level and image list), the image decoder
    of `ImageSerializer.create`, and the sequence of inserts of
    `PassSerializer.create`. `Assemble` is the database state the inserts
    produce, as a function of the state before; `Create` performs them on a
    `Database` and is proved to reach that state. */
module Serializers {
  import opened Wrappers
  import opened Text
  import opened Models
  import opened Store
  import Decimals
  import Base64

  // ------------------------------------------------------------- payload

  /** One key of a JSON object: missing, present with a value of the wrong
      kind (null, a list where text is expected, ...), or present. */
  datatype Field<T> = Absent | Malformed | Given(value: T)

  datatype UserData = UserData(
    email: Field<string>, fam: Field<string>, name: Field<string>, otc: Field<string>, phone: Field<string>)

  /** Numbers arrive as their JSON text. */
  datatype CoordsData = CoordsData(latitude: Field<string>, longitude: Field<string>, height: Field<string>)

  datatype LevelData = LevelData(
    winter: Field<string>, summer: Field<string>, autumn: Field<string>, spring: Field<string>)

  datatype ImageData = ImageData(data: Field<string>, title: Field<string>)

  /** The request body of a submission, one field per key of `Meta.fields`. */
  datatype PassPayload = PassPayload(
    beautyTitle: Field<string>, title: Field<string>, otherTitles: Field<string>, connect: Field<string>,
    addTime: Field<string>, user: Field<UserData>, coords: Field<CoordsData>, level: Field<LevelData>,
    images: Field<seq<ImageData>>, status: Field<string>)

  /** `validated_data` of one image entry. */
  datatype ValidImage = ValidImage(data: string, title: string)

  /** `validated_data` of a whole submission; `add_time` and `status` are
      read-only and never part of it. */
  datatype ValidPass = ValidPass(
    beautyTitle: string, title: string, otherTitles: string, connect: string,
    user: User, coords: Coords, level: Level, images: seq<ValidImage>)

  // ---------------------------------------------------------- validation

  function WithinLimit(s: string, limit: Option<nat>): bool
  {
    limit.None? || |s| <= limit.value
  }

  /** Text that neither starts nor ends with white space, as every
      stripped text is. */
  predicate Stripped(s: string)
  {
    s == [] || (!IsSpace(s[0]) && !IsSpace(s[|s| - 1]))
  }

  /** `s` is what a required text field `f` yields: the sent text, stripped. */
  predicate TextOf(f: Field<string>, s: string)
  {
    f.Given? && s == Strip(f.value)
  }

  /** `s` is what an optional text field `f` yields: the sent text, stripped,
      or "" when the key is missing. */
  predicate OptionalTextOf(f: Field<string>, s: string)
  {
    TextOf(f, s) || (f.Absent? && s == "")
  }

  /** The null-character validator every DRF text field carries. */
  predicate NoNull(s: string)
  {
    '\0' !in s
  }

  /** A text field of a model column without `blank=True`: required, not
      blank once white space is stripped from both ends, and the stripped
      text at most `limit` characters. */
  function RequiredText(f: Field<string>, limit: Option<nat>): (r: Option<string>)
    ensures r.Some? ==> TextOf(f, r.value) && r.value != "" && WithinLimit(r.value, limit) && NoNull(r.value)
    ensures r.None? <==> !f.Given? || Strip(f.value) == "" || !WithinLimit(Strip(f.value), limit)
                         || !NoNull(Strip(f.value))
  {
    if f.Given? && Strip(f.value) != "" && WithinLimit(Strip(f.value), limit) && NoNull(Strip(f.value))
    then Some(Strip(f.value))
    else None
  }

  /** A text field of a column with `blank=True`: may be missing (the
      column then gets ""), may be blank, and the stripped text is at most
      `limit` characters. */
  function OptionalText(f: Field<string>, limit: Option<nat>): (r: Option<string>)
    ensures r.Some? ==> OptionalTextOf(f, r.value) && WithinLimit(r.value, limit) && NoNull(r.value)
    ensures r.None? <==> f.Malformed? || (f.Given? && (!WithinLimit(Strip(f.value), limit) || !NoNull(Strip(f.value))))
  {
    match f
    case Absent => Some("")
    case Malformed => None
    case Given(s) => if WithinLimit(Strip(s), limit) && NoNull(Strip(s)) then Some(Strip(s)) else None
  }

  /** `UserSerializer`: e-mail, family name, given name and phone are
      required; the patronymic may be left out. `emailOk` is the e-mail
      format check. */
  function ValidateUser(d: UserData, emailOk: string -> bool): (r: Option<User>)
    ensures r.Some? ==> UserFits(r.value) && emailOk(r.value.email)
    ensures r.Some? ==> r.value.email != "" && r.value.fam != "" && r.value.name != "" && r.value.phone != ""
    ensures r.Some? ==> TextOf(d.email, r.value.email) && TextOf(d.fam, r.value.fam) && TextOf(d.name, r.value.name)
                        && OptionalTextOf(d.otc, r.value.otc) && TextOf(d.phone, r.value.phone)
  {
    match (RequiredText(d.email, Some(EmailLength)), RequiredText(d.fam, Some(PersonNameLength)),
           RequiredText(d.name, Some(PersonNameLength)), OptionalText(d.otc, Some(PersonNameLength)),
           RequiredText(d.phone, Some(PhoneLength)))
    case (Some(email), Some(fam), Some(name), Some(otc), Some(phone)) =>
      if emailOk(email) then Some(User(email, fam, name, otc, phone)) else None
    case _ => None
  }

  /** Conversely, a user whose values fit their columns, sent with those
      values (surrounded by any white space), is accepted as that user. */
  lemma ValidateUserAccepts(d: UserData, u: User, emailOk: string -> bool)
    requires UserFits(u) && emailOk(u.email)
    requires u.email != "" && u.fam != "" && u.name != "" && u.phone != ""
    requires NoNull(u.email) && NoNull(u.fam) && NoNull(u.name) && NoNull(u.otc) && NoNull(u.phone)
    requires TextOf(d.email, u.email) && TextOf(d.fam, u.fam) && TextOf(d.name, u.name)
    requires OptionalTextOf(d.otc, u.otc) && TextOf(d.phone, u.phone)
    ensures ValidateUser(d, emailOk) == Some(u)
  {
  }

  function DecimalField(f: Field<string>): Option<int>
  {
    if f.Given? then Decimals.ParseDecimal(f.value) else None
  }

  function IntegerField(f: Field<string>): Option<int>
  {
    if f.Given? then Decimals.ParseInteger(f.value) else None
  }

  /** `CoordsSerializer`: all three values are required, and each must read
      as its column's kind of number. */
  function ValidateCoords(d: CoordsData): (r: Option<Coords>)
    ensures r.Some? ==> CoordsFit(r.value)
    ensures r.Some? <==> d.latitude.Given? && d.longitude.Given? && d.height.Given?
                         && Decimals.ParseDecimal(d.latitude.value).Some?
                         && Decimals.ParseDecimal(d.longitude.value).Some?
                         && Decimals.ParseInteger(d.height.value).Some?
    ensures r.Some? ==> Some(r.value.latitude) == Decimals.ParseDecimal(d.latitude.value)
                        && Some(r.value.longitude) == Decimals.ParseDecimal(d.longitude.value)
                        && Some(r.value.height) == Decimals.ParseInteger(d.height.value)
  {
    match (DecimalField(d.latitude), DecimalField(d.longitude), IntegerField(d.height))
    case (Some(lat), Some(lon), Some(h)) => Some(Coords(lat, lon, h))
    case _ => None
  }

  /** `LevelSerializer`: every grade may be left out or blank. */
  function ValidateLevel(d: LevelData): (r: Option<Level>)
    ensures r.Some? ==> LevelFits(r.value)
    ensures r.Some? ==> OptionalTextOf(d.winter, r.value.winter) && OptionalTextOf(d.summer, r.value.summer)
                        && OptionalTextOf(d.autumn, r.value.autumn) && OptionalTextOf(d.spring, r.value.spring)
    ensures d == LevelData(Absent, Absent, Absent, Absent) ==> r == Some(Level("", "", "", ""))
  {
    match (OptionalText(d.winter, Some(GradeLength)), OptionalText(d.summer, Some(GradeLength)),
           OptionalText(d.autumn, Some(GradeLength)), OptionalText(d.spring, Some(GradeLength)))
    case (Some(w), Some(su), Some(a), Some(sp)) => Some(Level(w, su, a, sp))
    case _ => None
  }

  /** Conversely, grades that fit their columns, each sent (with any
      surrounding white space) or left out, are accepted. */
  lemma ValidateLevelAccepts(d: LevelData, l: Level)
    requires LevelFits(l)
    requires NoNull(l.winter) && NoNull(l.summer) && NoNull(l.autumn) && NoNull(l.spring)
    requires OptionalTextOf(d.winter, l.winter) && OptionalTextOf(d.summer, l.summer)
    requires OptionalTextOf(d.autumn, l.autumn) && OptionalTextOf(d.spring, l.spring)
    ensures ValidateLevel(d) == Some(l)
  {
  }

  /** An entry as `ImageSerializer` hands it on: non-empty data, a
      non-empty title that fits its column, both already stripped. */
  predicate ImageEntryFits(e: ValidImage)
  {
    && e.data != "" && e.title != "" && |e.title| <= TitleLength
    && Stripped(e.data) && Stripped(e.title) && NoNull(e.data) && NoNull(e.title)
  }

  /** `ImageSerializer`: `data` is a plain required text field, `title`
      the model's required column. */
  function ValidateImage(d: ImageData): (r: Option<ValidImage>)
    ensures r.Some? ==> ImageEntryFits(r.value)
    ensures r.Some? ==> TextOf(d.data, r.value.data) && TextOf(d.title, r.value.title)
  {
    match (RequiredText(d.data, None), RequiredText(d.title, Some(TitleLength)))
    case (Some(data), Some(title)) =>
      StripShape(d.data.value);
      StripShape(d.title.value);
      Some(ValidImage(data, title))
    case _ => None
  }

  /** `ImageSerializer(many=True)`: the list is valid when every entry is. */
  function ValidateImages(ds: seq<ImageData>): (r: Option<seq<ValidImage>>)
    ensures r.Some? <==> forall i :: 0 <= i < |ds| ==> ValidateImage(ds[i]).Some?
    ensures r.Some? ==> |r.value| == |ds| && forall i :: 0 <= i < |ds| ==> ValidateImage(ds[i]) == Some(r.value[i])
    ensures r.Some? ==> forall i :: 0 <= i < |r.value| ==> ImageEntryFits(r.value[i])
    decreases |ds|
  {
    if ds == [] then Some([])
    else
      var first := ValidateImage(ds[0]);
      var rest := ValidateImages(ds[1..]);
      assert forall i :: 1 <= i < |ds| ==> ds[i] == ds[1..][i - 1];
      if first.Some? && rest.Some? then Some([first.value] + rest.value) else None
  }

  /** Every value a validated submission carries fits its column. */
  ghost predicate ValidPassFits(v: ValidPass)
  {
    && |v.beautyTitle| <= TitleLength && v.title != "" && |v.title| <= TitleLength
    && |v.otherTitles| <= TitleLength
    && UserFits(v.user) && CoordsFit(v.coords) && LevelFits(v.level)
    && forall i :: 0 <= i < |v.images| ==> ImageEntryFits(v.images[i])
  }

  /** The checks `PassSerializer` declares for a payload, the nested
      e-mail uniqueness check aside (`ValidateAsWritten` adds it). `title`,
      `user`, `coords`, `level` and `images` are required; the three other
      texts may be left out. `add_time` and `status` are read-only: whatever
      the client sends for them is ignored. */
  function Validate(p: PassPayload, emailOk: string -> bool): (r: Option<ValidPass>)
    ensures r.Some? ==> ValidPassFits(r.value) && emailOk(r.value.user.email)
    ensures r.Some? ==> TextOf(p.title, r.value.title) && OptionalTextOf(p.beautyTitle, r.value.beautyTitle)
                        && OptionalTextOf(p.otherTitles, r.value.otherTitles) && OptionalTextOf(p.connect, r.value.connect)
    ensures r.Some? ==> p.user.Given? && p.coords.Given? && p.level.Given? && p.images.Given?
    ensures r.Some? ==> ValidateUser(p.user.value, emailOk) == Some(r.value.user)
                        && ValidateCoords(p.coords.value) == Some(r.value.coords)
                        && ValidateLevel(p.level.value) == Some(r.value.level)
                        && ValidateImages(p.images.value) == Some(r.value.images)
  {
    var title := RequiredText(p.title, Some(TitleLength));
    var beauty := OptionalText(p.beautyTitle, Some(TitleLength));
    var other := OptionalText(p.otherTitles, Some(TitleLength));
    var connect := OptionalText(p.connect, None);
    var user := if p.user.Given? then ValidateUser(p.user.value, emailOk) else None;
    var coords := if p.coords.Given? then ValidateCoords(p.coords.value) else None;
    var level := if p.level.Given? then ValidateLevel(p.level.value) else None;
    var images := if p.images.Given? then ValidateImages(p.images.value) else None;
    if && title.Some? && beauty.Some? && other.Some? && connect.Some?
       && user.Some? && coords.Some? && level.Some? && images.Some?
    then Some(ValidPass(beauty.value, title.value, other.value, connect.value,
                        user.value, coords.value, level.value, images.value))
    else None
  }

  /** Conversely, a payload whose parts each validate, with texts that fit
      their columns, is accepted with exactly those parts. */
  lemma ValidateAccepts(p: PassPayload, emailOk: string -> bool, v: ValidPass)
    requires v.title != "" && |v.title| <= TitleLength && |v.beautyTitle| <= TitleLength
    requires |v.otherTitles| <= TitleLength
    requires NoNull(v.title) && NoNull(v.beautyTitle) && NoNull(v.otherTitles) && NoNull(v.connect)
    requires TextOf(p.title, v.title) && OptionalTextOf(p.beautyTitle, v.beautyTitle)
    requires OptionalTextOf(p.otherTitles, v.otherTitles) && OptionalTextOf(p.connect, v.connect)
    requires p.user.Given? && ValidateUser(p.user.value, emailOk) == Some(v.user)
    requires p.coords.Given? && ValidateCoords(p.coords.value) == Some(v.coords)
    requires p.level.Given? && ValidateLevel(p.level.value) == Some(v.level)
    requires p.images.Given? && ValidateImages(p.images.value) == Some(v.images)
    ensures Validate(p, emailOk) == Some(v)
  {
    TextsAccepted(p, v);
  }

  lemma TextsAccepted(p: PassPayload, v: ValidPass)
    requires v.title != "" && |v.title| <= TitleLength && |v.beautyTitle| <= TitleLength
    requires |v.otherTitles| <= TitleLength
    requires NoNull(v.title) && NoNull(v.beautyTitle) && NoNull(v.otherTitles) && NoNull(v.connect)
    requires TextOf(p.title, v.title) && OptionalTextOf(p.beautyTitle, v.beautyTitle)
    requires OptionalTextOf(p.otherTitles, v.otherTitles) && OptionalTextOf(p.connect, v.connect)
    ensures RequiredText(p.title, Some(TitleLength)) == Some(v.title)
    ensures OptionalText(p.beautyTitle, Some(TitleLength)) == Some(v.beautyTitle)
    ensures OptionalText(p.otherTitles, Some(TitleLength)) == Some(v.otherTitles)
    ensures OptionalText(p.connect, None) == Some(v.connect)
  {
  }

  /** The read-only fields have no influence on validation. */
  lemma ReadOnlyFieldsIgnored(p: PassPayload, emailOk: string -> bool, addTime: Field<string>, status: Field<string>)
    ensures Validate(p.(addTime := addTime, status := status), emailOk) == Validate(p, emailOk)
  {
  }

  /** A payload without one of the required keys never validates. */
  lemma MissingKeyInvalid(p: PassPayload, emailOk: string -> bool)
    requires p.title.Absent? || p.user.Absent? || p.coords.Absent? || p.level.Absent? || p.images.Absent?
    ensures Validate(p, emailOk).None?
  {
  }

  // -------------------------------------------- the unique e-mail validator

  function EmailTaken(t: Tables, email: string): bool
  {
    exists k :: k in t.users && t.users[k].email == email
  }

  /** Validation as the serializer actually runs it: the nested
      `UserSerializer` is a ModelSerializer, which gives `email` the
      uniqueness validator of its `unique=True` column, so an address that
      is already stored makes the whole payload invalid. */
  function ValidateAsWritten(p: PassPayload, t: Tables, emailOk: string -> bool): (r: Option<ValidPass>)
    ensures r.Some? ==> r == Validate(p, emailOk)
  {
    match Validate(p, emailOk)
    case Some(v) => if EmailTaken(t, v.user.email) then None else Some(v)
    case None => None
  }

  /** Which validation a submission goes through: the serializer as
      written (`ValidateAsWritten`), or with the e-mail uniqueness left to
      `get_or_create`, as the code evidently intends (`Validate`). */
  datatype Rules = AsWritten | Corrected

  /** Validation of `p` against the stored rows `t` under `rules`. Only the
      rules as written reject a payload for its e-mail, and only when that
      address is stored. */
  function ValidateUnder(rules: Rules, p: PassPayload, t: Tables, emailOk: string -> bool): (r: Option<ValidPass>)
    ensures r.Some? ==> r == Validate(p, emailOk)
    ensures r.None? <==> Validate(p, emailOk).None?
                         || (rules.AsWritten? && EmailTaken(t, Validate(p, emailOk).value.user.email))
  {
    match rules
    case AsWritten => ValidateAsWritten(p, t, emailOk)
    case Corrected => Validate(p, emailOk)
  }

  /** As written, every payload that gets through validation names a new
      address, so the "get" half of `get_or_create` is never reached. */
  lemma GetOrCreateNeverGetsAsWritten(p: PassPayload, t: Tables, emailOk: string -> bool)
    requires ValidateAsWritten(p, t, emailOk).Some?
    ensures FindUser(t, ValidateAsWritten(p, t, emailOk).value.user.email).None?
  {
  }

  /** As written, sending the same valid submission twice fails the
      second time, even though the first one succeeded. */
  lemma ResubmissionRejectedAsWritten(t: Tables, p: PassPayload, emailOk: string -> bool, now: int)
    requires Validate(p, emailOk).Some?
    ensures ValidateAsWritten(p, Assemble(t, Validate(p, emailOk).value, now).0, emailOk).None?
  {
    var v := Validate(p, emailOk).value;
    var after := Assemble(t, v, now).0;
    AssembleLinksUser(t, v, now);
    var pid := Assemble(t, v, now).1;
    assert after.passes[pid].user in after.users && after.users[after.passes[pid].user].email == v.user.email;
  }

  /** With the uniqueness check left to `get_or_create`, the second
      submission passes validation and reuses the stored user. */
  lemma ResubmissionReusesUser(t: Tables, p: PassPayload, emailOk: string -> bool, now: int)
    requires Consistent(t) && Validate(p, emailOk).Some?
    ensures var v := Validate(p, emailOk).value;
      var after := Assemble(t, v, now).0;
      Assemble(after, v, now).0.users == after.users
  {
    var v := Validate(p, emailOk).value;
    var (after, pid) := Assemble(t, v, now);
    AssembleLinksUser(t, v, now);
    AssembleUser(after, v, now);
    assert FindUser(after, v.user.email).Some?;
  }

  // --------------------------------------------------------------- images

  /** Lines 54-56: `=` characters appended until the length is a multiple of
      four; nothing appended when it already is. */
  function Pad(s: string): (r: string)
    ensures |r| % 4 == 0 && |r| - |s| < 4
    ensures StartsWith(r, s) && forall i :: |s| <= i < |r| ==> r[i] == '='
    ensures |s| % 4 == 0 ==> r == s
  {
    var missing := |s| % 4;
    if missing != 0 then s + Repeat('=', 4 - missing) else s
  }

  /** Padding is the only completion of that shape: any other text that
      extends `s` by fewer than four `=` to a multiple of four is `Pad(s)`. */
  lemma PadUnique(s: string, r: string)
    requires |r| % 4 == 0 && |s| <= |r| && |r| - |s| < 4
    requires StartsWith(r, s) && forall i :: |s| <= i < |r| ==> r[i] == '='
    ensures r == Pad(s)
  {
    var p := Pad(s);
    assert |p| == |r|;
    forall i | 0 <= i < |r|
      ensures r[i] == p[i]
    {
      if i < |s| {
        assert r[i] == r[..|s|][i] && p[i] == p[..|s|][i];
      }
    }
  }

  /** The part of a data URL (section 3 of RFC 2397) that marks an image. */
  const DataImagePrefix: string := "data:image"
  const Base64Marker: string := ";base64,"

  /** `ImageSerializer.create` without the insert: the file the image column
      receives. A data URL is decoded after its `;base64,` marker and named
      after the media subtype; any other non-empty text is padded and
      decoded and named `.jpg`. Empty data, a data URL that does not split
      in two, and text that does not decode all give an empty `.jpg` file
      instead of an error. The title defaults to "". */
  function DecodeImage(data: string, title: Option<string>): (r: StoredFile)
    ensures StartsWith(r.name, title.GetOr("") + ".")
    ensures !StartsWith(data, DataImagePrefix) ==> r.name == title.GetOr("") + ".jpg"
  {
    var t := title.GetOr("");
    var fallback := StoredFile(t + ".jpg", []);
    if StartsWith(data, DataImagePrefix) then
      match SplitOnce(data, Base64Marker)
      case None => fallback
      case Some((header, encoded)) =>
        match Base64.Decode(encoded)
        case None => fallback
        case Some(bytes) => StoredFile(t + "." + AfterLastSlash(header), bytes)
    else if data != "" then
      match Base64.Decode(Pad(data))
      case None => fallback
      case Some(bytes) => StoredFile(t + ".jpg", bytes)
    else fallback
  }

  /** Every failure path gives the empty `.jpg` file. */
  lemma DecodeImageFailures(data: string, title: Option<string>)
    ensures data == "" ==> DecodeImage(data, title) == StoredFile(title.GetOr("") + ".jpg", [])
    ensures (StartsWith(data, DataImagePrefix) && SplitOnce(data, Base64Marker).None?) ==>
              DecodeImage(data, title) == StoredFile(title.GetOr("") + ".jpg", [])
    ensures (StartsWith(data, DataImagePrefix) && SplitOnce(data, Base64Marker).Some?
             && Base64.Decode(SplitOnce(data, Base64Marker).value.1).None?) ==>
              DecodeImage(data, title) == StoredFile(title.GetOr("") + ".jpg", [])
    ensures (!StartsWith(data, DataImagePrefix) && Base64.Decode(Pad(data)).None?) ==>
              DecodeImage(data, title) == StoredFile(title.GetOr("") + ".jpg", [])
  {
  }

  /** The padded encoding of some bytes is the unpadded one passed through
      `Pad`. */
  lemma PadUnpaddedEncoding(bs: seq<Base64.Byte>)
    ensures Pad(Base64.EncodeUnpadded(bs)) == Base64.Encode(bs)
  {
    var u := Base64.EncodeUnpadded(bs);
    Base64.PaddingCompletesEncoding(bs);
    var e := Base64.Encode(bs);
    assert e[..|u|] == u;
    PadUnique(u, e);
  }

  /** Encoded text never starts like a data URL: `:` is not a base 64
      character. */
  lemma EncodingIsNotDataUrl(bs: seq<Base64.Byte>)
    ensures !StartsWith(Base64.Encode(bs), DataImagePrefix)
    ensures !StartsWith(Base64.EncodeUnpadded(bs), DataImagePrefix)
  {
    Base64.EncodeChars(bs);
    Base64.PaddingCompletesEncoding(bs);
    var e, u := Base64.Encode(bs), Base64.EncodeUnpadded(bs);
    Base64.OutsideAlphabet(DataImagePrefix[4]);
    assert !Base64.IsBase64Char(DataImagePrefix[4]);
    assert |u| > 4 ==> u[4] == e[4];
  }

  /** Bytes the client encodes, with or without padding, are stored
      unchanged in a file named after the title. */
  lemma PlainImageRoundTrip(bs: seq<Base64.Byte>, title: string)
    requires bs != []
    ensures DecodeImage(Base64.Encode(bs), Some(title)) == StoredFile(title + ".jpg", bs)
    ensures DecodeImage(Base64.EncodeUnpadded(bs), Some(title)) == StoredFile(title + ".jpg", bs)
  {
    EncodingIsNotDataUrl(bs);
    Base64.DecodeEncode(bs);
    PadUnpaddedEncoding(bs);
    Base64.PaddingCompletesEncoding(bs);
    var e := Base64.Encode(bs);
    assert |e| > 0 by {
      if |bs| >= 3 {
        assert |e| == 4 + |Base64.Encode(bs[3..])|;
      }
    }
    assert Pad(e) == e;
  }

  /** A data URL `data:image/<subtype>;base64,<encoding>` is stored as
      the encoded bytes in a file with the subtype as extension. */
  lemma DataUrlRoundTrip(subtype: string, bs: seq<Base64.Byte>, title: string)
    requires '/' !in subtype && ';' !in subtype
    ensures DecodeImage("data:image/" + subtype + Base64Marker + Base64.Encode(bs), Some(title))
      == StoredFile(title + "." + subtype, bs)
  {
    var e := Base64.Encode(bs);
    Base64.EncodeChars(bs);
    DataUrlSplits(subtype, e);
    var header := "data:image/" + subtype;
    assert header == "data:image" + "/" + subtype;
    AfterLastSlashOfSuffix("data:image", subtype);
    Base64.DecodeEncode(bs);
    var data := header + Base64Marker + e;
    assert SplitOnce(data, Base64Marker) == Some((header, e));
    assert Base64.Decode(e) == Some(bs);
    assert AfterLastSlash(header) == subtype;
  }

  /** The data URL starts like one and splits at its only `;base64,`. */
  lemma DataUrlSplits(subtype: string, e: string)
    requires ';' !in subtype && forall i :: 0 <= i < |e| ==> Base64.IsBase64Char(e[i])
    ensures var data := "data:image/" + subtype + Base64Marker + e;
      StartsWith(data, DataImagePrefix) && SplitOnce(data, Base64Marker) == Some(("data:image/" + subtype, e))
  {
    var header := "data:image/" + subtype;
    var data := header + Base64Marker + e;
    assert data[..|DataImagePrefix|] == header[..|DataImagePrefix|];
    Base64.OutsideAlphabet(';');
    assert !Base64.IsBase64Char(';');
    SplitOnceAtOnlyCandidate(header, Base64Marker, e);
  }

  /** The text after the last `/` of `a + "/" + b` is `b` when `b` has no `/`. */
  lemma {:induction false} AfterLastSlashOfSuffix(a: string, b: string)
    requires '/' !in b
    ensures AfterLastSlash(a + "/" + b) == b
    decreases |b|
  {
    var s := a + "/" + b;
    if b != [] {
      var init := b[..|b| - 1];
      assert s[..|s| - 1] == a + "/" + init;
      AfterLastSlashOfSuffix(a, init);
      assert init + [b[|b| - 1]] == b;
    }
  }

  /** The second validation each entry passes before its insert (line 120);
      `validated_data` of the first one always passes it again. */
  function Revalidate(e: ValidImage): Option<ValidImage>
  {
    ValidateImage(ImageData(Given(e.data), Given(e.title)))
  }

  lemma RevalidateValid(e: ValidImage)
    requires ImageEntryFits(e)
    ensures Revalidate(e) == Some(e)
  {
    StripUnchanged(e.data);
    StripUnchanged(e.title);
  }

  /** How `ImageSerializer.create` turns an entry's `data` and `title` into
      the stored file. `Create` uses `DecodeImage`; the inserts and their
      lemmas below hold for any decoding. */
  type Decoder = (string, Option<string>) -> StoredFile

  /** The image row an accepted entry becomes. */
  function ImageRow(e: ValidImage, pass: nat, decode: Decoder): Image
  {
    Image(e.title, decode(e.data, Some(e.title)), pass)
  }

  /** The entries that pass the second validation, as it returns them. */
  function Revalidated(es: seq<ValidImage>): (r: seq<ValidImage>)
    ensures |r| <= |es| && forall i :: 0 <= i < |r| ==> ImageEntryFits(r[i])
    ensures (forall i :: 0 <= i < |es| ==> ImageEntryFits(es[i])) ==> r == es
  {
    if es == [] then []
    else
      var init := Revalidated(es[..|es| - 1]);
      var last := es[|es| - 1];
      match Revalidate(last)
      case Some(e) =>
        assert forall i :: 0 <= i < |es| - 1 ==> es[..|es| - 1][i] == es[i];
        assert (forall i :: 0 <= i < |es| ==> ImageEntryFits(es[i])) ==> init + [e] == es by {
          if forall i :: 0 <= i < |es| ==> ImageEntryFits(es[i]) {
            RevalidateValid(last);
            assert es == es[..|es| - 1] + [last];
          }
        }
        init + [e]
      case None =>
        assert !ImageEntryFits(last) by {
          if ImageEntryFits(last) { RevalidateValid(last); }
        }
        init
  }

  /** The image rows the accepted entries become, in order (ImageRowsAt). */
  function ImageRows(pass: nat, es: seq<ValidImage>, decode: Decoder): (r: seq<Image>)
    ensures |r| == |es|
    decreases |es|
  {
    if es == [] then [] else ImageRows(pass, es[..|es| - 1], decode) + [ImageRow(es[|es| - 1], pass, decode)]
  }

  lemma {:induction false} ImageRowsAt(pass: nat, es: seq<ValidImage>, decode: Decoder)
    ensures forall i :: 0 <= i < |es| ==> ImageRows(pass, es, decode)[i] == ImageRow(es[i], pass, decode)
    decreases |es|
  {
    if es != [] {
      var init := es[..|es| - 1];
      ImageRowsAt(pass, init, decode);
      forall i | 0 <= i < |init|
        ensures ImageRows(pass, es, decode)[i] == ImageRow(es[i], pass, decode)
      {
        assert ImageRows(pass, es, decode)[i] == ImageRows(pass, init, decode)[i];
        assert init[i] == es[i];
      }
    }
  }

  /** Rows under the consecutive ids `start`, `start + 1`, ... */
  function Numbered<T>(start: nat, rows: seq<T>): (r: map<nat, T>)
    ensures forall k :: k in r <==> start <= k < start + |rows|
    ensures forall k :: k in r ==> r[k] == rows[k - start]
    decreases |rows|
  {
    if rows == [] then map[]
    else
      var init := rows[..|rows| - 1];
      assert forall i :: 0 <= i < |init| ==> init[i] == rows[i];
      Numbered(start, init)[start + |init| := rows[|init|]]
  }

  /** `Image.objects.create` for each row in turn. */
  function AddImages(t: Tables, rows: seq<Image>): Tables
    decreases |rows|
  {
    if rows == [] then t else AddImage(AddImages(t, rows[..|rows| - 1]), rows[|rows| - 1])
  }

  /** Inserting rows changes only the image table and its counter, which
      advances by the number of rows. */
  lemma {:induction false} AddImagesFrame(t: Tables, rows: seq<Image>)
    ensures var r := AddImages(t, rows);
      && r.users == t.users && r.coords == t.coords && r.levels == t.levels && r.passes == t.passes
      && r.next == t.next.(image := t.next.image + |rows|)
    decreases |rows|
  {
    if rows != [] {
      AddImagesFrame(t, rows[..|rows| - 1]);
    }
  }

  /** The rows are stored, in order, under consecutive new ids. */
  lemma {:induction false} AddImagesInserts(t: Tables, rows: seq<Image>)
    ensures AddImages(t, rows).images == t.images + Numbered(t.next.image, rows)
    decreases |rows|
  {
    if rows != [] {
      var init, last := rows[..|rows| - 1], rows[|rows| - 1];
      var before := AddImages(t, init);
      AddImagesInserts(t, init);
      AddImagesFrame(t, init);
      var k := t.next.image + |init|;
      assert before.next.image == k;
      assert AddImages(t, rows).images == before.images[k := last];
      assert Numbered(t.next.image, rows) == Numbered(t.next.image, init)[k := last];
      UnionUpdate(t.images, Numbered(t.next.image, init), k, last);
    }
  }

  lemma UnionUpdate<K, V>(a: map<K, V>, b: map<K, V>, k: K, v: V)
    ensures a + b[k := v] == (a + b)[k := v]
  {
  }

  /** Rows that fit and belong to a stored pass keep the database
      consistent. */
  lemma {:induction false} AddImagesKeepsConsistency(t: Tables, rows: seq<Image>)
    requires Consistent(t)
    requires forall i :: 0 <= i < |rows| ==> rows[i].pass in t.passes && ImageFits(rows[i])
    ensures Consistent(AddImages(t, rows))
    decreases |rows|
  {
    if rows != [] {
      var init := rows[..|rows| - 1];
      AddImagesKeepsConsistency(t, init);
      AddImagesFrame(t, init);
      AddImageKeepsConsistency(AddImages(t, init), rows[|init|]);
    }
  }

  /** The loop of lines 118-121 as a function: each entry that validates
      again is decoded and inserted, in order. */
  function AttachImages(t: Tables, pass: nat, es: seq<ValidImage>, decode: Decoder): Tables
  {
    AddImages(t, ImageRows(pass, Revalidated(es), decode))
  }

  /** One more entry: inserted when it validates again, skipped when not. */
  lemma AttachOneMore(t: Tables, pass: nat, es: seq<ValidImage>, x: ValidImage, decode: Decoder)
    ensures Revalidate(x).Some? ==>
      AttachImages(t, pass, es + [x], decode)
        == AddImage(AttachImages(t, pass, es, decode), ImageRow(Revalidate(x).value, pass, decode))
    ensures Revalidate(x).None? ==> AttachImages(t, pass, es + [x], decode) == AttachImages(t, pass, es, decode)
  {
    var all := es + [x];
    assert all[..|all| - 1] == es;
    var acc := Revalidated(es);
    if Revalidate(x).Some? {
      var more := acc + [Revalidate(x).value];
      assert more[..|more| - 1] == acc;
      var rows := ImageRows(pass, more, decode);
      assert rows[..|rows| - 1] == ImageRows(pass, acc, decode);
    }
  }

  /** Attaching the entries up to `i + 1` is attaching those up to `i` and
      then inserting the row of entry `i` when it validates again. */
  lemma AttachNext(t: Tables, pass: nat, es: seq<ValidImage>, i: nat, decode: Decoder)
    requires i < |es|
    ensures Revalidate(es[i]).Some? ==>
      AttachImages(t, pass, es[..i + 1], decode)
        == AddImage(AttachImages(t, pass, es[..i], decode), ImageRow(Revalidate(es[i]).value, pass, decode))
    ensures Revalidate(es[i]).None? ==>
      AttachImages(t, pass, es[..i + 1], decode) == AttachImages(t, pass, es[..i], decode)
  {
    assert es[..i + 1] == es[..i] + [es[i]];
    AttachOneMore(t, pass, es[..i], es[i], decode);
  }

  // -------------------------------------------------------------- assembly

  /** The state after the four inserts of lines 97-115, and the new pass's
      id. */
  ghost function InsertRows(t: Tables, v: ValidPass, now: int): (Tables, nat)
  {
    var (t1, user) := GetOrCreateUser(t, v.user);
    var coords := t1.next.coords;
    var t2 := AddCoords(t1, v.coords);
    var level := t2.next.level;
    var t3 := AddLevel(t2, v.level);
    var pass := t3.next.pass;
    (AddPass(t3, Pass(v.beautyTitle, v.title, v.otherTitles, v.connect, now, user, coords, level, DefaultStatus)), pass)
  }

  /** The state after `PassSerializer.create` runs without a database
      error, and the id of the new pass. */
  ghost function Assemble(t: Tables, v: ValidPass, now: int): (Tables, nat)
  {
    var (rows, pass) := InsertRows(t, v, now);
    (AttachImages(rows, pass, v.images, DecodeImage), pass)
  }

  /** Attaching the images leaves the rows of the four inserts as they are. */
  lemma AssembleFrame(t: Tables, v: ValidPass, now: int)
    ensures var (r, pass) := Assemble(t, v, now);
      var rows := InsertRows(t, v, now).0;
      && r.users == rows.users && r.coords == rows.coords && r.levels == rows.levels
      && r.passes == rows.passes && pass == InsertRows(t, v, now).1
  {
    var (rows, pass) := InsertRows(t, v, now);
    AddImagesFrame(rows, ImageRows(pass, Revalidated(v.images), DecodeImage));
  }

  /** The new pass is linked to a user with the payload's e-mail. */
  lemma AssembleLinksUser(t: Tables, v: ValidPass, now: int)
    ensures var (r, pass) := Assemble(t, v, now);
      pass in r.passes && r.passes[pass].user in r.users && r.users[r.passes[pass].user].email == v.user.email
  {
    AssembleFrame(t, v, now);
  }

  /** Lines 97-100: an existing user with that e-mail is reused and left
      unchanged; otherwise exactly one user, made from the payload, is
      added. Either way the table grows by at most one row. */
  lemma AssembleUser(t: Tables, v: ValidPass, now: int)
    ensures var (r, pass) := Assemble(t, v, now);
      FindUser(t, v.user.email).Some? ==>
        r.users == t.users && pass in r.passes && r.passes[pass].user == FindUser(t, v.user.email).value
    ensures var (r, pass) := Assemble(t, v, now);
      FindUser(t, v.user.email).None? ==>
        r.users == t.users[t.next.user := v.user] && pass in r.passes && r.passes[pass].user == t.next.user
    ensures |Assemble(t, v, now).0.users| <= |t.users| + 1
  {
    AssembleFrame(t, v, now);
  }

  /** Lines 103-115: one new coordinates row, one new level row and one
      new pass, linked to both, with status "new" and the current time;
      the other passes, coordinates and levels are untouched. */
  lemma AssembleCreatesPass(t: Tables, v: ValidPass, now: int)
    requires Consistent(t)
    ensures var (r, pass) := Assemble(t, v, now);
      && pass !in t.passes && r.passes.Keys == t.passes.Keys + {pass}
      && (forall k :: k in t.passes ==> r.passes[k] == t.passes[k])
      && r.passes[pass].status == New && r.passes[pass].addTime == now
      && r.passes[pass].title == v.title && r.passes[pass].beautyTitle == v.beautyTitle
      && r.passes[pass].otherTitles == v.otherTitles && r.passes[pass].connect == v.connect
      && r.passes[pass].coords !in t.coords && r.coords == t.coords[r.passes[pass].coords := v.coords]
      && r.passes[pass].level !in t.levels && r.levels == t.levels[r.passes[pass].level := v.level]
  {
    AssembleFrame(t, v, now);
    InsertRowsCreatesPass(t, v, now);
  }

  lemma InsertRowsCreatesPass(t: Tables, v: ValidPass, now: int)
    requires IdsBelowCounters(t)
    ensures var (r, pass) := InsertRows(t, v, now);
      && pass !in t.passes && r.passes.Keys == t.passes.Keys + {pass}
      && (forall k :: k in t.passes ==> r.passes[k] == t.passes[k])
      && r.passes[pass].status == New && r.passes[pass].addTime == now
      && r.passes[pass].title == v.title && r.passes[pass].beautyTitle == v.beautyTitle
      && r.passes[pass].otherTitles == v.otherTitles && r.passes[pass].connect == v.connect
      && r.passes[pass].coords !in t.coords && r.coords == t.coords[r.passes[pass].coords := v.coords]
      && r.passes[pass].level !in t.levels && r.levels == t.levels[r.passes[pass].level := v.level]
  {
    var (t1, user) := GetOrCreateUser(t, v.user);
    assert t1.passes == t.passes && t1.coords == t.coords && t1.levels == t.levels && t1.next.pass == t.next.pass
      && t1.next.coords == t.next.coords && t1.next.level == t.next.level;
  }

  /** Lines 118-121: the images are exactly the entries that validate a
      second time, in order, under fresh ids, each linked to the new pass;
      so there are never more of them than entries in the payload. */
  lemma AssembleImages(t: Tables, v: ValidPass, now: int)
    ensures var (r, pass) := Assemble(t, v, now);
      && r.images == t.images + Numbered(t.next.image, ImageRows(pass, Revalidated(v.images), DecodeImage))
      && r.next.image == t.next.image + |Revalidated(v.images)| <= t.next.image + |v.images|
  {
    var (rows, pass) := InsertRows(t, v, now);
    AddImagesFrame(rows, ImageRows(pass, Revalidated(v.images), DecodeImage));
    AddImagesInserts(rows, ImageRows(pass, Revalidated(v.images), DecodeImage));
  }

  /** For a validated payload no entry fails the second validation: every
      image of the payload is stored. */
  lemma AssembleStoresAllImages(t: Tables, p: PassPayload, emailOk: string -> bool, now: int)
    requires Validate(p, emailOk).Some?
    ensures var v := Validate(p, emailOk).value;
      var (r, pass) := Assemble(t, v, now);
      r.next.image == t.next.image + |p.images.value| && Revalidated(v.images) == v.images
  {
    var v := Validate(p, emailOk).value;
    AssembleImages(t, v, now);
  }

  /** A validated submission leaves a consistent database consistent. */
  lemma AssembleKeepsConsistency(t: Tables, v: ValidPass, now: int)
    requires Consistent(t) && ValidPassFits(v)
    ensures Consistent(Assemble(t, v, now).0)
  {
    InsertRowsKeepsConsistency(t, v, now);
    var (rows, pass) := InsertRows(t, v, now);
    AttachImagesKeepsConsistency(rows, pass, v.images, DecodeImage);
  }

  /** The four inserts keep the database consistent and store the pass. */
  lemma InsertRowsKeepsConsistency(t: Tables, v: ValidPass, now: int)
    requires Consistent(t) && ValidPassFits(v)
    ensures var (r, pass) := InsertRows(t, v, now); Consistent(r) && pass in r.passes
  {
    var (t1, user) := GetOrCreateUser(t, v.user);
    if FindUser(t, v.user.email).None? {
      AddUserKeepsConsistency(t, v.user);
    }
    var coords := t1.next.coords;
    var t2 := AddCoords(t1, v.coords);
    AddCoordsKeepsConsistency(t1, v.coords);
    var level := t2.next.level;
    var t3 := AddLevel(t2, v.level);
    AddLevelKeepsConsistency(t2, v.level);
    var pass := t3.next.pass;
    var p := Pass(v.beautyTitle, v.title, v.otherTitles, v.connect, now, user, coords, level, DefaultStatus);
    assert LinksFree(t3, p);
    AddPassKeepsConsistency(t3, p);
    assert InsertRows(t, v, now) == (AddPass(t3, p), pass);
  }

  lemma AttachImagesKeepsConsistency(t: Tables, pass: nat, es: seq<ValidImage>, decode: Decoder)
    requires Consistent(t) && pass in t.passes
    ensures Consistent(AttachImages(t, pass, es, decode))
  {
    var rows := ImageRows(pass, Revalidated(es), decode);
    ImageRowsAt(pass, Revalidated(es), decode);
    forall i | 0 <= i < |rows|
      ensures rows[i].pass in t.passes && ImageFits(rows[i])
    {
      assert rows[i].title == Revalidated(es)[i].title;
    }
    AddImagesKeepsConsistency(t, rows);
  }

  // ---------------------------------------------------------------- create

  /** A database error is raised at one of the four inserts. */
  predicate HitsRow(fault: Option<Fault>)
  {
    fault.Some? && !fault.value.at.ImageStep?
  }

  /** A database error is raised at the insert of one of the entries `es`
      that passes the second validation. */
  predicate HitsImage(fault: Option<Fault>, es: seq<ValidImage>)
  {
    fault.Some? && fault.value.at.ImageStep?
    && fault.value.at.index < |es| && Revalidate(es[fault.value.at.index]).Some?
  }

  /** Lines 97-115: the user, the coordinates, the level and the pass, each
      insert stopping at a database error. */
  method InsertPass(db: Database, v: ValidPass, now: int, fault: Option<Fault>) returns (r: Result<nat, DbError>)
    requires UniqueEmails(db.State())
    modifies db
    ensures r.Ok? <==> !HitsRow(fault)
    ensures r.Err? ==> r.error == fault.value.error
    ensures r.Ok? ==> (db.State(), r.value) == InsertRows(old(db.State()), v, now)
  {
    ghost var t0 := db.State();
    if RaisesAt(fault, UserStep) {
      return Err(fault.value.error);
    }
    var user, _ := db.GetOrCreateUser(v.user);
    if RaisesAt(fault, CoordsStep) {
      return Err(fault.value.error);
    }
    var coords := db.CreateCoords(v.coords);
    if RaisesAt(fault, LevelStep) {
      return Err(fault.value.error);
    }
    var level := db.CreateLevel(v.level);
    if RaisesAt(fault, PassStep) {
      return Err(fault.value.error);
    }
    var row := Pass(v.beautyTitle, v.title, v.otherTitles, v.connect, now, user, coords, level, DefaultStatus);
    var pass := db.CreatePass(row);
    return Ok(pass);
  }

  /** Lines 119-121 for the entry at index `i`, when the entries before it
      are attached to `base`: `ImageSerializer` validates it again and, when
      it is valid, `save()` decodes it and inserts the row under the pass. */
  method InsertImage(db: Database, ghost base: Tables, pass: nat, es: seq<ValidImage>, i: nat,
                     fault: Option<Fault>, decode: Decoder)
    returns (error: Option<DbError>)
    requires i < |es| && db.State() == AttachImages(base, pass, es[..i], decode)
    modifies db
    ensures error.Some? <==> RaisesAt(fault, ImageStep(i)) && Revalidate(es[i]).Some?
    ensures error.Some? ==> error.value == fault.value.error
    ensures error.None? ==> db.State() == AttachImages(base, pass, es[..i + 1], decode)
  {
    AttachNext(base, pass, es, i, decode);
    var accepted := Revalidate(es[i]);
    if accepted.Some? {
      if RaisesAt(fault, ImageStep(i)) {
        return Some(fault.value.error);
      }
      var _ := db.CreateImage(ImageRow(accepted.value, pass, decode));
    }
    return None;
  }

  /** Lines 117-121: every entry that validates again is decoded and inserted
      under the pass, in order, stopping at a database error. */
  method InsertImages(db: Database, pass: nat, es: seq<ValidImage>, fault: Option<Fault>, decode: Decoder)
    returns (error: Option<DbError>)
    modifies db
    ensures error.None? <==> !HitsImage(fault, es)
    ensures error.Some? ==> error.value == fault.value.error
    ensures error.None? ==> db.State() == AttachImages(old(db.State()), pass, es, decode)
  {
    ghost var base := db.State();
    assert es[..0] == [];
    error := None;
    var i := 0;
    while i < |es|
      invariant 0 <= i <= |es| && error.None?
      invariant db.State() == AttachImages(base, pass, es[..i], decode)
      invariant fault.Some? && fault.value.at.ImageStep? && fault.value.at.index < i ==>
                  Revalidate(es[fault.value.at.index]).None?
    {
      error := InsertImage(db, base, pass, es, i, fault, decode);
      if error.Some? {
        return;
      }
      i := i + 1;
    }
    assert es[..i] == es;
  }

  /** `PassSerializer.create`: the inserts of lines 97-121, in order. It
      stops at the first database error; rolling back is the caller's
      transaction. */
  method Create(db: Database, v: ValidPass, now: int, fault: Option<Fault>) returns (r: Result<nat, DbError>)
    requires UniqueEmails(db.State())
    modifies db
    ensures r.Ok? <==> !HitsRow(fault) && !HitsImage(fault, v.images)
    ensures r.Err? ==> r.error == fault.value.error
    ensures r.Ok? ==> (db.State(), r.value) == Assemble(old(db.State()), v, now)
  {
    r := InsertPass(db, v, now, fault);
    if r.Err? {
      return r;
    }
    var error := InsertImages(db, r.value, v.images, fault, DecodeImage);
    if error.Some? {
      return Err(error.value);
    }
  }
}
