# Pass submission: a Dafny model

This project models the "submit a pass" path of a mountain-pass registry
built on Django and Django REST Framework. A tourist's mobile app posts a
JSON description of a mountain pass to `submitData`. The description holds:

- the submitter (e-mail, names, phone);
- the coordinates;
- a difficulty grade per season;
- a list of images.

The server checks that the required keys are present, then validates the
payload. Inside one database transaction it:

- gets or creates the user by e-mail;
- creates a fresh coordinates row and a fresh level row;
- creates the pass with moderation status `new`;
- decodes every image (base 64, optionally wrapped in a data URL) and attaches it.

It answers `{status, message, id}` with HTTP 200, 400 or 500.

The modules follow the program:

- `Models` (`models.dfy`) holds the five tables as values and the constraints
  the schema declares, as the predicate `Consistent`:
  - one user per e-mail;
  - foreign keys that resolve;
  - one-to-one coordinates and level;
  - ids below their counters;
  - column widths.

  It also holds the deletion cascades, the status choices and the display
  strings of users, levels and passes.
- `Store` (`store.dfy`) is the database as a mutable class. It has one map
  per table and the id counters. Its methods are the ORM calls the
  serializer makes, plus the snapshot restore that a rolled-back
  transaction amounts to.
- `Serializers` (`serializers.dfy`) covers:
  - validation of the payload: the checks the serializers declare
    (`Validate`), and the same checks with the uniqueness validator that
    DRF gives the nested user's `email` (`ValidateAsWritten`); `Rules` and
    `ValidateUnder` select one of the two;
  - the image decoder (`DecodeImage`);
  - the state a successful submission produces, as a function of the state
    before (`Assemble`);
  - the imperative inserts (`Create`, `InsertPass`, `InsertImages`), proved
    to reach that state or to stop at the first database error.
- `Views` (`views.dfy`) covers:
  - `PassDataHandler.create_pass` (`CreatePass`), which is all or nothing:
    either exactly the rows of `Assemble` are added, or the database is as
    before;
  - `submit_data` (`SubmitData`): the required-key check, the response
    mapping and the outer exception handler.

  Both take the validation `rules`. `Rules.AsWritten` is what the code
  does; `Rules.Corrected` is the behaviour under "## Findings".
- `Base64` (`base64.dfy`) is the strict decoder of section 4 of RFC 4648,
  with an encoder as its partner.
- `Decimals` (`decimals.dfy`) is the coercion of coordinate text into
  fixed-point values with seven decimal places, and of height text into an
  integer.
- `Text` (`text.dfy`) holds the string operations the code relies on:
  `split`, `startswith`, `in`, `join`, `strip`, and taking the part after
  the last `/`.

Things outside the program are parameters:

- The clock is the `now` argument.
- The e-mail format check is `emailOk`.
- Which database call raises, if any, is `fault`.

The inserts are proved for any image decoding (the `Decoder` parameter).
`Create` passes `DecodeImage`.

## Model

| member | source | states |
|---|---|---|
| Models.StatusFromCode | passes/models.py:71-76 | exactly the four status codes are accepted, and each maps back to its own code |
| Models.StatusCodeRoundTrip | passes/models.py:116-121 | every status is stored as one of the choices and fits the 10-character column |
| Models.DefaultStatusIsNew | passes/models.py:116-121 | the status a new pass gets is the one whose code is `new` |
| Models.UserDisplay | passes/models.py:17-18 | the display string is the family name, one space, then the given name |
| Models.UserDisplaySplits | passes/models.py:17-18 | the display string gives back family and given name when the family name has no space |
| Models.LevelDisplayNotSpecified | passes/models.py:54-64 | "Не указано" is shown exactly when all four grades are empty |
| Models.LevelDisplayShowsGrades | passes/models.py:55-63 | every non-empty grade appears in the display with its season's label |
| Models.LevelEntryAt | passes/models.py:55-63 | a season with a grade has its labelled entry in the list, after the entries of the earlier seasons with grades |
| Models.LevelDisplayInSeasonOrder | passes/models.py:55-64 | for any two seasons with grades, the earlier season's entry appears before the later one's, with at least a separator between them |
| Models.LevelDisplayOnlyGrade | passes/models.py:55-64 | a level with a single grade shows just that season's labelled entry |
| Models.PassDisplay | passes/models.py:129-130 | the pass shows as display name, a space, official title |
| Models.PassDisplaySplits | passes/models.py:129-130 | the display string gives back display name and title when the display name has no space |
| Models.EmptyTablesConsistent | passes/models.py:4-145 | the empty database meets every schema constraint |
| Models.FindUser | passes/models.py:6 | finds a user with the e-mail exactly when one exists; with unique e-mails it is the only one |
| Models.GetOrCreateUser | passes/serializers.py:97-100 | an existing user is returned and the tables are unchanged; otherwise the payload's user is added under the next id; e-mails stay unique |
| Models.AddUserKeepsConsistency | passes/models.py:6-10 | a fitting user with an unused e-mail keeps the database consistent |
| Models.AddCoordsKeepsConsistency | passes/models.py:23-31 | fitting coordinates keep the database consistent |
| Models.AddLevelKeepsConsistency | passes/models.py:44-47 | a fitting level keeps the database consistent |
| Models.AddPassKeepsConsistency | passes/models.py:78-121 | a fitting pass whose user, coordinates and level exist and are not linked to another pass keeps the database consistent |
| Models.AddPassKeepsLinks | passes/models.py:99-113 | such a pass keeps foreign keys resolved and coordinates and level one-to-one |
| Models.AddImageKeepsConsistency | passes/models.py:135-145 | a fitting image of a stored pass keeps the database consistent |
| Models.RemovePasses | passes/models.py:140-145 | removing passes removes exactly their images; every other row and the counters are unchanged |
| Models.DeletePass | passes/models.py:140-145 | deleting a pass removes exactly that pass and exactly its images; the remaining rows, the users, coordinates, levels and counters are unchanged |
| Models.DeleteUser | passes/models.py:99-103 | deleting a user removes exactly that user, that user's passes and their images; the remaining rows, coordinates, levels and counters are unchanged |
| Models.DeleteCoords | passes/models.py:104-108 | deleting coordinates removes exactly that row, the pass located there and its images; the remaining rows, users, levels and counters are unchanged |
| Models.DeleteLevel | passes/models.py:109-113 | deleting a level removes exactly that row, the pass rated by it and its images; the remaining rows, users, coordinates and counters are unchanged |
| Models.RemovePassesKeeps | passes/models.py:99-145 | removing passes with their images leaves no dangling foreign key |
| Models.DeletePassKeepsConsistency | passes/models.py:140-145 | the pass cascade keeps the database consistent |
| Models.DeleteUserKeepsConsistency | passes/models.py:99-103 | the user cascade keeps the database consistent |
| Models.DeleteCoordsKeepsConsistency | passes/models.py:104-108 | the coordinates cascade keeps the database consistent |
| Models.DeleteLevelKeepsConsistency | passes/models.py:109-113 | the level cascade keeps the database consistent |
| Store.Database.constructor | passes/models.py:4-145 | a new database is empty, with every counter at 1, and consistent |
| Store.Database.Restore | passes/views.py:36 | a rolled-back transaction puts back every table and every counter |
| Store.Database.GetOrCreateUser | passes/serializers.py:97-100 | the new state and id are those of `Models.GetOrCreateUser`; `created` holds exactly when no user had that e-mail |
| Store.Database.CreateCoords | passes/serializers.py:103 | the coordinates are stored under the next id, which is returned |
| Store.Database.CreateLevel | passes/serializers.py:106 | the level is stored under the next id, which is returned |
| Store.Database.CreatePass | passes/serializers.py:109-115 | the pass is stored under the next id, which is returned |
| Store.Database.CreateImage | passes/serializers.py:66-70 | the image is stored under the next id, which is returned |
| Serializers.RequiredText | passes/serializers.py:7-12 | a required text field yields its sent text stripped, which is not empty, fits the limit and holds no null character; it fails exactly when the key is missing or malformed, blank, too long or holding a null character once stripped |
| Serializers.OptionalText | passes/serializers.py:23-28 | an optional text field yields its sent text stripped, or "" when the key is missing, holding no null character; it fails exactly when malformed, or too long or holding a null character once stripped |
| Serializers.ValidateUser | passes/serializers.py:7-12 | an accepted user fits its columns, has a valid e-mail and non-empty required fields, and each value is the sent text stripped (a missing patronymic becomes "") |
| Serializers.ValidateUserAccepts | passes/serializers.py:7-12 | conversely, values that fit and hold no null character, sent with any surrounding white space, are accepted as exactly that user |
| Serializers.ValidateCoords | passes/serializers.py:15-20 | coordinates are accepted exactly when all three values are given and read as numbers, and then they are those numbers and fit the decimal columns |
| Serializers.ValidateLevel | passes/serializers.py:23-28 | an accepted level fits its columns, and each grade is the sent text stripped or "" when missing; a level without grades is accepted as four empty grades |
| Serializers.ValidateLevelAccepts | passes/serializers.py:23-28 | conversely, grades that fit and hold no null character, each sent or missing, are accepted as exactly that level |
| Serializers.ValidateImage | passes/serializers.py:31-37 | an accepted entry has non-empty data and a non-empty title of at most 255 characters, both the sent text stripped and free of null characters |
| Serializers.ValidateImages | passes/serializers.py:79 | the list is accepted exactly when every entry is; each accepted entry is its entry validated and fits |
| Serializers.Validate | passes/serializers.py:74-87 | an accepted payload has every required key and fits every column; its title and optional texts are the sent texts stripped (missing ones ""); its user, coordinates, level and images are what their own serializers accept |
| Serializers.ValidateAccepts | passes/serializers.py:74-87 | conversely, a payload whose texts fit and hold no null character and whose nested parts are each accepted is accepted with exactly those parts |
| Serializers.ReadOnlyFieldsIgnored | passes/serializers.py:87 | client values for `add_time` and `status` never change the validation result |
| Serializers.MissingKeyInvalid | passes/serializers.py:76-79 | a payload without title, user, coords, level or images never validates |
| Serializers.ValidateAsWritten | passes/serializers.py:7-12 | validation with the unique e-mail check of the nested user serializer accepts only what `Validate` accepts |
| Serializers.ValidateUnder | passes/serializers.py:7-12 | under either rules an accepted payload is what `Validate` accepts; a payload is refused exactly when `Validate` refuses it or, as written, its e-mail is stored |
| Serializers.GetOrCreateNeverGetsAsWritten | passes/serializers.py:97-100 | as written, every accepted payload names an e-mail that has no user yet |
| Serializers.ResubmissionRejectedAsWritten | passes/serializers.py:7-12 | as written, the same valid submission fails validation once it has been stored |
| Serializers.ResubmissionReusesUser | passes/serializers.py:97-100 | with the uniqueness left to `get_or_create`, a second submission adds no user |
| Serializers.Pad | passes/serializers.py:54-56 | the result extends the text with fewer than four "=" to a multiple of four, and leaves a multiple of four unchanged |
| Serializers.PadUnique | passes/serializers.py:54-56 | any completion of that shape is the padded text |
| Serializers.DecodeImage | passes/serializers.py:39-64 | the file name is the title (default "") and a dot; anything not starting with "data:image" is named `.jpg` |
| Serializers.DecodeImageFailures | passes/serializers.py:44-64 | empty data, a data URL that does not split in two, and undecodable text each give an empty `.jpg` file |
| Serializers.PadUnpaddedEncoding | passes/serializers.py:54-57 | padding an unpadded encoding gives the padded encoding |
| Serializers.EncodingIsNotDataUrl | passes/serializers.py:46-51 | base 64 text never takes the data URL branch |
| Serializers.PlainImageRoundTrip | passes/serializers.py:51-58 | encoded bytes, padded or not, are stored unchanged in `<title>.jpg` |
| Serializers.DataUrlRoundTrip | passes/serializers.py:46-50 | a data URL stores the encoded bytes in a file whose extension is the media subtype |
| Serializers.DataUrlSplits | passes/serializers.py:46-47 | a data URL starts with the image prefix and splits at its only `;base64,` |
| Serializers.AfterLastSlashOfSuffix | passes/serializers.py:48 | the extension is the header's text after its last "/" |
| Serializers.RevalidateValid | passes/serializers.py:119-120 | a validated entry passes the second validation unchanged |
| Serializers.Revalidated | passes/serializers.py:118-120 | the entries that validate again are no more than the entries, all fit, and are all of them when every entry fits |
| Serializers.ImageRowsAt | passes/serializers.py:118-121 | row i is entry i, decoded, linked to the pass |
| Serializers.AddImagesFrame | passes/serializers.py:118-121 | inserting images changes only the image table, whose counter grows by the number of rows |
| Serializers.AddImagesInserts | passes/serializers.py:118-121 | the rows are added, in order, under consecutive new ids |
| Serializers.AddImagesKeepsConsistency | passes/models.py:140-145 | fitting images of stored passes keep the database consistent |
| Serializers.AttachOneMore | passes/serializers.py:118-121 | one more entry is inserted when it validates again and skipped otherwise |
| Serializers.AttachNext | passes/serializers.py:118-121 | the loop's step from entry i to entry i + 1 |
| Serializers.AssembleFrame | passes/serializers.py:117-121 | the image loop leaves users, coordinates, levels and passes as the four inserts left them |
| Serializers.AssembleLinksUser | passes/serializers.py:97-115 | the new pass is linked to a user with the payload's e-mail |
| Serializers.AssembleUser | passes/serializers.py:97-100 | an existing user is reused and the users are unchanged; otherwise exactly the payload's user is added; the table grows by at most one row |
| Serializers.AssembleCreatesPass | passes/serializers.py:103-115 | exactly one new pass, with status "new", the current time and the payload's titles, linked to one new coordinates row and one new level row; the other rows are untouched |
| Serializers.InsertRowsCreatesPass | passes/serializers.py:103-115 | the same, for the four inserts before the images |
| Serializers.AssembleImages | passes/serializers.py:118-121 | the new images are exactly the entries that validate again, in order, under fresh ids; there are never more than the entries |
| Serializers.AssembleStoresAllImages | passes/serializers.py:118-121 | for a validated payload every entry is stored |
| Serializers.AssembleKeepsConsistency | passes/serializers.py:89-123 | a validated submission keeps a consistent database consistent |
| Serializers.InsertRowsKeepsConsistency | passes/serializers.py:97-115 | the four inserts keep the database consistent and store the pass |
| Serializers.AttachImagesKeepsConsistency | passes/serializers.py:118-121 | attaching images to a stored pass keeps the database consistent |
| Serializers.InsertPass | passes/serializers.py:97-115 | the four inserts succeed exactly when none raises, and then reach the state of the four inserts; otherwise they report the raised error |
| Serializers.InsertImage | passes/serializers.py:119-121 | one entry: it fails exactly when its insert raises and it validates again; otherwise the loop advances by one entry |
| Serializers.InsertImages | passes/serializers.py:118-121 | the loop succeeds exactly when no accepted entry's insert raises, and then reaches the attached state |
| Serializers.Create | passes/serializers.py:89-123 | `create` succeeds exactly when no insert raises, and then reaches `Assemble` with the new pass's id; otherwise it reports the raised error |
| Views.MissingFields | passes/views.py:80-81 | a key is listed exactly when it is required and absent; the list keeps the order of the required keys and, as they have no repeats, has none |
| Views.NoneMissing | passes/views.py:80-83 | nothing is missing exactly when title, user, coords and level are all present |
| Views.ImagesNotCheckedByView | passes/views.py:80-81 | a payload without images passes the key check but never validates |
| Views.MissingMessageNamesAll | passes/views.py:86 | the 400 message names every missing key |
| Views.MissingMessageHasMarker | passes/views.py:86 | every missing-key message contains "Недостаточно полей" |
| Views.CreatePass | passes/views.py:22-57 | success exactly when there is an id, and exactly when the payload is valid under the rules and nothing raises; on success the state is `Assemble` and the result is the stored pass; on failure the state is as before, and the message is the fixed validation text or the error's text after its prefix; as written, a stored e-mail gives the fixed validation text; the database stays consistent |
| Views.Respond | passes/views.py:94-117 | the body status equals the HTTP status, which is 200, 400 or 500; 200 exactly on success, with no message and the id; otherwise the message is the result as text and there is no id; a failure is 400 exactly when the text contains "Недостаточно полей" |
| Views.SubmitData | passes/views.py:60-128 | the body status equals the HTTP status, which is 200, 400 or 500, and 200 carries no message; an unreadable body gives 500 with the error text; missing keys give 400 naming them; an invalid payload (as written, also one with a stored e-mail) gives 400 with the fixed text; a database error gives the response to its message; 200 exactly when all keys are present, the payload is valid and nothing raises, and then the state is `Assemble` with the id; every other answer leaves the database as it was |
| Views.InvalidAnswered400 | passes/views.py:104-110 | a validation failure is answered 400 with the fixed message |
| Views.ErrorStatus | passes/views.py:102-117 | a database error is answered 400 exactly when its own text contains "Недостаточно полей", and 500 otherwise |
| Text.SplitOnce | passes/serializers.py:47 | a successful split gives two parts that rebuild the text around the separator |
| Text.SplitOnceParts | passes/serializers.py:47 | neither part contains the separator, and text without it does not split |
| Text.SplitOnceAtOnlyCandidate | passes/serializers.py:47 | text with exactly one separator splits there |
| Text.SplitOnceOccursOnce | passes/serializers.py:47 | text in which the separator occurs exactly once always splits |
| Text.JoinPartAt | passes/models.py:64 | each part of a joined list occurs at its computed offset |
| Text.PartOffsetOrder | passes/models.py:64 | a later part starts after an earlier part and a separator |
| Text.StripShape | passes/serializers.py:33 | stripped text is a piece of the text, neither starts nor ends with white space, and strips to itself |
| Text.StripSurrounding | passes/serializers.py:33 | white space added around a text does not change what it strips to |
| Text.AfterLastSlashIsSuffix | passes/serializers.py:48 | the result has no "/", ends the text, is the whole text when it has no "/", and follows a "/" otherwise |
| Base64.DecodeEncode | passes/serializers.py:49 | decoding the padded encoding of any bytes gives those bytes |
| Base64.PaddingCompletesEncoding | passes/serializers.py:54-57 | the padded encoding is the unpadded one followed by "=" up to a multiple of four |
| Base64.EncodeChars | passes/serializers.py:46 | an encoding uses only alphabet characters |
| Decimals.ParseDecimal | passes/models.py:23-30 | an accepted coordinate has fewer than 10 digits' worth of 10^-7 units |
| Decimals.ParseFormatUnits | passes/models.py:23-30 | every value the column can hold, written out with its seven decimal places, is read back unchanged |
| Decimals.ScaledWithinColumn | passes/models.py:23-30 | a value that passes the precision check has at most 7 decimal places and fits the column |
| Decimals.ParseFormatInt | passes/models.py:31 | every integer height a client sends is read back unchanged |
| Decimals.ParseIntegerZeroFraction | passes/models.py:31 | an integer followed by a point and only zeros, such as `1200.0`, reads as that integer |

## Left out

- Logging: `logger` calls only record messages and change nothing.
- Concurrency and transaction isolation: submissions are sequential. Atomicity is stated as all or nothing.
- Rollback restores the id counters as well. This matches SQLite. On PostgreSQL, sequences would keep advancing after a rollback.
- Which database call raises, and the exception text, are the `fault` parameter. Failures of the database server itself are not modelled.
- The clock (`auto_now_add`) is the `now` parameter, and date-time values are plain integers.
- The e-mail format check of `EmailField` is the `emailOk` parameter.
- Base64.DecodeEncode: decoding is strict, as in section 4 of RFC 4648. Python's `b64decode` by default also discards characters outside the alphabet. So some data the service stores as decoded bytes is stored here as an empty file.
- File storage: `ImageField` with `upload_to` and the storage backend's renaming of clashing names are not modelled. A stored file is its given name and its bytes.
- Decimals.ParseDecimal: covers plain decimal text (optional sign, digits, optional point) with surrounding white space. Exponent notation, `_` between digits, non-ASCII digits, DRF's 1000-character limit on the text, and JSON numbers that go through binary floating point are not modelled; such text is refused here.
- Decimals.ParseInteger: covers an optional sign and digits, surrounding white space, and a point followed only by zeros. `_` between digits, non-ASCII digits and DRF's 1000-character limit on the text are not modelled, nor is the integer range of the database column.
- Text.Strip: strips the ASCII characters `str.strip` removes (tab to carriage return, U+001C to U+001F, space). Python's `str.strip` also removes non-ASCII Unicode white space (U+0085, U+00A0, U+2028 and others), which the model keeps.
- Views.CreatePass: the `rules` parameter is not in the source. The source always behaves as `Rules.AsWritten`. `Rules.Corrected` is the evidently intended behaviour from "## Findings".
- Views.SubmitData: the `rules` parameter is passed on to `Views.CreatePass` and is not in the source either. The source always behaves as `Rules.AsWritten`.
- The JSON parser is not modelled. An unreadable body is given as `Unreadable(reason)`. A body that is not a JSON object (a list, say) is not modelled. Nor is an `images` entry that is not a JSON object (`["abc"]`, say), which DRF answers with 400: an entry is always given as its two fields.
- `Coords.__str__` and `Image.__str__` depend on Python's decimal formatting and are not modelled.
- The human-readable status labels are not modelled, only the stored codes.
- `SubmitDataResponseSerializer` (passes/serializers.py:126-130) is never used on the submission path and is not modelled.
- The detail, edit and list endpoints are not modelled. They have no implementation in `passes/views.py`.
- `images` is required by the serializer (a `many=True` nested serializer is required by default), although the view does not check for the key. `Views.ImagesNotCheckedByView` states the consequence: such a payload gets the generic 400 message, not the missing-key one.

## Findings

| source | as written | input that shows it | evidently intended | confidence | as-written member | corrected member |
|---|---|---|---|---|---|---|
| passes/serializers.py:7-12 | the nested `UserSerializer` is a model serializer, so it gives `email` the uniqueness validator of the `unique=True` column (passes/models.py:6); validation rejects any payload whose e-mail is already stored, and the "get" half of `get_or_create` (passes/serializers.py:97-100) is never reached | any valid submission sent a second time by the same tourist: the first is stored, the second fails validation and is answered 400 | a returning tourist's submission reuses the stored user, as `get_or_create` intends | not executed | Serializers.ValidateAsWritten (with Serializers.ResubmissionRejectedAsWritten and Serializers.GetOrCreateNeverGetsAsWritten); Views.CreatePass and Views.SubmitData under `Rules.AsWritten` | Serializers.Validate (with Serializers.ResubmissionReusesUser); Views.CreatePass and Views.SubmitData under `Rules.Corrected` |
