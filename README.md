# Passbook web service: registrations and update distribution

A Dafny model of the server side of Apple's Wallet (PassKit) web service as the
Tryton/Nereid module `nereid_passbook` implements it in `passbook.py`:

- the **Pass** entity: its origin record, the derived `last_update`, its creation
  defaults and the choices offered for its origin field;
- the **authorization guard** (`check_authorization`): the bearer token is given
  either as an explicit request value or inside an `Authorization: ApplePass <token>`
  header, and must equal the pass's `authentication_token`;
- the **archive builder** (`make_pkpass`): the origin's pass content with
  `serialNumber`, `webServiceURL` and `authenticationToken` overwritten, handed with
  the configured certificate, key, WWDR certificate and an empty passphrase to an
  external signer, plus the two download handlers that guard it;
- the **registration endpoint** (`register_device`): one URL for POST (register a
  device for a pass: 201 when new, 200 when already registered, push token left as
  it was; the body must have a "pushToken" member, possibly null, or the handler raises) and DELETE (unregister: 200 and every row of the pair removed, or 404,
  in the corrected endpoint, see "## Findings");
- the **change query** (`get_passes`): for a device and an optional
  `passesUpdatedSince` watermark, the active passes it is registered for whose
  `last_update` is not before the watermark, answered with 204 when there are none
  and otherwise with their serial numbers grouped by last-update time.

Modules: `Options` (the optional value), `Decimal` (the decimal text of a record
id and its value), `Text` (Python's `str.split` with an explicit separator, and
its inverse), `Passes` (the Pass entity, the guard and the archive builder) and
`Registrations` (the registration table, the endpoint, the change query and the
`Store` class holding the two tables).

State and imperative code: the two database tables are the fields of the class
`Registrations.Store`. `RegisterDevice` updates the registration table step by
step, with the source's branches except one: it implements the corrected endpoint
`Registrations.Register` listed under "## Findings", which reads the push token
only for a POST. It is proved equal to that function, about which the lemmas state
idempotence, the 404 cases, preservation of table uniqueness and what a refused
caller leaves behind. The endpoint as written is `Registrations.RegisterAsWritten`;
the two agree whenever the request body has a "pushToken" member, and differ only
on a DELETE without one.
`get_passes` builds a set and then a dictionary of lists in two loops; these are
the methods `CollectChanged` and `GroupByLastUpdate`, proved against the predicate
`GroupsExactly` over the set `SelectedIds`. `make_pkpass` updates a fresh pass-file
object (`Passes.PassFile`) in place.

Timestamps are integers; the response key `last_update.isoformat(' ')` is taken to
be the timestamp itself (rendering a timestamp as text is injective, which is all
the grouping relies on). Origin content values are their serialised text.

Where the code departs from what the Wallet web-service protocol leads one to
expect, the model follows the code, with the one exception corrected under
"## Findings" (the push token read for DELETE, which `Registrations.RegisterAsWritten`
keeps as written):

- a missing `Authorization` header raises (a missing-key error), and a header that
  does not split at spaces into exactly two parts raises an unpacking error; neither
  is answered with 401 (`Passes.PresentedToken`, `Passes.MalformedHeaderRaises`);
- the first word of the header is not examined: `Bearer <token>` is accepted like
  `ApplePass <token>` (`Passes.HeaderAuthorization`);
- a DELETE for a pair with several rows removes all of them;
- a POST whose "pushToken" is JSON null is accepted and the row is saved without a
  push token (the column is optional); only a missing member raises
  (`Registrations.PushArg`, `Registrations.FirstPostCreates`);
- a `passesUpdatedSince` value that does not parse as a date is dropped by the
  request-argument lookup and the query runs as if no watermark were given
  (`Registrations.Since`).

## Model

| member | source | states |
|---|---|---|
| Decimal.FromNat | passbook.py:122 | the serial number of an id is a non-empty string of decimal digits without a leading zero (except for id 0) |
| Decimal.ToNatFromNat | passbook.py:122 | reading the serial number back in base ten gives the pass id |
| Decimal.FromNatToNat | passbook.py:122 | every canonical decimal string is the serial number of the number it denotes, so serial numbers and ids are in one-to-one correspondence |
| Decimal.FromNatInjective | passbook.py:266 | distinct pass ids have distinct serial numbers |
| Text.Split | passbook.py:102 | `split(' ')` yields at least one piece, no piece contains the separator, and joining the pieces with the separator gives back the header |
| Text.SplitCount | passbook.py:102 | the header splits into one more piece than it has spaces, so it has exactly two parts iff it has exactly one space |
| Text.SplitJoin | passbook.py:102 | splitting a joined list of separator-free pieces gives the pieces back |
| Passes.Offered | passbook.py:74-77 | the registry search offers a choice for every installed model whose name is allowed, and only for such models |
| Passes.OriginChoices | passbook.py:63-77 | the origin choices start with the blank entry `(None, '')`, followed by exactly the allowed installed models with their names |
| Passes.DefaultOriginChoices | passbook.py:53-61 | with no downstream extension the only origin choice is the blank entry |
| Passes.LastUpdate | passbook.py:83-87 | `last_update` is one of the stamps the origin carries, the creation stamp for a never-written origin, and under the storage invariant write >= create the latest of them |
| Passes.PresentedToken | passbook.py:97-102 | an explicit value is the token; a header yields its second part only when it is some space-free word, one space and the token; a missing header and a header not of two parts are distinct raised errors |
| Passes.CheckAuthorization | passbook.py:89-105 | access is granted iff the presented token equals the stored token exactly; a presented but different token is refused with 401; a header that cannot be parsed raises |
| Passes.HeaderAuthorization | passbook.py:97-105 | for a header `word token` without further spaces the outcome depends only on the token: granted when it equals the stored token, 401 otherwise, whatever the word |
| Passes.MalformedHeaderRaises | passbook.py:102 | a header with no space or more than one space raises an unpacking error instead of answering 401 |
| Passes.MakePkpass | passbook.py:114-135 | the signed content is the origin's content with exactly serialNumber (the decimal id, which reads back as the id), webServiceURL and authenticationToken overwritten; the signer gets the configured certificate, key, WWDR certificate and an empty passphrase |
| Passes.ServeArchive | passbook.py:137-169 | an archive is built and returned as `pass.pkpass` with the Wallet MIME type iff the presented token is the pass's token; otherwise the guard's reply is returned and nothing is built |
| Registrations.Matching | passbook.py:189-192 | the search finds exactly the rows of the (pass, device) pair, and finds none iff no row has that pair |
| Registrations.Without | passbook.py:193-195 | deleting the found rows removes every row of the pair and keeps every other row with its multiplicity |
| Registrations.RegisterAsWritten | passbook.py:183-209 | the endpoint as written: an authorized call whose body has no "pushToken" raises, for either verb; the table changes only for an authorized caller answered 200 or 201; a raise writes nothing; 201 means a POST that appended one row for the pair and 404 a DELETE for a pair without rows |
| Registrations.Register | passbook.py:183-209 | the corrected endpoint: the same guarantees on table changes, raises and status codes as written, and it raises for a missing push token exactly on an authorized POST |
| Registrations.RefusedLeavesTable | passbook.py:185 | as written and corrected: a caller the guard refuses gets the guard's reply and the registration table is unchanged |
| Registrations.FirstPostCreates | passbook.py:198-209 | an authorized POST whose body has a "pushToken" member (even null) for a pair with no row appends exactly one row with the given push token (none for JSON null) and answers 201 |
| Registrations.PostIsIdempotent | passbook.py:188-196 | after a successful POST, any further authorized POST for the pair whose body has a "pushToken" member (even null) answers 200 and leaves the table, push token included, unchanged |
| Registrations.DeleteRemovesPair | passbook.py:188-196 | corrected endpoint; the code agrees when the DELETE carries a push token: an authorized DELETE for a registered pair answers 200, leaves no row of the pair and keeps all other rows |
| Registrations.DeleteMissingNotFound | passbook.py:198-200 | corrected endpoint; the code agrees when the DELETE carries a push token: an authorized DELETE for a pair with no row answers 404 and changes nothing |
| Registrations.SecondDeleteNotFound | passbook.py:188-200 | corrected endpoint; the code agrees when the DELETE carries a push token: repeating a successful DELETE answers 404 |
| Registrations.RegisterKeepsUnique | passbook.py:188-209 | as written and corrected, the endpoint never creates a second row for a (pass, device) pair: a table with at most one row per pair keeps that property |
| Registrations.UnregisterWithoutBody | passbook.py:186 | as written, an authorized DELETE without a push token in the body raises and deletes nothing; the corrected endpoint answers 200 and removes the pair |
| Registrations.RegisterAgreesWithWritten | passbook.py:185-209 | for every POST and every request whose body has a "pushToken" member (even null) the corrected endpoint behaves exactly as the code does |
| Registrations.Since | passbook.py:248-250 | the watermark filters by last-update time exactly when the argument parses as a date; an absent or unparseable argument filters nothing |
| Registrations.Search | passbook.py:244-253 | the domain search finds exactly the registrations of the device whose pass is stored and active |
| Registrations.CollectChanged | passbook.py:252-259 | the collected set holds exactly the passes of the found registrations that are not older than the watermark (all of them when there is none) |
| Registrations.GroupByLastUpdate | passbook.py:264-266 | the grouped result lists each collected pass's serial number under its own last-update time, lists nothing else, has no empty list and repeats no serial number |
| Registrations.Append | passbook.py:264-266 | `rv[key].append(serial)` on a defaultdict: the key is added if missing, its list gains the serial number at the end (starting from an empty list), and every other key keeps its list |
| Registrations.AppendGroupsExactly | passbook.py:266 | appending one more pass's serial number under its own time extends an exact grouping by that pass |
| Registrations.GroupedExactlyOnce | passbook.py:264-267 | each reported pass's serial number occurs exactly once in the response: once in the list of its own time and in no other list |
| Registrations.WatermarkIsInclusive | passbook.py:254-255 | a pass whose last update equals the watermark is reported exactly as if no watermark were given |
| Registrations.RegisteredPassIsSelected | passbook.py:244-259 | after a successful POST, an active pass is reported to that device by a query without watermark |
| Registrations.DefaultActivePassIsReported | passbook.py:49-51 | a pass created without an explicit `active` flag is active by default, so after an authorized POST with a "pushToken" member it is reported to that device by a query without watermark |
| Registrations.UnregisteredPassIsNotSelected | passbook.py:188-196 | after a successful DELETE the pass is not reported to that device, whatever the watermark |
| Registrations.Store.CreatePass | passbook.py:47-51 | a created pass gets an unused id, the given token and the default active flag, and nothing else changes |
| Registrations.Store.RegisterDevice | passbook.py:171-209 | corrected endpoint; the code agrees when the DELETE carries a push token: the reply and new registration table are those of `Register`; the pass table is unchanged and table uniqueness is preserved |
| Registrations.Store.GetPasses | passbook.py:238-267 | the query answers 204 (no content) iff no pass is active, registered for the device and not older than the watermark; otherwise it answers 200 and its groups list exactly those passes by last-update time |

## Findings

| source | as written | input that shows it | evidently intended | confidence | as-written member | corrected member |
|---|---|---|---|---|---|---|
| passbook.py:186 | the push token is read from the JSON body before the verb is looked at, for DELETE too | an authorized DELETE without a JSON body (the Wallet unregister request carries none) for a registered pair: the handler raises and the registration stays | only a POST that creates a row needs the push token; a DELETE removes the registration and answers 200 | medium, not executed | Registrations.UnregisterWithoutBody | Registrations.Register |

`Registrations.RegisterAsWritten` is the code as written; `Registrations.Register`
reads the push token only for POST and is what `Store.RegisterDevice` implements.
`RegisterAgreesWithWritten` shows the two differ only on DELETE requests without a
push token.

## Left out

- The `log` endpoint (passbook.py:211-218): it only prints the posted logs.
- Generating the authentication token with `uuid4` (passbook.py:79-81): randomness; the token is a parameter of pass creation.
- The external signer and archive format (`passfile.create`, passbook.py:130-135): the model ends with the `SignRequest` value holding everything the signer receives; reading the certificate and key paths from configuration and locating the bundled WWDR file are parameters (`SigningConfig`).
- The content provider `origin.get_passfile()`: its result is the origin's `content` map; no check for a barcode is made, as in the code.
- The `webservice_url` route and `url_for` (passbook.py:107-112, 123-125): the external URL is a parameter.
- Request routing, JSON parsing, `jsonify`, `send_file` and `seek` (passbook.py:142-150, 161-169): a handler's input is the credential, verb, push token and watermark it would read; a missing `authentication_token` request value in the download handler is not modelled.
- The `version` and `pass_type` route arguments: the code ignores them.
- Date parsing with `dateutil` and `isoformat` rendering (passbook.py:248-250, 266): timestamps are integers; the error Python raises when a time-zone-aware watermark is compared with a naive `last_update` is not modelled.
- The order of serial numbers inside one time's list follows the iteration order of a Python set; the model picks an arbitrary order and its contracts fix none.
- An origin with neither write nor creation stamp: stored records always carry a creation stamp.
- The registry search `IrModel.search` (passbook.py:74-77) is modelled as a filter over a sequence of installed models.
- A "pushToken" member that is neither a string nor null (a number, a list): the code would store or reject it as the storage layer decides; the model takes the member as missing, null or a string.
- The race between concurrent registrations of the same pair: the model is sequential.
- Framework registration in `__init__.py`: no logic.
