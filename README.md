# Launchpad application registry — a Dafny model

This project models the core of the launchpad backend: the registry of client
applications kept in the `applications` table, and the generators that issue
application ids (`ods_app_…`) and API keys (`ods_key_…`).

- `wrappers.dfy` — `Option` and the opaque Go `error` value.
- `base64.dfy` — the standard base64 encoding of section 4 of RFC 4648 that the
  generators use, with a decoder as its reference partner (round trip proved).
- `tokens.dfy` — the token encoder: base64 of 32 random bytes, `+` → `0`,
  `/` → `1`, behind a prefix; its shape, its length and its non-injectivity.
- `service.dfy` — the table behind `Db` (backend/service/db.go) as a class
  holding a sequence of rows in scan order, with `NewApp`, `GetApplication`,
  `UpdateApplication`, `DeleteApplication` and `CheckDuplicate`, each specified
  by a function on the rows and lemmas about those functions.
- `applications.dfy` — the record the registration handler prepares, and the
  retry loop shared by `apiKeyGenerate` and `appIDGenerate`, as written and as
  its comments intend.

The random source, the store's failures and the id the store assigns on insert
are inputs: a generator run takes a finite sequence of rounds, each holding what
`rand.Read` gave (32 bytes or an error) and the error, if any, the store raises
on that round's existence check; every store method takes the error the store
raises, if any. The encoder is a function, so a token is determined by the
bytes drawn.

## Model

| member | source | states |
|---|---|---|
| `Base64.ValueOf` | backend/applications/applications.go:210 | each character of the standard alphabet stands for the one value that `Digit` maps back to it |
| `Base64.Encode` | backend/applications/applications.go:210 | the padded encoding of n bytes has 4·⌈n/3⌉ characters |
| `Base64.DecodeEncode` | backend/applications/applications.go:210 | decoding the standard encoding gives back exactly the bytes encoded |
| `Base64.EncodeShape` | backend/applications/applications.go:210 | the encoding is alphabet characters followed by exactly the padding `=` signs that the byte count leaves over |
| `Tokens.Replace` | backend/applications/applications.go:211-212 | replacing one character keeps the length and changes exactly the positions that held it |
| `Tokens.Remap` | backend/applications/applications.go:211-212 | the two replacements turn every `+` into `0` and every `/` into `1` and keep every other character and the length; TokenShape, TokenLength and TokenNotInjective build on it |
| `Tokens.Token` | backend/applications/applications.go:210-214 | a candidate is the prefix followed by as many characters as the base64 text, none of them `+` or `/`; TokenShape, TokenLength and TokenNotInjective give its form for 32 bytes and show it is not injective |
| `Tokens.TokenShape` | backend/applications/applications.go:202-214 | a token from 32 bytes is the prefix, 43 letters or digits and one final `=`, with no `+` or `/` after the prefix |
| `Tokens.TokenLength` | backend/applications/applications.go:214 | API keys and application ids are 52 characters long |
| `Tokens.TokenNotInjective` | backend/applications/applications.go:210-212 | two different 32-byte draws give the same token, so a token cannot be decoded |
| `Service.Scanned` | backend/service/db.go:105-112 | a scanned row never carries a team name |
| `Service.Present` | backend/service/db.go:143-158 | the existence query is true exactly when some row holds the value in the chosen column |
| `Service.Fetch` | backend/service/db.go:100-118 | the record a scan by id leaves never has a team name |
| `Service.Updated` | backend/service/db.go:121-128 | the update rewrites name, description and owners of the rows with the id, leaves their id, api key, team and validity alone, and leaves every other row unchanged |
| `Service.Deleted` | backend/service/db.go:130-133 | after the delete no row has the id, every row without it is still there, and the table is no longer than before |
| `Service.DeletedCounts` | backend/service/db.go:130-133 | the delete keeps every row without the id as many times as it was there and no row with it |
| `Service.DeleteAppend` | backend/service/db.go:130-133 | the delete works row by row in scan order: a row at the end of the scan stays exactly when its id differs |
| `Service.FetchOtherAfterDelete` | backend/service/db.go:100-133 | deleting one id leaves what a fetch of any other id returns, including which of its rows is scanned last |
| `Service.FetchAbsent` | backend/service/db.go:100-118 | fetching an id no row has gives the zero record, not an error |
| `Service.FetchLastMatch` | backend/service/db.go:103-116 | when several rows have the id, the last one scanned is returned |
| `Service.FetchAfterDelete` | backend/service/db.go:100-133 | after deleting an id, fetching it gives the zero record |
| `Service.DeleteAbsent` | backend/service/db.go:130-133 | deleting an id no row has leaves the table as it was |
| `Service.DeleteIdempotent` | backend/service/db.go:130-133 | deleting an id a second time changes nothing |
| `Service.UpdateAbsent` | backend/service/db.go:121-128 | updating an id no row has leaves the table as it was |
| `Service.UpdateIgnoresIdAndTeam` | backend/service/db.go:121-128 | the id and team sent with an update have no effect on the table |
| `Service.UpdateIdempotent` | backend/service/db.go:121-128 | applying the same update twice is applying it once |
| `Service.FetchAfterUpdate` | backend/service/db.go:100-128 | after an update of an existing id, fetching it shows the new name, description and owners and the old id, api key and validity |
| `Service.ApplicationTable.NewApp` | backend/service/db.go:75-86 | a successful insert appends one valid row with the given name and description and returns the store's id; a failed insert returns `""` with the error and leaves the table alone |
| `Service.ApplicationTable.GetApplication` | backend/service/db.go:100-118 | the scan over the rows returns the record of the last row with the id, or the zero record |
| `Service.ApplicationTable.UpdateApplication` | backend/service/db.go:121-128 | the table becomes the updated rows, or stays as it was when the store fails, and the store's error is returned |
| `Service.ApplicationTable.DeleteApplication` | backend/service/db.go:130-133 | the table loses the rows with the id, or stays as it was when the store fails, and the store's error is returned |
| `Service.ApplicationTable.CheckDuplicate` | backend/service/db.go:138-158 | returns true exactly when the query succeeds and some row holds the value in the column; a store error comes back with false |
| `Applications.PrepareNewApp` | backend/applications/applications.go:97-99 | the prepared record is valid and carries the static key; every other field is as decoded |
| `Applications.StaticKeyIsNotGenerated` | backend/applications/applications.go:97-102 | the key the handler stores can never be a generated API key |
| `Applications.Generation` | backend/applications/applications.go:200-224 | a run that returns an error returns `""` with it, and a run that returns a token got the stopping answer for it from the existence check; ReturnedAtRound (returned ⇒ first stopping round), StopsAtFirst (first stopping round ⇒ returned), StillDrawingExactly and ReturnedToken give the rest of its meaning |
| `Applications.Generate` | backend/applications/applications.go:196-224 | the loop's result is the run of the shared generation over the table, stopping when the existence check says the candidate is present |
| `Applications.ApiKeyGenerate` | backend/applications/applications.go:195-225 | `apiKeyGenerate` is the shared loop with prefix `ods_key_` checked against `api_key` |
| `Applications.AppIdGenerate` | backend/applications/applications.go:229-259 | `appIDGenerate` is the shared loop with prefix `ods_app_` checked against `id` |
| `Applications.ReturnedAtRound` | backend/applications/applications.go:200-224 | a run ends at one round: every earlier round drew bytes without error and got the answer that keeps looping; that round's read error or store error is returned with `""`, otherwise its candidate is returned; StopsAtFirst is the converse |
| `Applications.StopsAtFirst` | backend/applications/applications.go:200-224 | when every round before round k drew bytes without error and got the answer that keeps looping, and round k fails or gets the stopping answer, the run returns at round k: `""` with that round's read or store error, otherwise that round's candidate |
| `Applications.StillDrawingExactly` | backend/applications/applications.go:200-224 | a run is still drawing when its supply ends exactly when every supplied round drew bytes without error and got the answer that keeps looping |
| `Applications.LaterRoundsIgnored` | backend/applications/applications.go:203-221 | once a run has returned, rounds supplied after it change nothing: no further bytes are drawn and no further check is made |
| `Applications.ReturnedToken` | backend/applications/applications.go:200-224 | a token returned without error is the prefix, 43 letters or digits and one `=`, with no `+` or `/`, and the existence check gave the stopping answer for it |
| `Applications.GeneratedTokenIsTaken` | backend/applications/applications.go:200-222 | as written, a returned token is one some row already holds in the checked column |
| `Applications.NoTokenWithoutMatch` | backend/applications/applications.go:197-222 | as written, when no stored value carries the prefix, a run never returns a token: it fails or keeps drawing |
| `Applications.GenerateUnique` | backend/applications/applications.go:193-194 | the loop as its comment describes it: the result is the shared generation stopping when the candidate is absent |
| `Applications.UniqueTokenIsFree` | backend/applications/applications.go:193-194 | with the corrected loop, a returned token is held by no row in the checked column |

## Findings

| source | as written | input that shows it | evidently intended | confidence | as-written member | corrected member |
|---|---|---|---|---|---|---|
| backend/applications/applications.go:200-221 | `isUnique` receives `CheckDuplicate`'s answer, which is `true` when a row already holds the value, and the loop runs `for !isUnique`; the same at lines 234-255 | an empty table: every candidate is absent, so the check answers `false` and the generator never returns a key or id | draw again while the candidate is present and return the first absent one (StopsAtFirst with `stopWhenFound` false), as the comment at lines 193-194 says | not executed | `Applications.Generate`, `Applications.NoTokenWithoutMatch`, `Applications.GeneratedTokenIsTaken` | `Applications.GenerateUnique`, `Applications.UniqueTokenIsFree`, `Applications.StopsAtFirst` |

`ApiKeyGenerate` and `AppIdGenerate` model the code as written; nothing in the
code calls them (the registration handler stores a static key), so nothing else
in the model depends on which loop they use.

## Left out

- HTTP routing, CORS, URL parameters, JSON decoding and encoding and status codes in the handlers: plumbing around the core.
- Logging, in the handlers and in both generators before each error return: it has no effect on the values the model computes.
- The registration handler's call into the store: it passes five arguments to `NewApp`, which takes two; the model follows the store's two-argument `NewApp` and models only the handler's field assignments.
- `GetApplications`, `UserApps` and `myApps`: a pass-through of every row.
- Connection setup, prepared statements and `GetConn`: replaced by the in-memory table; the store's failures and assigned ids are parameters.
- `Service.ApplicationTable.GetApplication`: the ignored error of the query and the errors of scanning a row are not modelled; they depend on a schema and a database driver that are not part of this model. The model therefore always answers with a record.
- `Service.ApplicationTable.CheckDuplicate`: the column is the closed type `Id | ApiKey`; the code's switch leaves the query empty for any other column name, and what the store does with an empty query is not part of this model. How the driver treats a scan into no destinations is not modelled either: a matching row is taken to answer `true`, as the code's comment intends.
- The columns an insert does not name (owners, team name, api key) are modelled as empty strings; their real defaults come from a schema that is not part of this model.
- `crypto/rand`: modelled as the read results in the supplied rounds.
- The generator loop has no bound in the code; the model runs it over a finite supply of rounds and reports `StillDrawing` when the supply ends with the loop still running (`StillDrawingExactly` states when that happens).
- The system's design calls for a retry cap, a regenerate-on-conflict path, `NotFound` errors from get, update and delete, and registration that generates the id and key; the code has none of these, and the model follows the code: get answers the zero record, update and delete of a missing id succeed without change, and registration stores a static key.
- Concurrency: the race between the existence check and a later insert is outside a sequential model.
- `Base64.Decode` is a reference decoder for the standard padded encoding only; Go's decoder (which, for one, skips line breaks) is not modelled because the code never decodes.
- The commented-out refresh and revoke operations, the logger construction, the locations router and the frontend.
