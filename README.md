# GST finder record store, in Dafny

The GST finder server keeps a directory of traders in a flat JSON file: an
array of records `{CITIES, Traders, GST}` whose key is the pair (CITIES,
Traders). Four REST handlers on `/api/data` work on it. GET returns the table.
POST adds a record, PUT edits one, and DELETE removes records. Each mutating
handler reads the table, changes its copy, and writes the copy back only when
it succeeds. The answer is an HTTP status: 201, 200, 400, 404, 409 or 500.

This project models that record store and proves what the handlers promise:

- `text.dfy` (module `Text`): JavaScript's `trim` and `toUpperCase`, and
  their composition `Normal`. This is the form in which every key and GST
  value is stored.
- `records.dfy` (module `Records`): the record, the request-body field
  `Value`, and the searches the handlers run. These are `some` (`AnyMatch`),
  `findIndex` (`FindIndex`) and `filter` (`Without`). The module also defines
  the table invariants `UniqueKeys` and `AllNormal`.
- `api.dfy` (module `Api`): each handler as a pure function from the table
  it reads to a `Reply`, which holds the status and the table it writes.
- `properties.dfy` (module `Properties`): lemmas about those functions.
  They cover error cases, how each handler changes the table, the uniqueness
  invariant, and request sequences.
- `server.dfy` (module `Server`): class `Store`, whose field `table` stands
  for the data file. Its methods `Get`, `Post`, `Put` and `Delete` follow the
  handlers step by step. `Get` returns the table as stored. Each of `Post`,
  `Put` and `Delete` ensures that its status and new table are the `Api`
  function's reply. `Post` and `Delete` keep both invariants.
  `Put` keeps stored form, and keeps uniqueness when the old table is in
  stored form and the new city and trader have no surrounding whitespace.

A body field is a `Value`. `Absent` stands for a missing key or `null`.
`Str(s)` is a string. `NonStr(truthy)` is any other JSON value. Calling
`trim` or `toUpperCase` on a truthy non-string throws a TypeError, and the
handler's `catch` answers 500. The model has these paths as `ServerError`.

The model keeps the code's asymmetries on purpose:

- PUT and DELETE compare the raw request key with the stored key, without
  normalising it (server.js:68, :97). A key written by POST or PUT has been
  trimmed and upper-cased.
- PUT's duplicate check upper-cases the new key but does not trim it
  (server.js:73). The value it stores is trimmed (server.js:78-79).
  `UpdateKeepsUnique` therefore holds only when the new city and trader carry
  no surrounding whitespace. `PaddedRenameBreaksUniqueness` shows how a rename to
  a stored city followed by whitespace creates a second record with that key.
  `PaddedPuneRename` is one instance: a rename to `"PUNE "`.
- A PUT that keeps the raw key skips the duplicate check (server.js:72) and
  writes the key normalised (server.js:78-79). A record stored in another
  form, for example in a hand-edited file, can therefore come to duplicate
  another record's key (`KeptKeyPutRenormalises`, with the instance
  `KeptPuneRenormalises`). `UpdateKeepsUnique` needs the old table in stored
  form for this reason.
- PUT's duplicate check also sees the record being edited. A rename of a
  stored-form key that only changes letter case answers 409
  (`CaseOnlyRenameConflicts`). For a key stored in another form, such as
  Pune/ACME renamed to pune/ACME, the upper-cased new key PUNE/ACME may match
  nothing, and the rename succeeds.
- A city or trader made only of whitespace passes POST's `!city` test and is
  stored as the empty string.

Further facts about the code:

- The routes live under `/api/data`.
- DELETE removes every record with the raw key, not only the first one.
- The code has a single storage backend, the flat JSON file.

## Model

| member | source | states |
|---|---|---|
| `Text.IsSpace` | server.js:43-45 | the characters `trim` removes are never ASCII letters |
| `Text.TrimStart` | server.js:43-45 | the result of trimming the front is no longer than the input and does not start with whitespace |
| `Text.TrimEnd` | server.js:43-45 | the result of trimming the end is no longer than the input and does not end with whitespace |
| `Text.TrimStartShape` | server.js:43-45 | trimming the front drops an all-whitespace prefix and keeps the rest as a suffix |
| `Text.TrimEndShape` | server.js:43-45 | trimming the end drops an all-whitespace suffix and keeps the rest as a prefix |
| `Text.Trim` | server.js:43-45 | `trim()` never leaves surrounding whitespace and leaves an unpadded string unchanged |
| `Text.TrimIgnoresPadding` | server.js:43-45 | adding whitespace on either side does not change the trimmed string |
| `Text.UpperChar` | server.js:43-45 | upper-casing maps each of a-z to the capital at the same place in A-Z, leaves every other character unchanged, never yields a-z, and keeps whitespace as whitespace |
| `Text.Upper` | server.js:43-45 | `toUpperCase()` keeps the length and upper-cases each character in place |
| `Text.Normal` | server.js:43-45 | a stored value is never longer than the input (with the ASCII case mapping; see ## Left out) and never begins or ends with whitespace |
| `Text.TrimUpper` | server.js:43-45 | trimming and upper-casing commute |
| `Text.NormalShape` | server.js:43-44 | a stored key holds no lower-case ASCII letter |
| `Text.NormalIdempotent` | server.js:43-45 | normalising a stored value again changes nothing |
| `Text.NormalIgnoresCase` | server.js:43-44 | the stored key does not depend on the letter case of the input |
| `Text.NormalIgnoresPaddingAndCase` | server.js:43-44 | two inputs whose upper cases agree, each with any surrounding whitespace, give the same stored key |
| `Text.NormalOfUnpadded` | server.js:73-79 | for an input without surrounding whitespace, the upper-cased key PUT checks equals the trimmed key it stores |
| `Text.NormalExample` | server.js:43 | `" pune "` is stored as `"PUNE"` |
| `Records.Truthy` | server.js:40-45 | a body field is falsy (the `!city` test, the `gst ?` choice) exactly when it is missing or null, the empty string, or a falsy non-string |
| `Records.Throws` | server.js:43-45 | calling `trim` throws exactly on a truthy non-string |
| `Records.Matches` | server.js:68 | strict equality: only string fields match, and then exactly when they equal the stored city and trader |
| `Records.AnyMatch` | server.js:49-51 | `some` finds a record only for string fields |
| `Records.FindIndex` | server.js:68 | `findIndex` returns -1 exactly when no record has the raw key, and otherwise the first index whose record has it |
| `Records.Without` | server.js:97 | `filter` never lengthens the table, and keeps its length exactly when no record has the raw key |
| `Records.WithoutMembers` | server.js:97 | the filter keeps exactly the records that do not have the raw key |
| `Records.WithoutAppend` | server.js:97 | the filter keeps the original order: filtering a concatenation concatenates the filtered parts |
| `Records.WithoutSingle` | server.js:97 | a single record survives the filter exactly when its key differs from the raw key |
| `Records.WithoutRemovesAll` | server.js:97 | after the filter, no record has the raw key |
| `Records.WithoutKeepsNormal` | server.js:97 | the filter keeps every record in stored form |
| `Records.WithoutKeepsUnique` | server.js:97 | the filter keeps the keys unique |
| `Records.UniqueAfterWrite` | server.js:77-81 | writing one slot with a key no other slot has keeps the keys unique |
| `Api.GstOf` | server.js:45 | the stored GST is "NO GST" or already in stored form |
| `Api.NewEntry` | server.js:42-46 | the record POST and PUT build is in stored form in every field |
| `Api.Insert` | server.js:37-61 | POST appends exactly its entry on 201, and writes nothing on every error |
| `Api.Renames` | server.js:72 | the raw key changes unless both new fields equal the old ones |
| `Api.Update` | server.js:64-88 | PUT answers 200, 404, 409 or 500; it keeps the length; on an error it writes nothing; on 200 it writes one stored-form record at the first index with the raw old key and keeps every other index |
| `Api.Delete` | server.js:91-108 | DELETE answers 200 or 404; on 404 it writes nothing; on 200 it writes a strictly shorter table holding exactly the records without the raw key |
| `Properties.InsertRejectsMissingFields` | server.js:39-40 | POST answers 400 exactly when city or trader is missing or empty, and writes nothing |
| `Properties.InsertServerError` | server.js:43-45 | POST answers 500 exactly when a truthy field is not a string, and writes nothing |
| `Properties.InsertNormalises` | server.js:42-46 | the stored entry has the trimmed, upper-cased city and trader, and the trimmed, upper-cased GST or "NO GST" when it is absent or empty |
| `Properties.InsertOfStrings` | server.js:42-57 | POST of non-empty strings and a GST that does not throw answers 409 when the normalised key is stored, and 201 with the appended entry otherwise |
| `Properties.InsertRejectsDuplicate` | server.js:48-53 | POST of well-formed fields answers 409 exactly when the normalised key is stored, and writes nothing |
| `Properties.InsertAppends` | server.js:55-57 | a successful POST answers 201 and appends exactly the entry; earlier records keep their positions; uniqueness and stored form carry over |
| `Properties.InsertedKeyOccursOnce` | server.js:48-57 | after a successful POST, the new key occurs exactly once in the table, at the end |
| `Properties.InsertTwiceConflicts` | server.js:48-53 | a second POST whose key normalises like the first answers 409 and writes nothing |
| `Properties.InsertTwiceAnyCaseOrPadding` | server.js:42-53 | after a successful POST, a second POST whose city and trader have non-empty cores with the same upper case as the first ones, each POST with any surrounding whitespace, answers 409 and writes nothing |
| `Properties.UpdateMissingIsNotFound` | server.js:67-70 | PUT answers 404 exactly when no record has the raw old key, and writes nothing |
| `Properties.GstOnlyUpdateNeverConflicts` | server.js:72-75 | a PUT that keeps the raw key never answers 409; it updates exactly when the key is stored and the GST field does not throw |
| `Properties.UpdateReplacesFirstMatch` | server.js:68-84 | a successful PUT writes at the first index with the raw old key the trimmed, upper-cased new city and trader and the trimmed, upper-cased new GST, or "NO GST" when it is absent or empty, so the old GST is dropped; the length and every other index are unchanged |
| `Properties.UpdateConflict` | server.js:68-75 | PUT answers 409 exactly when the old key is stored, the raw key changes, both new fields are strings and the upper-cased, untrimmed new key is stored, the edited record included; it then writes nothing |
| `Properties.UpdateServerError` | server.js:72-87 | PUT answers 500 exactly when the old key is stored and either the raw key changes to one with a non-string field, or the GST field is a truthy non-string and no 409 came first; it then writes nothing |
| `Properties.CaseOnlyRenameConflicts` | server.js:72-74 | a PUT whose new key upper-cases to the old key, but differs from it, answers 409 |
| `Properties.UpdateKeepsNormal` | server.js:77-81 | PUT keeps every record in stored form |
| `Properties.UpdateKeepsUnique` | server.js:72-81 | PUT keeps the keys unique when the stored records are normalised and the new city and trader have no surrounding whitespace |
| `Properties.PaddedRenameBreaksUniqueness` | server.js:72-79 | with two stored cities under one trader, renaming the second to the first followed by whitespace passes the untrimmed duplicate check and stores two records with the same key |
| `Properties.PaddedStoredKey` | server.js:73-78 | a stored value followed by whitespace is its own upper case, so the duplicate check looks for it untrimmed, and it normalises back to the stored value |
| `Properties.PaddedPuneRename` | server.js:72-79 | with PUNE/ACME and MUMBAI/ACME stored, renaming MUMBAI to `"PUNE "` answers 200 and leaves two PUNE/ACME records |
| `Properties.KeptKeyPutRenormalises` | server.js:72-79 | beside a record in stored form, a record whose city is not in stored form gets its key normalised by a PUT that keeps the raw key, and two records then share the key |
| `Properties.KeptPuneRenormalises` | server.js:72-79 | beside PUNE/ACME, a PUT of Pune/ACME that keeps the raw key answers 200 and leaves two PUNE/ACME records |
| `Properties.DeleteRemovesAllMatches` | server.js:96-104 | DELETE answers 404 exactly when no record has the raw key; it writes nothing then, and otherwise writes the filtered, strictly shorter table; afterwards no record has the key |
| `Properties.DeleteTwiceNotFound` | server.js:96-101 | a second DELETE of the same raw key answers 404 |
| `Properties.DeleteKeepsInvariants` | server.js:97 | DELETE keeps the keys unique and the records in stored form |
| `Properties.PostOnEmpty` | server.js:48-57 | a well-formed POST on an empty table answers 201 with the entry as the only record |
| `Properties.SessionFirstPost` | server.js:42-57 | POST Pune/Acme on an empty file stores PUNE/ACME |
| `Properties.SessionRepeatPost` | server.js:48-53 | on a table holding one stored record, POST of that record's key as stored answers 409 and writes nothing |
| `Properties.SessionRename` | server.js:64-84 | on a table holding only one stored record, renaming its city to another stored-form city answers 200 and stores the new city with "NO GST" |
| `Properties.SessionDelete` | server.js:96-101 | DELETE of a key that the only record does not have answers 404 and writes nothing |
| `Properties.Session` | server.js:37-108 | from an empty file: POST answers 201, POST of the stored key answers 409, a PUT renaming the city to a different stored-form city answers 200, and DELETE of the old key then answers 404, leaving only the renamed record |
| `Server.Store.constructor` | server.js:15-24 | a missing or unreadable data file reads as the empty table |
| `Server.Store.Get` | server.js:32-34 | GET returns the table as stored |
| `Server.Store.Post` | server.js:37-61 | the status and new table are the POST reply on the old table; uniqueness and stored form are kept |
| `Server.Store.Put` | server.js:64-88 | the status and new table are the PUT reply on the old table; stored form is kept; uniqueness is kept when the old table is in stored form and the new key has no surrounding whitespace |
| `Server.Store.Delete` | server.js:91-108 | the status and new table are the DELETE reply on the old table; uniqueness and stored form are kept |

## Left out

- Express wiring, CORS, JSON body parsing, static files and the catch-all page route (server.js:1-12, 110-116). These are HTTP plumbing, so only the status outcomes are modelled. Response messages are not modelled; the 201 entry is.
- File I/O in `readData` and `writeData` (server.js:15-29). These are foreign calls. The field `table` is the file. A missing or unparseable file reads as the empty table. A failing `writeFileSync`, which would answer 500, is not modelled.
- A data file that parses to a non-array value, or holds records with non-string fields. The table is always a sequence of string records.
- Concurrent requests racing on the data file. The code has no guard against them, and the model is sequential.
- The exact point where PUT throws on a non-string new city or trader. It can throw inside the `some` callback (server.js:73) or at `trim` (server.js:78-79). Both answer 500 and write nothing, so the model has one `ServerError` path.
- Text.Upper: maps only the ASCII letters a-z. JavaScript's full Unicode case mapping is not modelled. That includes mappings that change the length, such as ß to SS.
- public/app.js: browser rendering, fetch calls, history navigation and modals. Its distinct-city list and search filters are UI concerns.
