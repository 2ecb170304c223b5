# Character import: a Dafny model

This project models the data logic behind the character-import screen of a
guild-management web app. The user signs in with their game account. The
app fetches the user's characters from the game provider and shows them
grouped by realm. The user selects characters to import, and the server is
meant to store one database record per selected character. As written, the
bulk insert runs before any record has been collected; see "## Left out".
The model covers three parts:

- **The class table** (`wow.dfy`, module `Wow`). This is the constant table
  of the game's class ids 1..13, with three lookups built on it: colour,
  class name and CSS class. The lookups are shown to agree with each other,
  to be injective, and to name exactly the classes of the database's `class`
  enumeration (`schema.dfy`).
- **Roster shaping and selection** (`import_character_list.dfy`, module
  `ImportCharacterList`):
  - grouping characters by realm (an imperative loop, then a sort);
  - a realm's importable characters;
  - the toggle of the pending selection;
  - the "Select all / Deselect all" button;
  - the account's default label.

  React state is an explicit value. A handler takes the selection it reads
  and returns the new one.
- **The server actions** (`sync_characters.dfy`, module `SyncCharacters`):
  - the status decision before the roster is fetched;
  - the record built for each imported character;
  - the loop that accumulates the batch for the bulk insert.

  The clock is a parameter `now`. The provider and the media endpoint are
  function parameters. The rate limiter's verdicts are a function of the
  call's position.

Supporting modules:

- `Wrappers`: `Option`.
- `Schema`: the enum value lists and the row shapes.
- `WowCharacters`: the provider's JSON shapes.
- `Collation`: lexicographic order on strings, standing in for
  `localeCompare`. It is proved irreflexive, asymmetric, total and
  transitive.

## Model

| member | source | states |
|---|---|---|
| Wow.ClassColors | src/utils/wow.ts:1-67 | the table has an entry exactly for the ids 1..13 |
| Wow.TailwindTextIsClassName | src/utils/wow.ts:1-67 | every entry's CSS class is `text-` followed by its class name |
| Wow.ClassNameIsClassValue | src/utils/wow.ts:1-67 | every class name in the table is a value of the `class` enumeration |
| Wow.ClassColorHex | src/utils/wow.ts:69-72 | `#000000` for every id below 1 or above 13; the table's colour for ids 1..13; always a `#`-prefixed six-digit hex colour |
| Wow.ClassFromId | src/utils/wow.ts:78-80 | a name exactly for ids 1..13, absent otherwise; the name is a `class` enumeration value, and the entry's CSS class is `text-` plus it |
| Wow.ClassColorClass | src/utils/wow.ts:74-76 | equals getClassFromId on every id; absent exactly when the table has no entry |
| Wow.ClassIdOf | src/utils/wow.ts:1-67 | every enumeration value has an id in 1..13 whose class is that value (inverse of getClassFromId) |
| Wow.ClassFromIdInjective | src/utils/wow.ts:1-67 | two ids with the same class name are the same id, and ClassIdOf recovers it |
| Wow.TableMatchesClassEnum | src/server/db/schema.ts:17-31 | a string is a `class` enumeration value exactly when some id in 1..13 maps to it |
| Wow.KnownIds | src/utils/wow.ts:7-9 | id 2 is paladin; 0 and 14 have no class and get the `#000000` colour |
| Schema.ClassValuesDistinct | src/server/db/schema.ts:17-31 | the enumeration holds 13 distinct values |
| Collation.Before | src/components/import-character-list.tsx:46 | the order that stands in for `localeCompare`: a name never sorts before itself, and a proper prefix sorts before the longer name |
| Collation.BeforeTotal | src/components/import-character-list.tsx:46 | any two distinct names are ordered one way or the other |
| Collation.BeforeTransitive | src/components/import-character-list.tsx:46 | the name order is transitive |
| ImportCharacterList.OnRealm | src/components/import-character-list.tsx:36-43 | a character belongs to the selection exactly when it is in the input and on the named realm |
| ImportCharacterList.OnRealmAppend | src/components/import-character-list.tsx:35-43 | a realm's characters from an earlier part of the input come before those from a later part, so each group keeps input order |
| ImportCharacterList.FindRealm | src/components/import-character-list.tsx:36 | the position of the first group with the name, or none when no group has it |
| ImportCharacterList.GroupedIsPartition | src/components/import-character-list.tsx:35-45 | after the loop, every group is non-empty and holds exactly its realm's characters in input order; the names are distinct and are the input's realm names; together the groups hold a permutation of the input |
| ImportCharacterList.PushKeepsPartition | src/components/import-character-list.tsx:37-38 | pushing onto the found group keeps the partition of the prefix seen so far |
| ImportCharacterList.OpenKeepsPartition | src/components/import-character-list.tsx:39-43 | opening a group for an unseen realm keeps the partition |
| ImportCharacterList.InsertByNameSorted | src/components/import-character-list.tsx:46 | inserting into a name-sorted list keeps it sorted |
| ImportCharacterList.SortByName | src/components/import-character-list.tsx:46 | the sort is a permutation of the groups and orders them by name |
| ImportCharacterList.SortByNameKeepsGroups | src/components/import-character-list.tsx:46 | the sort keeps every character and keeps names distinct |
| ImportCharacterList.SortedPartition | src/components/import-character-list.tsx:46 | a sorted partition is still a partition, and its names ascend strictly |
| ImportCharacterList.CharactersByRealm | src/components/import-character-list.tsx:33-47 | getCharactersByRealm: non-empty groups, each holding its realm's characters in input order; one group per realm name; names in strictly ascending order; all groups together a permutation of the input |
| ImportCharacterList.NotImported | src/components/import-character-list.tsx:167 | keeps each character whose id is not imported, as often as it occurs, and drops the others |
| ImportCharacterList.InsertByLevelSorted | src/components/import-character-list.tsx:168 | inserting into a list sorted by descending level keeps it sorted |
| ImportCharacterList.SortByLevel | src/components/import-character-list.tsx:168 | the sort is a permutation, highest level first |
| ImportCharacterList.Importable | src/components/import-character-list.tsx:166-168 | exactly the realm's characters with non-imported ids, a permutation of that subset, ordered by non-increasing level |
| ImportCharacterList.Minus | src/components/import-character-list.tsx:139 | an element is kept exactly when it is in the first list and not in the second |
| ImportCharacterList.MinusAppend | src/components/import-character-list.tsx:139 | the filter keeps order: filtering a concatenation is the concatenation of the filtered parts |
| ImportCharacterList.MinusCounts | src/components/import-character-list.tsx:139 | the filter removes every occurrence of what it drops and keeps every occurrence of the rest |
| ImportCharacterList.ToggleStep | src/components/import-character-list.tsx:136-144 | onChange decides on the rendered selection and updates the queued one: if the character was rendered as selected, the update drops every occurrence and keeps every other member; otherwise it keeps the queued selection as a prefix and appends the character once |
| ImportCharacterList.Toggle | src/components/import-character-list.tsx:136-144 | a selected character loses every occurrence and the other entries keep their counts; an unselected one is appended once at the end; afterwards it is selected exactly when it was not |
| ImportCharacterList.ToggleTwice | src/components/import-character-list.tsx:136-144 | toggling an unselected character twice restores the selection; a selected one ends up once, at the end |
| ImportCharacterList.SelectAll | src/components/import-character-list.tsx:190-192 | the click, as written, removes the listed characters that were selected and appends, in list order, those that were not |
| ImportCharacterList.SelectAllStep | src/components/import-character-list.tsx:136-144 | one queued onChange keeps that closed form |
| ImportCharacterList.CaptionForRealm | src/components/import-character-list.tsx:194-198 | the caption, as written, reads "Deselect all" exactly when every character of the realm, imported ones included, is selected |
| ImportCharacterList.DeselectAllDeselects | src/components/import-character-list.tsx:190-198 | when the caption reads "Deselect all", the click leaves no listed character selected |
| ImportCharacterList.CaptionCountsImportedCharacters | src/components/import-character-list.tsx:194-196 | the caption counts an imported character, so a fully selected list still reads "Select all", and the click empties the selection |
| ImportCharacterList.CaptionForListed | src/components/import-character-list.tsx:194-198 | the corrected caption reads "Deselect all" exactly when every listed character is selected |
| ImportCharacterList.SelectAllTogglesEach | src/components/import-character-list.tsx:190-192 | with one of two listed characters selected, the click swaps them instead of selecting both |
| ImportCharacterList.SelectAllListed | src/components/import-character-list.tsx:190-198 | the corrected click: "Select all" keeps the selection as a prefix and appends, in list order, exactly the listed characters not yet selected; "Deselect all" removes every listed character and keeps the rest in order, with their counts; the caption then flips |
| ImportCharacterList.FindLabel | src/components/import-character-list.tsx:104 | the position of the first label stored for the account, or none when no label has its id |
| ImportCharacterList.DefaultCaption | src/components/import-character-list.tsx:103-106 | the first matching label's text when it is present and non-empty; otherwise, or when no label matches, the account id |
| SyncCharacters.MissingCredentials | src/server/actions/sync-characters.ts:25 | when credentials are not missing, an account exists with a non-empty token and an expiry; an account without an expiry always counts as missing |
| SyncCharacters.GetCharacters | src/server/actions/sync-characters.ts:15-41 | ACCOUNT_NOT_FOUND exactly when the account is missing or lacks a token or an expiry; TOKEN_EXPIRED exactly when the expiry is strictly before now; OK otherwise, an expiry equal to now included; the provider is called only on OK, with the profile URL and the bearer token, and its response is returned unchanged; never SESSION_NOT_FOUND |
| SyncCharacters.FindAsset | src/server/actions/sync-characters.ts:65-66 | the value of the first asset with the key; absent exactly when no asset has it |
| SyncCharacters.FirstAssetExists | src/server/actions/sync-characters.ts:65-66 | an asset with the key exists exactly when a first one does |
| SyncCharacters.MediaUrl | src/server/actions/sync-characters.ts:57 | the media address is the profile path, the realm slug, a slash, the character name, and `/character-media` |
| SyncCharacters.MediaUrlIdentifiesCharacter | src/server/actions/sync-characters.ts:57 | when realm slugs carry no slash, equal media addresses mean the same realm slug and character name |
| SyncCharacters.ClassOf | src/server/actions/sync-characters.ts:63 | a database class exactly for ids 1..13, and it is the class whose table id is the given id |
| SyncCharacters.BuildRecord | src/server/actions/sync-characters.ts:59-71 | copies name, level and id (as wowId); realm is the realm's name, not its slug; role is always dps; class is getClassFromId of the class id; render and avatar are the first `main-raw` and `avatar` assets, absent when there are none; the user id is the argument; both timestamps are now |
| SyncCharacters.DelayFor | src/server/actions/sync-characters.ts:55 | the delay is 1000 ms exactly when the limiter result is falsy, and 0 otherwise; an unawaited result always gives 0 |
| SyncCharacters.BackoffAsWritten | src/server/actions/sync-characters.ts:54-55 | as written the unawaited limiter result is always truthy, so the delay is always 0 |
| SyncCharacters.Backoff | src/server/actions/sync-characters.ts:54-55 | with the verdict awaited, the delay is 0 exactly when the call is allowed, and 1000 ms when it is rejected |
| SyncCharacters.RejectedCallIsNotDelayed | src/server/actions/sync-characters.ts:54-55 | a rejected call waits 0 ms as written and 1000 ms once awaited |
| SyncCharacters.ImportCharacters | src/server/actions/sync-characters.ts:51-75 | taken sequentially: one record per input character, in input order, with no deduplication; each record is BuildRecord of the character and the media fetched from its media URL (realm slug and name); each call's delay is the corrected Backoff of the limiter's verdict (see "## Left out") |

## Left out

- Rendering, markup, the collapsible panels and the label-editing controls of
  the screen are UI. The edit button only swaps the label for an input field;
  the field's change handler, the save button's handler and the cancel button
  do nothing, so the label never changes and only the initial label is
  modelled.
- Characters are compared by value. In the code, `includes` and `!==` on
  characters compare object identity. The two agree as long as no two
  distinct character objects are equal field by field.
- `localeCompare` depends on the locale. It is modelled as lexicographic
  order on characters (`Collation.Before`).
- Within a group, the source keeps input order. `OnRealm` defines the group
  in that order, and `OnRealmAppend` states that characters from an earlier
  part of the input come first.
- Importable: does not state that characters of equal level keep their
  filtered order. The sort modelled is stable, but only the order by level
  and the permutation are stated.
- CharactersByRealm: the groups are updated in a sequence of values. The
  in-place push onto an array shared with the list of groups is not modelled
  as aliasing.
- Database and HTTP I/O are not modelled:
  - the account lookup is replaced by the account passed as an `Option`;
  - the roster fetch becomes a function from the request to the response;
  - the media fetch becomes a function from its URL to the response;
  - the bulk insert becomes the returned batch.

  Failed requests and malformed JSON are not modelled.
- The `forEach(async …)` in `importCharacters` does not wait for its
  callbacks. Each callback suspends at its media request before it pushes
  its record, so the bulk insert receives an empty list. That concurrency is
  not modelled; ImportCharacters models the intended sequential accumulation.
- ImportCharacters: the delay it gives each call is the corrected `Backoff`,
  not the code as written. As written the limiter's result is never awaited,
  so no call is ever delayed (`BackoffAsWritten`; see "## Findings").
- Each `new Date()` is replaced by one `now` for the whole call.
- SESSION_NOT_FOUND belongs to the response type, but `getCharacters` never
  returns it. The page handles the missing session, and that code is not
  part of this model.
- Numbers are unbounded integers. Fractional or NaN class ids, levels and
  timestamps are not modelled.
- The rate limiter (its sliding window and the Redis client) and the delay
  timer are foreign calls. They are represented only by the verdict
  function `allowed` and by the delay length of each call.

## Findings

| source | as written | input that shows it | evidently intended | confidence | as-written member | corrected member |
|---|---|---|---|---|---|---|
| src/components/import-character-list.tsx:194-196 | the caption checks every character of the realm, imported ones included, while the click acts only on the listed (importable) ones | realm [a, b] with a imported; selection [b]: the caption reads "Select all", and the click empties the selection | the caption checks the listed characters | medium, not executed | ImportCharacterList.CaptionCountsImportedCharacters | ImportCharacterList.CaptionForListed |
| src/components/import-character-list.tsx:190-192 | "Select all" toggles each listed character against the rendered selection | listed [b, c], selection [b]: the result is [c] | select every listed character (or deselect all of them when the caption says so) | medium, not executed | ImportCharacterList.SelectAllTogglesEach | ImportCharacterList.SelectAllListed |
| src/server/actions/sync-characters.ts:54-55 | `ratelimit.limit` returns a promise that is not awaited, and a promise is always truthy | any call the limiter rejects: no delay follows | await the verdict and wait 1000 ms when it rejects | high, not executed | SyncCharacters.BackoffAsWritten | SyncCharacters.Backoff |
