# User record store: verified model of the mutating handlers

The service keeps a list of user records, each a phone `number` (the key)
and a `status`, in one JSON file. Every request loads the whole list,
works on it in memory and, for a change, writes the whole list back. This
project models the record-list logic of the three mutating handlers in
`api/data.js`:

- create (`POST /api/users`): rejects a number that is already present
  with a conflict, otherwise appends `{number, status}` at the end;
- update (`PUT /api/users/:number`): gives the first record with the number
  the new status, or reports not found;
- delete (`DELETE /api/users/:number`): keeps only the records whose number
  differs, and reports not found when that removed nothing.

Each handler then saves the new list and answers success with it, or an
internal error when the write fails.

`records.dfy` (module `Records`) holds the record type, the key invariant
`UniqueNumbers`, the searches `FindIndex`/`Find` (JavaScript's `findIndex`
and `find`), the filter `WithoutNumber` and the lemmas about them.
`handlers.dfy` (module `Handlers`) holds the outcome type, the class
`LoadedUsers` for the loaded JavaScript array that create and update change
in place, and the three handlers as methods. A handler takes the loaded
list (`stored`) and the result the file write would have (`saveSucceeds`).
It returns the outcome and `written`, the list handed to the file writer
(`None` when the handler writes nothing).

Only create checks the key, yet all three handlers are shown to keep the
numbers unique when they were unique before.

## Model

| member | source | states |
|---|---|---|
| Records.FindIndex | api/data.js:66-67 | returns -1 exactly when no record has the number, and otherwise the position of the first record that has it |
| Records.Find | api/data.js:48 | returns nothing exactly when no record has the number, and otherwise the first record that has it |
| Records.WithoutNumber | api/data.js:84-85 | no kept record has the number; a record is kept exactly when it was present with another number; the length never grows, and it stays the same exactly when no record had the number |
| Records.WithoutNumberAppend | api/data.js:84 | the filter distributes over concatenation, so the kept records keep their original order |
| Records.WithoutNumberMultiplicity | api/data.js:84 | each record with another number is kept as many times as it occurs; records with the number are all removed, duplicates included |
| Records.WithoutAbsentNumber | api/data.js:84-85 | filtering out a number that no record has returns the list unchanged |
| Records.WithoutNumberKeepsUnique | api/data.js:84 | deleting keeps the numbers unique |
| Records.CreateThenDeleteRestores | api/data.js:52-84 | deleting a number just created under an unused key gives back the list as it was before the create |
| Records.CountNumber | api/data.js:48 | specification helper for the key-uniqueness invariant that the check at line 48 enforces: the count of records with a number is at most the length, and zero exactly when no record has the number |
| Records.CountNumberAppend | api/data.js:52 | specification helper for the key-uniqueness invariant that the check at line 48 enforces: the count over a concatenation is the sum of the counts |
| Records.AppendFreshCountsOnce | api/data.js:48-52 | after appending under an unused number, exactly one record has that number |
| Records.SharedNumberCountsTwice | api/data.js:48 | specification helper for the key-uniqueness invariant that the check at line 48 enforces: two records with the same number make its count at least two |
| Records.UniqueCountsAtMostOne | api/data.js:48 | specification helper for the key-uniqueness invariant that the check at line 48 enforces: with unique numbers, no number is carried by more than one record |
| Records.UniqueIffCountsAtMostOne | api/data.js:48 | specification helper for the key-uniqueness invariant that the check at line 48 enforces: the numbers are unique exactly when every number is carried by at most one record |
| Records.ReplaceKeepsKeys | api/data.js:66-71 | replacing a record by one with the same number keeps uniqueness as it was and does not move the first match of any number |
| Handlers.HttpStatus | api/data.js:49-92 | success is sent with 200, a conflict with 400, not found with 404 and a failed write with 500; only success has a 2xx code and only a failed write a 5xx code |
| Handlers.LoadedUsers.constructor | api/data.js:45 | the loaded array holds exactly the stored records |
| Handlers.LoadedUsers.Push | api/data.js:52 | push adds the record at the end and changes nothing else |
| Handlers.LoadedUsers.SetStatus | api/data.js:71 | the status of one element changes, its number and every other element stay as they were |
| Handlers.CreateUser | api/data.js:43-58 | a present number gives Conflict and writes nothing; an unused number writes the stored list with the new record appended; the write's result decides Ok with that list or Internal; on success exactly one record has the number, and unique numbers stay unique |
| Handlers.UpdateUser | api/data.js:61-77 | no match gives NotFound and writes nothing; otherwise it writes the stored list with only the first match replaced by the record with the new status; the write's result decides Ok with that list or Internal; on success looking the number up finds the new status, and unique numbers stay unique |
| Handlers.DeleteUser | api/data.js:80-94 | no match gives NotFound and writes nothing; otherwise it writes the filtered list, which is strictly shorter; the write's result decides Ok with that list or Internal; on success no record has the number, and unique numbers stay unique |

## Left out

- Express set-up, routing, CORS, the JSON body parser, the static front end and the listening port (api/data.js:1-11, 96-101): framework wiring with no record logic.
- Loading and saving the file (api/data.js:14-34): file system access and JSON encoding. A load is the given list `stored`, where a missing or unreadable file is the empty list; a save is the given `saveSucceeds`. That a reload returns the last saved list is therefore not modelled.
- The read-only handler `GET /api/users` (api/data.js:37-40): it returns the loaded list and has no logic.
- Concurrent requests: two overlapping read-modify-write cycles can lose an update. Each request is modelled as one sequential load, change and save.
- Console logging and the text of the messages and errors: only the kind of outcome is modelled.
- Request bodies that are not `{number, status}` with string fields (a missing `status`, a `number` sent as a JSON number) and records in the file with other shapes: every record is assumed to have two string fields.
- Element objects are modelled as values; the in-place status assignment is the replacement of one element of the array, which is the same because the loaded records are not shared with anything else.
