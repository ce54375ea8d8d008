# Journal app core in Dafny

This project models the core of a small journal/planner application: a REST backend that keeps
one table of dated entries, and a browser client that keeps a copy of that list and a
dark-mode preference.

- **Backend** (`server.dfy`, module `Server`). It models the create-payload validator
  `validateCreateEntry` and the five routes `GET /get/`, `GET /get/:id`, `POST /create/`,
  `PUT /update/:id` and `DELETE /delete/:id`. These are methods of the class `EntryServer`,
  whose field `rows` is the entry table as a sequence: a create appends, an update rewrites
  its row in place, and `GET /get/` lists that sequence. Each route returns either its
  success value or its one fixed failure message (`Reply`). The create route coerces the two
  dates, validates, then inserts. The update route coerces `scheduled_date` only when it is
  truthy, always resets `created_at`, and merges the present properties into the row.
- **Client** (`global_context.dfy`, module `GlobalContext`). It models the state container of
  the React context provider as the class `EntryProvider`. `entries` is an array, and
  `updateEntry` writes into it in place. `saveEntry`, `deleteEntry` and the initial fetch
  install a new array. The class also holds the dark-mode flag, the string stored under
  `darkMode`, and whether the document root has the `dark` class.
- **Shared** (`context.dfy`, module `Context`). It holds the `Entry` record, typed as the
  client declares it. It also holds the two list queries both sides perform: the first entry
  with an id (`findIndex`, the table's unique lookup) and the entries whose id differs from a given id (`filter`).
- **JavaScript semantics** (`js.dfy`, module `Js`). It covers what the code relies on from
  the engine: truthiness, `new Date(value)` with TimeClip, and `String.prototype.trim` over
  the ECMAScript whitespace set.

Inputs the code gets from outside are parameters:
- the current time `now` (milliseconds);
- `Date.parse`, as a function `string -> Option<int>`. Nothing is assumed about it, except the
  one assumption on `toString` and `Date.parse` for valid Dates, stated for `ValidateCreateEntry`
  under "Left out";
- the id the table would generate (`freshId`), required only to be unused;
- the settled outcome of each axios request on the client (`Response`).

The table's own typing rules are an assumption about the store, written as the functions
`InsertedRow`, `MergeString`, `MergeDate` and `MergedRow`:
- a string column needs a string;
- a date column needs a valid Date;
- absent properties of an update are kept;
- an id already used by another row is refused.

`updateEntry` and `deleteEntry` `await` the axios call before touching the list. Axios
rejects on a non-2xx reply, so a failed update or delete leaves the local list untouched
(`UpdateEntry` and `DeleteEntry` with `Rejected`).

## Model

| member | source | states |
|---|---|---|
| `Js.TrimStart` | backend/src/server.ts:11 | The result is the suffix of the input that starts at its first non-whitespace character. Everything it drops is whitespace. |
| `Js.TrimEnd` | backend/src/server.ts:11 | The result is the prefix of the input that ends at its last non-whitespace character. Everything it drops is whitespace. |
| `Js.Trim` | backend/src/server.ts:11 | `trim()` leaves a string that neither starts nor ends with whitespace. |
| `Js.TrimIsEmptyIffBlank` | backend/src/server.ts:11-16 | `s.trim() === ""` holds exactly when every character of `s` is whitespace, in both directions. |
| `Js.Truthy` | backend/src/server.ts:11-17 | A body property is falsy exactly when it is absent, `null`, `false`, `0` or `""`. Every Date object, the Invalid Date included, is truthy. |
| `Js.NewDate` | backend/src/server.ts:43-49 | `new Date(s)` on a string is valid exactly when `Date.parse(s)` gives a time value within TimeClip's range, and then it is that value. A number is valid exactly within that range. A Date is copied, and `undefined` gives the Invalid Date. |
| `Server.IsFilledString` | backend/src/server.ts:11-16 | The required-string test (falsy, not of type string, or empty after `trim()`) lets through exactly the strings with a non-whitespace character. Absent, non-string, empty and whitespace-only values are rejected. |
| `Server.ValidateCreateEntry` | backend/src/server.ts:10-20 | It passes exactly when title and description are non-blank strings and the coerced `scheduled_date` is a valid Date. Otherwise it throws the first failing check's message, in the order title, description, date. |
| `Server.CoerceDate` | backend/src/server.ts:43-49 | An absent or falsy date becomes `now`. A non-empty string becomes its parsed time value when that is valid, and the Invalid Date otherwise. |
| `Server.InsertedRow` | backend/src/server.ts:52 | An inserted row has an id and two valid dates. Its id is not already in the table. A body id already in use is refused. |
| `Server.MergeString` | backend/src/server.ts:80-83 | An absent property keeps the column's value. A string replaces it. Any other type is refused. |
| `Server.MergeDate` | backend/src/server.ts:80-83 | An absent property keeps the column's value. A valid Date replaces it. `null`, `""`, `false`, `0` and the Invalid Date are refused. |
| `Server.MergedRow` | backend/src/server.ts:80-83 | The update is refused exactly when the id would collide with another row's, or a present property has the wrong type for its column. Otherwise each present property replaces its field and each absent one keeps it. A stored row stays a stored row, and its id stays its own or becomes an unused one. |
| `Server.GetByIdOf` | backend/src/server.ts:30-36 | The reply succeeds exactly when some row has the id, and then it is a stored row with that id. Otherwise it carries `"Error finding entry with id " + id`. |
| `Server.EntryServer.GetAll` | backend/src/server.ts:22-25 | It returns every stored entry, in the table's order. |
| `Server.EntryServer.GetById` | backend/src/server.ts:27-38 | On a known id it returns the stored entry with that id. Otherwise it returns `"Error finding entry with id " + id`. Its reply is the one `GetByIdOf` gives on the current table. |
| `Server.EntryServer.Create` | backend/src/server.ts:40-57 | It succeeds exactly when title and description are non-blank, both coerced dates are valid, and the body id is absent or unused. Then the table grows by exactly the returned entry, which carries the coerced dates and is found again by its id. Otherwise it returns `"Error creating entry"` and the table is unchanged. A blank title or description, an unparseable `scheduled_date` or a duplicate id always fails. |
| `Server.EntryServer.Update` | backend/src/server.ts:68-89 | It succeeds exactly when the id exists and every present property has its column's type. Then only that row changes: present properties replace fields, absent ones are kept, `scheduled_date` is reparsed only when truthy, and `created_at` becomes the payload's date or `now`. On failure it returns `"Error updating"` and the table is unchanged. |
| `Server.EntryServer.Delete` | backend/src/server.ts:59-66 | On a known id the table loses exactly that row, keeps the rest in order, and returns `"Deleted successfully"`. On an unknown id it returns `"Error deleting entry"` and the table is unchanged. No row with the id remains. |
| `Server.DeleteLeavesOthers` | backend/src/server.ts:59-66 | After a delete, `GET /get/:id` for every other id replies exactly as before. |
| `Server.AppendKeepsUnique` | backend/src/server.ts:52 | Inserting a row with an unused id keeps ids unique. |
| `Server.ReplaceKeepsUnique` | backend/src/server.ts:80-83 | Updating a row to its own id or an unused id keeps ids unique. |
| `Context.FirstIndexOf` | frontend/src/utilities/globalContext.tsx:57 | It gives the first index whose id matches (entries without an id never match). It gives None exactly when no entry has the id. |
| `Context.FirstIndexOfUnique` | backend/src/server.ts:30-32 | With unique ids, the row found for an id is the only row with it. |
| `Context.WithoutId` | frontend/src/utilities/globalContext.tsx:65 | The result holds exactly the entries whose id differs, and is no longer than the input. |
| `Context.WithoutIdAppend` | frontend/src/utilities/globalContext.tsx:65 | Filtering distributes over concatenation, so kept entries stay in their original order. |
| `Context.WithoutIdNoMatch` | frontend/src/utilities/globalContext.tsx:65 | A list with no entry carrying the id is returned unchanged. |
| `Context.WithoutIdRemovesAll` | frontend/src/utilities/globalContext.tsx:65 | No entry with the id remains after filtering. |
| `Context.WithoutIdIdempotent` | frontend/src/utilities/globalContext.tsx:65 | Deleting the same id twice gives the same list as deleting it once. |
| `Context.RemoveAtIsWithoutId` | backend/src/server.ts:61 | With unique ids, removing the one row with the id equals keeping every entry whose id differs. |
| `Context.WithoutIdKeepsUnique` | backend/src/server.ts:61 | Deleting a row keeps ids unique. |
| `GlobalContext.FindIndex` | frontend/src/utilities/globalContext.tsx:57 | It gives -1 exactly when no entry has the id. Otherwise it gives the first index whose entry has it. |
| `GlobalContext.ReplaceFirst` | frontend/src/utilities/globalContext.tsx:56-60 | The length is unchanged. Only the first matching position gets the new entry and every other position keeps its element. With no match the list is unchanged. |
| `GlobalContext.ReadDarkMode` | frontend/src/utilities/globalContext.tsx:10-12 | A key never written (`null`) reads as off, `"true"` reads as on, and `"false"`, `"True"` and `"1"` read as off. |
| `GlobalContext.BoolToString` | frontend/src/utilities/globalContext.tsx:30 | `newMode.toString()` is `"true"` or `"false"`. Reading it back with `=== 'true'` gives the same flag. |
| `GlobalContext.Toggled` | frontend/src/utilities/globalContext.tsx:20-33 | A toggle negates the flag, sets the root's `dark` class to match, and stores the flag's string so that reading it back gives the new flag. |
| `GlobalContext.ToggleTwice` | frontend/src/utilities/globalContext.tsx:20-33 | Two toggles restore the flag. From a persisted state they restore the stored string and the root's class too. |
| `GlobalContext.EntryProvider.constructor` | frontend/src/utilities/globalContext.tsx:8-12 | The list starts empty. The flag is on exactly when the stored string is `"true"`, and the root's class follows it. |
| `GlobalContext.EntryProvider.InitState` | frontend/src/utilities/globalContext.tsx:14-18 | The fetched list becomes the state. |
| `GlobalContext.EntryProvider.SaveEntry` | frontend/src/utilities/globalContext.tsx:48-52 | After a resolved POST, the state is a new list: the old entries followed by the entry the server returned. A rejected POST leaves the list as it was. |
| `GlobalContext.EntryProvider.UpdateEntry` | frontend/src/utilities/globalContext.tsx:54-62 | After a resolved PUT, the same array holds `ReplaceFirst` of its old contents. A rejected PUT leaves it untouched. |
| `GlobalContext.EntryProvider.DeleteEntry` | frontend/src/utilities/globalContext.tsx:63-66 | After a resolved DELETE, the state is a new list of the entries whose id differs. A rejected DELETE leaves it as it was. |
| `GlobalContext.EntryProvider.ToggleDarkMode` | frontend/src/utilities/globalContext.tsx:20-33 | The dark-mode state becomes `Toggled` of the old one. The flag, stored string and root class stay consistent, and the entry list is untouched. |

## Left out

- Prisma, the database connection, fastify and CORS are not modelled. The table is the field `rows`, and replies are `Reply` values rather than HTTP responses. Every `Fail` reply is sent with status 500.
- A request body that is not a JSON object is not represented: `Body` always has the five properties, each possibly absent. With no body or a `null` body, `req.body` is undefined or null. The date coercion then throws before the `try` (backend/src/server.ts:43-49 for create, 73-78 for update). Fastify then sends its own generic 500 error object, not `{msg: "Error creating entry"}` or `{msg: "Error updating"}`.
- The table's typing rules (`InsertedRow`, `MergeString`, `MergeDate`, `MergedRow`) are an assumption about the store, not code of this repository. A date column accepts only a valid Date. The Invalid Date, and the falsy values the update path leaves uncoerced, are refused. Unknown extra properties of a body, which the store would refuse, are not represented.
- List order is modelled as insertion order, with updates in place. The code asks the store for no order: `findMany` at backend/src/server.ts:23 has no `orderBy`. The tests at backend/test/server.test.ts:62-64 rely on insertion order.
- Id generation: the generated id is the parameter `freshId`, and the only thing assumed of it is that it is unused.
- `Date.parse` is the parameter `parse`. Nothing is assumed about it, except the `toString`/`Date.parse` assumption stated for `ValidateCreateEntry` on the next line. Date-to-string formatting (ISO strings, `toString`) is not modelled, nor is JSON serialization of dates. The client's `Stamp` allows both a Date and a string.
- `ValidateCreateEntry`: the check `isNaN(Date.parse(d.toString()))` is modelled as "d is the Invalid Date", because engines produce a `toString()` that parses back for every valid Date and `"Invalid Date"` for the invalid one. The validator is only ever called on the coerced body, where `scheduled_date` is a Date.
- Numbers in request bodies are integers. Fractions, arrays and nested objects as property values are not represented.
- `new Date()` is `Time(now)`, with `now` not clipped.
- `Js.Trim`: the contract states that the result has no whitespace at either end and is empty exactly for blank strings (`TrimIsEmptyIffBlank`). It does not state which contiguous part of the input is kept.
- The double reply in `GET /get/:id` is modelled as the error reply only, because the second send is ignored.
- Concurrency is left out: the parallel-create test, interleaving of requests, and the stale `entries` captured by `saveEntry`'s closure. The model uses the current list.
- React's rendering is left out: `useEffect` lifecycles, and re-render bail-out when `updateEntry` returns the same array. The `console.log` call is left out too.
- `localStorage` and `document.documentElement.classList` are modelled as the fields `storedDarkMode` and `rootHasDark`.
- The form, navigation bar and settings dialog are presentational and not modelled.
