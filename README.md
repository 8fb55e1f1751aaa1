# Contact triage: completeness scoring and swipe state

A Dafny model of the contact-triage rules of a small contact app. There are two variants:

- **The device service** (`app/src/services/contacts.ts`). Swipe decisions are stored locally as a map from contact id to a swipe record.
  - A failed load falls back to an empty map.
  - A swipe loads the map, records the decision and saves the map back. A failed save is reported to the caller.
  - Device contacts are decorated with their status. The contacts swiped `right` form the accepted list.
  - Each accepted contact gets a completeness report over four categories: birthday, address, phone and email.
- **The server service** (`server/src/layers/contacts.ts`). It works on a `contacts` table.
  - A new row always starts `pending`.
  - A swipe overwrites the status of an existing row and fails on an unknown id.
  - Looking up an unknown id yields null.
  - The accepted list reports completeness over a different taxonomy: birthday, address, relationship, and socials. Socials counts when any of the Instagram, Twitter or Facebook handles is set.

The two evaluators are kept separate because their taxonomies differ. Their shared arithmetic is in one module:
- the count of satisfied categories (`fields.filter(Boolean).length`);
- the percentage `completed / 4 * 100`;
- the list of missing categories, in declaration order.

Modules:
- `Wrappers`: Option, Result and Outcome.
- `Swipe`: the status `pending | left | right`, and `Decision`, the two statuses a swipe records.
- `Lists`: `filter` and `map`.
- `Categories`: the shared evaluator arithmetic.
- `AppContacts`: the device service. The storage is the class `SwipeStorage`.
- `ServerContacts`: the server service. The table is the class `ContactsTable`.

Semantics carried over from TypeScript:
- JavaScript truthiness is written out. A birthday month or day of `0` counts as absent, like a missing one. An empty string counts as absent, like SQL NULL.
- The percentage is an exact `real`. For 0 to 4 of 4 categories, the double the code computes is exactly the same value.
- Failures of the storage backend are the `readFails` and `writeFails` flags of `SwipeStorage`. Stored content that does not parse is `stored == None`. An absent key reads as `{}`, so it is `stored == Some(map[])` with `readFails == false`.
- Permission to read the address book is the parameter `granted`.
- The generated uuid and the current time are parameters.

A consequence the model makes explicit: when the load fails and the save succeeds, `updateSwipeStatus` saves a map that holds only the new record. All previously stored swipes are then replaced (`AppContacts.SwipeStorage.UpdateSwipeStatus`). When the load failed because the content did not parse, that save also repairs it (`AppContacts.CorruptThenSwipeScenario`).

## Model

| member | source | states |
|---|---|---|
| `Categories.CountTrue` | app/src/services/contacts.ts:100-101 | The completed count is at most the number of categories. It equals that number iff every flag is set, and is 0 iff none is. |
| `Categories.Missing` | app/src/services/contacts.ts:104-108 | The missing list is no longer than the categories, and every entry is a category name. |
| `Categories.MissingCount` | app/src/services/contacts.ts:100-108 | The missing list's length plus the completed count is the number of categories. |
| `Categories.IndexOf` | app/src/services/contacts.ts:104-108 | The declaration position of a category name: the first index holding it. |
| `Categories.MissingMembership` | app/src/services/contacts.ts:104-108 | A name is missing iff some category of that name is unsatisfied. |
| `Categories.MissingInOrder` | app/src/services/contacts.ts:104-108 | With distinct names, the missing names appear in strictly increasing declaration position. |
| `Categories.MissingAppend` | server/src/layers/contacts.ts:64-68 | The missing list of concatenated categories is the concatenation of their missing lists. |
| `Categories.MissingPush` | server/src/layers/contacts.ts:64-68 | Examining one more category appends its name exactly when its flag is unset (one `push`). |
| `Categories.MissingPrefix` | app/src/services/contacts.ts:104-108 | After examining categories 0 to k, the pushed list is the missing list of those categories. |
| `Categories.MissingOfFour` | app/src/services/contacts.ts:104-108 | With four categories, the missing list is the four conditional pushes, in category order. |
| `Categories.MissingAll` | app/src/services/contacts.ts:104-108 | With no category satisfied, the missing list is every name, in declaration order. |
| `Categories.Percentage` | app/src/services/contacts.ts:102 | The percentage is the completed count over the number of categories, times 100, as an exact real. Its meaning for four categories is `Categories.PercentageOfFour`. |
| `Categories.PercentageOfFour` | app/src/services/contacts.ts:100-102 | Of four categories, the percentage is 25 per satisfied one. It is one of 0, 25, 50, 75, 100, and it is 100 iff all four are satisfied. |
| `Lists.Filter` | app/src/services/contacts.ts:127-129 | `filter` keeps only elements of the input that pass, and keeps every input element that passes. |
| `Lists.Map` | app/src/services/contacts.ts:131 | `map` keeps the length, and each output element is the function applied to the input element at the same position. |
| `Lists.FilterAppend` | app/src/services/contacts.ts:38-39 | Filtering is stable: it distributes over concatenation, so it never reorders. |
| `Lists.MapAppend` | app/src/services/contacts.ts:82-91 | Mapping distributes over concatenation, position by position. |
| `Lists.FilterNone` | app/src/services/contacts.ts:127-129 | A filter that rejects every element yields the empty list. |
| `AppContacts.Truthy` | app/src/services/contacts.ts:95 | JavaScript truthiness of an optional number: an absent value and 0 are false, every other number is true. |
| `AppContacts.HasBirthday` | app/src/services/contacts.ts:95 | A birthday counts when the date exists and both its month and its day are truthy. `AppContacts.BirthdayNeedsMonthAndDay` states it without the helper. |
| `AppContacts.HasAddress` | app/src/services/contacts.ts:96 | The address list exists and is non-empty. |
| `AppContacts.HasPhone` | app/src/services/contacts.ts:97 | The phone-number list exists and is non-empty. |
| `AppContacts.HasEmail` | app/src/services/contacts.ts:98 | The e-mail list exists and is non-empty. |
| `AppContacts.Completeness` | app/src/services/contacts.ts:94-120 | The report carries the contact's id and name. |
| `AppContacts.CalculateCompleteness` | app/src/services/contacts.ts:94-120 | The four tests and the four conditional pushes give exactly the specification report. The pushed list equals the missing list of the report's own flags in declaration order. |
| `AppContacts.PercentageCountsCategories` | app/src/services/contacts.ts:100-102 | The percentage is 25 times the number of true flags in the report, so it is one of 0, 25, 50, 75, 100. |
| `AppContacts.MissingFieldsNameUnsatisfied` | app/src/services/contacts.ts:104-108 | `birthday`, `address`, `phone`, `email` are each missing iff the report's corresponding flag is false. |
| `AppContacts.MissingFieldsCount` | app/src/services/contacts.ts:100-108 | The missing count plus the completed count is 4. The missing list is empty iff the percentage is 100. |
| `AppContacts.MissingFieldsOrdered` | app/src/services/contacts.ts:104-108 | The missing fields follow the order birthday, address, phone, email. |
| `AppContacts.BirthdayNeedsMonthAndDay` | app/src/services/contacts.ts:95 | A birthday counts iff the date exists and its month and day are both present and non-zero. It is reported missing exactly when it does not count, so a year alone, or a month or day of 0, is reported missing. |
| `AppContacts.EmptyContactMissesAll` | app/src/services/contacts.ts:95-108 | A contact with no category populated scores 0 and misses all four categories in order. |
| `AppContacts.FullContactMissesNone` | app/src/services/contacts.ts:95-108 | A contact with every category populated scores 100 and misses nothing. |
| `AppContacts.WithIds` | app/src/services/contacts.ts:38-43 | Only contacts from the address book are kept. Every one with an id is kept. |
| `AppContacts.WithIdsIsStable` | app/src/services/contacts.ts:38-43 | Dropping entries without id preserves the order of the rest. |
| `AppContacts.LoadDeviceContacts` | app/src/services/contacts.ts:20-44 | Without permission the result is the permission error. With permission, it is the contacts that have an id. |
| `AppContacts.StatusOf` | app/src/services/contacts.ts:89 | The status stored for an id, or `pending` when the map holds no record for it. |
| `AppContacts.Merge` | app/src/services/contacts.ts:87-90 | Same length and order as the input. Each element carries its contact and that contact's stored status, or `pending` when none is stored. |
| `AppContacts.Accepted` | app/src/services/contacts.ts:127-129 | The contacts whose stored status is `right`, in input order. Its meaning is `AppContacts.AcceptedExactly`. |
| `AppContacts.RightSwipedReports` | app/src/services/contacts.ts:127-131 | The completeness report of each accepted contact, in order. Its meaning is `AppContacts.RightSwipedReportsExactly`. |
| `AppContacts.AcceptedExactly` | app/src/services/contacts.ts:127-129 | A contact is accepted iff it is in the input and its stored status is `right`. |
| `AppContacts.RightSwipedReportsExactly` | app/src/services/contacts.ts:127-131 | Every report in the accepted list is the report of an input contact whose status is `right`. Every such contact's report is in the list. |
| `AppContacts.MergeThenKeep` | app/src/services/contacts.ts:82-91 | Decorating every contact and keeping those decorated `right` gives the same list as the direct `right` filter. |
| `AppContacts.NothingRecordedAllPending` | app/src/services/contacts.ts:47-55 | With an empty swipe map, as after a failed load, every contact reads `pending` and the accepted list is empty. |
| `AppContacts.RecordSetsStatus` | app/src/services/contacts.ts:73-77 | Recording a decision for an id makes it that id's status. No other id's status changes. |
| `AppContacts.SwipeStorage.constructor` | app/src/services/contacts.ts:5 | A storage holding the given map under the swipe key, with the given failure behaviour. |
| `AppContacts.SwipeStorage.LoadFails` | app/src/services/contacts.ts:47-55 | A load falls back to `{}` when the backend fails or the stored content does not parse. An absent key is not a failure: it is stored as the empty map. |
| `AppContacts.SwipeStorage.Loaded` | app/src/services/contacts.ts:47-55 | What a load yields: the stored map, or the empty map when the load fails. |
| `AppContacts.SwipeStorage.LoadSwipeData` | app/src/services/contacts.ts:47-55 | A load yields the stored map, or the empty map when the backend fails or the content does not parse. |
| `AppContacts.SwipeStorage.SaveSwipeData` | app/src/services/contacts.ts:58-65 | A save replaces the stored content with the serialised map and passes, so a working backend then loads exactly that map, even if the content before was unparseable. A failing save leaves the stored content unchanged and reports the failure. |
| `AppContacts.SwipeStorage.UpdateSwipeStatus` | app/src/services/contacts.ts:68-79 | After a successful save, the stored map is the loaded map with `{contactId, status, timestamp}` recorded for the id. So after a successful load the id's status is the new one and every other id keeps its status. After a failed load only the new record remains, and unparseable content is replaced by a readable map. A failed save changes nothing and is reported. |
| `AppContacts.SwipeStorage.MergeContactsWithSwipes` | app/src/services/contacts.ts:82-91 | Each contact, in order, with its loaded status. All are `pending` when the load fails. |
| `AppContacts.SwipeStorage.GetRightSwipedContacts` | app/src/services/contacts.ts:123-132 | The permission error without permission. Otherwise the reports of the device contacts that have an id and whose loaded status is `right`, in order. The list is empty when the load fails. |
| `AppContacts.SwipeTwiceScenario` | app/src/services/contacts.ts:68-79 | Swiping right then left leaves the contact `left` (last write wins). A failing save is reported as a failure. |
| `AppContacts.CorruptThenSwipeScenario` | app/src/services/contacts.ts:47-79 | With unparseable stored content the contact first reads `pending`. After a right swipe it reads `right`: the save repaired the content. |
| `ServerContacts.Present` | server/src/layers/contacts.ts:55-58 | JavaScript truthiness of a nullable text column: NULL and the empty string are false. |
| `ServerContacts.HasBirthday` | server/src/layers/contacts.ts:55 | The birthday column is truthy. |
| `ServerContacts.HasAddress` | server/src/layers/contacts.ts:56 | The address column is truthy. |
| `ServerContacts.HasRelationship` | server/src/layers/contacts.ts:57 | The relationship column is truthy. |
| `ServerContacts.HasSocials` | server/src/layers/contacts.ts:58 | At least one of the Instagram, Twitter and Facebook columns is truthy. |
| `ServerContacts.Completeness` | server/src/layers/contacts.ts:54-80 | The report carries the row's id and name. |
| `ServerContacts.CalculateCompleteness` | server/src/layers/contacts.ts:54-80 | The four tests and the four conditional pushes give exactly the specification report. The pushed list equals the missing list of the report's own flags in declaration order. |
| `ServerContacts.PercentageCountsCategories` | server/src/layers/contacts.ts:60-62 | The percentage is 25 times the number of true flags in the report, so it is one of 0, 25, 50, 75, 100. |
| `ServerContacts.MissingFieldsNameUnsatisfied` | server/src/layers/contacts.ts:55-68 | `birthday`, `address`, `relationship` are each missing iff that column is NULL or empty. `socials` is missing iff all three handles are NULL or empty. |
| `ServerContacts.MissingFieldsCount` | server/src/layers/contacts.ts:60-68 | The missing count plus the completed count is 4. The missing list is empty iff the percentage is 100. |
| `ServerContacts.MissingFieldsOrdered` | server/src/layers/contacts.ts:64-68 | The missing fields follow the order birthday, address, relationship, socials. |
| `ServerContacts.ReportIgnoresOtherColumns` | server/src/layers/contacts.ts:55-58 | Phone, e-mail, swipe status and timestamps do not affect the report. An empty address or empty handles read the same as NULL ones. |
| `ServerContacts.EmptyContactMissesAll` | server/src/layers/contacts.ts:55-68 | A row with no category populated scores 0 and misses all four categories in order. |
| `ServerContacts.FullContactMissesNone` | server/src/layers/contacts.ts:55-68 | A row with every category populated scores 100 and misses nothing. |
| `ServerContacts.Inserted` | server/src/layers/contacts.ts:98-116 | The inserted row has the generated id and status `pending`. |
| `ServerContacts.CompleteContactScenario` | server/src/__tests__/contacts.test.ts:79-109 | The fully populated test contact, swiped right, has all four flags set, scores 100 and misses nothing. |
| `ServerContacts.PartialContactScenario` | server/src/__tests__/contacts.test.ts:114-145 | The contact with only birthday and relationship scores 50 and misses `["address", "socials"]`. |
| `ServerContacts.ContactsTable.constructor` | server/src/layers/database.ts:28-42 | A new table is empty, and every row of a table is keyed by its own id. |
| `ServerContacts.ContactsTable.GetContact` | server/src/layers/contacts.ts:26-33 | The result is null (not an error) iff no row has the id. Otherwise it is a row of the table with that id. |
| `ServerContacts.ContactsTable.Select` | server/src/layers/contacts.ts:85-87 | The query yields every row satisfying the condition, each exactly once, and no other row. |
| `ServerContacts.ContactsTable.GetAllContacts` | server/src/layers/contacts.ts:17-24 | Every row of the table, each exactly once. |
| `ServerContacts.ContactsTable.GetSwipedRightContacts` | server/src/layers/contacts.ts:82-92 | Exactly the rows whose status is `right` are reported, each exactly once. Each report equals the evaluator applied to its row. |
| `ServerContacts.ContactsTable.CreateContact` | server/src/layers/contacts.ts:94-122 | With a fresh id, the table gains exactly one row: the given fields with status `pending`. That row is returned and can be looked up. With an id already taken, the primary-key error is reported and nothing changes. |
| `ServerContacts.ContactsTable.UpdateSwipeStatus` | server/src/layers/contacts.ts:35-52 | On an existing id, only that row changes: its status and update time are overwritten, and the row is returned. On a missing id, the not-found error is reported and no row changes. |
| `ServerContacts.SwipeRightThenListScenario` | server/src/__tests__/contacts.test.ts:77-110 | After creating a complete contact and swiping it right, the accepted list reports it at 100. After a later left swipe it is no longer listed. |

## Left out

- `checkContactsPermission` and `requestContactsPermission` call the device permission API. The permission outcome is the `granted` parameter of `LoadDeviceContacts`.
- Fetching the address book is a foreign call. The fetched entries are a parameter. Only the fields that the contact type declares are modelled.
- Local storage and JSON serialisation are abstracted. The stored map is held directly as `Some(m)`. Content that does not parse is `None`, and a missing key is the empty map. `readFails` is a failure of the storage backend itself, which persists until the flag is changed. Stored JSON that parses to something other than an object (such as `null`) is not modelled.
- Each service call is modelled as one atomic step. In the source, `updateSwipeStatus` awaits a load and then a save (app/src/services/contacts.ts:72-78), and the screens do not await it. Two overlapping calls can therefore both load the same map, and the later save drops the earlier record. The model does not capture this lost write.
- Log output on load and save failures is not modelled.
- The error of a failing save is the abstract `SaveFailed`, not the storage backend's own error value.
- JavaScript plain-object keys with special meaning (such as `__proto__`) are treated as ordinary map keys.
- A non-integer or NaN birthday month or day is not modelled. Month and day are integers.
- `new Date().toISOString()` and SQL `datetime('now')` are timestamp parameters.
- `ServerContacts.ContactsTable.GetAllContacts`: does not state the `ORDER BY created_at DESC` order, because creation times are opaque parameters. It states that each row appears exactly once.
- `ServerContacts.ContactsTable.GetSwipedRightContacts`: does not state the `ORDER BY updated_at DESC` order, for the same reason.
- `ServerContacts.ContactsTable.CreateContact`: of the database errors the service wraps, only the duplicate-id error is modelled. Other SQLite failures are outside the model. A NULL name cannot arise, since the name is a string.
- The row type file of the server (`server/src/types/database.ts`) is not part of this model. The row's columns follow the `CREATE TABLE` statement in `server/src/layers/database.ts`.
- HTTP routing is not modelled: status codes, "name is required", and rejecting statuses other than `left`/`right`. The status check is the `Decision` type that both `UpdateSwipeStatus` methods take.
- Database bootstrap and seeding are not modelled.
- The HTTP client for the remote API is not modelled.
- The React screens are not modelled. This includes the pending-queue filter they apply to the merged list, and the rule that the card index advances only after a successful save.
- The swipe-card gesture code is not modelled.
- `Math.round` of the percentage in the list screen is presentation and is not modelled.
- `getContactStatistics` is used by the summary screen but is not defined in the modelled files.
- server/src/layers/contacts.ts:55-58 counts neither phone nor e-mail toward a server row's completeness. The model follows that code (`ServerContacts.ReportIgnoresOtherColumns`).
