# FamilyApp data store, in Dafny

This project models the persistent store of the FamilyApp household
organiser. `DataStore` keeps three ordered collections in memory: family
members, tasks and events. After every change it writes all three, as one
payload, over a single file (`store.json`). When it is created it reads that
file back.

- `Values.dfy`: `Option` (Swift's optional), `Uuid` (128-bit) and `Date`
  (its seconds as a `real`). Only equality is ever used on `Uuid` and `Date`.
- `Models.dfy`: the record types `FamilyMember`, `Task` and `FamilyEvent`,
  with their optional fields as `Option`. `MemberId`, `TaskId` and `EventId`
  give each record's `Identifiable` identity.
- `Collections.dfy`: what the store does to one array, stated on values and
  generic in the record type:
  - `FirstIndex` is `firstIndex(where: { $0.id == id })`.
  - `ReplaceFirst` is the update.
  - `RemoveOffsets` is `remove(atOffsets:)`.
  - `DistinctIds` says no two elements share an id.
  - `FindFirst` and `RemoveAtOffsets` are the two scans, written as loops
    and proved against those definitions.
- `DataStore.dfy`: the class `DataStore`.
  - Its fields `members`, `tasks` and `events` are sequences.
  - Its field `disk` is the file. `Disk` is `Absent` (missing or
    unreadable), `Corrupt` (present but does not decode) or `Valid(payload)`.
  - `Save` either overwrites `disk` with the whole current state or, when
    encoding or writing fails, leaves it unchanged. The failure is
    swallowed, so success or failure is a nondeterministic choice inside
    `Save`. The model assumes a failed write leaves the old file intact
    (see "Left out").
  - Each method's `modifies` clause names only its own collection and
    `disk`. So the other two collections are unchanged by every operation.
  - `Scenarios` is a client that checks the end-to-end behaviour from the
    contracts alone:
    - a saved member comes back after a relaunch;
    - a task keeps its assignment after its assignee is removed;
    - removing position 0 of three tasks keeps the other two, in order;
    - an update with an unknown id changes nothing.

Identifier freshness on add is not checked by the store. The model does not
require it either. The add methods state that ids stay distinct exactly when
the new id is fresh.

## Model

| member | source | states |
|---|---|---|
| Store.DataStore.constructor | Sources/FamilyApp/Data/DataStore.swift:25-36 | The file is left as it was. The collections are the decoded payload when the file decodes, and all empty when it is missing, unreadable or corrupt. |
| Store.DataStore.Load | Sources/FamilyApp/Data/DataStore.swift:49-63 | A missing or unreadable file leaves the collections as they were. A corrupt file empties all three. A decoded payload replaces all three, in order. |
| Store.DataStore.Save | Sources/FamilyApp/Data/DataStore.swift:68-72 | Afterwards the file holds the whole current state. On a swallowed encode or write failure it is assumed to hold what it held before; a part-way write is not modelled (see Left out). |
| Store.DataStore.AddMember | Sources/FamilyApp/Data/DataStore.swift:77-80 | The member is appended after all earlier members. The file is the new state or unchanged. Ids stay distinct exactly when the new id is fresh. |
| Store.DataStore.UpdateMember | Sources/FamilyApp/Data/DataStore.swift:83-88 | The first member with the same id is replaced. With no such member, neither the members nor the file change. Distinct ids stay distinct. |
| Store.DataStore.RemoveMember | Sources/FamilyApp/Data/DataStore.swift:91-94 | Requires every offset to be in range. The members at those offsets are dropped, survivors keep their order, and the file is the new state or unchanged. |
| Store.DataStore.AddTask | Sources/FamilyApp/Data/DataStore.swift:99-102 | The same as AddMember, for tasks. |
| Store.DataStore.UpdateTask | Sources/FamilyApp/Data/DataStore.swift:105-110 | The same as UpdateMember, for tasks. |
| Store.DataStore.RemoveTask | Sources/FamilyApp/Data/DataStore.swift:113-116 | The same as RemoveMember, for tasks. |
| Store.DataStore.AddEvent | Sources/FamilyApp/Data/DataStore.swift:121-124 | The same as AddMember, for events. |
| Store.DataStore.UpdateEvent | Sources/FamilyApp/Data/DataStore.swift:127-132 | The same as UpdateMember, for events. |
| Store.DataStore.RemoveEvent | Sources/FamilyApp/Data/DataStore.swift:135-138 | The same as RemoveMember, for events. |
| Store.Relaunch | Sources/FamilyApp/Data/DataStore.swift:49-72 | A store opened over a file that another store persisted holds the same three collections, including absent optional fields. |
| Store.DanglingAssignment | Sources/FamilyApp/Models/Task.swift:14 | After a task's assignee is removed by position, no member carries the task's `assignedMemberID` any more. |
| Store.RemoveFirstOfThree | Sources/FamilyApp/Data/DataStore.swift:113-116 | Removing offset 0 from tasks `[a, b, c]` leaves `[b, c]`. |
| Collections.FirstIndex | Sources/FamilyApp/Data/DataStore.swift:84 | The result is `None` exactly when no element has the id. Otherwise it is an in-range position holding the id, with no element before it holding the id. |
| Collections.FirstIndexIsFirstMatch | Sources/FamilyApp/Data/DataStore.swift:84 | A position that holds the id, with no match before it, is the position `firstIndex` returns. |
| Collections.FindFirst | Sources/FamilyApp/Data/DataStore.swift:84 | A left-to-right scan returns exactly `FirstIndex`. |
| Collections.ReplaceFirstAt | Sources/FamilyApp/Data/DataStore.swift:84-85 | The length is unchanged. The new record stands exactly at the first position holding its id. Every other position keeps its element. |
| Collections.ReplaceFirstMiss | Sources/FamilyApp/Data/DataStore.swift:84-87 | An update whose id no element has returns the sequence unchanged. |
| Collections.ReplaceFirstKeepsIds | Sources/FamilyApp/Data/DataStore.swift:84-85 | An update keeps the sequence of ids, in order. |
| Collections.ReplaceFirstKeepsDistinct | Sources/FamilyApp/Data/DataStore.swift:84-85 | An update keeps ids pairwise distinct. |
| Collections.ReplaceFirstIdempotent | Sources/FamilyApp/Data/DataStore.swift:83-88 | Updating twice with the same record equals updating once. |
| Collections.AppendKeepsDistinct | Sources/FamilyApp/Data/DataStore.swift:78 | Appending to a sequence with distinct ids keeps them distinct if and only if the new id is fresh. |
| Collections.Survivors | Sources/FamilyApp/Data/DataStore.swift:92 | Lists, in strictly increasing order, exactly the positions below n that are not removed. |
| Collections.RemoveOffsetsSelects | Sources/FamilyApp/Data/DataStore.swift:92 | The result of a removal is, in order, the elements at the surviving positions of the original sequence. |
| Collections.SurvivorsCount | Sources/FamilyApp/Data/DataStore.swift:92 | Every position below n is either a survivor or a removed offset: the two counts add up to n. |
| Collections.RemoveOffsetsLength | Sources/FamilyApp/Data/DataStore.swift:92 | With all offsets in range, the length drops by exactly the number of offsets. |
| Collections.RemoveNothing | Sources/FamilyApp/Data/DataStore.swift:92 | Removing an empty set of offsets leaves the sequence unchanged. |
| Collections.RemoveOffsetsKeepsDistinct | Sources/FamilyApp/Data/DataStore.swift:92 | A removal keeps ids pairwise distinct. |
| Collections.RemoveOffsetsKeepsExactlySurvivors | Sources/FamilyApp/Data/DataStore.swift:92 | With distinct ids, an element's id is still present after a removal if and only if its position was not removed. |
| Collections.RemoveAtOffsets | Sources/FamilyApp/Data/DataStore.swift:92 | Requires every offset to be in range. One pass builds exactly `RemoveOffsets`. |

The record types themselves are the datatypes in `Models.dfy`. They follow
`Sources/FamilyApp/Models/FamilyMember.swift:10-15`,
`Sources/FamilyApp/Models/Task.swift:9-15` and
`Sources/FamilyApp/Models/FamilyEvent.swift:8-13`:

- `birthday`, `description`, `dueDate` and `assignedMemberID` are `Option`s.
- An event's `date` is mandatory.
- Every field, including whether each optional field is present, is part of
  the persisted `SaveData`. So `Relaunch` returns every field unchanged.

## Left out

- Store.DataStore.Save: the write at `DataStore.swift:71` is not atomic. A
  write that fails part-way can leave a truncated file, which the next launch
  reads as `Corrupt` and so starts with three empty collections. The model
  assumes a failed write leaves the file intact. `Save` can therefore never
  turn a `Valid` file into a `Corrupt` one.
- Change notification (`ObservableObject`, `@Published`): this is SwiftUI
  framework behaviour. The model has no observers. Every assignment to a
  collection would notify them.
- File location: the Application Support lookup, directory creation and the
  file name (`DataStore.swift:26-33`) are `FileManager` I/O. The file is the
  `disk` field.
- JSON encoding and decoding are Foundation library code.
  - A file that does not decode is `Corrupt`. The model does not say which
    byte sequences those are.
  - The model does not prove a byte-level round trip.
  - `Date` is stored as floating-point seconds by the default encoder. The
    model represents a `Date` by its seconds as a `real` and only compares
    dates for equality. It assumes a date survives encoding unchanged.
- `UUID()` generation: the default `id` of each record is random. In the
  model, ids are supplied by the caller.
- The SwiftUI views, the app entry point and the Android/Gradle tree. The
  views trim titles and names and refuse empty ones before adding. They also
  treat an assignment whose member is gone as unassigned. That is caller
  behaviour and is not modelled.
- Out-of-range offsets: `remove(atOffsets:)` traps on them. The remove
  methods require every offset to be in range and model no failure path.
- Integer width: offsets are unbounded `nat`s. Swift's 64-bit `Int` is not
  modelled, because no reachable collection comes near that size.
