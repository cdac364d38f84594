# SMS bridge of the knom Android shell, modelled in Dafny

The knom application's Android activity (`MainActivity.kt`) registers a
handler on the Flutter method channel `sms_reader`. A call named `readSMS`
is answered, when the READ_SMS permission is granted, with the list of inbox
messages read through `readSMSMessages`; without the permission it is
answered with the error `PERMISSION_DENIED` / `SMS permission not granted`;
any other method name is answered "not implemented".

`readSMSMessages` queries the SMS inbox, resolves the indices of the five
columns `_id`, `address`, `body`, `date`, `type` once per cursor, and for
every row fills in defaults (an absent column gives `""`, the current time or
type 1; a null address or body gives `""`; a null id from a present column
stays null), keeps the row only if its type is 1, and appends its map to the
result in cursor order. A null cursor gives an empty list; any exception is
swallowed and the records gathered so far are returned.

Files:

- `main_activity.dfy`, module `MainActivity`: the data model (`Row`,
  `Cursor`, `Query`, `SmsRecord`, `CallOutcome`), the specification
  functions `ToRecord`, `Collect`, `ReadSpec`, `Handle`, and the method
  `ReadSmsMessages`, a `while` loop over the cursor rows proved to return
  `ReadSpec`.
- `read_properties.dfy`, module `ReadProperties`: the properties of the
  handler and of the read, as lemmas about those functions.

The content provider is an input: a `Query` says whether `query` throws,
returns a null cursor or returns a `Cursor`; a `Cursor` carries the column
indices `getColumnIndex` reported (negative = column absent), the rows as
their getters read them, and `faultAt == Some(k)` when the cursor throws
while row `k` is fetched or read. The permission check is the boolean
`granted`, and `System.currentTimeMillis()` is the parameter `clock`, a
function from row position to the reading taken while that row is read
(readings need not be equal or increasing).

The method name served is `readSMS`; the date falls back to the current time
only when the date column is absent (a NULL date in a present column is
whatever `getLong` yields); a null id from a present `_id` column is not
turned into `""`.

## Model

| member | source | states |
|---|---|---|
| MainActivity.Handle | android/app/src/main/kotlin/com/spendsight/knom/MainActivity.kt:21-33 | the outcome is NotImplemented exactly when the method name is not "readSMS", an error exactly when it is "readSMS" and permission is not granted, that error carries code PERMISSION_DENIED and message "SMS permission not granted", and a success carries the list the read returns |
| MainActivity.ReadSmsMessages | android/app/src/main/kotlin/com/spendsight/knom/MainActivity.kt:36-88 | the loop over the cursor rows returns exactly ReadSpec: the records of the inbox-type rows among those read before the cursor threw or ran out, in cursor order |
| MainActivity.ReadSpec | android/app/src/main/kotlin/com/spendsight/knom/MainActivity.kt:47-87 | the returned list holds only type-1 records, has no more entries than rows read, and is empty when the query throws or yields a null cursor |
| MainActivity.Collect | android/app/src/main/kotlin/com/spendsight/knom/MainActivity.kt:63-81 | the gathered list holds only records of type 1 and is never longer than the rows it came from |
| MainActivity.ToRecord | android/app/src/main/kotlin/com/spendsight/knom/MainActivity.kt:64-68 | a present column carries the row's value into the record (id as read, null included; address and body when non-null; date; type); an absent id column gives "", so the id is null only for a present column yielding null; address and body are "" exactly when the column is absent, the value is null or the value is ""; an absent date column gives the row's clock reading; the type is 1 exactly when the type column is absent or the row's type is 1 |
| MainActivity.RowsRead | android/app/src/main/kotlin/com/spendsight/knom/MainActivity.kt:63 | the number of rows processed is at most the row count, no row before it faults, and if rows remain the fault is at that row |
| ReadProperties.OtherMethodsNotImplemented | android/app/src/main/kotlin/com/spendsight/knom/MainActivity.kt:22-31 | any method name other than "readSMS" gives NotImplemented, the same whatever the permission flag and the store |
| ReadProperties.DeniedNeverReadsStore | android/app/src/main/kotlin/com/spendsight/knom/MainActivity.kt:24-28 | "readSMS" without permission gives exactly Error("PERMISSION_DENIED", "SMS permission not granted"), the same for every store and clock |
| ReadProperties.CollectAppend | android/app/src/main/kotlin/com/spendsight/knom/MainActivity.kt:71-80 | reading rows a then rows b gathers a's records followed by b's, b's rows seeing the clock readings after a's (order-preserving append) |
| ReadProperties.CollectSelectsInboxRows | android/app/src/main/kotlin/com/spendsight/knom/MainActivity.kt:63-81 | the result is exactly the in-order subsequence, at strictly increasing row positions, of the records of the rows whose resolved type is 1, and every such row is among them |
| ReadProperties.InboxRowIncluded | android/app/src/main/kotlin/com/spendsight/knom/MainActivity.kt:70-80 | every row whose resolved type is 1 contributes its record to the result |
| ReadProperties.DefaultsUniform | android/app/src/main/kotlin/com/spendsight/knom/MainActivity.kt:57-67 | with column presence fixed per cursor, every record of the read is built alike from its own row: a present column carries that row's value (a null address or body as ""), an absent id, address or body column gives "", and an absent date column gives the clock reading taken at that row's position |
| ReadProperties.AbsentTypeKeepsEveryRow | android/app/src/main/kotlin/com/spendsight/knom/MainActivity.kt:68-71 | without a type column every row is kept: the result has one record per row, the record of that row |
| ReadProperties.NewestFirstPreserved | android/app/src/main/kotlin/com/spendsight/knom/MainActivity.kt:48-81 | if the store hands rows in date-descending order and the date column is present, the result is date-descending too |
| ReadProperties.NoCursorEmptySuccess | android/app/src/main/kotlin/com/spendsight/knom/MainActivity.kt:47-56 | a null cursor, and a query that throws, give a success with the empty list |
| ReadProperties.FaultKeepsGatheredRecords | android/app/src/main/kotlin/com/spendsight/knom/MainActivity.kt:83-87 | a cursor that throws after k rows still gives a success holding exactly the records of those k rows, equal to the answer for a fault-free cursor of those k rows, and a prefix of the answer had it not thrown |
| ReadProperties.WithinQueryLimit | android/app/src/main/kotlin/com/spendsight/knom/MainActivity.kt:53 | when the provider honours the 1000-row limit, the read returns at most 1000 records |
| ReadProperties.ThreeRowRead | android/app/src/main/kotlin/com/spendsight/knom/MainActivity.kt:63-80 | rows of types 1, 2, 1 dated 300, 200, 100 give the first and third records in that order, a null address and body becoming "" |

## Left out

- The Flutter `MethodChannel` transport and the activity lifecycle: the handler is a function from the call's method name to a returned `CallOutcome` instead of calls on `result`; the `null` error details argument is not carried.
- The Android permission system: `checkSelfPermission` is the input `granted`.
- `ContentResolver.query`, the `content://sms/inbox` URI, the projection and the `date DESC LIMIT 1000` sort order: the provider's behaviour is the input `Query`; the ordering and the 1000-row cap are assumptions stated as preconditions of NewestFirstPreserved and WithinQueryLimit, never something the code enforces.
- How `getLong`/`getInt` convert a NULL cell and how `getColumnIndex` looks names up: provider behaviour, taken as the row values and column indices of the input cursor.
- `System.currentTimeMillis()`: the parameter `clock`, one reading per row position; how the platform clock behaves is not modelled.
- `printStackTrace` and closing the cursor through `use`: diagnostics and resource release with no effect on the returned list.
- The result entries are `Map<String, Any>` keyed "id", "address", "body", "date", "type"; the model uses a record with those five fields.
- The unused `SMS_PERMISSION_CODE` and the channel name constant.
