# Patient record store

This is a Dafny model of a small FastAPI patient-management service. The service keeps one
JSON object, in `data.json`, that maps patient ids to patient records. Its endpoints are:

- create a patient;
- view all patients;
- view one patient;
- sort the patients by `age` or `patient_id`;
- update some fields of a patient;
- delete a patient.

A separate login endpoint compares a user id and password against a user-to-password map.
That map is read from the environment.

Each endpoint loads the whole object, performs one dictionary operation and, if it wrote
anything, saves the whole object back. The model keeps the loaded object as the state of a
`Store` class:

- `ids` holds the keys in the object's order. That order is Python's insertion order, and
  JSON dump and load preserve it.
- `data` maps each id to its record.

The three endpoints that write are methods that reassign these fields. The three that only
read are functions. Requests that Pydantic rejects before the handler runs fail with
`Invalid`, and leave the store unchanged.

Modules:

- `Results` (results.dfy): the error kinds and `Result`/`Option`. The service reports the
  store's own errors with the same status, 404. The model gives each its own kind:
  `NotFound`, `AlreadyExists`, `InvalidSortField`, `UserNotFound` and `IncorrectPassword`.
  `Invalid` is FastAPI's 422. `Unorderable` is the `TypeError` that Python's `sorted` raises
  when it must compare keys it cannot order.
- `Patients` (patients.dfy): the `Patient` create body and its field constraints, and the
  record a create stores. Also the `PatientUpdate` body, its constraints, and how an update
  is written over a record.
- `Sorting` (sorting.dfy): the sort key `record.get(field, 0)`, Python's string order, and
  a stable insertion sort that stands for `sorted(..., reverse=...)`. It is proved sorted,
  a permutation, and stable.
- `PatientStore` (store.dfy): the `Store` class with the six store endpoints, and lemmas and
  client methods about it.
- `Auth` (auth.dfy): the login check.

Several source files repeat code from one another:

- practice.py:29-56 repeats get/advance.py:36-63 (`view`, `view_patient`, `sorted_data`).
- post.py:17-26 repeats the login of post/post.py:47-56. Only the success message differs.

One member models each operation. The table's rows for practice.py and post.py name the
lemmas that state the shared behaviour.

Facts about the code that shape the model:

- The two `Patient` declarations disagree on the lowest age: 0 in the create body
  (post/post.py:27), 1 in the declaration beside the read endpoints (get/advance.py:13),
  which no endpoint uses. Both bounds are modelled: `ValidPatient(p, CreateMinAge)` and
  `ValidPatient(p, ViewMinAge)`.
- No constraint forbids empty strings, so names and other strings may be empty.
- A stored record has no `patient_id` field, because create drops it (post/post.py:71).
  Reading a created patient back gives the record without its id; `RecordRoundTrip` shows
  that the record, together with the id it is stored under, gives back the created patient.

An update may set any field to an explicit null, `age` included. Once a record with a null
age sits beside another record, sorting by age fails. `NullAgeBreaksAgeSort` and
`NullAgeUpdateBreaksAgeSort` state this.

## Model

| member | source | states |
|---|---|---|
| `Patients.ValidPatient` | post/post.py:27-29 | A Patient body is accepted exactly when its age lies between the given lowest age and 120, its gender is one of male, female, others, and its blood group is one of the eight listed groups. No other field is constrained. |
| `Patients.AgeZeroSeparatesVariants` | get/advance.py:13 | For a body whose gender and blood group are allowed, the read-side Patient (age 1..120) accepts only bodies the create Patient (age 0..120) also accepts. The two disagree exactly when the age is 0. |
| `Patients.ToRecord` | post/post.py:71 | The record a create stores has exactly the eleven non-id Patient fields. `patient_id` is not among them. |
| `Patients.RecordRoundTrip` | post/post.py:23-35 | Reading a stored record back under the id it is keyed by gives the created Patient, field for field. |
| `Patients.Predict` | post/post.py:41-45 | Succeeds exactly when the body is valid: age in 0..120, gender in {male, female, others}, blood group one of the eight. It then returns the lengths of the patient id and the e-mail; otherwise it fails with Invalid. |
| `Patients.ValidUpdate` | put/put.py:12-14 | An update body is accepted exactly when each of age, gender and blood group that it gives a value satisfies the create body's constraint (age 0..120); a field left unset or set to null is not checked. |
| `Patients.Merge` | put/put.py:46-49 | After an update, every field the request set holds the request's value, and an explicit null is stored as null. Every field the request left unset keeps its presence and its value. |
| `Patients.MergeIdempotent` | put/put.py:49 | Writing the same update twice gives the same record as writing it once. |
| `Patients.MergeNoChange` | put/put.py:46 | An update that sets no field leaves the record unchanged. |
| `Patients.MergeKeepsIdDetached` | put/put.py:9-20 | The update body has no `patient_id`, so a record without that field still lacks it after an update. |
| `Sorting.KeyOf` | get/advance.py:61 | The sort key of a record is the field's value, or 0 when the record lacks the field. Only integer and string keys can be ordered. |
| `Sorting.StrLe` | get/advance.py:61 | Python's comparison of two strings: code point by code point, a proper prefix before the longer string. |
| `Sorting.StrLeTotal` | get/advance.py:61 | Python's string order is total: of any two strings, one is at most the other. |
| `Sorting.StrLeTrans` | get/advance.py:61 | Python's string order is transitive. |
| `Sorting.StrLeAntisym` | get/advance.py:61 | Two strings that are each at most the other are equal. |
| `Sorting.Insert` | get/advance.py:61 | Inserting an element adds exactly that element to the multiset of elements. |
| `Sorting.StableSort` | get/advance.py:61 | The sort's output is a permutation of its input. |
| `Sorting.InsertSorted` | get/advance.py:61 | Inserting into a sorted sequence keeps it sorted, ascending or descending. |
| `Sorting.StableSortSorted` | get/advance.py:59-61 | The sort's output is sorted: keys are non-decreasing, or non-increasing when reversed. |
| `Sorting.FilterInsert` | get/advance.py:61 | Insertion places the new element before every element with the same key. The other elements with that key keep their order. |
| `Sorting.StableSortStable` | get/advance.py:61 | The sort is stable: for every key, the elements with that key appear in the output in their input order. This holds with reverse=True too. |
| `Sorting.StableSortOneKey` | get/advance.py:61 | When every element has the same key, the sort returns its input unchanged. |
| `Sorting.SortBy` | get/advance.py:61 | `sorted` with key `x.get(field, 0)` fails with Unorderable exactly when there are two or more records and the keys are neither all integers nor all strings. Otherwise the result is sorted in the requested direction, is a permutation of the records, and is stable. |
| `Sorting.SortByDefaultKeys` | get/advance.py:61 | When no record has the sort field, every key is the default 0, and the result is the records in their own order. |
| `Sorting.NullAgeBreaksAgeSort` | put/put.py:12 | An update may set age to null. In any list of two records or more, one record with a null age makes the age sort fail with Unorderable, ascending or descending. |
| `PatientStore.Without` | delete/delete.py:27 | Removing an id keeps every other id and only those. An absent id leaves the order untouched; in a list of distinct ids, the result is the ids before the removed one followed by the ids after it, so the order is kept. Distinct ids stay distinct. |
| `PatientStore.Store.Values` | get/advance.py:61 | `data.values()`: one record per id, in the store's order. |
| `PatientStore.Store.View` | get/advance.py:36-39 | The whole store: each id of the store exactly once, paired with its record, and nothing else, in the store's key order. The store is not changed. |
| `PatientStore.Store.ViewPatient` | get/advance.py:41-50 | Returns the stored record when the id is a key, and NotFound otherwise. The store is not changed. |
| `PatientStore.Store.SortedData` | get/advance.py:52-63 | Any `sort_by` other than "age" or "patient_id" fails with InvalidSortField. Otherwise the result is a permutation of the stored records: non-increasing by age, or non-decreasing by patient_id, with a missing field as 0. Records with equal keys keep the store's order. For an allowed field, the sort fails with Unorderable exactly when the keys cannot be compared: two records or more, and keys neither all integers nor all strings. |
| `PatientStore.Store.Create` | post/post.py:58-76 | An invalid body fails with Invalid and a taken id fails with AlreadyExists; both leave the store unchanged. Otherwise the new id maps to the body without its `patient_id`, and is appended to the key order. Nothing else changes, and the store grows by one. |
| `PatientStore.Store.Update` | put/put.py:32-54 | An invalid body fails with Invalid and an unknown id fails with NotFound; both leave the store unchanged. Otherwise only that id's record changes: it becomes the merge of the old record and the request. The key set and order stay the same. |
| `PatientStore.Store.Delete` | delete/delete.py:16-32 | An unknown id fails with NotFound and leaves the store unchanged. Otherwise the id is no longer a key and every other entry is unchanged. The size drops by one, and the remaining keys keep their order. |
| `PatientStore.ViewAgreesWithViewPatient` | practice.py:29-43 | Every entry of the whole-store view is what the one-patient view returns for its id, and every id that the one-patient view finds appears in the whole-store view. |
| `PatientStore.SortByPatientIdKeepsStoreOrder` | practice.py:52-54 | In a store whose records were written by create and update, no record has `patient_id`. So sorting by `patient_id` returns the records in store order. |
| `PatientStore.NullAgeUpdateBreaksAgeSort` | put/put.py:46-49 | In a store of two patients or more, an update that sets one patient's age to null succeeds, and the age sort afterwards fails with Unorderable. |
| `PatientStore.CreateThenGet` | post/post.py:65-71 | A valid create with a new id, followed by a read of that id, gives back the created patient. |
| `PatientStore.DeleteTwice` | delete/delete.py:23-27 | After a successful delete, reading the id fails with NotFound, and deleting it again fails with NotFound. |
| `PatientStore.Scenario` | post/post.py:64-71 | In an empty store, creating patient "1" twice fails the second time with AlreadyExists. Updating its age to 31 shows age 31 and the old first name. After a delete, reading and deleting "1" again both fail with NotFound. |
| `Auth.Login` | post/post.py:47-56 | An unknown user id fails with UserNotFound, before any password is compared. A known id with a different password fails with IncorrectPassword. Login succeeds exactly when the id is present and the password equals the stored one. |
| `Auth.LoginDependsOnOwnEntry` | post.py:17-26 | The login result depends only on the user's own entry in the read-only map, and at most one password lets a user in. |

## Left out

- Reading and writing `data.json` (`load_data`, `save_data`, JSON encoding) is left out. The
  loaded object is the `Store`'s fields, and saving is the assignment to them.
- FastAPI routing, HTTP status codes and the JSON response bodies are left out. Each failure
  is an `Error` kind instead.
- `PatientStore.Store.Create`: it returns the created id, not the message text, which also
  names the patient.
- `Auth.Login`: it returns the user id that post/post.py's success message names. The message
  texts are left out, and post.py's copy's message does not name the user.
- The user map comes from the environment when the process starts. Here it is a parameter
  that nothing changes.
- Pydantic's type coercion and request parsing are left out. Only the declared constraints
  are modelled: the age bounds, and the literal sets for gender and blood group. The untyped
  `List` fields of the create body are modelled as lists of strings.
- Records can hold only the twelve Patient fields, with values of null, integer, string or
  list of strings. The create body's `List` fields are untyped (post/post.py:33-35), so a
  create can also store lists of numbers, nulls or objects; those list items are not
  modelled. Other keys can appear only in a hand-edited `data.json`. The store starts empty,
  and only create, update and delete change it.
- A record is a map from field to value, so the order of the fields inside one record is
  not modelled: the order `model_dump` writes them in, and the end position at which
  `dict.update` appends a field the record did not have.
- A list value under the sort field is treated as unorderable. Python can compare two
  lists, but create and update never put a list under `age` or `patient_id`.
- The field name `current_medication` in the `Patient` of get/advance.py differs from
  `current_medications`. No endpoint uses that declaration, so only its age bound is
  modelled.
- practice.py:12-14 `predict` returns only the patient id's length. That is the first
  component of `Patients.Predict`, without its field constraints, and it is not modelled
  separately.
- The constant-message endpoints (`home`, `about`, `/`) are left out. So is reqB.py, which
  holds a float field and a length.
- Two requests that overlap can lose an update. That is concurrency between processes, and
  it is not modelled.
