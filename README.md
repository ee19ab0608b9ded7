# Student store: a Dafny model

This project models the business-logic core of a small student-records service.
The service keeps student records in memory (`src/services/StudentService.js`) and builds each record with `src/models/Student.js`.
The model covers:

- the four validation rules: GPA bounds, age from a birth date, the age limit of 18, and the email shape;
- the order in which create and update apply those rules;
- the store itself: an ordered `students` collection and a `nextId` counter, with create, read, update and delete;
- the summary statistics over the collection.

Modules:

- `Results` (`results.dfy`) holds `Option`, which stands for a field left `undefined`, and `Result`, which stands for a value or a thrown error.
- `StudentModel` (`student.dfy`) holds the record datatype and its constructor. Dates are already-parsed `(year, month, day)` values. Timestamps are abstract clock readings that the caller passes in.
- `StudentRules` (`rules.dfy`) holds `validateGPA`, `calculateAge`, `validateAge`, `validateEmail`, the check order of create and update, and the field assignments of update.
- `StudentStatistics` (`statistics.dfy`) holds `getStatistics` over a collection.
- `StudentService` (`student_service.dfy`) holds the `StudentStore` class. Its fields are `students` and `nextId`, plus a ghost set `issued` of every identifier ever handed out. Its methods carry `modifies` clauses, and its object invariant is `Valid()`.

The store invariant `Valid()` says four things:

- identifiers are pairwise distinct;
- every identifier was issued by this store;
- every identifier lies in `[1, nextId)`;
- every record passes the GPA and email rules.

Every mutating method keeps `Valid()`. A failed create, update or delete leaves `students`, `nextId` and `issued` as they were. A successful create hands out `old(nextId)`, which is not in `old(issued)`, so an identifier is never reused, even after a delete.

The service never checks that names are non-empty. Only the HTTP controller rejects a missing name, and only on create (src/controllers/StudentController.js:14-25). So the store invariant says nothing about names.

## Model

| member | source | states |
|---|---|---|
| StudentModel.NewStudent | src/models/Student.js:5-14 | The constructor needs nothing of its arguments. It keeps id, names, date of birth, GPA and email verbatim and stamps createdAt and updatedAt with the clock reading. |
| StudentRules.Message | src/services/StudentService.js:52-137 | The four errors carry the source's messages, and "Student not found" is the message of the not-found error and of no other. |
| StudentRules.MessagesDistinct | src/services/StudentService.js:51-137 | The four error messages are pairwise different, so a message identifies its error. |
| StudentRules.ValidateGpa | src/services/StudentService.js:15-17 | The GPA rule holds exactly on the closed interval: at 0, at 4.0, or strictly between them. |
| StudentRules.GpaBoundaries | src/services/StudentService.js:15-17 | Both ends are inclusive: 0 and 4.0 pass; -0.01, 4.01 and 5.0 fail. |
| StudentRules.CalculateAge | src/services/StudentService.js:20-34 | The result is the number of completed years: the birthday that many years on has come by today, and the next one has not. |
| StudentRules.AgeIsUnique | src/services/StudentService.js:20-34 | No other count of years has that property, so calculateAge is the unique completed-years count. |
| StudentRules.AgeMonotone | src/services/StudentService.js:20-34 | A later reference date never gives a smaller age. |
| StudentRules.ValidateAge | src/services/StudentService.js:37-40 | The age rule holds exactly from the 18th birthday on: on that date the check passes, and on any earlier date it fails. |
| StudentRules.ValidateEmail | src/services/StudentService.js:43-46 | The email decision (one "@" after at least one character, no whitespace or other "@", a "." inside the domain) accepts only strings of at least five characters, one per part of the pattern. |
| StudentRules.ValidateEmailMatchesPattern | src/services/StudentService.js:43-46 | validateEmail holds if and only if the whole string matches `^[^\s@]+@[^\s@]+\.[^\s@]+$`. |
| StudentRules.EmailExamples | src/services/StudentService.js:44-45 | "a@b.c", "a@b.c.d" and "john@example.com" pass; "invalid-email" and "a@b" fail. |
| StudentRules.CheckNew | src/services/StudentService.js:50-63 | Create checks GPA, then age, then email, and reports the first rule that fails. It passes exactly when all three hold, and it never reports "not found". |
| StudentRules.CheckUpdate | src/services/StudentService.js:96-115 | Update checks only the supplied fields, in the order GPA, date of birth, email, and reports the first violation. It passes exactly when every supplied field passes its rule. |
| StudentRules.FullUpdateChecksLikeCreate | src/services/StudentService.js:96-115 | An update that supplies GPA, date of birth and email gets the same verdict as a create with those values. |
| StudentRules.ApplyUpdate | src/services/StudentService.js:117-127 | Each supplied field overwrites the stored one and the others keep their values. id and createdAt are kept, and updatedAt takes the clock reading. |
| StudentRules.EmptyUpdateOnlyTouches | src/services/StudentService.js:117-127 | An update that supplies nothing changes only updatedAt. |
| StudentRules.GpaOnlyUpdate | src/services/StudentService.js:117-127 | An update with only a GPA changes the GPA and updatedAt and nothing else. |
| StudentRules.ApplyUpdateIdempotent | src/services/StudentService.js:117-127 | Applying the same update twice equals applying it once at the later time. |
| StudentRules.CheckedUpdateKeepsRecordValid | src/services/StudentService.js:96-125 | If an update passed its checks, a record that met the GPA and email rules still meets them afterwards, and a new date of birth meets the age rule. |
| StudentStatistics.MaxGpa | src/services/StudentService.js:161 | The highest GPA is the GPA of some record and at least every record's GPA. |
| StudentStatistics.MinGpa | src/services/StudentService.js:162 | The lowest GPA is the GPA of some record and at most every record's GPA. |
| StudentStatistics.SumGpa | src/services/StudentService.js:156 | The left fold of the GPAs from 0 is not negative when no GPA is. |
| StudentStatistics.SumGpaFromFront | src/services/StudentService.js:156 | The left-fold sum also unfolds from the front: the first GPA plus the sum of the rest. |
| StudentStatistics.SumGpaBounds | src/services/StudentService.js:156 | If n GPAs each lie in [lo, hi], their sum lies in [n*lo, n*hi]. |
| StudentStatistics.MeanBetween | src/services/StudentService.js:156 | The exact (unrounded) mean of a non-empty collection lies between any lower and upper bound of its GPAs. |
| StudentStatistics.ComputeStatistics | src/services/StudentService.js:145-163 | An empty collection gives all four fields 0. Otherwise the result has the size, the exact mean, and the highest and lowest GPA, both of which occur in the collection. lowest <= exact mean <= highest, and all three lie in [0, 4.0] when every GPA passes the rule. |
| StudentStatistics.StatisticsExample | src/services/StudentService.js:155-163 | GPAs 3.8 and 3.5 give count 2, mean 3.65, highest 3.8 and lowest 3.5. |
| StudentService.FindIndex | src/services/StudentService.js:134 | The result is -1 exactly when no record has the id. Otherwise it is the position of the first record with the id. |
| StudentService.RemoveFirstIsWithout | src/services/StudentService.js:134-140 | With distinct ids, cutting out the found record equals filtering out its id, so the survivors keep their relative order. |
| StudentService.StudentStore.constructor | src/services/StudentService.js:8-12 | A new store is empty, its counter starts at 1, and it satisfies the invariant. |
| StudentService.StudentStore.CreateStudent | src/services/StudentService.js:49-76 | On a failed check it returns that check's error and leaves the store unchanged. Otherwise it appends a record built with the old nextId (an id never issued before), increments nextId, leaves the existing records untouched and keeps the invariant. |
| StudentService.StudentStore.GetAllStudents | src/services/StudentService.js:79-81 | It returns the stored records in insertion order. |
| StudentService.StudentStore.GetStudentById | src/services/StudentService.js:84-86 | It returns nothing exactly when no record has the id. Otherwise it returns the first stored record with that id. |
| StudentService.StudentStore.UpdateStudent | src/services/StudentService.js:89-130 | It fails with not-found, or with the first failing check of a supplied field, and leaves the store unchanged. On success it replaces the found record in place with the updated one. The length, the order, the other records, nextId and the invariant are kept. |
| StudentService.StudentStore.DeleteStudent | src/services/StudentService.js:133-142 | It fails with not-found and changes nothing when no record has the id. Otherwise it removes and returns the first record with the id. The survivors keep their order, the id is gone, nextId is not decremented, and the invariant holds. |
| StudentService.StudentStore.GetStatistics | src/services/StudentService.js:145-164 | It gives the statistics of the stored records. In a valid non-empty store, 0 <= lowest <= exact mean <= highest <= 4.0. |
| StudentService.CreateTwoDeleteFirst | src/services/StudentService.js:49-142 | First half of the scenario: in an empty store, creating A and B hands out ids 1 and 2, and deleting id 1 leaves exactly [B] with nextId at 3. |
| StudentService.Scenario | src/services/StudentService.js:49-142 | Create A and B, delete A, then create C. The ids handed out are 1, 2 and 3 (1 is not reused), and the store then holds exactly B and C, in that order: the ids of all stored records are [2, 3]. |

## Left out

- StudentStatistics.ComputeStatistics: averageGPA is the exact mean over the reals. The source rounds it to two decimals with `toFixed(2)` and `parseFloat` on IEEE doubles, and that rounding and floating-point arithmetic are not modelled. GPAs are exact reals. The ordering lowest <= averageGPA <= highest is a property of the exact mean only. The source's rounded value can break it: a single GPA of 3.996 gives an average of 4, above the highest GPA, and 3.004 gives 3, below the lowest. Only the [0, 4.0] bound survives the rounding. Also, `Math.max(...gpas)` and `Math.min(...gpas)` throw a RangeError once the collection is larger than the engine's argument limit; the model returns statistics for every size.
- StudentService.StudentStore.GetStatistics: it returns ComputeStatistics of the stored records, so the same holds. Its ordering lowest <= averageGPA <= highest is about the exact mean and does not hold for the source's rounded average. The RangeError that `Math.max(...gpas)` and `Math.min(...gpas)` throw on a store larger than the engine's argument limit is not modelled either; the model returns statistics for every store.
- StudentRules.ValidateEmail: its own contract states only that an accepted address has at least five characters. The exact equivalence with the pattern is the separate lemma ValidateEmailMatchesPattern. As a postcondition it would be unfolded at every check of the store invariant.
- StudentService.StudentStore.CreateStudent: nextId is a JavaScript number. From 2^53 on, `nextId++` no longer changes it, so an id would be issued twice. The model's counter is unbounded, so its "an id is never reused" holds without that limit.
- Clock reads (`new Date()`): the caller passes them in as `today` (a date) and `now` (a timestamp). The constructor reads the clock twice. The model uses one reading for both createdAt and updatedAt, so it does not capture a tick between the two reads.
- Date parsing of the "YYYY-MM-DD" text, including its UTC-versus-local-time day shift and unparseable dates (which make the age NaN and fail the age rule): dates arrive already parsed. Month numbering does not matter, because calculateAge only compares and subtracts months.
- The JavaScript regular-expression engine: the email pattern is a predicate on strings. `\s` is the ECMAScript whitespace and line-terminator set. Matching on UTF-16 code units gives the same verdict as matching on characters, because neither half of a surrogate pair is whitespace or "@".
- JavaScript coercions: a non-numeric GPA, NaN and string ids are not modelled; GPAs are reals and ids are integers.
- The store invariant does not include the age rule, because that rule is relative to a reference date. AgeMonotone shows that a record passing it keeps passing it as dates advance.
- Aliasing: records are values. The source hands out references to the stored objects, so a caller could later mutate a stored record; the model cannot express that. getAllStudents also hands out the store's own array, so a caller could push into it, splice it or reorder it and get past every check; the model returns a value copy.
- The module-level singleton instance: the model constructs a store explicitly.
- The HTTP controller, the routes and the application bootstrap are not part of this model. That includes missing-field checks, non-numeric id checks, the empty-body check of update and the mapping of errors to status codes.
