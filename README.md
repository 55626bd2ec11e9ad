# Lecture service of the EduPlatform backend, in Dafny

This project models `LectureService` of the EduPlatform course-management backend. The service keeps the Course → Lecture → Section hierarchy: it creates, lists, reads, updates and deletes lectures and their sections. It also decides, from a student's stored progress, whether the student may see a lecture.

The four repositories the service uses are id-keyed maps. They are the fields `courses`, `lectures`, `sections` and `progress` of the class `Services.LectureService`. Entities refer to each other by id: the persistence context holds one managed instance per id, so "the same object" and "the same id" coincide.
- A course's lecture collection is a `seq` of lecture ids inside its record.
- A lecture's section collection is a `seq` of section ids inside its record.
- The service methods reassign these maps and collections where the source changes the managed entities in place.
- `nextId` stands in for UUID generation. Every id below it has been handed out.

Files:
- `lists.dfy` (module `Lists`): `List.remove(Object)` as `RemoveFirst`, with its first-occurrence and order facts.
- `models.dfy` (module `Models`): the entities, the request and response shapes, the three error kinds, and the course-level effect of deletion as written (`Detach`) and as intended (`DetachChecked`).
- `lecture_service.dfy` (module `Services`): the store invariant `WellFormed`, and the class `LectureService` with one member per service operation.

Two store properties are kept apart:
- `Valid()` is referential integrity. It holds after every operation. It says that ids are below `nextId`, that listed lectures exist and point back at the course that lists them, that progress pointers name stored lectures, that a course lists a lecture at most once, and that listed sections exist and point back at their lecture.
- `CountsAgree()` says that every course's `numOfLect` equals the size of its lecture collection. `createLecture` and `updateLecture` preserve it. `deleteLectureById` preserves it exactly when the lecture is in that course's collection (see Findings).

## Model

| member | source | states |
|---|---|---|
| `Services.LectureService.constructor` | backend/src/main/java/ru/codeline/services/LectureService.java:28-31 | the service starts over the injected repositories, which must be well formed |
| `Services.LectureService.CreateLecture` | backend/src/main/java/ru/codeline/services/LectureService.java:33-48 | a missing course fails with CourseNotFound and writes nothing; otherwise the new lecture gets a fresh id, the course counts one more lecture and lists the new one last, the lecture record holds the request's numInSeq/title/description, the looked-up course and exactly the requested sections in order; the store stays valid and counter agreement is preserved |
| `Services.LectureService.CreateLectureEntity` | backend/src/main/java/ru/codeline/services/LectureService.java:143-154 | the built lecture carries the request's scalar fields, the course and no sections; the course's collection gains it at the end and its counter grows by one; nothing else changes |
| `Services.LectureService.AddSections` | backend/src/main/java/ru/codeline/services/LectureService.java:156-169 | a null list changes nothing; otherwise the lecture's section list grows by exactly the request length, with fresh ids in request order, and each new id is saved with the request's numInSeq/title/content linked to the lecture; courses and progress are untouched |
| `Services.LectureService.AddSection` | backend/src/main/java/ru/codeline/services/LectureService.java:159-166 | one round of the loop: one fresh section, built from the request and linked to the lecture, is appended to the lecture's list and saved |
| `Services.LectureService.SectionsOf` | backend/src/main/java/ru/codeline/services/LectureService.java:116 | in a valid store, `findByLecture` finds every section the lecture lists, so an empty result means the lecture lists none; this is what makes the clear at lines 117-119 a full replace |
| `Services.LectureService.GetAllLecturesByCourseId` | backend/src/main/java/ru/codeline/services/LectureService.java:50-69 | fails with CourseNotFound exactly when the course is absent; otherwise returns one summary per listed lecture, in the stored order (so an empty course gives an empty list), each with the lecture's id, numInSeq, title, description and number of sections, and every listed lecture belongs to the course; it changes nothing |
| `Services.LectureService.GetLectureWithoutCheck` | backend/src/main/java/ru/codeline/services/LectureService.java:71-80 | the course is checked before the lecture: CourseNotFound when the course is absent, else LectureNotFound when the lecture is absent, else the stored lecture |
| `Services.LectureService.GetLectureWithCheck` | backend/src/main/java/ru/codeline/services/LectureService.java:82-101 | fails exactly as the unchecked lookup fails; otherwise succeeds, with the same lecture, iff a progress record exists for (user, course) and its lecture's numInSeq is at least the requested one's, and fails with AccessDenied otherwise: "no progress" when the record is absent, "not yet reached" when the pointer is behind |
| `Services.LectureService.AccessIsMonotone` | backend/src/main/java/ru/codeline/services/LectureService.java:95-97 | a user who may see a lecture may see every stored lecture at the same or an earlier position |
| `Services.LectureService.CurrentLectureIsVisible` | backend/src/main/java/ru/codeline/services/LectureService.java:96 | equality grants access: the lecture the progress pointer names is always visible |
| `Services.LectureService.ProgressScenario` | backend/src/main/java/ru/codeline/services/LectureService.java:91-100 | with lectures at positions 1 and 2 and progress at the first, the first is returned and the second is denied as not yet reached |
| `Services.LectureService.ForeignLectureIsVisible` | backend/src/main/java/ru/codeline/services/LectureService.java:85-97 | as written, the gate returns a lecture of another course when progress in the requested course has reached its position; the scoped gate reports it not found |
| `Services.LectureService.GetLectureWithScopedCheck` | backend/src/main/java/ru/codeline/services/LectureService.java:82-101 | corrected gate: succeeds iff the written gate succeeds and the lecture belongs to the requested course, and then returns the same lecture |
| `Services.LectureService.UpdateLecture` | backend/src/main/java/ru/codeline/services/LectureService.java:103-125 | CourseNotFound before LectureNotFound, both with no write; otherwise numInSeq/title/description are overwritten, the section list becomes exactly the requested sections in order (a full replace, in both branches of the emptiness test, since listed sections point back at the lecture), and the courses, their counters and progress are untouched |
| `Services.LectureService.DeleteLectureById` | backend/src/main/java/ru/codeline/services/LectureService.java:127-141 | CourseNotFound before LectureNotFound, both with no write; otherwise the counter drops by exactly one and one occurrence of the lecture leaves the list, the others keep their order, and the lecture no longer appears; for a stored lecture of another course the list is unchanged and the counter still drops by one; counter agreement survives iff the lecture was in this course's list |
| `Services.LectureService.ForeignLectureNotListed` | backend/src/main/java/ru/codeline/services/LectureService.java:148-150 | because a lecture is linked to exactly one course when it is created, a stored lecture of another course is never in this course's list |
| `Services.LectureService.DeleteLectureByIdChecked` | backend/src/main/java/ru/codeline/services/LectureService.java:134-140 | corrected deletion: the counter drops only when the lecture left the list, so counter agreement always survives |
| `Services.AppendSectionKeepsWellFormed` | backend/src/main/java/ru/codeline/services/LectureService.java:163-166 | appending a section linked to its lecture under a fresh id keeps the store well formed |
| `Services.SaveNewLectureKeepsWellFormed` | backend/src/main/java/ru/codeline/services/LectureService.java:41 | linking a new section-less lecture to its course under a fresh id and saving it keeps the store well formed |
| `Services.ReplaceCourseKeepsWellFormed` | backend/src/main/java/ru/codeline/services/LectureService.java:138-140 | a course whose listed lectures are stored, belong to it and are distinct can replace the old one without breaking the store |
| `Services.ReplaceLectureKeepsWellFormed` | backend/src/main/java/ru/codeline/services/LectureService.java:112-118 | a lecture of the same course whose listed sections are stored and point back at it can replace the old one |
| `Models.DetachKeepsCountIff` | backend/src/main/java/ru/codeline/services/LectureService.java:134-138 | from an agreeing course, the as-written deletion leaves the counter in step iff the lecture was listed |
| `Models.DetachForeignLecture` | backend/src/main/java/ru/codeline/services/LectureService.java:134-138 | deleting an unlisted lecture leaves the list unchanged and still drops the counter by one |
| `Models.DetachEmptyCourseGoesNegative` | backend/src/main/java/ru/codeline/services/LectureService.java:135 | an empty course with counter 0 ends with counter -1 |
| `Models.DetachCheckedKeepsCount` | backend/src/main/java/ru/codeline/services/LectureService.java:134-138 | the corrected deletion always keeps the counter in step and removes the same occurrence |
| `Models.NewSectionsAt` | backend/src/main/java/ru/codeline/services/LectureService.java:158-166 | the saved section records are keyed by exactly the consecutive fresh ids, the i-th built from the i-th request |
| `Lists.RemoveFirst` | backend/src/main/java/ru/codeline/services/LectureService.java:138 | removal leaves a list without the element unchanged and shortens a list with it by exactly one |
| `Lists.RemoveFirstAt` | backend/src/main/java/ru/codeline/services/LectureService.java:138 | removal drops the first occurrence, and the other elements keep their order |
| `Lists.RemoveFirstKeeps` | backend/src/main/java/ru/codeline/services/LectureService.java:138 | removal only drops elements; everything left was there before |
| `Lists.RemoveFirstDistinct` | backend/src/main/java/ru/codeline/services/LectureService.java:138 | in a list without repetitions, removal leaves no occurrence behind and creates no repetition |

## Findings

| source | as written | input that shows it | evidently intended | confidence | as-written member | corrected member |
|---|---|---|---|---|---|---|
| backend/src/main/java/ru/codeline/services/LectureService.java:135-138 | `numOfLect` is decremented unconditionally, while `remove` may remove nothing | `deleteLectureById(c, l)` where `l` is a stored lecture of another course; also an empty course with counter 0 | decrement only when the removal removed the lecture, so the counter keeps equal to the list size | high, not executed | `Services.LectureService.DeleteLectureById` (its foreign-lecture clause) with `Services.LectureService.ForeignLectureNotListed` and `Models.DetachForeignLecture` | `Services.LectureService.DeleteLectureByIdChecked` with `Models.DetachCheckedKeepsCount` |
| backend/src/main/java/ru/codeline/services/LectureService.java:85-97 | the course is looked up only for existence and the progress key; the lecture's owning course is never compared with it | user with progress at position 5 in course A requests course A with a lecture of course B at position 2 and has no progress in B: the lecture is returned | a lecture outside the requested course is not found, so progress in one course unlocks only that course | medium, not executed | `Services.LectureService.GetLectureWithCheck` with `Services.LectureService.ForeignLectureIsVisible` | `Services.LectureService.GetLectureWithScopedCheck` |

## Left out

- `Credential` (backend/src/main/java/ru/codeline/models/user/Credential.java): an adapter to the security framework's user-details shape, with getters, a one-element authority list and four constant `true` flags. It has no logic of the lecture service.
- Transactions: `@Transactional` rollback is not modelled. Every failure happens before the first write, so a failing operation leaves all maps unchanged.
- Cascades and orphan removal: only the explicit collection changes are modelled. Sections dropped from a lecture by `updateLecture` stay in the section map. A lecture deleted by `deleteLectureById` stays in the lecture map. The second `lectureRepository.save` (line 47) and `courseRepository.save` (line 140) change no map, because the managed entities were already updated.
- `LectureWithSectionsResponse.excludeFromLecture` is not part of this model. The lookups and `updateLecture` return the lecture record the projection would be applied to.
- The entity and DTO classes (Course, Lecture, Section, Progress, CompositeKey, the requests and responses) are not part of this model. Their fields are those the service reads and writes. `Lecture.equals` is not shown, so removal by equality is modelled as removal by id.
- UUID generation: ids come from the counter `nextId`. `CreateLectureEntity` draws the lecture's id, where the source assigns it at the first save. Exception messages become error tags: the id for the two not-found kinds, and a reason for the two access denials.
- Integer width: `numInSeq` and `numOfLect` are unbounded integers. A 32-bit wrap of the counter after 2^31 - 1 lectures is not modelled.
- Null handling: a null section list is modelled (`Option`). A null request, a null element in the section list, and null strings are not.
- The progress gate requires `Valid()`, so that the lecture a progress record names exists. The source gets this from its foreign keys.
- Concurrency between simultaneous update and delete calls is left to the database and is not modelled.
- Positions: `numInSeq` is neither unique nor contiguous in the source, and the model assumes neither.
