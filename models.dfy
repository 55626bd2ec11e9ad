/** The persisted entities the lecture service works on (Course, Lecture,
    Section, Progress), the request and response shapes it exchanges with its
    callers, and its three error kinds.

    Entities refer to each other by id: the persistence context hands out one
    managed instance per id, so "the same object" and "the same id" coincide. */
module Models {
  import opened Lists

  /** A UUID. Fresh ones are drawn from a counter, so ids are naturals. */
  type Uuid = nat

  /** The part of a course the lecture service reads and writes: the
      denormalised lecture counter and the ordered lecture collection. */
  datatype Course = Course(numOfLect: int, lectures: seq<Uuid>)

  datatype Lecture = Lecture(
    numInSeq: int,
    title: string,
    description: string,
    course: Uuid,
    sections: seq<Uuid>)

  datatype Section = Section(numInSeq: int, title: string, content: string, lecture: Uuid)

  /** The composite key of a progress record: a user in a course. */
  datatype ProgressKey = ProgressKey(user: Uuid, course: Uuid)

  /** The lecture a user has currently reached in a course. */
  datatype Progress = Progress(lecture: Uuid)

  datatype Option<T> = None | Some(value: T)

  datatype SectionRequest = SectionRequest(numInSeq: int, title: string, content: string)

  /** `sections` is `None` when the request carries a null section list. */
  datatype LectureRequest = LectureRequest(
    numInSeq: int,
    title: string,
    description: string,
    sections: Option<seq<SectionRequest>>)

  /** The list summary of a lecture: its scalar fields and its number of sections. */
  datatype LectureResponse = LectureResponse(
    id: Uuid,
    numInSeq: int,
    title: string,
    description: string,
    numOfSections: nat)

  /** The two causes behind the two messages of AccessDeniedException. */
  datatype DenyReason = NoProgress | NotYetReached

  datatype Error =
    | CourseNotFound(courseId: Uuid)
    | LectureNotFound(lectureId: Uuid)
    | AccessDenied(reason: DenyReason)

  datatype Result<T> = Success(value: T) | Failure(error: Error)

  /** The outcome of an operation that returns nothing. */
  datatype Outcome = Pass | Fail(error: Error)

  /** The requested sections; a null list requests none. */
  function Requested(sections: Option<seq<SectionRequest>>): seq<SectionRequest>
  {
    match sections
    case None => []
    case Some(s) => s
  }

  /** The section record built from a request and linked to its lecture. */
  function NewSection(request: SectionRequest, lectureId: Uuid): Section
  {
    Section(request.numInSeq, request.title, request.content, lectureId)
  }

  /** `n` consecutive ids starting at `first`: the ids a store hands out next. */
  function IdRange(first: nat, n: nat): (ids: seq<Uuid>)
    ensures |ids| == n
    ensures forall i :: 0 <= i < n ==> ids[i] == first + i
  {
    if n == 0 then [] else IdRange(first, n - 1) + [first + n - 1]
  }

  lemma IdRangeSnoc(first: nat, n: nat)
    ensures IdRange(first, n + 1) == IdRange(first, n) + [first + n]
  {
  }

  /** Saving over a store that already took a batch is saving into the batch. */
  lemma UnionUpdate<K, V>(store: map<K, V>, batch: map<K, V>, k: K, v: V)
    ensures store + batch[k := v] == (store + batch)[k := v]
  {
  }

  /** Saving the same key twice keeps the second record. */
  lemma UpdateTwice<K, V>(m: map<K, V>, k: K, first: V, second: V)
    ensures m[k := first][k := second] == m[k := second]
  {
  }

  /** The section records saved for `requests`, the i-th under id `first + i`. */
  function NewSections(requests: seq<SectionRequest>, first: nat, lectureId: Uuid): map<Uuid, Section>
  {
    if requests == [] then map[]
    else
      var k := |requests| - 1;
      NewSections(requests[..k], first, lectureId)[first + k := NewSection(requests[k], lectureId)]
  }

  /** The saved records are keyed by exactly the ids `first .. first + |requests| - 1`,
      and the record under `first + i` is built from the i-th request. */
  lemma {:induction false} NewSectionsAt(requests: seq<SectionRequest>, first: nat, lectureId: Uuid)
    ensures forall id :: id in NewSections(requests, first, lectureId) <==> first <= id < first + |requests|
    ensures forall i :: 0 <= i < |requests| ==>
      NewSections(requests, first, lectureId)[first + i] == NewSection(requests[i], lectureId)
  {
    if requests != [] {
      var k := |requests| - 1;
      NewSectionsAt(requests[..k], first, lectureId);
    }
  }

  /** One more request saves one more section, under the next id. */
  lemma NewSectionsSnoc(requests: seq<SectionRequest>, k: nat, first: nat, lectureId: Uuid)
    requires k < |requests|
    ensures NewSections(requests[..k + 1], first, lectureId)
         == NewSections(requests[..k], first, lectureId)[first + k := NewSection(requests[k], lectureId)]
  {
    assert requests[..k + 1][..k] == requests[..k];
  }

  /** The denormalised counter agrees with the lecture collection. */
  predicate CountAgrees(c: Course)
  {
    c.numOfLect == |c.lectures|
  }

  /** deleteLectureById's change to the course, as written: the counter drops
      by one, then one occurrence of the lecture leaves the collection. */
  function Detach(c: Course, lectureId: Uuid): Course
  {
    c.(numOfLect := c.numOfLect - 1, lectures := RemoveFirst(c.lectures, lectureId))
  }

  /** The intended change: the counter drops only when the removal removed something. */
  function DetachChecked(c: Course, lectureId: Uuid): Course
  {
    if lectureId in c.lectures then Detach(c, lectureId) else c
  }

  /** Detach keeps the counter in step exactly when the lecture is in the course. */
  lemma DetachKeepsCountIff(c: Course, lectureId: Uuid)
    requires CountAgrees(c)
    ensures CountAgrees(Detach(c, lectureId)) <==> lectureId in c.lectures
  {
  }

  /** A lecture of another course: the collection is untouched while the
      counter drops below the collection's size. */
  lemma DetachForeignLecture(c: Course, lectureId: Uuid)
    requires lectureId !in c.lectures
    ensures Detach(c, lectureId).lectures == c.lectures
    ensures Detach(c, lectureId).numOfLect == c.numOfLect - 1
  {
  }

  /** An empty course whose counter agrees (zero) ends with a counter of -1. */
  lemma DetachEmptyCourseGoesNegative(lectureId: Uuid)
    ensures CountAgrees(Course(0, []))
    ensures Detach(Course(0, []), lectureId).numOfLect == -1
    ensures !CountAgrees(Detach(Course(0, []), lectureId))
  {
  }

  /** The corrected change always keeps the counter in step, and removes the
      first occurrence of the lecture when there is one. */
  lemma DetachCheckedKeepsCount(c: Course, lectureId: Uuid)
    requires CountAgrees(c)
    ensures CountAgrees(DetachChecked(c, lectureId))
    ensures DetachChecked(c, lectureId).lectures == RemoveFirst(c.lectures, lectureId)
  {
  }
}
