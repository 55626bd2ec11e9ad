/** The lecture service: it keeps the Course -> Lecture -> Section hierarchy
    and decides whether a student may see a lecture. The four repositories it
    uses are id-keyed maps held in the fields of `LectureService`; the service
    methods change those maps, and the lecture and section collections inside
    them, the way the service changes its managed entities. */
module Services {
  import opened Lists
  import opened Models

  /** The store's own consistency: every id is one the generator has handed
      out, every lecture a course lists is stored and points back at that
      course, every progress pointer names a stored lecture, a course lists
      each lecture at most once, and every section a lecture lists is stored
      and points back at that lecture. */
  ghost predicate WellFormed(
    courses: map<Uuid, Course>,
    lectures: map<Uuid, Lecture>,
    sections: map<Uuid, Section>,
    progress: map<ProgressKey, Progress>,
    nextId: nat)
  {
    && (forall id :: id in courses ==> id < nextId)
    && (forall id :: id in lectures ==> id < nextId)
    && (forall id :: id in sections ==> id < nextId)
    && (forall c, k :: c in courses && 0 <= k < |courses[c].lectures| ==>
          courses[c].lectures[k] in lectures && lectures[courses[c].lectures[k]].course == c)
    && (forall c :: c in courses ==> Distinct(courses[c].lectures))
    && (forall l, k :: l in lectures && 0 <= k < |lectures[l].sections| ==>
          lectures[l].sections[k] in sections && sections[lectures[l].sections[k]].lecture == l)
    && (forall key :: key in progress ==> progress[key].lecture in lectures)
  }

  /** Saving one more section under the next fresh id and appending it to its
      lecture's collection keeps the store well formed. */
  lemma AppendSectionKeepsWellFormed(
    courses: map<Uuid, Course>,
    lectures: map<Uuid, Lecture>,
    sections: map<Uuid, Section>,
    progress: map<ProgressKey, Progress>,
    nextId: nat,
    lectureId: Uuid,
    section: Section)
    requires WellFormed(courses, lectures, sections, progress, nextId)
    requires lectureId in lectures && section.lecture == lectureId
    ensures WellFormed(courses,
                       lectures[lectureId := lectures[lectureId].(sections := lectures[lectureId].sections + [nextId])],
                       sections[nextId := section], progress, nextId + 1)
  {
    var lectures' := lectures[lectureId := lectures[lectureId].(sections := lectures[lectureId].sections + [nextId])];
    var sections' := sections[nextId := section];
    forall l, k | l in lectures' && 0 <= k < |lectures'[l].sections|
      ensures lectures'[l].sections[k] in sections' && sections'[lectures'[l].sections[k]].lecture == l
    {
      if l == lectureId && k == |lectures[l].sections| {
      } else {
        assert lectures'[l].sections[k] == lectures[l].sections[k];
        assert lectures[l].sections[k] < nextId;
      }
    }
  }

  /** Replacing a course by one whose lectures are all stored and belong to it
      keeps the store well formed. */
  lemma ReplaceCourseKeepsWellFormed(
    courses: map<Uuid, Course>,
    lectures: map<Uuid, Lecture>,
    sections: map<Uuid, Section>,
    progress: map<ProgressKey, Progress>,
    nextId: nat,
    courseId: Uuid,
    course: Course)
    requires WellFormed(courses, lectures, sections, progress, nextId)
    requires courseId in courses
    requires forall id :: id in course.lectures ==> id in lectures && lectures[id].course == courseId
    requires Distinct(course.lectures)
    ensures WellFormed(courses[courseId := course], lectures, sections, progress, nextId)
  {
    var courses' := courses[courseId := course];
    forall c, k | c in courses' && 0 <= k < |courses'[c].lectures|
      ensures courses'[c].lectures[k] in lectures && lectures[courses'[c].lectures[k]].course == c
    {
      if c == courseId {
        assert courses'[c].lectures[k] in course.lectures;
      }
    }
  }

  /** Replacing a stored lecture by one of the same course whose sections are
      stored and point back at it keeps the store well formed. */
  lemma ReplaceLectureKeepsWellFormed(
    courses: map<Uuid, Course>,
    lectures: map<Uuid, Lecture>,
    sections: map<Uuid, Section>,
    progress: map<ProgressKey, Progress>,
    nextId: nat,
    lectureId: Uuid,
    lecture: Lecture)
    requires WellFormed(courses, lectures, sections, progress, nextId)
    requires lectureId in lectures && lecture.course == lectures[lectureId].course
    requires forall k :: 0 <= k < |lecture.sections| ==>
      lecture.sections[k] in sections && sections[lecture.sections[k]].lecture == lectureId
    ensures WellFormed(courses, lectures[lectureId := lecture], sections, progress, nextId)
  {
  }

  /** Linking a lecture with no sections to a course under the next fresh id,
      and saving it, keeps the store well formed. */
  lemma SaveNewLectureKeepsWellFormed(
    courses: map<Uuid, Course>,
    lectures: map<Uuid, Lecture>,
    sections: map<Uuid, Section>,
    progress: map<ProgressKey, Progress>,
    nextId: nat,
    courseId: Uuid,
    lecture: Lecture)
    requires WellFormed(courses, lectures, sections, progress, nextId)
    requires courseId in courses && lecture.course == courseId && lecture.sections == []
    ensures WellFormed(courses[courseId := courses[courseId].(
                         numOfLect := courses[courseId].numOfLect + 1,
                         lectures := courses[courseId].lectures + [nextId])],
                       lectures[nextId := lecture], sections, progress, nextId + 1)
  {
    var listed := courses[courseId].lectures;
    assert nextId !in listed;
    assert Distinct(listed + [nextId]);
  }

  class LectureService {
    var courses: map<Uuid, Course>
    var lectures: map<Uuid, Lecture>
    var sections: map<Uuid, Section>
    var progress: map<ProgressKey, Progress>
    /** Stands in for UUID generation: every id below it has been handed out. */
    var nextId: nat

    ghost predicate Valid()
      reads this
    {
      WellFormed(courses, lectures, sections, progress, nextId)
    }

    /** Every course's counter agrees with its lecture collection. */
    ghost predicate CountsAgree()
      reads this
    {
      forall c :: c in courses ==> CountAgrees(courses[c])
    }

    /** The service over injected repositories. */
    constructor (
      courses: map<Uuid, Course>,
      lectures: map<Uuid, Lecture>,
      sections: map<Uuid, Section>,
      progress: map<ProgressKey, Progress>,
      nextId: nat)
      requires WellFormed(courses, lectures, sections, progress, nextId)
      ensures Valid()
      ensures this.courses == courses && this.lectures == lectures && this.sections == sections
      ensures this.progress == progress && this.nextId == nextId
    {
      this.courses := courses;
      this.lectures := lectures;
      this.sections := sections;
      this.progress := progress;
      this.nextId := nextId;
    }

    /** `sectionRepository.findByLecture`: the stored sections pointing at the
        lecture. In a valid store it finds every section the lecture lists, so
        an empty result means the lecture lists none. */
    function SectionsOf(lectureId: Uuid): (found: set<Uuid>)
      reads this
      ensures Valid() && lectureId in lectures ==>
        forall k :: 0 <= k < |lectures[lectureId].sections| ==> lectures[lectureId].sections[k] in found
    {
      set id | id in sections && sections[id].lecture == lectureId
    }

    /** `createLecture`: builds the lecture from the request, links it to the
        course, saves it, then saves one section per requested section. The
        result is the id of the saved lecture, whose record is `lectures[id]`. */
    method CreateLecture(courseId: Uuid, request: LectureRequest) returns (r: Result<Uuid>)
      requires Valid()
      modifies this
      ensures Valid()
      ensures courseId !in old(courses) ==> r == Failure(CourseNotFound(courseId)) && unchanged(this)
      ensures courseId in old(courses) ==>
        var id := old(nextId);
        var added := Requested(request.sections);
        && r == Success(id)
        && id !in old(lectures)
        && courses == old(courses)[courseId := old(courses[courseId]).(
             numOfLect := old(courses[courseId].numOfLect) + 1,
             lectures := old(courses[courseId].lectures) + [id])]
        && lectures == old(lectures)[id := Lecture(request.numInSeq, request.title, request.description,
                                                   courseId, IdRange(id + 1, |added|))]
        && sections == old(sections) + NewSections(added, id + 1, id)
        && progress == old(progress)
        && nextId == id + 1 + |added|
      ensures old(CountsAgree()) ==> CountsAgree()
    {
      if courseId !in courses {
        return Failure(CourseNotFound(courseId));
      }
      var id, lecture := CreateLectureEntity(request, courseId);
      SaveNewLectureKeepsWellFormed(old(courses), old(lectures), old(sections), old(progress), old(nextId), courseId, lecture);
      lectures := lectures[id := lecture];
      AddSections(id, request.sections);
      var ids := IdRange(id + 1, |Requested(request.sections)|);
      assert [] + ids == ids;
      UpdateTwice(old(lectures), id, lecture, lecture.(sections := ids));
      r := Success(id);
    }

    /** `createLectureEntity`: the new lecture carries the request's fields and
        its course; the course lists it last and counts one more lecture. The
        lecture's id is drawn here, as the collection needs something to hold. */
    method CreateLectureEntity(request: LectureRequest, courseId: Uuid) returns (id: Uuid, lecture: Lecture)
      requires Valid() && courseId in courses
      modifies this
      ensures id == old(nextId) && nextId == id + 1
      ensures lecture == Lecture(request.numInSeq, request.title, request.description, courseId, [])
      ensures courses == old(courses)[courseId := old(courses[courseId]).(
                numOfLect := old(courses[courseId].numOfLect) + 1,
                lectures := old(courses[courseId].lectures) + [id])]
      ensures lectures == old(lectures) && sections == old(sections) && progress == old(progress)
    {
      id := nextId;
      nextId := nextId + 1;
      lecture := Lecture(request.numInSeq, request.title, request.description, courseId, []);
      var course := courses[courseId];
      course := course.(lectures := course.lectures + [id]);
      course := course.(numOfLect := course.numOfLect + 1);
      courses := courses[courseId := course];
    }

    /** `addSections`: each requested section, in request order, becomes a
        saved section linked to the lecture and appended to its collection; a
        null list changes nothing. */
    method AddSections(lectureId: Uuid, requests: Option<seq<SectionRequest>>)
      requires Valid() && lectureId in lectures
      modifies this
      ensures Valid()
      ensures var added := Requested(requests);
        && nextId == old(nextId) + |added|
        && lectures == old(lectures)[lectureId := old(lectures[lectureId]).(
             sections := old(lectures[lectureId].sections) + IdRange(old(nextId), |added|))]
        && sections == old(sections) + NewSections(added, old(nextId), lectureId)
      ensures courses == old(courses) && progress == old(progress)
    {
      ghost var first := nextId;
      ghost var before := lectures[lectureId];
      assert before.sections + IdRange(first, 0) == before.sections;
      if requests.Some? {
        var all := requests.value;
        for i := 0 to |all|
          invariant Valid()
          invariant nextId == first + i
          invariant lectures == old(lectures)[lectureId := before.(sections := before.sections + IdRange(first, i))]
          invariant sections == old(sections) + NewSections(all[..i], first, lectureId)
          invariant courses == old(courses) && progress == old(progress)
        {
          var id := AddSection(lectureId, all[i]);
          NewSectionsSnoc(all, i, first, lectureId);
          UnionUpdate(old(sections), NewSections(all[..i], first, lectureId), id, NewSection(all[i], lectureId));
          IdRangeSnoc(first, i);
          assert before.sections + IdRange(first, i) + [id] == before.sections + IdRange(first, i + 1);
        }
        assert all[..|all|] == all;
      }
    }

    /** One round of `addSections`' loop: the section built from the request is
        linked to the lecture, appended to its collection and saved under a
        fresh id. */
    method AddSection(lectureId: Uuid, request: SectionRequest) returns (id: Uuid)
      requires Valid() && lectureId in lectures
      modifies this
      ensures Valid()
      ensures id == old(nextId) && nextId == id + 1 && id !in old(sections)
      ensures lectures == old(lectures)[lectureId := old(lectures[lectureId]).(
                sections := old(lectures[lectureId].sections) + [id])]
      ensures sections == old(sections)[id := NewSection(request, lectureId)]
      ensures courses == old(courses) && progress == old(progress)
    {
      var section := Section(request.numInSeq, request.title, request.content, lectureId);
      var lecture := lectures[lectureId];
      id := nextId;
      AppendSectionKeepsWellFormed(courses, lectures, sections, progress, id, lectureId, section);
      lectures := lectures[lectureId := lecture.(sections := lecture.sections + [id])];
      sections := sections[id := section];
      nextId := nextId + 1;
    }

    /** `getAllLecturesByCourseId`: one summary per lecture, in the order of
        the course's collection; it changes nothing. */
    method GetAllLecturesByCourseId(courseId: Uuid) returns (r: Result<seq<LectureResponse>>)
      requires Valid()
      ensures r.Failure? <==> courseId !in courses
      ensures r.Failure? ==> r.error == CourseNotFound(courseId)
      ensures r.Success? ==> |r.value| == |courses[courseId].lectures|
      ensures r.Success? ==> forall i :: 0 <= i < |r.value| ==>
        var id := courses[courseId].lectures[i];
        r.value[i] == LectureResponse(id, lectures[id].numInSeq, lectures[id].title,
                                      lectures[id].description, |lectures[id].sections|)
      ensures r.Success? ==> forall i :: 0 <= i < |r.value| ==>
        r.value[i].id in lectures && lectures[r.value[i].id].course == courseId
    {
      if courseId !in courses {
        return Failure(CourseNotFound(courseId));
      }
      var ids := courses[courseId].lectures;
      var responses: seq<LectureResponse> := [];
      for i := 0 to |ids|
        invariant |responses| == i
        invariant forall j :: 0 <= j < i ==>
          responses[j] == LectureResponse(ids[j], lectures[ids[j]].numInSeq, lectures[ids[j]].title,
                                          lectures[ids[j]].description, |lectures[ids[j]].sections|)
      {
        var lecture := lectures[ids[i]];
        responses := responses + [LectureResponse(ids[i], lecture.numInSeq, lecture.title,
                                                  lecture.description, |lecture.sections|)];
      }
      r := Success(responses);
    }

    /** `getLectureWithoutCheck`: the course must exist, then the lecture; the
        result is the stored lecture, and nothing else is consulted. */
    function GetLectureWithoutCheck(courseId: Uuid, lectureId: Uuid): (r: Result<Lecture>)
      reads this
      ensures r.Success? <==> courseId in courses && lectureId in lectures
      ensures r.Success? ==> r.value == lectures[lectureId]
      ensures courseId !in courses ==> r == Failure(CourseNotFound(courseId))
      ensures courseId in courses && lectureId !in lectures ==> r == Failure(LectureNotFound(lectureId))
    {
      if courseId !in courses then Failure(CourseNotFound(courseId))
      else if lectureId !in lectures then Failure(LectureNotFound(lectureId))
      else Success(lectures[lectureId])
    }

    /** The user's progress in the course has reached the lecture's position. */
    ghost predicate Unlocked(userId: Uuid, courseId: Uuid, lectureId: Uuid)
      reads this
      requires Valid() && lectureId in lectures
    {
      var key := ProgressKey(userId, courseId);
      key in progress && lectures[progress[key].lecture].numInSeq >= lectures[lectureId].numInSeq
    }

    /** `getLectureWithCheck`: the unchecked lookup, then the progress gate.
        It fails as the unchecked lookup fails, and otherwise succeeds with the
        same lecture exactly when the progress pointer is at or past it. */
    function GetLectureWithCheck(userId: Uuid, courseId: Uuid, lectureId: Uuid): (r: Result<Lecture>)
      reads this
      requires Valid()
      ensures GetLectureWithoutCheck(courseId, lectureId).Failure? ==> r == GetLectureWithoutCheck(courseId, lectureId)
      ensures GetLectureWithoutCheck(courseId, lectureId).Success? ==>
        (r.Success? <==> Unlocked(userId, courseId, lectureId))
      ensures r.Success? ==> r == GetLectureWithoutCheck(courseId, lectureId)
      ensures GetLectureWithoutCheck(courseId, lectureId).Success? && !Unlocked(userId, courseId, lectureId) ==>
        r == Failure(AccessDenied(if ProgressKey(userId, courseId) in progress then NotYetReached else NoProgress))
    {
      if courseId !in courses then Failure(CourseNotFound(courseId))
      else if lectureId !in lectures then Failure(LectureNotFound(lectureId))
      else
        var key := ProgressKey(userId, courseId);
        if key !in progress then Failure(AccessDenied(NoProgress))
        else
          var current := lectures[progress[key].lecture];
          if current.numInSeq >= lectures[lectureId].numInSeq then Success(lectures[lectureId])
          else Failure(AccessDenied(NotYetReached))
    }

    /** The intended gate: as `GetLectureWithCheck`, but a lecture of another
        course is not found in this one. */
    function GetLectureWithScopedCheck(userId: Uuid, courseId: Uuid, lectureId: Uuid): (r: Result<Lecture>)
      reads this
      requires Valid()
      ensures r.Success? <==> GetLectureWithCheck(userId, courseId, lectureId).Success? && lectures[lectureId].course == courseId
      ensures r.Success? ==> r == GetLectureWithCheck(userId, courseId, lectureId)
    {
      if courseId !in courses then Failure(CourseNotFound(courseId))
      else if lectureId !in lectures || lectures[lectureId].course != courseId then Failure(LectureNotFound(lectureId))
      else GetLectureWithCheck(userId, courseId, lectureId)
    }

    /** Access is monotone in the position: a user who may see a lecture may
        see every stored lecture at the same or an earlier position. */
    lemma AccessIsMonotone(userId: Uuid, courseId: Uuid, lectureId: Uuid, earlier: Uuid)
      requires Valid()
      requires GetLectureWithCheck(userId, courseId, lectureId).Success?
      requires earlier in lectures && lectures[earlier].numInSeq <= lectures[lectureId].numInSeq
      ensures GetLectureWithCheck(userId, courseId, earlier) == Success(lectures[earlier])
    {
    }

    /** Equality grants access: the lecture the progress pointer names is always visible. */
    lemma CurrentLectureIsVisible(userId: Uuid, courseId: Uuid)
      requires Valid() && courseId in courses && ProgressKey(userId, courseId) in progress
      ensures var current := progress[ProgressKey(userId, courseId)].lecture;
        GetLectureWithCheck(userId, courseId, current) == Success(lectures[current])
    {
    }

    /** A course with lectures at positions 1 and 2, and a user whose progress
        points at the first: the first is visible, the second is denied. */
    lemma ProgressScenario(userId: Uuid, courseId: Uuid, first: Uuid, second: Uuid)
      requires Valid() && courseId in courses && first in lectures && second in lectures
      requires lectures[first].numInSeq == 1 && lectures[second].numInSeq == 2
      requires ProgressKey(userId, courseId) in progress && progress[ProgressKey(userId, courseId)].lecture == first
      ensures GetLectureWithCheck(userId, courseId, first) == Success(lectures[first])
      ensures GetLectureWithCheck(userId, courseId, second) == Failure(AccessDenied(NotYetReached))
    {
    }

    /** The gate never asks which course the lecture belongs to: progress in
        one course unlocks the lectures of any other course at or before it. */
    lemma ForeignLectureIsVisible(userId: Uuid, courseId: Uuid, lectureId: Uuid)
      requires Valid() && courseId in courses && lectureId in lectures
      requires lectures[lectureId].course != courseId
      requires Unlocked(userId, courseId, lectureId)
      ensures GetLectureWithCheck(userId, courseId, lectureId) == Success(lectures[lectureId])
      ensures GetLectureWithScopedCheck(userId, courseId, lectureId) == Failure(LectureNotFound(lectureId))
    {
    }

    /** `updateLecture`: overwrites the scalar fields and replaces the section
        collection by sections built from the request (a full replace, not a
        merge). The course and its counter are untouched. */
    method UpdateLecture(courseId: Uuid, lectureId: Uuid, request: LectureRequest) returns (r: Result<Lecture>)
      requires Valid()
      modifies this
      ensures Valid()
      ensures courseId !in old(courses) ==> r == Failure(CourseNotFound(courseId)) && unchanged(this)
      ensures courseId in old(courses) && lectureId !in old(lectures) ==>
        r == Failure(LectureNotFound(lectureId)) && unchanged(this)
      ensures courseId in old(courses) && lectureId in old(lectures) ==>
        var added := Requested(request.sections);
        && lectures == old(lectures)[lectureId := Lecture(request.numInSeq, request.title, request.description,
                                                          old(lectures[lectureId].course), IdRange(old(nextId), |added|))]
        && r == Success(lectures[lectureId])
        && sections == old(sections) + NewSections(added, old(nextId), lectureId)
        && nextId == old(nextId) + |added|
        && courses == old(courses) && progress == old(progress)
    {
      if courseId !in courses {
        return Failure(CourseNotFound(courseId));
      }
      if lectureId !in lectures {
        return Failure(LectureNotFound(lectureId));
      }
      var lecture := lectures[lectureId];
      lecture := lecture.(numInSeq := request.numInSeq, title := request.title, description := request.description);
      var existing := SectionsOf(lectureId);
      // Every listed section points back at the lecture, so when the store
      // holds none for it, the collection is already empty.
      if |lecture.sections| > 0 {
        assert lecture.sections[0] in existing;
      }
      if existing != {} {
        lecture := lecture.(sections := []);
      }
      assert lecture.sections == [];
      ReplaceLectureKeepsWellFormed(courses, lectures, sections, progress, nextId, lectureId, lecture);
      lectures := lectures[lectureId := lecture];
      AddSections(lectureId, request.sections);
      assert [] + IdRange(old(nextId), |Requested(request.sections)|) == IdRange(old(nextId), |Requested(request.sections)|);
      r := Success(lectures[lectureId]);
    }

    /** A stored lecture that belongs to another course is not in this course's collection. */
    lemma ForeignLectureNotListed(courseId: Uuid, lectureId: Uuid)
      requires Valid() && courseId in courses && lectureId in lectures
      requires lectures[lectureId].course != courseId
      ensures lectureId !in courses[courseId].lectures
    {
    }

    /** `deleteLectureById`, as written: the counter drops by one whatever the
        removal does, so the counter stays in step exactly when the lecture is
        in this course's collection. */
    method DeleteLectureById(courseId: Uuid, lectureId: Uuid) returns (r: Outcome)
      requires Valid()
      modifies this
      ensures Valid()
      ensures courseId !in old(courses) ==> r == Fail(CourseNotFound(courseId)) && unchanged(this)
      ensures courseId in old(courses) && lectureId !in old(lectures) ==>
        r == Fail(LectureNotFound(lectureId)) && unchanged(this)
      ensures courseId in old(courses) && lectureId in old(lectures) ==>
        && r == Pass
        && courses == old(courses)[courseId := Detach(old(courses[courseId]), lectureId)]
        && lectureId !in courses[courseId].lectures
        && lectures == old(lectures) && sections == old(sections)
        && progress == old(progress) && nextId == old(nextId)
      ensures courseId in old(courses) && lectureId in old(lectures) && old(lectures[lectureId].course) != courseId ==>
        courses[courseId] == old(courses[courseId]).(numOfLect := old(courses[courseId].numOfLect) - 1)
      ensures r.Pass? && old(CountsAgree()) ==> (CountsAgree() <==> lectureId in old(courses[courseId].lectures))
    {
      if courseId !in courses {
        return Fail(CourseNotFound(courseId));
      }
      if lectureId !in lectures {
        return Fail(LectureNotFound(lectureId));
      }
      if lectures[lectureId].course != courseId {
        ForeignLectureNotListed(courseId, lectureId);
        DetachForeignLecture(courses[courseId], lectureId);
      }
      var course := courses[courseId];
      course := course.(numOfLect := course.numOfLect - 1);
      course := course.(lectures := RemoveFirst(course.lectures, lectureId));
      RemoveFirstKeeps(courses[courseId].lectures, lectureId);
      RemoveFirstDistinct(courses[courseId].lectures, lectureId);
      ReplaceCourseKeepsWellFormed(courses, lectures, sections, progress, nextId, courseId, course);
      courses := courses[courseId := course];
      if old(CountsAgree()) {
        DetachKeepsCountIff(old(courses[courseId]), lectureId);
        assert CountsAgree() <==> CountAgrees(courses[courseId]);
      }
      r := Pass;
    }

    /** The intended deletion: the counter drops only when the lecture left the
        collection, so the counter always stays in step. */
    method DeleteLectureByIdChecked(courseId: Uuid, lectureId: Uuid) returns (r: Outcome)
      requires Valid()
      modifies this
      ensures Valid()
      ensures courseId !in old(courses) ==> r == Fail(CourseNotFound(courseId)) && unchanged(this)
      ensures courseId in old(courses) && lectureId !in old(lectures) ==>
        r == Fail(LectureNotFound(lectureId)) && unchanged(this)
      ensures courseId in old(courses) && lectureId in old(lectures) ==>
        && r == Pass
        && courses == old(courses)[courseId := DetachChecked(old(courses[courseId]), lectureId)]
        && lectureId !in courses[courseId].lectures
        && lectures == old(lectures) && sections == old(sections)
        && progress == old(progress) && nextId == old(nextId)
      ensures old(CountsAgree()) ==> CountsAgree()
    {
      if courseId !in courses {
        return Fail(CourseNotFound(courseId));
      }
      if lectureId !in lectures {
        return Fail(LectureNotFound(lectureId));
      }
      var course := courses[courseId];
      var remaining := RemoveFirst(course.lectures, lectureId);
      if |remaining| < |course.lectures| {
        course := course.(numOfLect := course.numOfLect - 1, lectures := remaining);
      }
      RemoveFirstKeeps(courses[courseId].lectures, lectureId);
      RemoveFirstDistinct(courses[courseId].lectures, lectureId);
      ReplaceCourseKeepsWellFormed(courses, lectures, sections, progress, nextId, courseId, course);
      courses := courses[courseId := course];
      if CountAgrees(old(courses[courseId])) {
        DetachCheckedKeepsCount(old(courses[courseId]), lectureId);
      }
      r := Pass;
    }
  }
}
