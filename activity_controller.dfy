/**
 * Scheduling activities (`ActivityController`). Requests carry keys that are
 * already resolved; each is only checked to exist, never checked against the
 * others. The stored `date_time` joins the date and the time with one space.
 */
module ActivityController {
  import opened Wrappers
  import opened Tables
  import opened ValidationRules
  import opened Schema

  /** The form `store` and `update` receive. */
  datatype ActivityRequest = ActivityRequest(
    title: string, date: string, time: string, yearLevelId: int, sectionId: int, subjectId: int)

  /**
   * The rules `store` and `update` share. `isDate` is the calendar check
   * behind Laravel's `date` rule; the three keys need only exist.
   */
  predicate ValidActivity(
    yearLevels: Table<YearLevel>, sections: Table<Section>, subjects: Table<Subject>,
    isDate: string -> bool, req: ActivityRequest)
  {
    && ShortText(req.title)
    && Required(req.date) && isDate(req.date)
    && IsHourMinute(req.time)
    && HasId(yearLevels, req.yearLevelId)
    && HasId(sections, req.sectionId)
    && HasId(subjects, req.subjectId)
  }

  /** `$validated['date'] . ' ' . $validated['time']`. */
  function DateTime(date: string, time: string): string {
    date + " " + time
  }

  /** Recover the date and the `H:i` time from a stored `date_time`. */
  function SplitDateTime(s: string): (string, string)
    requires |s| >= 6
  {
    (s[..|s| - 6], s[|s| - 5..])
  }

  /** Joining then splitting gives back the date and the time, whatever the date holds. */
  lemma DateTimeRoundTrip(date: string, time: string)
    requires IsHourMinute(time)
    ensures |DateTime(date, time)| == |date| + 6
    ensures SplitDateTime(DateTime(date, time)) == (date, time)
  {
    var s := DateTime(date, time);
    assert s[..|s| - 6] == date;
    assert s[|s| - 5..] == time;
  }

  /** Splitting a stored value whose time is well formed and joining again gives it back. */
  lemma SplitDateTimeRoundTrip(s: string)
    requires |s| >= 6 && s[|s| - 6] == ' ' && IsHourMinute(s[|s| - 5..])
    ensures DateTime(SplitDateTime(s).0, SplitDateTime(s).1) == s
  {
    assert s == s[..|s| - 6] + [s[|s| - 6]] + s[|s| - 5..];
  }

  lemma DateTimeExample()
    ensures DateTime("2025-06-01", "14:30") == "2025-06-01 14:30"
  {
  }

  /** The row a valid request becomes. */
  function ActivityOf(req: ActivityRequest): Activity {
    Activity(req.title, DateTime(req.date, req.time), req.yearLevelId, req.sectionId, req.subjectId)
  }

  /** `store`: validate, then create exactly one activity. */
  method Store(db: Database, isDate: string -> bool, req: ActivityRequest) returns (outcome: Outcome)
    requires db.Valid()
    modifies db`activities
    ensures db.Valid()
    ensures !ValidActivity(db.yearLevels, db.sections, db.subjects, isDate, req) ==>
      outcome == Invalid && db.activities == old(db.activities)
    ensures ValidActivity(db.yearLevels, db.sections, db.subjects, isDate, req) ==>
      && outcome == Success
      && db.activities == Insert(old(db.activities), ActivityOf(req))
      && |db.activities.rows| == |old(db.activities.rows)| + 1
      && Find(db.activities, old(db.activities.nextId)) == Some(ActivityOf(req))
      && (forall id :: id != old(db.activities.nextId) ==> Find(db.activities, id) == Find(old(db.activities), id))
  {
    if !ValidActivity(db.yearLevels, db.sections, db.subjects, isDate, req) {
      return Invalid;
    }
    InsertSpec(db.activities, ActivityOf(req));
    db.activities := Insert(db.activities, ActivityOf(req));
    outcome := Success;
  }

  /**
   * `update`: route-model binding answers 404 for an unknown key before the
   * rules run; a valid request then replaces all five columns of that row.
   */
  method Update(db: Database, isDate: string -> bool, id: int, req: ActivityRequest) returns (outcome: Outcome)
    requires db.Valid()
    modifies db`activities
    ensures db.Valid()
    ensures !HasId(old(db.activities), id) ==> outcome == NotFound && db.activities == old(db.activities)
    ensures HasId(old(db.activities), id) && !ValidActivity(db.yearLevels, db.sections, db.subjects, isDate, req) ==>
      outcome == Invalid && db.activities == old(db.activities)
    ensures HasId(old(db.activities), id) && ValidActivity(db.yearLevels, db.sections, db.subjects, isDate, req) ==>
      && outcome == Success
      && db.activities == Replace(old(db.activities), id, ActivityOf(req))
      && Find(db.activities, id) == Some(ActivityOf(req))
      && (forall other :: other != id ==> Find(db.activities, other) == Find(old(db.activities), other))
  {
    if !HasId(db.activities, id) {
      return NotFound;
    }
    if !ValidActivity(db.yearLevels, db.sections, db.subjects, isDate, req) {
      return Invalid;
    }
    ReplaceSpec(db.activities, id, ActivityOf(req));
    db.activities := Replace(db.activities, id, ActivityOf(req));
    outcome := Success;
  }

  /** `destroy`: route-model binding answers 404 for an unknown key; otherwise exactly that row goes. */
  method Destroy(db: Database, id: int) returns (outcome: Outcome)
    requires db.Valid()
    modifies db`activities
    ensures db.Valid()
    ensures !HasId(old(db.activities), id) ==> outcome == NotFound && db.activities == old(db.activities)
    ensures HasId(old(db.activities), id) ==>
      && outcome == Success
      && db.activities == Delete(old(db.activities), id)
      && |db.activities.rows| == |old(db.activities.rows)| - 1
      && !HasId(db.activities, id)
      && (forall other :: other != id ==> Find(db.activities, other) == Find(old(db.activities), other))
  {
    if !HasId(db.activities, id) {
      return NotFound;
    }
    DeleteSpec(db.activities, id);
    db.activities := Delete(db.activities, id);
    outcome := Success;
  }
}
