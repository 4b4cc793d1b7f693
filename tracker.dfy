/**
 * The component's state — `subjects`, `upcomingSubjects` and
 * `showFullscreenReminder` — and the handlers that replace it. Every handler
 * replaces a whole value, never a part of one.
 */
module Tracker {
  import opened Wrappers
  import opened Subjects
  import opened Store
  import opened Reminders

  class HomeworkTracker {
    var subjects: seq<Subject>
    var upcoming: seq<Subject>
    var showReminder: bool

    /** What every handler keeps: ids are unique and each record is coherent. */
    ghost predicate Valid()
      reads this
    {
      UniqueIds(subjects) && AllCoherent(subjects)
    }

    /**
     * The initial state: the one sample subject (id 1, mathematics, pending),
     * no reminder list and no reminder shown. Its two dates are local times
     * in the source, so they are given here in milliseconds.
     */
    constructor (mathDue: int, mathReminder: int)
      ensures subjects == [Subject(1, "數學", mathDue, mathReminder, false, Pending, None)]
      ensures upcoming == [] && !showReminder
      ensures Valid()
    {
      subjects := [Subject(1, "數學", mathDue, mathReminder, false, Pending, None)];
      upcoming := [];
      showReminder := false;
    }

    /** `addSubject` with the current draft. */
    method AddSubject(d: Draft)
      modifies this
      ensures subjects == Add(old(subjects), d)
      ensures upcoming == old(upcoming) && showReminder == old(showReminder)
      ensures old(Valid()) ==> Valid()
    {
      if Valid() { AddKeepsIdsUnique(subjects, d); }
      subjects := Add(subjects, d);
    }

    /** The confirmed delete of the subject with id `id`. */
    method DeleteSubject(id: int)
      modifies this
      ensures subjects == Delete(old(subjects), id)
      ensures upcoming == old(upcoming) && showReminder == old(showReminder)
      ensures old(Valid()) ==> Valid()
    {
      if Valid() { DeleteKeepsIdsUnique(subjects, id); }
      subjects := Delete(subjects, id);
    }

    /**
     * `updateSubjectStatus(id, st, sd)`. The status buttons keep the record
     * coherent: they pass a time with `Submitted` and none otherwise.
     */
    method UpdateSubjectStatus(id: int, st: Status, sd: Option<int> := None)
      modifies this
      ensures subjects == UpdateStatus(old(subjects), id, st, sd)
      ensures upcoming == old(upcoming) && showReminder == old(showReminder)
      ensures old(UniqueIds(subjects)) ==> UniqueIds(subjects)
      ensures old(Valid()) && (sd.Some? <==> st == Submitted) ==> Valid()
    {
      if UniqueIds(subjects) { UpdateStatusKeepsIdsUnique(subjects, id, st, sd); }
      if Valid() && (sd.Some? <==> st == Submitted) { UpdateStatusKeepsCoherent(subjects, id, st, sd); }
      subjects := UpdateStatus(subjects, id, st, sd);
    }

    /** The confirmed branch of `markAllAsPending`. */
    method MarkAllAsPending()
      modifies this
      ensures subjects == ResetAll(old(subjects))
      ensures upcoming == old(upcoming) && showReminder == old(showReminder)
      ensures old(Valid()) ==> Valid()
    {
      if Valid() { ResetAllKeepsIdsUnique(subjects); }
      ResetAllSettles(subjects);
      subjects := ResetAll(subjects);
    }

    /** Confirming the edit form with the edited copy `e` of a subject. */
    method SaveEditedSubject(e: Subject)
      modifies this
      ensures subjects == SaveEdit(old(subjects), e)
      ensures upcoming == old(upcoming) && showReminder == old(showReminder)
      ensures old(UniqueIds(subjects)) ==> UniqueIds(subjects)
      ensures old(Valid()) && Coherent(e) ==> Valid()
    {
      SaveEditKeepsInvariants(subjects, e);
      subjects := SaveEdit(subjects, e);
    }

    /**
     * One run of `checkReminders` at time `now`: a non-empty due-soon list
     * replaces `upcoming` and raises the reminder; an empty one changes
     * nothing, so a reminder already shown stays shown.
     */
    method CheckReminders(now: int)
      modifies this
      ensures subjects == old(subjects)
      ensures upcoming == (if DueSoon(subjects, now) != [] then DueSoon(subjects, now) else old(upcoming))
      ensures showReminder == (old(showReminder) || DueSoon(subjects, now) != [])
    {
      var due := DueSoon(subjects, now);
      if |due| > 0 {
        upcoming := due;
        showReminder := true;
      }
    }

    /** The reminder's acknowledge button: hides the reminder and keeps its list. */
    method Acknowledge()
      modifies this
      ensures !showReminder
      ensures subjects == old(subjects) && upcoming == old(upcoming)
    {
      showReminder := false;
    }
  }
}
