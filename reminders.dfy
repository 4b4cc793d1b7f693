/** `checkReminders`: which subjects the full-screen reminder lists. */
module Reminders {
  import opened Seqs
  import opened Subjects
  import opened Clock
  import TimeRemaining

  /** Three days, the reminder window. */
  const Window: int := 3 * Day

  /**
   * The filter predicate: a subject with a deadline, not yet submitted, due
   * after `now` and at most three days from it.
   */
  predicate IsDueSoon(now: int, x: Subject)
  {
    !x.isNoLimit && x.status != Submitted && 0 < x.dueDate - now <= Window
  }

  /** The list `checkReminders` computes, `subjects.filter(...)`. */
  function DueSoon(s: seq<Subject>, now: int): (r: seq<Subject>)
    ensures |r| <= |s|
    ensures forall i :: 0 <= i < |r| ==>
      r[i] in s && !r[i].isNoLimit && r[i].status != Submitted &&
      0 < r[i].dueDate - now <= Window
    ensures forall i :: 0 <= i < |s| && IsDueSoon(now, s[i]) ==> s[i] in r
  {
    Filter((x: Subject) => IsDueSoon(now, x), s)
  }

  /** The test in the source, `daysLeft <= 3 && daysLeft > 0` on `daysLeft = timeDiff / day`, read exactly. */
  ghost predicate ExactDueSoon(now: int, x: Subject)
  {
    if x.isNoLimit || x.status == Submitted then false
    else
      var daysLeft := (x.dueDate - now) as real / Day as real;
      daysLeft <= 3.0 && daysLeft > 0.0
  }

  /** Comparing milliseconds against three days is the source's comparison of fractional days. */
  lemma IsDueSoonIsExact(now: int, x: Subject)
    ensures IsDueSoon(now, x) <==> ExactDueSoon(now, x)
  {
  }

  /** Order is kept: the reminder list of two lists joined is the two reminder lists joined. */
  lemma DueSoonAppend(a: seq<Subject>, b: seq<Subject>, now: int)
    ensures DueSoon(a + b, now) == DueSoon(a, now) + DueSoon(b, now)
  {
    FilterAppend((x: Subject) => IsDueSoon(now, x), a, b);
  }

  /** The list is empty exactly when no subject is due soon. */
  lemma DueSoonEmpty(s: seq<Subject>, now: int)
    ensures DueSoon(s, now) == [] <==> forall i :: 0 <= i < |s| ==> !IsDueSoon(now, s[i])
  {
    FilterDropsAll((x: Subject) => IsDueSoon(now, x), s);
  }

  /**
   * At the check's own `now`, every due-soon subject's countdown is hours or
   * at most three days, never "overdue". The screen renders later, with a
   * fresh clock reading, so it can still show a listed subject as overdue.
   */
  lemma DueSoonCountdown(now: int, x: Subject)
    requires IsDueSoon(now, x)
    ensures var t := TimeRemaining.GetTimeRemaining(x.dueDate, x.isNoLimit, now);
      t.Some? && t.value.kind != TimeRemaining.Overdue && t.value.days <= 3
  {
    var t := TimeRemaining.GetTimeRemaining(x.dueDate, x.isNoLimit, now);
    if x.dueDate - now >= Day {
      var d := t.value.days;
      assert (d - 1) * Day < x.dueDate - now <= Window;
      assert (d - 1) * Day < 3 * Day;
    }
  }
}
