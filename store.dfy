/**
 * The subject store: every handler of the component computes a whole new
 * subject list from the current one and hands it to `setSubjects`. Each
 * such computation is a function here; the class in `Tracker` does the
 * replacement.
 */
module Store {
  import opened Wrappers
  import opened Seqs
  import opened Subjects

  /** `Math.max(...subjects.map(s => s.id))` on a non-empty list. */
  function MaxId(s: seq<Subject>): (m: int)
    requires |s| > 0
    ensures forall i :: 0 <= i < |s| ==> s[i].id <= m
    ensures exists i :: 0 <= i < |s| && s[i].id == m
  {
    if |s| == 1 then s[0].id
    else
      var rest := MaxId(s[1..]);
      assert forall i :: 1 <= i < |s| ==> s[i] == s[1..][i - 1];
      if s[0].id >= rest then s[0].id else rest
  }

  /** The id `addSubject` gives a new subject: one past the largest id, or 1 in an empty list. */
  function NextId(s: seq<Subject>): (n: int)
    ensures forall i :: 0 <= i < |s| ==> s[i].id < n
    ensures |s| == 0 ==> n == 1
    ensures |s| > 0 ==> exists i :: 0 <= i < |s| && s[i].id == n - 1
  {
    if |s| > 0 then MaxId(s) + 1 else 1
  }

  /**
   * `addSubject`: with a non-empty name, append one pending subject built
   * from the draft; otherwise leave the list as it is.
   */
  function Add(s: seq<Subject>, d: Draft): (r: seq<Subject>)
    ensures d.name == [] ==> r == s
    ensures d.name != [] ==>
      |r| == |s| + 1 && r[..|s|] == s &&
      var x := r[|s|];
      x.id == NextId(s) && x.name == d.name && x.dueDate == d.dueDate &&
      x.reminderDate == d.reminderDate && x.isNoLimit == d.isNoLimit &&
      x.status == Pending && x.submittedDate == None
  {
    if d.name != [] then
      s + [Subject(NextId(s), d.name, d.dueDate, d.reminderDate, d.isNoLimit, Pending, None)]
    else s
  }

  /** The confirmed branch of `deleteSubject`: `subjects.filter(s => s.id !== id)`. */
  function Delete(s: seq<Subject>, id: int): (r: seq<Subject>)
    ensures |r| <= |s|
    ensures forall i :: 0 <= i < |r| ==> r[i].id != id && r[i] in s
    ensures forall i :: 0 <= i < |s| && s[i].id != id ==> s[i] in r
  {
    Filter((x: Subject) => x.id != id, s)
  }

  /** `updateSubjectStatus(id, status, submittedDate = null)`. */
  function UpdateStatus(s: seq<Subject>, id: int, st: Status, sd: Option<int> := None): (r: seq<Subject>)
    ensures |r| == |s|
    ensures forall i :: 0 <= i < |s| ==>
      SameButStatus(s[i], r[i]) &&
      (s[i].id == id ==> r[i].status == st && r[i].submittedDate == sd) &&
      (s[i].id != id ==> r[i] == s[i])
  {
    Map((x: Subject) => if x.id == id then x.(status := st, submittedDate := sd) else x, s)
  }

  /** The confirmed branch of `markAllAsPending`. */
  function ResetAll(s: seq<Subject>): (r: seq<Subject>)
    ensures |r| == |s|
    ensures forall i :: 0 <= i < |s| ==>
      SameButStatus(s[i], r[i]) && r[i].status == Pending && r[i].submittedDate == None
  {
    Map((x: Subject) => x.(status := Pending, submittedDate := None), s)
  }

  /** Saving the edit form: `subjects.map(s => s.id === editingSubject.id ? editingSubject : s)`. */
  function SaveEdit(s: seq<Subject>, e: Subject): (r: seq<Subject>)
    ensures |r| == |s|
    ensures forall i :: 0 <= i < |s| ==>
      r[i].id == s[i].id &&
      (s[i].id == e.id ==> r[i] == e) &&
      (s[i].id != e.id ==> r[i] == s[i])
  {
    Map((x: Subject) => if x.id == e.id then e else x, s)
  }

  // ---- Properties of the store operations ----

  /** A list with the same ids position by position has unique ids when the other one has. */
  lemma SameIdsKeepUnique(a: seq<Subject>, b: seq<Subject>)
    requires |a| == |b| && forall i :: 0 <= i < |a| ==> a[i].id == b[i].id
    ensures UniqueIds(a) <==> UniqueIds(b)
  {
  }

  /** Adding keeps ids unique, and the new id is larger than every existing one. */
  lemma AddKeepsIdsUnique(s: seq<Subject>, d: Draft)
    requires UniqueIds(s)
    ensures UniqueIds(Add(s, d))
    ensures d.name != [] ==> forall i :: 0 <= i < |s| ==> s[i].id < Add(s, d)[|s|].id
  {
    var r := Add(s, d);
    if d.name != [] {
      forall i, j | 0 <= i < j < |r| ensures r[i].id != r[j].id {
        assert r[i] == s[i];
        if j < |s| { assert r[j] == s[j]; }
      }
    }
  }

  /** Any sub-list picked by a filter keeps unique ids. */
  lemma {:induction false} FilterKeepsIdsUnique(p: Subject -> bool, s: seq<Subject>)
    requires UniqueIds(s)
    ensures UniqueIds(Filter(p, s))
  {
    if s != [] {
      var tail := s[1..];
      assert UniqueIds(tail) by {
        forall i, j | 0 <= i < j < |tail| ensures tail[i].id != tail[j].id {
          assert tail[i] == s[i + 1] && tail[j] == s[j + 1];
        }
      }
      FilterKeepsIdsUnique(p, tail);
      var ft := Filter(p, tail);
      if p(s[0]) {
        forall k | 0 <= k < |ft| ensures ft[k].id != s[0].id {
          var j :| 0 <= j < |tail| && tail[j] == ft[k];
          assert tail[j] == s[j + 1];
        }
        assert Filter(p, s) == [s[0]] + ft;
      }
    }
  }

  lemma DeleteKeepsIdsUnique(s: seq<Subject>, id: int)
    requires UniqueIds(s)
    ensures UniqueIds(Delete(s, id))
  {
    FilterKeepsIdsUnique((x: Subject) => x.id != id, s);
  }

  /** With unique ids, deleting a present id removes exactly that one record, keeping the order of the rest. */
  lemma DeleteRemovesOne(s: seq<Subject>, id: int, k: int)
    requires UniqueIds(s)
    requires 0 <= k < |s| && s[k].id == id
    ensures Delete(s, id) == s[..k] + s[k + 1..]
  {
    var p := (x: Subject) => x.id != id;
    var before, after := s[..k], s[k + 1..];
    assert s == before + [s[k]] + after;
    forall i | 0 <= i < |before| ensures p(before[i]) { assert before[i] == s[i]; }
    forall i | 0 <= i < |after| ensures p(after[i]) { assert after[i] == s[k + 1 + i]; }
    FilterKeepsAll(p, before);
    FilterKeepsAll(p, after);
    assert Filter(p, [s[k]]) == [] by { assert [s[k]][1..] == []; }
    FilterAppend(p, before + [s[k]], after);
    FilterAppend(p, before, [s[k]]);
    calc {
      Delete(s, id);
      Filter(p, before + [s[k]] + after);
      Filter(p, before) + Filter(p, [s[k]]) + Filter(p, after);
      before + after;
    }
  }

  /** Deleting an id that no record has changes nothing. */
  lemma DeleteAbsent(s: seq<Subject>, id: int)
    requires forall i :: 0 <= i < |s| ==> s[i].id != id
    ensures Delete(s, id) == s
  {
    FilterKeepsAll((x: Subject) => x.id != id, s);
  }

  /** With unique ids, a status update rewrites the one record with that id in place. */
  lemma UpdateStatusAt(s: seq<Subject>, id: int, st: Status, sd: Option<int>, k: int)
    requires UniqueIds(s)
    requires 0 <= k < |s| && s[k].id == id
    ensures UpdateStatus(s, id, st, sd) == s[k := s[k].(status := st, submittedDate := sd)]
  {
  }

  /** A status update keeps the ids, hence keeps them unique. */
  lemma UpdateStatusKeepsIdsUnique(s: seq<Subject>, id: int, st: Status, sd: Option<int>)
    requires UniqueIds(s)
    ensures UniqueIds(UpdateStatus(s, id, st, sd))
  {
    SameIdsKeepUnique(s, UpdateStatus(s, id, st, sd));
  }

  /**
   * The three status buttons pass `new Date()` with `'submitted'` and nothing
   * (so `null`) with `'unknown'` and `'pending'`: such an update keeps every
   * record coherent.
   */
  lemma UpdateStatusKeepsCoherent(s: seq<Subject>, id: int, st: Status, sd: Option<int>)
    requires AllCoherent(s)
    requires sd.Some? <==> st == Submitted
    ensures AllCoherent(UpdateStatus(s, id, st, sd))
  {
  }

  /** After a reset every record is coherent, and resetting again changes nothing. */
  lemma ResetAllSettles(s: seq<Subject>)
    ensures AllCoherent(ResetAll(s))
    ensures ResetAll(ResetAll(s)) == ResetAll(s)
  {
  }

  lemma ResetAllKeepsIdsUnique(s: seq<Subject>)
    requires UniqueIds(s)
    ensures UniqueIds(ResetAll(s))
  {
    SameIdsKeepUnique(s, ResetAll(s));
  }

  /** With unique ids, saving an edit replaces exactly the record with the edited id. */
  lemma SaveEditAt(s: seq<Subject>, e: Subject, k: int)
    requires UniqueIds(s)
    requires 0 <= k < |s| && s[k].id == e.id
    ensures SaveEdit(s, e) == s[k := e]
  {
  }

  /** Saving an edit whose id no record has changes nothing. */
  lemma SaveEditAbsent(s: seq<Subject>, e: Subject)
    requires forall i :: 0 <= i < |s| ==> s[i].id != e.id
    ensures SaveEdit(s, e) == s
  {
  }

  lemma SaveEditKeepsInvariants(s: seq<Subject>, e: Subject)
    ensures UniqueIds(s) ==> UniqueIds(SaveEdit(s, e))
    ensures AllCoherent(s) && Coherent(e) ==> AllCoherent(SaveEdit(s, e))
  {
    SameIdsKeepUnique(s, SaveEdit(s, e));
  }
}
