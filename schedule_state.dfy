/** WebASMTimeTabler/Core/ScheduleStateService.cs: the set of selected
    courses, a HashSet keyed by ClassNumber through CourseComparer. */
module ScheduleState {
  import opened Catalog

  /** The ClassNumbers of a set of courses. */
  function Numbers(s: set<Course>): set<string>
  {
    set c | c in s :: c.classNumber
  }

  /** No two courses of s share a ClassNumber, as a HashSet with
      CourseComparer keeps it. */
  predicate Unique(s: set<Course>)
  {
    forall a, b :: a in s && b in s && a.classNumber == b.classNumber ==> a == b
  }

  /** HashSet.Contains: some element has the same ClassNumber. */
  predicate Holds(s: set<Course>, c: Course)
  {
    exists d :: d in s && d.classNumber == c.classNumber
  }

  /** The set after ToggleCourse(c): the element with c's ClassNumber is
      removed when there is one, otherwise c is added. */
  function Toggled(s: set<Course>, c: Course): set<Course>
  {
    if Holds(s, c) then set d | d in s && d.classNumber != c.classNumber else s + {c}
  }

  class ScheduleStateService {
    var selected: set<Course>

    ghost predicate Valid()
      reads this
    {
      Unique(selected)
    }

    constructor()
      ensures selected == {} && Valid()
    {
      selected := {};
    }

    method ToggleCourse(c: Course)
      requires Valid()
      modifies this
      ensures selected == Toggled(old(selected), c) && Valid()
    {
      if Holds(selected, c) {
        selected := set d | d in selected && d.classNumber != c.classNumber;
      } else {
        selected := selected + {c};
      }
      ToggleUnique(old(selected), c);
    }

    predicate IsSelected(c: Course)
      reads this
    {
      Holds(selected, c)
    }

    method Clear()
      modifies this
      ensures selected == {} && Valid()
      ensures forall c :: !IsSelected(c)
    {
      selected := {};
    }
  }

  /** Membership by ClassNumber is membership of the ClassNumber. */
  lemma HoldsNumbers(s: set<Course>, c: Course)
    ensures Holds(s, c) <==> c.classNumber in Numbers(s)
  {
    if c.classNumber in Numbers(s) {
      var d :| d in s && d.classNumber == c.classNumber;
    }
  }

  /** A toggle flips c's ClassNumber and no other. */
  lemma ToggleNumbers(s: set<Course>, c: Course)
    ensures Numbers(Toggled(s, c)) == if Holds(s, c) then Numbers(s) - {c.classNumber} else Numbers(s) + {c.classNumber}
  {
    HoldsNumbers(s, c);
    var t := Toggled(s, c);
    forall n | n in Numbers(t) ensures n in Numbers(s) - {c.classNumber} || (!Holds(s, c) && n in Numbers(s) + {c.classNumber}) {
      var d :| d in t && d.classNumber == n;
    }
    forall n | n in Numbers(s) && n != c.classNumber ensures n in Numbers(t) {
      var d :| d in s && d.classNumber == n;
      assert d in t;
    }
    if !Holds(s, c) {
      assert c in t;
    }
  }

  /** Toggling an unselected course selects it; toggling a selected one
      deselects it; no other ClassNumber changes membership. */
  lemma ToggleSelects(s: set<Course>, c: Course, e: Course)
    ensures Holds(Toggled(s, c), c) <==> !Holds(s, c)
    ensures e.classNumber != c.classNumber ==> (Holds(Toggled(s, c), e) <==> Holds(s, e))
  {
    ToggleNumbers(s, c);
    HoldsNumbers(s, c);
    HoldsNumbers(Toggled(s, c), c);
    HoldsNumbers(s, e);
    HoldsNumbers(Toggled(s, c), e);
  }

  /** Toggling the same course twice restores the selected ClassNumbers; when
      the course was not selected, it restores the very set. */
  lemma ToggleTwice(s: set<Course>, c: Course)
    ensures Numbers(Toggled(Toggled(s, c), c)) == Numbers(s)
    ensures !Holds(s, c) ==> Toggled(Toggled(s, c), c) == s
  {
    ToggleNumbers(s, c);
    ToggleNumbers(Toggled(s, c), c);
    HoldsNumbers(s, c);
    HoldsNumbers(Toggled(s, c), c);
    if !Holds(s, c) {
      var t := Toggled(s, c);
      assert Toggled(t, c) == s by {
        forall d | d in s ensures d.classNumber != c.classNumber {
          HoldsNumbers(s, d);
        }
      }
    }
  }

  /** A toggle keeps the ClassNumbers unique. */
  lemma ToggleUnique(s: set<Course>, c: Course)
    ensures Unique(s) ==> Unique(Toggled(s, c))
  {
  }
}
