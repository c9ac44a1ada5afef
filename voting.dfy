/**
 * The pairwise voting page of src/pages/VotingPage.tsx: the category filter
 * that runs when the selected category changes, and the handlers for a vote
 * for one student, a tie and the next comparison, as transitions of a state
 * object whose fields are the page's state slots.
 *
 * The filter and the rating update are functions; the handlers are methods
 * that call them.  Each handler is one atomic transition, and the random pick
 * of the next pair is a nondeterministic choice.
 */
module Voting {
  import opened Wrappers

  // ---------------------------------------------------------------------------
  // Data

  /** A profile card (the `Student` record of src/types.ts). */
  datatype Student = Student(
    id: int,
    name: string,
    imageUrl: string,
    experience: seq<string>,
    education: seq<string>,
    elo: int,
    category: string)

  /** Rating points a vote moves. */
  const EloStep := 32

  /** The `selectedId` value that records a tie. */
  const TieId := -1

  const DefaultCategory := "Computer Science"

  /** The categories the selector offers (the `Category` type). */
  const Categories: seq<string> := [
    "Computer Science", "Business", "Engineering", "Architecture", "Communication",
    "Education", "Fine Arts", "Geosciences", "Liberal Arts", "Natural Sciences",
    "Nursing", "Pharmacy", "Public Affairs", "Social Work"]

  /** The hard-coded students every category is filtered from. */
  const MockStudents: seq<Student> := [
    Student(1, "Alex Thompson",
      "https://images.unsplash.com/photo-1472099645785-5658abf4ff4e?auto=format&fit=crop&q=80&w=400",
      ["Software Engineer Intern at Google", "Research Assistant at University Lab"],
      ["BS Computer Science, Stanford University"], 1500, "Computer Science"),
    Student(2, "Sarah Chen",
      "https://images.unsplash.com/photo-1438761681033-6461ffad8d80?auto=format&fit=crop&q=80&w=400",
      ["Product Manager Intern at Microsoft", "Teaching Assistant"],
      ["MS Data Science, MIT"], 1450, "Computer Science"),
    Student(3, "Michael Rodriguez",
      "https://images.unsplash.com/photo-1500648767791-00dcc994a43e?auto=format&fit=crop&q=80&w=400",
      ["Investment Banking Intern at Goldman Sachs", "Finance Club President"],
      ["BBA Finance, UT Austin"], 1480, "Business"),
    Student(4, "Emily Zhang",
      "https://images.unsplash.com/photo-1494790108377-be9c29b29330?auto=format&fit=crop&q=80&w=400",
      ["Civil Engineering Intern at AECOM", "Research Assistant"],
      ["BS Civil Engineering, UT Austin"], 1520, "Engineering")]

  function Ids(s: seq<Student>): seq<int> {
    seq(|s|, i requires 0 <= i < |s| => s[i].id)
  }

  predicate DistinctIds(s: seq<Student>) {
    forall i, j :: 0 <= i < j < |s| ==> s[i].id != s[j].id
  }

  // ---------------------------------------------------------------------------
  // The category filter

  /** The students of one category, in their original order. */
  function InCategory(s: seq<Student>, c: string): seq<Student> {
    if s == [] then []
    else (if s[0].category == c then [s[0]] else []) + InCategory(s[1..], c)
  }

  /** The filter keeps exactly the students of the category, and no more
      students than the list has. */
  lemma {:induction false} InCategorySpec(s: seq<Student>, c: string)
    ensures forall x :: x in InCategory(s, c) ==> x in s && x.category == c
    ensures forall x :: x in s && x.category == c ==> x in InCategory(s, c)
    ensures |InCategory(s, c)| <= |s|
    decreases |s|
  {
    if s != [] {
      InCategorySpec(s[1..], c);
      assert forall x :: x in s[1..] ==> x in s;
      assert forall x :: x in s ==> x == s[0] || x in s[1..];
    }
  }

  /** Filtering distributes over concatenation, so it keeps relative order. */
  lemma {:induction false} InCategoryAppend(a: seq<Student>, b: seq<Student>, c: string)
    ensures InCategory(a + b, c) == InCategory(a, c) + InCategory(b, c)
    decreases |a|
  {
    if a == [] {
      assert a + b == b;
    } else {
      assert (a + b)[1..] == a[1..] + b;
      InCategoryAppend(a[1..], b, c);
    }
  }

  lemma ConsDistinct(y: Student, rest: seq<Student>)
    requires DistinctIds(rest)
    requires forall x :: x in rest ==> x.id != y.id
    ensures DistinctIds([y] + rest)
  {
    var r := [y] + rest;
    forall i, j | 0 <= i < j < |r|
      ensures r[i].id != r[j].id
    {
      assert r[j] == rest[j - 1];
      if i == 0 {
        assert r[j] in rest;
      } else {
        assert r[i] == rest[i - 1];
      }
    }
  }

  lemma HeadNotInTail(s: seq<Student>)
    requires DistinctIds(s) && s != []
    ensures DistinctIds(s[1..])
    ensures forall x :: x in s[1..] ==> x.id != s[0].id
  {
    forall x | x in s[1..]
      ensures x.id != s[0].id
    {
      var k :| 0 <= k < |s| - 1 && s[1..][k] == x;
      assert s[k + 1] == x;
    }
  }

  /** Filtering a list with distinct ids gives a list with distinct ids. */
  lemma {:induction false} InCategoryDistinct(s: seq<Student>, c: string)
    requires DistinctIds(s)
    ensures DistinctIds(InCategory(s, c))
    decreases |s|
  {
    if s != [] {
      HeadNotInTail(s);
      InCategoryDistinct(s[1..], c);
      var rest := InCategory(s[1..], c);
      if s[0].category == c {
        InCategorySpec(s[1..], c);
        ConsDistinct(s[0], rest);
      } else {
        assert InCategory(s, c) == [] + rest == rest;
      }
    }
  }

  lemma MockIdsDistinct()
    ensures DistinctIds(MockStudents)
  {
  }

  // ---------------------------------------------------------------------------
  // The rating update

  /** The rating update of a vote, applied to one student. */
  function Rated(s: Student, winnerId: int): Student {
    s.(elo := if s.id == winnerId then s.elo + EloStep else s.elo - EloStep)
  }

  /** A vote for `winnerId`: that student gains 32 points and every other
      student of the list, not only the opponent, loses 32. */
  function Rate(s: seq<Student>, winnerId: int): (r: seq<Student>)
    ensures |r| == |s| && Ids(r) == Ids(s)
    ensures forall i :: 0 <= i < |s| ==> r[i] == s[i].(elo := r[i].elo)
    ensures forall i :: 0 <= i < |s| && s[i].id == winnerId ==> r[i].elo == s[i].elo + EloStep
    ensures forall i :: 0 <= i < |s| && s[i].id != winnerId ==> r[i].elo == s[i].elo - EloStep
  {
    seq(|s|, i requires 0 <= i < |s| => Rated(s[i], winnerId))
  }

  function EloSum(s: seq<Student>): int {
    if s == [] then 0 else s[0].elo + EloSum(s[1..])
  }

  function CountId(s: seq<Student>, id: int): nat {
    if s == [] then 0 else (if s[0].id == id then 1 else 0) + CountId(s[1..], id)
  }

  /** The total rating changes by 32 for each student with the winner's id and
      by -32 for every other student: a vote is zero-sum only in a list of two. */
  lemma {:induction false} RateTotal(s: seq<Student>, winnerId: int)
    ensures EloSum(Rate(s, winnerId)) == EloSum(s) + EloStep * (2 * CountId(s, winnerId) - |s|)
    decreases |s|
  {
    if s != [] {
      RateTotal(s[1..], winnerId);
      assert Rate(s, winnerId)[1..] == Rate(s[1..], winnerId);
    }
  }

  /** The two lists hold the same students, up to their ratings. */
  predicate SameExceptElo(a: seq<Student>, b: seq<Student>) {
    |a| == |b| && forall i :: 0 <= i < |a| ==> a[i] == b[i].(elo := a[i].elo)
  }

  /** With two students or more, both sides show students of the list with
      different ids. */
  predicate PairShown(s: seq<Student>, left: Option<Student>, right: Option<Student>) {
    |s| >= 2 ==>
      && left.Some? && right.Some?
      && left.value.id in Ids(s) && right.value.id in Ids(s)
      && left.value.id != right.value.id
  }

  /** A list that matches a filtered catalog up to ratings has distinct ids
      and only students of the category. */
  lemma SameExceptEloFiltered(s: seq<Student>, catalog: seq<Student>, c: string)
    requires DistinctIds(catalog) && SameExceptElo(s, InCategory(catalog, c))
    ensures DistinctIds(s)
    ensures forall x :: x in s ==> x.category == c
  {
    var f := InCategory(catalog, c);
    InCategoryDistinct(catalog, c);
    InCategorySpec(catalog, c);
    assert forall i :: 0 <= i < |s| ==> s[i].id == f[i].id && s[i].category == f[i].category;
    forall x | x in s
      ensures x.category == c
    {
      var i :| 0 <= i < |s| && s[i] == x;
      assert f[i] in f;
    }
  }

  predicate HasPair(s: seq<Student>) {
    exists i, j :: 0 <= i < |s| && 0 <= j < |s| && s[i].id != s[j].id
  }

  /** A list with distinct ids offers a pair exactly when it has two students. */
  lemma PairIffTwo(s: seq<Student>)
    requires DistinctIds(s)
    ensures HasPair(s) <==> |s| >= 2
  {
    if |s| >= 2 {
      assert s[0].id != s[1].id;
    }
  }

  /** The random draw of the next pair, as a choice of any two positions
      whose students have different ids. */
  method PickPair(s: seq<Student>) returns (i: nat, j: nat)
    requires DistinctIds(s) && |s| >= 2
    ensures i < |s| && j < |s| && s[i].id != s[j].id
  {
    assert s[0].id != s[1].id;
    i, j :| i < |s| && j < |s| && s[i].id != s[j].id;
  }

  // ---------------------------------------------------------------------------
  // The page state

  class VotingPage {
    /** The list every category is filtered from. */
    const catalog: seq<Student>
    var selectedCategory: string
    var students: seq<Student>
    var leftStudent: Option<Student>
    var rightStudent: Option<Student>
    var selectedId: Option<int>
    var showNext: bool

    /** The next-comparison button is shown exactly while a vote is recorded;
        the list holds the students of the selected category, in catalog
        order, with their current ratings; with two students or more a pair
        of different students from the list is on display. */
    ghost predicate Valid()
      reads this
    {
      && (showNext <==> selectedId.Some?)
      && DistinctIds(catalog)
      && SameExceptElo(students, InCategory(catalog, selectedCategory))
      && PairShown(students, leftStudent, rightStudent)
    }

    /** The initial state slots, followed by the category effect that runs
        once the page is first shown. */
    constructor ()
      ensures Valid() && catalog == MockStudents
      ensures selectedCategory == DefaultCategory
      ensures students == InCategory(MockStudents, DefaultCategory)
      ensures |students| >= 2 ==>
        leftStudent == Some(students[0]) && rightStudent == Some(students[1])
      ensures selectedId == None && !showNext
    {
      catalog := MockStudents;
      selectedCategory := DefaultCategory;
      students := [];
      leftStudent := None;
      rightStudent := None;
      selectedId := None;
      showNext := false;
      new;
      MockIdsDistinct();
      ApplyCategory();
    }

    /** The effect on a change of category: reload the list from the mock
        data, and start over from its first two students when it has two. */
    method ApplyCategory()
      requires showNext <==> selectedId.Some?
      requires DistinctIds(catalog)
      modifies this
      ensures Valid()
      ensures selectedCategory == old(selectedCategory)
      ensures students == InCategory(catalog, selectedCategory)
      ensures |students| >= 2 ==>
        && leftStudent == Some(students[0]) && rightStudent == Some(students[1])
        && selectedId == None && !showNext
      ensures |students| < 2 ==>
        && leftStudent == old(leftStudent) && rightStudent == old(rightStudent)
        && selectedId == old(selectedId) && showNext == old(showNext)
    {
      var filtered := InCategory(catalog, selectedCategory);
      InCategoryDistinct(catalog, selectedCategory);
      students := filtered;
      if |filtered| >= 2 {
        assert Ids(filtered)[0] == filtered[0].id && Ids(filtered)[1] == filtered[1].id;
        leftStudent := Some(filtered[0]);
        rightStudent := Some(filtered[1]);
        selectedId := None;
        showNext := false;
      }
    }

    /** The category selector: the effect runs only when the value changes. */
    method SelectCategory(c: string)
      requires Valid()
      requires c in Categories
      modifies this
      ensures Valid()
      ensures selectedCategory == c
      ensures c == old(selectedCategory) ==>
        students == old(students) && leftStudent == old(leftStudent) && rightStudent == old(rightStudent)
        && selectedId == old(selectedId) && showNext == old(showNext)
      ensures c != old(selectedCategory) ==> students == InCategory(catalog, c)
      ensures c != old(selectedCategory) && |students| >= 2 ==>
        && leftStudent == Some(students[0]) && rightStudent == Some(students[1])
        && selectedId == None && !showNext
      ensures c != old(selectedCategory) && |students| < 2 ==>
        && leftStudent == old(leftStudent) && rightStudent == old(rightStudent)
        && selectedId == old(selectedId) && showNext == old(showNext)
    {
      if c != selectedCategory {
        selectedCategory := c;
        ApplyCategory();
      }
    }

    /** A click on a card: at most one vote per comparison; the vote rates
        the whole list and leaves the displayed pair as it was. */
    method Compare(winnerId: int)
      requires Valid()
      modifies this
      ensures Valid()
      ensures old(selectedId).Some? ==>
        students == old(students) && selectedId == old(selectedId) && showNext == old(showNext)
      ensures old(selectedId).None? ==>
        && selectedId == Some(winnerId) && showNext
        && students == Rate(old(students), winnerId)
      ensures selectedCategory == old(selectedCategory)
      ensures leftStudent == old(leftStudent) && rightStudent == old(rightStudent)
    {
      if selectedId.Some? {
        return;
      }
      selectedId := Some(winnerId);
      showNext := true;
      students := Rate(students, winnerId);
    }

    /** The tie button: records a tie and changes no rating. */
    method Equal()
      requires Valid()
      modifies this
      ensures Valid()
      ensures old(selectedId).Some? ==> selectedId == old(selectedId) && showNext == old(showNext)
      ensures old(selectedId).None? ==> selectedId == Some(TieId) && showNext
      ensures students == old(students) && selectedCategory == old(selectedCategory)
      ensures leftStudent == old(leftStudent) && rightStudent == old(rightStudent)
    {
      if selectedId.Some? {
        return;
      }
      selectedId := Some(TieId);
      showNext := true;
    }

    /** The next-comparison button as written: draws pairs until their ids
        differ, which ends only when the list has two different ids, so a
        list of one student is excluded. */
    method Next()
      requires Valid()
      requires |students| != 1
      modifies this
      ensures Valid()
      ensures students == old(students) && selectedCategory == old(selectedCategory)
      ensures old(students) == [] ==>
        leftStudent == old(leftStudent) && rightStudent == old(rightStudent)
        && selectedId == old(selectedId) && showNext == old(showNext)
      ensures old(students) != [] ==>
        && selectedId == None && !showNext
        && leftStudent.Some? && leftStudent.value in students
        && rightStudent.Some? && rightStudent.value in students
        && leftStudent.value.id != rightStudent.value.id
    {
      if students == [] {
        return;
      }
      SameExceptEloFiltered(students, catalog, selectedCategory);
      var i, j := PickPair(students);
      assert Ids(students)[i] == students[i].id && Ids(students)[j] == students[j].id;
      selectedId, showNext := None, false;
      leftStudent, rightStudent := Some(students[i]), Some(students[j]);
    }

    /** The next-comparison button with the guard it evidently needs: fewer
        than two students leave the page unchanged. */
    method NextChecked()
      requires Valid()
      modifies this
      ensures Valid()
      ensures students == old(students) && selectedCategory == old(selectedCategory)
      ensures |students| < 2 ==>
        leftStudent == old(leftStudent) && rightStudent == old(rightStudent)
        && selectedId == old(selectedId) && showNext == old(showNext)
      ensures |students| >= 2 ==>
        && selectedId == None && !showNext
        && leftStudent.Some? && leftStudent.value in students
        && rightStudent.Some? && rightStudent.value in students
        && leftStudent.value.id != rightStudent.value.id
    {
      if |students| < 2 {
        return;
      }
      Next();
    }
  }

  // ---------------------------------------------------------------------------
  // Scenarios

  /** The default category lists Alex Thompson and Sarah Chen. */
  lemma DefaultPair()
    ensures InCategory(MockStudents, DefaultCategory) == [MockStudents[0], MockStudents[1]]
  {
    var m := MockStudents;
    assert InCategory(m[3..], DefaultCategory) == [];
    assert InCategory(m[2..], DefaultCategory) == [];
    assert InCategory(m[1..], DefaultCategory) == [m[1]];
  }

  /** Business lists a single student. */
  lemma BusinessSingle()
    ensures InCategory(MockStudents, "Business") == [MockStudents[2]]
  {
    var m := MockStudents;
    assert InCategory(m[3..], "Business") == [];
    assert InCategory(m[2..], "Business") == [m[2]];
    assert InCategory(m[1..], "Business") == [m[2]];
  }

  /** What the switch to Business relies on: it is a listed category other
      than the default, and it lists one student. */
  lemma BusinessFacts()
    ensures "Business" in Categories && "Business" != DefaultCategory
    ensures |InCategory(MockStudents, "Business")| == 1
  {
    assert Categories[1] == "Business";
    BusinessSingle();
  }

  /** Vote in the default category, then switch to Business: the effect
      leaves the slots alone, so the button for the next comparison stays shown
      over a list of one student, where the draw loop of `Next` never finds
      two different ids. */
  method StrandedNextButton() returns (shown: bool, listed: nat, pair: bool)
    ensures shown && listed == 1 && !pair
  {
    var page := new VotingPage();
    page.Compare(1);
    BusinessFacts();
    page.SelectCategory("Business");
    shown, listed := page.showNext, |page.students|;
    PairIffTwo(page.students);
    pair := HasPair(page.students);
  }
}
