/** The roster of students and the two user actions on it: adding a student,
    and listing every other student with a compatibility percentage and a
    colour code for the student chosen in the selector. */
module Roster {
  import opened Students
  import opened Scoring

  /** Some row of `rows` carries `name`. */
  predicate HasName(rows: seq<Student>, name: string)
  {
    exists i | 0 <= i < |rows| :: rows[i].name == name
  }

  /** The position of the first row that carries `name`. */
  function FirstIndex(rows: seq<Student>, name: string): (k: nat)
    requires HasName(rows, name)
    ensures k < |rows| && rows[k].name == name
    ensures forall j :: 0 <= j < k ==> rows[j].name != name
  {
    if rows[0].name == name then 0
    else
      assert HasName(rows[1..], name) by {
        var i :| 0 <= i < |rows| && rows[i].name == name;
        assert rows[1..][i - 1].name == name;
      }
      1 + FirstIndex(rows[1..], name)
  }

  /** The roster with every row that carries `name` dropped, the other rows
      in their original order. */
  function Without(rows: seq<Student>, name: string): (pool: seq<Student>)
    ensures |pool| <= |rows|
    ensures forall s :: s in pool <==> s in rows && s.name != name
  {
    if rows == [] then []
    else if rows[0].name == name then Without(rows[1..], name)
    else [rows[0]] + Without(rows[1..], name)
  }

  /** One line of the result list: a candidate's name with its percentage
      and colour code. */
  datatype Match = Match(name: string, percentage: real, color: Tier)

  /** The roster, which lives for the whole session and only ever grows. */
  class Registry {
    var rows: seq<Student>

    /** Every row was admitted with a non-empty name. */
    ghost predicate Valid()
      reads this
    {
      forall i :: 0 <= i < |rows| ==> rows[i].name != ""
    }

    constructor ()
      ensures Valid() && rows == []
    {
      rows := [];
    }

    /** Adds a student from the form. Each score is `None` when its field
        does not parse as a number; the scores are parsed before the name
        is checked. On success exactly one row is appended at the end; on
        failure the roster is unchanged. */
    method Add(name: string, math: Option<real>, science: Option<real>, english: Option<real>,
               learningStyle: string)
      returns (r: Result<Student, AddError>)
      requires Valid()
      modifies this
      ensures Valid()
      ensures (math.None? || science.None? || english.None?) ==> r == Failure(BadScore)
      ensures math.Some? && science.Some? && english.Some? && name == "" ==> r == Failure(EmptyName)
      ensures math.Some? && science.Some? && english.Some? && name != "" ==>
                r == Success(Student(name, Scores(math.value, science.value, english.value), learningStyle))
      ensures r.Success? ==> rows == old(rows) + [r.value]
      ensures r.Failure? ==> rows == old(rows)
    {
      if math.None? || science.None? || english.None? {
        return Failure(BadScore);
      }
      if name == "" {
        return Failure(EmptyName);
      }
      var student := Student(name, Scores(math.value, science.value, english.value), learningStyle);
      rows := rows + [student];
      return Success(student);
    }

    /** Lists every other student for the selection. Refuses with fewer than
        two rows, with the placeholder selection, with a name no row carries,
        and when no row is left to score against; as no row has an empty
        name, an empty selection is never found. Otherwise the query scores
        are those of the first row with the selected name, the candidates are
        the roster without every row of that name, and line `i` of the list
        pairs candidate `i` with the `i`-th percentage and colour code. */
    method FindCompatible(selection: string, distance: DistanceOracle)
      returns (r: Result<seq<Match>, MatchError>)
      requires Valid() && IsDistanceOracle(distance)
      ensures r.Success? <==>
                |rows| >= 2 && selection != Placeholder && HasName(rows, selection)
                && Without(rows, selection) != []
      ensures |rows| < 2 ==> r == Failure(TooFewStudents)
      ensures |rows| >= 2 && selection == Placeholder ==> r == Failure(NothingSelected)
      ensures |rows| >= 2 && selection != Placeholder && !HasName(rows, selection) ==>
                r == Failure(NotFound)
      ensures (|rows| >= 2 && selection != Placeholder && HasName(rows, selection)
               && Without(rows, selection) == []) ==> r == Failure(EmptyPool)
      ensures |rows| >= 2 && selection == "" ==> r == Failure(NotFound)
      ensures r.Success? ==>
                var candidates := Without(rows, selection);
                var query := rows[FirstIndex(rows, selection)].scores;
                var ds := Distances(distance, query, ScoresOf(candidates));
                && |r.value| == |candidates|
                && forall i :: 0 <= i < |candidates| ==>
                     && r.value[i].name == candidates[i].name
                     && r.value[i].percentage == Percentage(ds[i])
                     && 0.0 <= r.value[i].percentage <= 100.0
                     && r.value[i].color == Classify(r.value[i].percentage)
    {
      if |rows| < 2 {
        return Failure(TooFewStudents);
      }
      if selection == Placeholder {
        return Failure(NothingSelected);
      }
      if !HasName(rows, selection) {
        return Failure(NotFound);
      }
      var selected := rows[FirstIndex(rows, selection)];
      var candidates := Without(rows, selection);
      var scored := CalculateCompatibility(selected.scores, selected.learningStyle,
                                           ScoresOf(candidates), StylesOf(candidates), distance);
      if scored.Failure? {
        return Failure(scored.error);
      }
      var percentages, colors := scored.value.percentages, scored.value.colors;
      var shown: seq<Match> := [];
      for index := 0 to |candidates|
        invariant |shown| == index
        invariant forall j :: 0 <= j < index ==>
                    shown[j] == Match(candidates[j].name, percentages[j], colors[j])
      {
        shown := shown + [Match(candidates[index].name, percentages[index], colors[index])];
      }
      return Success(shown);
    }
  }

  /** Dropping rows by name distributes over concatenation: the rows that
      survive keep their relative order. */
  lemma {:induction false} WithoutAppend(a: seq<Student>, b: seq<Student>, name: string)
    ensures Without(a + b, name) == Without(a, name) + Without(b, name)
  {
    if a == [] {
      assert a + b == b;
    } else {
      assert (a + b)[1..] == a[1..] + b;
      WithoutAppend(a[1..], b, name);
    }
  }

  /** A roster with no row of that name loses nothing. */
  lemma {:induction false} WithoutAbsent(rows: seq<Student>, name: string)
    requires !HasName(rows, name)
    ensures Without(rows, name) == rows
  {
    if rows != [] {
      assert !HasName(rows[1..], name) by {
        forall i | 0 <= i < |rows[1..]| ensures rows[1..][i].name != name {
          assert rows[1..][i] == rows[i + 1];
        }
      }
      WithoutAbsent(rows[1..], name);
      assert rows == [rows[0]] + rows[1..];
    }
  }

  /** The selected student is really dropped: the pool is strictly smaller
      than the roster, and no row of the pool carries the selected name. */
  lemma {:induction false} WithoutShrinks(rows: seq<Student>, name: string)
    requires HasName(rows, name)
    ensures |Without(rows, name)| < |rows|
    ensures forall i :: 0 <= i < |Without(rows, name)| ==> Without(rows, name)[i].name != name
  {
    if rows[0].name != name {
      assert HasName(rows[1..], name) by {
        var i :| 0 <= i < |rows| && rows[i].name == name;
        assert rows[1..][i - 1].name == name;
      }
      WithoutShrinks(rows[1..], name);
    }
    forall i | 0 <= i < |Without(rows, name)| ensures Without(rows, name)[i].name != name {
      assert Without(rows, name)[i] in Without(rows, name);
    }
  }

  /** The pool is empty exactly when every row carries the selected name. */
  lemma {:induction false} WithoutEmpty(rows: seq<Student>, name: string)
    ensures Without(rows, name) == [] <==> forall i :: 0 <= i < |rows| ==> rows[i].name == name
  {
    if rows != [] {
      WithoutEmpty(rows[1..], name);
      if rows[0].name == name {
        forall i | 0 <= i < |rows[1..]| ensures rows[1..][i] == rows[i + 1] { }
      }
    }
  }

  /** Adding a student of another name puts that student at the end of the
      pool, behind everything the pool held before. */
  lemma PoolAfterAdd(rows: seq<Student>, s: Student, name: string)
    requires s.name != name
    ensures Without(rows + [s], name) == Without(rows, name) + [s]
  {
    WithoutAppend(rows, [s], name);
    assert [s][1..] == [];
  }

  /** Roster A, B, C queried for B gives the pool A, C. */
  lemma PoolOfThree(a: Student, b: Student, c: Student)
    requires a.name != b.name && c.name != b.name
    ensures Without([a, b, c], b.name) == [a, c]
  {
    assert [a, b, c][1..] == [b, c];
    assert [b, c][1..] == [c];
    assert [c][1..] == [];
  }
}
