/** The values the compatibility finder works on: a student's three scores,
    a student row of the roster, and the outcome of an operation that can
    fail (the source raises ValueError or stops with a message box). */
module Students {

  /** The three numeric columns of a roster row: Math, Science, English. */
  datatype Scores = Scores(math: real, science: real, english: real)

  /** One roster row. The learning style is the free text of the style
      selector; no computation ever reads it. */
  datatype Student = Student(name: string, scores: Scores, learningStyle: string)

  /** A parsed form field: `None` when the text is not a number. */
  datatype Option<+T> = None | Some(value: T)

  datatype Result<+T, +E> = Success(value: T) | Failure(error: E)

  /** Why adding a student was refused. */
  datatype AddError =
    | BadScore   // one of the three score fields is not a number
    | EmptyName  // the name field is empty

  /** Why a match request produced no list. */
  datatype MatchError =
    | TooFewStudents   // fewer than two rows in the roster
    | NothingSelected  // the selector still shows its placeholder
    | NotFound         // no row carries the selected name
    | EmptyPool        // every row carries the selected name: nothing to fit on

  /** The placeholder the student selector shows before a choice is made. */
  const Placeholder: string := "Select a student"

  /** The Scores column of a sequence of rows, in row order. */
  function ScoresOf(rows: seq<Student>): seq<Scores>
  {
    seq(|rows|, i requires 0 <= i < |rows| => rows[i].scores)
  }

  /** The LearningStyle column of a sequence of rows, in row order. */
  function StylesOf(rows: seq<Student>): seq<string>
  {
    seq(|rows|, i requires 0 <= i < |rows| => rows[i].learningStyle)
  }
}
