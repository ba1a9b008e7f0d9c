# Student compatibility finder — Dafny model

The compatibility finder keeps an in-memory roster of students. Each row holds a
name, three scores (Math, Science, English) and a learning style. For the student
chosen in a selector, it lists every other student with a compatibility
percentage and a colour code. `MagistriAI.py` and `compatibility.py` contain the
same logic at the same lines (10–128); only comments and message texts differ.
This model covers both files.

- `students.dfy` (module `Students`): scores, roster rows, the error kinds and
  the selector's placeholder text `"Select a student"`.
- `scoring.dfy` (module `Scoring`): the post-processing in
  `calculate_compatibility`. A distance becomes `max((1 − d)·100, 0)`. The
  colour loop then assigns red below 35, orange from 35 up to 70 and green
  from 70 on. The distance is an abstract *distance oracle*: it stands for the
  normalisation, the random-forest fit and predict, and the Euclidean
  distance. It is required to return non-negative values. Because a new
  unseeded model is fitted on every request, every request takes its own
  oracle as a parameter.
- `roster.dfy` (module `Roster`): the roster as a class `Registry` whose
  `rows: seq<Student>` field `Add` appends to (the module-level table in the
  source), and `FindCompatible`, the match request. `Without` specifies the
  candidate pool and `FirstIndex` the row that supplies the query scores.

Errors that the source shows in a message box, or that end in an uncaught
exception, are `Failure` results:

- `BadScore`: a score field does not parse.
- `EmptyName`: the name field is empty.
- `TooFewStudents`: the roster has fewer than 2 rows.
- `NothingSelected`: the selector still shows its placeholder.
- `NotFound`: no row has the selected name. The source would fail at `.values[0]`.
- `EmptyPool`: every row has the selected name. The model fit in the source would raise.

## Model

| member | source | states |
|---|---|---|
| `Scoring.Percentage` | MagistriAI.py:70-74 | the percentage is never negative. It is `(1 − d)·100` when `d ≤ 1` and 0 when `d ≥ 1`. For a non-negative distance it is at most 100, and a zero distance gives exactly 100 |
| `Scoring.Classify` | MagistriAI.py:77-88 | red if and only if `p < 35`, orange if and only if `35 ≤ p < 70`, green if and only if `p ≥ 70` |
| `Scoring.Percentages` | compatibility.py:70-74 | one percentage per distance, in the same order. Each lies in `[0, 100]` when the distances are non-negative |
| `Scoring.CalculateCompatibility` | MagistriAI.py:57-90 | fails (model fit) exactly when there are no candidates; a zero-norm score vector, which also fails in the source, is listed under "## Left out". Otherwise it returns one percentage and one colour per candidate, in candidate order. Each colour classifies the percentage at the same position, and each percentage is in `[0, 100]`. The result depends only on the scores and the oracle, never on the learning styles |
| `Scoring.ClassifyBoundaries` | compatibility.py:77-88 | exactly 35 is orange and exactly 70 is green; 34.999 is red and 69.999 is orange |
| `Scoring.ClassifyMonotone` | MagistriAI.py:82-88 | a higher percentage never gets a lower colour in the order red < orange < green |
| `Scoring.PercentageAntitone` | MagistriAI.py:70-74 | a smaller distance never gives a smaller percentage |
| `Scoring.CloserNeverLowerTier` | MagistriAI.py:70-88 | a smaller distance never gives a lower colour |
| `Students.ScoresOf` | MagistriAI.py:111 | the Math, Science and English columns of the pool, in pool order (a plain definition with no contract) |
| `Students.StylesOf` | MagistriAI.py:112 | the LearningStyle column of the pool, in pool order (a plain definition with no contract) |
| `Scoring.Distances` | MagistriAI.py:70 | the vector of the oracle's distances, one per candidate, in candidate order (a plain definition with no contract) |
| `Roster.FirstIndex` | MagistriAI.py:103-105 | the query row is the first row with the selected name: it has that name and no earlier row does |
| `Roster.Without` | MagistriAI.py:108-110 | the pool is no longer than the roster. A row is in the pool if and only if it is in the roster and does not have the selected name |
| `Roster.WithoutAppend` | compatibility.py:108-110 | dropping rows by name distributes over concatenation, so the surviving rows keep their relative order |
| `Roster.WithoutAbsent` | MagistriAI.py:108-110 | when no row has the name, nothing is dropped |
| `Roster.WithoutShrinks` | MagistriAI.py:103-110 | when some row has the selected name, the pool is strictly smaller than the roster and no pool row has that name |
| `Roster.WithoutEmpty` | compatibility.py:103-113 | the pool is empty if and only if every row has the selected name, which is when the model fit would fail |
| `Roster.PoolAfterAdd` | MagistriAI.py:23-31 | adding a student with another name puts that student at the end of the pool and leaves the rest of the pool unchanged |
| `Roster.PoolOfThree` | MagistriAI.py:108-110 | for roster `[A, B, C]` and selection `B`, the pool is `[A, C]` |
| `Roster.Registry.constructor` | MagistriAI.py:8 | the roster starts empty |
| `Roster.Registry.Add` | MagistriAI.py:10-42 | a bad score gives `BadScore`, whatever the name. With three good scores, an empty name gives `EmptyName`. Otherwise the student is returned and exactly one row is appended at the end, with all earlier rows unchanged. On failure the roster is unchanged. Every row keeps a non-empty name |
| `Roster.Registry.FindCompatible` | MagistriAI.py:92-128 | it succeeds if and only if the roster has at least 2 rows, the selection is not the placeholder, some row has the selected name and some row does not. It fails with `TooFewStudents`, `NothingSelected`, `NotFound` or `EmptyPool`, checked in that order. On success, line `i` has the name of pool row `i` and the percentage of the oracle's distance for that row. That distance is measured from the first row with the selected name. Line `i` also has the colour of its own percentage. Since every row has a non-empty name, an empty selection on a roster of at least 2 rows fails with `NotFound`. It never changes the roster |

## Left out

- Score normalisation, the random-forest regressor and the Euclidean distance (MagistriAI.py:59-70) are floating-point library computations with an unseeded random model. They are the abstract `DistanceOracle`, and the model assumes only that it returns non-negative reals.
- Scoring.CalculateCompatibility and Roster.Registry.FindCompatible: a score vector with norm zero makes the source divide by zero. For a candidate, the NaN values reach the model fit (MagistriAI.py:64); the fit rejects them with an exception that nothing catches, so the request ends with no list. For the query, the NaN vector reaches the prediction (MagistriAI.py:67), which may fail the same way. The oracle returns a real for every input, so the model returns a list for these inputs.
- Parsing with `float()` (MagistriAI.py:13-15) is reduced to a parsed value or a parse failure per field. Values such as `nan` and `inf` that `float()` accepts are not modelled.
- Formatting a percentage with one decimal (MagistriAI.py:123) is display text and is not modelled. The model returns the exact percentage.
- Floating-point rounding in `(1 − d)·100` is not modelled. The arithmetic is exact over `real`.
- Message boxes, clearing the form, rebuilding the selector (MagistriAI.py:44-55), the text widget and its colour tags are user-interface code. So are the seating plan, the learning-style breakdown and the window layout. The selector's text is the `selection` parameter.
- The Flask and SQLAlchemy files (databasesetup.py, Quiz.py, LoginManager.py) contain no logic and are not part of this model.
