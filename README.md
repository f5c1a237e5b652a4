# Trivia game scoring, winner and result table — a Dafny model

This project models the logic of a console trivia game for several players
(`johdatus_ohjelmointiin/trivia_game_helpers.py`): running the quiz and
building the score table (`quiz`), totalling the scores and picking the
winners (`calculate_winner`), and building the rows of the result file
(`write_score_to_csv`). Console input, the random shuffle, the trivia web
service and the file are replaced by parameters and return values.

Modules, one file each:

- `Text` (`text.dfy`): the ASCII part of `str.upper` with an independent
  "equal up to letter case" definition, and `str(n)` for natural numbers with
  a reader (`ParseNat`) that inverts it.
- `Scores` (`scores.dfy`): the score table. Python dictionaries keep
  insertion order, and that order decides the order of winners and of result
  rows, so a dictionary is a sequence of (key, value) pairs: `IndexOf` is the
  lookup, `Put` is `d[k] = v` (a present key keeps its place, a new one is
  appended), `Get` is `d[k]`, `Total` is `sum(d.values())`, `QuestionKeys(n)`
  is the key sequence "1".."n".
- `Quiz` (`quiz.dfy`): `RunQuiz` is `quiz`. Its loop over the questions
  shows the shuffled choices (`PresentChoices`, which shuffles an array in
  place with `Shuffle`) and asks every player in list order (`AskPlayers`),
  storing `Point(answer, correct)` under `str(question_number)`. The line a
  player types for question `q` is `answers[q][p]`; the random numbers the
  shuffle draws for question `q` are `draws[q]`.
- `Winner` (`winner.dfy`): `CalculateWinner` is `calculate_winner`, with
  the running maximum that starts at -1 and the list of tied leaders that is
  restarted whenever the maximum rises. It returns the totals, the maximum,
  the leaders and the announcement instead of printing. `Highest` and
  `Leaders` are its specification: the maximum of the totals and the
  in-order list of the players that reach a given total.
- `Export` (`export.dfy`): `WriteScoreRows` is `write_score_to_csv` and
  returns the rows (a row is a sequence of cells) instead of writing
  `quiz_score.csv`. `ScoreRows` is its specification, and `ReadTotals` reads
  the names and totals back from the rows.

The model keeps two details of the code that are easy to misremember: the
answer is compared as typed (`input()` drops only the line break; nothing is
trimmed), and the header takes the first player's keys with no check that
the other players share them. `ScoreRowsAligned` states exactly when every
row has the header's length, and that for a table shaped by the quiz every
point also sits under its own question's column; equal lengths alone do not
ensure the latter.

## Model

| member | source | states |
|---|---|---|
| `Text.UpperEqualIff` | johdatus_ohjelmointiin/trivia_game_helpers.py:134-135 | comparing the upper-cased strings holds exactly when the two strings are equal up to letter case, in both directions |
| `Text.NatToString` | johdatus_ohjelmointiin/trivia_game_helpers.py:140 | `str(n)` is a non-empty string of decimal digits with no leading zero |
| `Text.NatToStringParseNat` | johdatus_ohjelmointiin/trivia_game_helpers.py:278 | a cell of non-empty digits, with a leading 0 only in "0", reads as a number whose `str` is that cell again, so the numerals `str` writes are exactly those cells |
| `Text.ParseNatToString` | johdatus_ohjelmointiin/trivia_game_helpers.py:278 | a number written as `str(n)` reads back as `n` |
| `Text.NatToStringInjective` | johdatus_ohjelmointiin/trivia_game_helpers.py:140 | two question numbers give the same key exactly when they are equal |
| `Scores.IndexOf` | johdatus_ohjelmointiin/trivia_game_helpers.py:140 | the dictionary lookup finds the first position holding the key, or reports that no position holds it |
| `Scores.IndexOfDistinct` | johdatus_ohjelmointiin/trivia_game_helpers.py:140 | with distinct keys, `score[player]` finds exactly that player's entry |
| `Scores.PutFresh` | johdatus_ohjelmointiin/trivia_game_helpers.py:110-111 | assigning a key not yet in the dictionary appends the pair at the end |
| `Scores.PutPresent` | johdatus_ohjelmointiin/trivia_game_helpers.py:140 | assigning a present key changes that key's value only, keeps the length and the key order |
| `Scores.Get` | johdatus_ohjelmointiin/trivia_game_helpers.py:140 | `d[k]` for a present key is a value stored with that key |
| `Scores.TotalAtMostCount` | johdatus_ohjelmointiin/trivia_game_helpers.py:135-140 | with every point 0 or 1, a total never exceeds the number of questions |
| `Scores.QuestionKeysFresh` | johdatus_ohjelmointiin/trivia_game_helpers.py:140-142 | the keys "1".."n" are distinct, and the next question number is not among them, so every answer adds a new key |
| `Quiz.Point` | johdatus_ohjelmointiin/trivia_game_helpers.py:135-138 | the point is 0 or 1, and 1 exactly when the answer equals the correct answer up to letter case |
| `Quiz.PointExamples` | johdatus_ohjelmointiin/trivia_game_helpers.py:134-138 | "paris" and "PARIS" score for "Paris"; "Pariisi" does not, nor "0" for "42" |
| `Quiz.Shuffle` | johdatus_ohjelmointiin/trivia_game_helpers.py:125 | whatever the random draws, the shuffled array is a permutation of the original |
| `Quiz.PresentChoices` | johdatus_ohjelmointiin/trivia_game_helpers.py:122-125 | the choices shown are a permutation of the incorrect answers plus the correct one, so they contain the correct answer and number one more than the incorrect answers |
| `Quiz.NewScoreTable` | johdatus_ohjelmointiin/trivia_game_helpers.py:109-111 | every listed player gets an empty point map, no one else gets one, and the players are entered in list order |
| `Quiz.RecordedStep` | johdatus_ohjelmointiin/trivia_game_helpers.py:140-142 | storing the point for question n+1 under `str(n + 1)` extends a map holding keys "1".."n" to keys "1".."n+1" with the right point |
| `Quiz.AskPlayers` | johdatus_ohjelmointiin/trivia_game_helpers.py:131-140 | after one round every player's map holds one more key, the current question number, with the point that player's answer earns, and the table's players and their order are unchanged |
| `Quiz.RecordedTable` | johdatus_ohjelmointiin/trivia_game_helpers.py:131-142 | a fully recorded table has keys "1".."n" for every player, points that are 1 exactly for answers matching up to case, the same key sequence for all, and totals of at most n |
| `Quiz.RunQuiz` | johdatus_ohjelmointiin/trivia_game_helpers.py:108-145 | the table has exactly the listed players in list order; each has keys "1".."n" in order; the point for question q is 1 exactly when the answer matches the correct one up to case; totals are at most n; the choices shown per question are a permutation of incorrect + correct answers |
| `Winner.HighestIsMax` | johdatus_ohjelmointiin/trivia_game_helpers.py:194-204 | the running maximum is -1 exactly for an empty table, is at least every total, and is reached by some player otherwise |
| `Winner.LeadersSound` | johdatus_ohjelmointiin/trivia_game_helpers.py:202-206 | every listed leader is a player with the given total |
| `Winner.LeadersComplete` | johdatus_ohjelmointiin/trivia_game_helpers.py:202-206 | every player with the given total is listed |
| `Winner.LeadersMembership` | johdatus_ohjelmointiin/trivia_game_helpers.py:202-206 | a name is a leader exactly when some player of that name has the given total |
| `Winner.LeadersAboveAll` | johdatus_ohjelmointiin/trivia_game_helpers.py:202-204 | nobody is listed for a total above every player's, which is why a new maximum restarts the list |
| `Winner.RunningMaxStep` | johdatus_ohjelmointiin/trivia_game_helpers.py:202-206 | a higher total becomes the maximum with its player as the only leader, an equal total appends its player, a lower one changes nothing |
| `Winner.SumsStep` | johdatus_ohjelmointiin/trivia_game_helpers.py:199-201 | recording a player's total in `player_point_sums` appends it after the totals of the players before it |
| `Winner.WinnerFacts` | johdatus_ohjelmointiin/trivia_game_helpers.py:194-214 | the maximum, the leaders as the argmax set, and the announcement's "no points" case as the caller of the winner calculation sees them |
| `Winner.DocumentedExample` | johdatus_ohjelmointiin/trivia_game_helpers.py:178-188 | for the documented Sheldon/Leonard/Penny table the maximum is 3 and Penny alone leads |
| `Winner.EmptyTableAnnouncedAsWinners` | johdatus_ohjelmointiin/trivia_game_helpers.py:207-214 | as written, an empty table announces winners with score -1 and no names |
| `Winner.IntendedAnnouncement` | johdatus_ohjelmointiin/trivia_game_helpers.py:207-214 | the corrected announcement says "no points" exactly when no player scored, and otherwise names a non-empty list with a positive score |
| `Winner.AnnouncementsAgree` | johdatus_ohjelmointiin/trivia_game_helpers.py:207-214 | on every table with at least one player the corrected and the as-written announcement are the same |
| `Winner.CalculateWinner` | johdatus_ohjelmointiin/trivia_game_helpers.py:148-214 | the totals are the sums of the point maps in table order; the maximum is -1 for an empty table and otherwise the largest total, reached by some player; the leaders are exactly the players with that total, in table order; "no points" is announced exactly when no player scored, otherwise the leaders with the maximum |
| `Export.WriteScoreRows` | johdatus_ohjelmointiin/trivia_game_helpers.py:268-278 | the emitted rows are the header followed by one row per player in table order |
| `Export.ScoreRowsShape` | johdatus_ohjelmointiin/trivia_game_helpers.py:268-278 | there is one row more than players; the header is "Name", "Question k" for each of the first player's keys, "Total"; each player row starts with the name and has one cell per point plus the total |
| `Export.ScoreRowsAligned` | johdatus_ohjelmointiin/trivia_game_helpers.py:263-269 | all rows are as long as the header exactly when every player has as many points as the first player; in a quiz-shaped table every point also sits under the "Question" column of its own key |
| `Export.ScoreRowsRoundTrip` | johdatus_ohjelmointiin/trivia_game_helpers.py:274-278 | reading the rows back gives every player's name and total in table order, and every point cell reads back as its point |

## Findings

| source | as written | input that shows it | evidently intended | confidence | as-written member | corrected member |
|---|---|---|---|---|---|---|
| johdatus_ohjelmointiin/trivia_game_helpers.py:207-214 | only a highest score of exactly 0 selects the "no points" message | an empty score table (zero players, which the entry flow in trivia_game.py:41-46 accepts): the maximum stays -1 and "Player(s) with the highest score (-1):" and "Congratulations!" are printed with no names | nobody is congratulated unless someone scored | medium; not executed | `Winner.EmptyTableAnnouncedAsWinners` | `Winner.IntendedAnnouncement` |

`Winner.CalculateWinner` uses the corrected announcement (`AnnounceIntended`);
`Winner.AnnouncementsAgree` shows that it differs from the code only on the
empty table.

## Left out

- `get_questions`: the HTTP request to the trivia service and its status-code message are network I/O; `RunQuiz` takes the parsed question records. A failed request whose body has no `results` list is not modelled.
- `html.unescape`: the question texts and answers are taken as already decoded.
- `random.shuffle`'s random source: the draws are a parameter and each is reduced below `i + 1` where Python calls `randbelow(i + 1)`; only the permutation property is promised, not uniformity.
- `str.upper`: only ASCII letters are case-mapped; full Unicode case mapping (for example "ß" to "SS") is a library concern.
- Console input and output: the prompt text with the joined choices, the "Correct answer is" line, the winner lines and the final message; the answers are parameters and the announcement is a returned value.
- `Quiz.RunQuiz`: the question text is carried in each record but the prompt built from it is not modelled.
- File handling and CSV quoting: the rows are returned as sequences of cells; a number cell holds the text `str` gives it.
- The `__main__` demonstration block (fixed players, pretty-printed JSON).
- `trivia_game.py`, the interactive entry flow with its retry loops, is not part of this model; its one rule, unique player names, is the `Distinct(players)` precondition of `Quiz.RunQuiz` (the dictionary would otherwise merge repeated names).
- `Export.WriteScoreRows`: an empty table is outside its precondition, because taking the first player's keys raises on it.
