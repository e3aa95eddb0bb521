# Trivia quiz engine: game, question and user stores

A Dafny model of the in-memory core of a small trivia quiz server. A player starts a game. The
game is filled with questions from a trivia provider, whose answer options are rotated by a
random amount. The player then fetches the question of the current round, one at a time, and
answers it. A correct answer to the question at the current round earns a point.

The core has three stores and an orchestrator:

- the **game store** (`src/lib/database/game-db.js`) keeps each game's question ids, its round
  counter, its player and the answers recorded so far;
- the **question store** (`src/lib/database/question-db.js`) keeps each question's text, its
  answer options and the index of the correct option;
- the **user store** (`src/lib/database/user-db.js`) keeps each user's current game and score;
- the **orchestrator** (`src/lib/functions/quiz/index.js`) implements `startGame`,
  `getNextQuestion` and `answerQuestion` on top of the stores.

The three module-level dictionaries become the map fields `games`, `questions` and `users` of
one class, `Quiz.Engine`. The store operations that change a dictionary are methods with
`modifies this`. Every method states its whole new state, with the pure functions of modules
`GameStore`, `QuestionStore` and `UserStore`. The lookups are functions that read the object.
`Engine.Valid()` is the store invariant that `CreateGame`, `StartGame` and `AnswerQuestion`
keep:

- each game's round equals the number of distinct questions answered;
- responses belong to the game's own, distinct questions;
- every stored question is listed by the game it names and has a valid correct-answer index;
- every listed question is stored and names its game.

Values the source draws from outside are parameters:

- the uuid generator gives the fresh game id `gid` and the fresh question ids `qids`;
- the trivia provider's response gives `candidates`;
- `Math.random` gives each candidate's rotation amount in `shifts`.

The source's comments and its code differ on one point, and the model follows the code.

- The comment at `src/lib/functions/quiz/index.js:68` says that only a *new* question scores.
- The guard at `src/lib/functions/quiz/index.js:69` scores whenever the answer is correct and
  the question's position equals the round as it was before recording.
- Under in-order play those agree (`Quiz.InOrderReanswer`). When a later question is answered
  first, they do not: every correct re-answer to the question at the round's position scores
  again (`Quiz.SkipAheadThenRescore`).

## Model

| member | source | states |
|---|---|---|
| QuestionStore.IndexOf | src/lib/database/question-db.js:60 | `Array.prototype.indexOf`: -1 exactly when the value is absent; otherwise its first occurrence |
| QuestionStore.NewQuestion | src/lib/database/question-db.js:57-69 | the stored record keeps game, text and options; its index is valid iff the correct text is among the options, and then it names that text's first occurrence; it is -1 otherwise |
| GameStore.FreshGame | src/lib/database/game-db.js:115-120 | a new game is well-formed, at round 0, with the given question ids and player |
| GameStore.Recorded | src/lib/database/game-db.js:153-159 | recording keeps questions and player, sets the response, and advances the round by one exactly when the question had no response |
| GameStore.RoundWithinBounds | src/lib/database/game-db.js:153-157 | in a well-formed game the round lies between 0 and the number of questions |
| GameStore.RecordPreservesWellFormed | src/lib/database/game-db.js:153-159 | recording an answer to one of the game's own questions keeps the game well-formed |
| GameStore.Rotate | src/lib/database/game-db.js:136-143 | the shuffle with a fixed amount is a rotation to the right, of the same length |
| GameStore.RotatePermutes | src/lib/database/game-db.js:136-143 | the shuffle is a permutation of its input |
| GameStore.RotateMoves | src/lib/database/game-db.js:136-143 | rotating by `k` moves the element at `i` to `i + k`, wrapping around past the end |
| GameStore.RotateStep | src/lib/database/game-db.js:139-141 | one `unshift(pop())` step rotates one place further |
| GameStore.ShuffleArray | src/lib/database/game-db.js:136-143 | the pop/unshift loop on a copy returns exactly the rotation by the drawn amount |
| GameStore.Options | src/lib/database/game-db.js:104 | the shuffled options built from the incorrect answers and the correct one contain the correct one |
| GameStore.PopulatedQuestion | src/lib/database/game-db.js:103-111 | a populated question belongs to its game, keeps the provider's text, and its correct index is valid and names the provider's correct answer |
| GameStore.PopulatedAnswers | src/lib/database/game-db.js:104 | a populated question's options are exactly the provider's answers, reordered |
| UserStore.Unassigned | src/lib/database/user-db.js:65-68 | a created user has no game and a null score, so its first point makes the score 1 |
| UserStore.Assigned | src/lib/database/user-db.js:84-87 | an assigned user has the game and score 0, whatever its score was, so its first point makes the score 1 |
| UserStore.ScorePlusOne | src/lib/database/user-db.js:102 | `score += 1` gives 1 on a null score and one more than the score otherwise |
| UserStore.ScoreIncreased | src/lib/database/user-db.js:97-105 | only the given known user's score changes, its current game stays, and the score goes up by one (null counts as 0) |
| Quiz.Scores | src/lib/functions/quiz/index.js:62-69 | the guard holds only for a correct answer; for a question of the game, exactly when the round before recording is the position of its first occurrence; for any other id, exactly when the round is -1 (the `indexOf` miss value) |
| Quiz.InOrderReanswer | src/lib/functions/quiz/index.js:59-71 | under in-order play a re-answer never scores and never moves the round, and play stays in order |
| Quiz.InOrderAnswerNext | src/lib/functions/quiz/index.js:59-71 | under in-order play, answering the current question scores iff correct, advances the round by one, and keeps play in order |
| Quiz.ReanswerAtRoundRescores | src/lib/functions/quiz/index.js:62-71 | once the question at the round's position has a response, each correct re-answer to it scores and leaves the round unchanged |
| Quiz.SkipAheadThenRescore | src/lib/functions/quiz/index.js:62-71 | from a fresh two-question game, answering the second first does not score, and each later correct re-answer to it does |
| Quiz.PopulatePreservesConsistent | src/lib/database/game-db.js:102-120 | adding a fresh game whose distinct fresh question ids are stored under it with valid indexes keeps the stores consistent |
| Quiz.RecordPreservesConsistent | src/lib/database/game-db.js:153-159 | recording an answer in a stored question's own game keeps the stores consistent |
| Quiz.WalkthroughFirstQuestion | src/lib/database/game-db.js:102-111 | the provider's question with answers "A" (correct) and "B", rotated by one, is stored as options ["A", "B"] with correct index 0 |
| Quiz.WalkthroughSecondQuestion | src/lib/database/game-db.js:102-111 | answers "D" (correct) and "C", not rotated, are stored as ["C", "D"] with correct index 1 |
| Quiz.WalkthroughRounds | src/lib/functions/quiz/index.js:59-77 | in a two-question game, answering q1 and then q2 scores both times and ends the game; re-answering q1 afterwards does not score and leaves the round at 2 |
| Quiz.WalkthroughScores | src/lib/database/user-db.js:97-105 | a player assigned to a game goes from score 0 to 1 to 2 over two scoring answers |
| Quiz.StartTwoQuestions | src/lib/functions/quiz/index.js:10-21 | `startGame` on a fresh engine with the two walk-through questions stores a round-0 game listing both, with correct indexes 0 and 1, and assigns the player with score 0 |
| Quiz.AnswerFirst | src/lib/functions/quiz/index.js:59-77 | answering the first question correctly at round 0 returns (correct, 1, not complete), records it and moves the round to 1 |
| Quiz.AnswerSecond | src/lib/functions/quiz/index.js:59-77 | then answering the second correctly returns (correct, 2, complete) and moves the round to 2 |
| Quiz.AnswerAgain | src/lib/functions/quiz/index.js:59-77 | then re-answering the first returns (correct, 2, complete) and leaves the game, its round and the player's score as they were |
| Quiz.TwoQuestionGame | src/lib/functions/quiz/index.js:10-77 | the whole walk-through on one engine: the three answers return (correct, 1, not complete), (correct, 2, complete) and (correct, 2, complete) |
| Quiz.Engine.constructor | src/lib/database/game-db.js:30 | the three stores start empty and consistent: `GAME_DB` here, with `QUESTION_DB` at src/lib/database/question-db.js:22 and `USER_DB` at src/lib/database/user-db.js:16 |
| Quiz.Engine.GetGameById | src/lib/database/game-db.js:51-53 | the stored game iff the id is known |
| Quiz.Engine.GetGameCurrentRound | src/lib/database/game-db.js:60-62 | the round of a known game, absent otherwise; in consistent stores it lies between 0 and the number of questions |
| Quiz.Engine.IsGameOver | src/lib/database/game-db.js:69-74 | over for an unknown id; for a known game, over iff the round reached the number of questions |
| Quiz.Engine.RecordAnswer | src/lib/database/game-db.js:153-159 | only the given game changes, to the recorded game |
| Quiz.Engine.CreateGame | src/lib/database/game-db.js:82-129 | returns the fresh id; stores a fresh round-0 game for the player listing the fresh question ids; adds exactly those questions, each populated from its candidate; keeps every old question and the stores consistent |
| Quiz.Engine.PopulateQuestions | src/lib/database/game-db.js:102-113 | the loop returns the ids in candidate order, adds exactly those questions, each populated from its candidate, and keeps every old question |
| Quiz.Engine.PopulateQuestion | src/lib/database/game-db.js:103-112 | one loop round stores the candidate's shuffled question under the fresh id and nothing else |
| Quiz.Engine.GetQuestionById | src/lib/database/question-db.js:45-47 | the stored question iff the id is known; in consistent stores it is listed by its game and has a valid index |
| Quiz.Engine.GetQuestionsByGameId | src/lib/database/question-db.js:29-38 | exactly the pairs of a stored id and its question that name the game, each id once |
| Quiz.Engine.CreateQuestion | src/lib/database/question-db.js:57-69 | returns the fresh id and adds exactly one entry, the new question record |
| Quiz.Engine.GetUserById | src/lib/database/user-db.js:37-39 | the stored user iff the id is known |
| Quiz.Engine.GetUserScore | src/lib/database/user-db.js:46-52 | null for an unknown user, the stored (possibly null) score otherwise |
| Quiz.Engine.CreateUser | src/lib/database/user-db.js:60-69 | the user gets a record with no game and null score, overwriting any existing one; the other stores do not change |
| Quiz.Engine.UpdateUserCurrentGame | src/lib/database/user-db.js:78-90 | absent and nothing changes for an unknown user; otherwise the whole record is replaced by the game with score 0, and the game id is returned |
| Quiz.Engine.IncreaseUserScore | src/lib/database/user-db.js:97-105 | absent and nothing changes for an unknown user; otherwise the score goes up by one and the new score is returned |
| Quiz.Engine.StartGame | src/lib/functions/quiz/index.js:10-21 | creates and populates the game, assigns it to the user (created if absent) with score 0 whatever the score was, keeps the stores consistent, and the game is over at once iff it has no questions |
| Quiz.Engine.GetNextQuestion | src/lib/functions/quiz/index.js:29-51 | the completion message when the game is over (including unknown ids, so the invalid-id message never occurs); otherwise the id, text, options and number of the question at the current round |
| Quiz.Engine.AnswerQuestion | src/lib/functions/quiz/index.js:59-77 | records the answer in the question's game; reports whether it is the stored correct index; adds a point to the player exactly when the scoring guard holds before recording; returns the player's score and whether the game is now over; keeps the stores consistent and the round within bounds; under in-order play a re-answer changes no score and no round |

## Left out

- The HTTPS request to the trivia provider, its streaming and JSON parsing, and the error log line: the parsed response is the `candidates` parameter.
- The uuid generator and `Math.random`: the fresh ids and the rotation amounts are parameters. The amounts must lie in the range `Math.random` can produce, and the ids must be fresh and distinct.
- Quiz.Engine.CreateGame: in the source the questions are stored, and the game record written, when the provider's response arrives after `createGame` has returned. A `getNextQuestion` in between sees an unknown game. The model runs the population synchronously before returning, so that race is not represented.
- `console.log` warnings in the user store and the orchestrator: they have no effect on state.
- `getAllGames` and `getAllUsers`: debug listings outside the core.
- The HTTP routing in `src/index.js`: src/index.js is not part of this model.
- Quiz.Engine.AnswerQuestion: an unknown question id makes the source throw while destructuring `undefined`. The model requires a stored id, and the store invariant supplies the game.
- Quiz.Engine.RecordAnswer: an unknown game id makes the source throw. The model requires a known id.
- Quiz.Engine.CreateQuestion does not keep the store invariant by itself, because the source only calls it from inside `createGame`. It neither requires nor ensures `Valid()`.
- Quiz.Engine.GetQuestionsByGameId: the order of `Object.keys` is not modelled. The contract fixes the contents of the output and that each id appears once, but not the order.
- Answers are integers, and `===` is integer equality. A string answer arriving from the transport, which never equals the stored number, is not modelled.
- The stored response is an integer. The source itself stores whatever value the caller passed.
- Loose `== undefined` tests are modelled as map membership. In the model responses are integers. In the source a missing or null answer (a `POST /answer` without `answer`) is stored as `undefined` or `null`, and the next answer to that question passes the test at `src/lib/database/game-db.js:155` and advances the round again, past the number of distinct answers.
- Quiz.Engine.RecordAnswer does not keep the store invariant by itself: recording a question id that the game does not list adds a response outside its questions. The source calls it only from `answerQuestion`, with the question's own game, and `Quiz.Engine.AnswerQuestion` keeps the invariant.
- Quiz.Engine.IncreaseUserScore: a score is an unbounded integer, so the JavaScript number's precision limit is not modelled.
- GameStore.ShuffleArray: the source copies an array. The model works on a sequence value, which is a copy already.
