/** The quiz orchestrator (src/lib/functions/quiz/index.js) together with the three in-memory
    stores it drives, held as the map fields of one `Engine` object. */
module Quiz {
  import opened Wrappers
  import opened Ids
  import opened QuestionStore
  import opened GameStore
  import opened UserStore

  const CompletedMessage: string := "Sorry, this game is already completed"
  const InvalidGameMessage: string := "Sorry, this is not a valid game id"

  /** What `getNextQuestion` returns: a user-facing message, or the question payload, which
      has no field for the correct answer. */
  datatype NextQuestion =
    | Message(message: string)
    | Payload(qid: QuestionId, question: string, answers: seq<string>, round: int)

  /** What `answerQuestion` returns; `score` is null when the player is unknown or unscored. */
  datatype AnswerResult = AnswerResult(correct: bool, score: Option<int>, complete: bool)

  /** The scoring guard of `answerQuestion`: the answer is correct and the question's position
      in the game equals the round as it was read before the answer was recorded. */
  predicate Scores(g: Game, qid: QuestionId, correct: bool): (s: bool)
    ensures s ==> correct
    ensures qid in g.questions ==>
      (s <==> correct && 0 <= g.currentRound < |g.questions| && g.questions[g.currentRound] == qid
                      && qid !in g.questions[..g.currentRound])
    ensures qid !in g.questions ==> (s <==> correct && g.currentRound == -1)
  {
    correct && IndexOf(g.questions, qid) == g.currentRound
  }

  /** In-order play: the answered questions are exactly the first `currentRound` ones. */
  ghost predicate InOrder(g: Game) {
    && 0 <= g.currentRound <= |g.questions|
    && forall q :: q in g.responses <==> q in g.questions[..g.currentRound]
  }

  /** Under in-order play a re-answer neither scores nor moves the round, and play stays in order. */
  lemma InOrderReanswer(g: Game, qid: QuestionId, answer: int, correct: bool)
    requires InOrder(g) && qid in g.responses
    ensures !Scores(g, qid, correct)
    ensures Recorded(g, qid, answer).currentRound == g.currentRound
    ensures InOrder(Recorded(g, qid, answer))
  {
  }

  /** Under in-order play, answering the question at the current round scores exactly when the
      answer is correct, advances the round by one, and keeps play in order. */
  lemma InOrderAnswerNext(g: Game, answer: int, correct: bool)
    requires InOrder(g) && Distinct(g.questions) && g.currentRound < |g.questions|
    ensures var qid := g.questions[g.currentRound];
      && qid !in g.responses
      && (Scores(g, qid, correct) <==> correct)
      && Recorded(g, qid, answer).currentRound == g.currentRound + 1
      && InOrder(Recorded(g, qid, answer))
  {
  }

  /** Out of order the guard does re-score: once a question at the current round's position has
      a response, every correct re-answer to it scores and leaves the round where it is. */
  lemma ReanswerAtRoundRescores(g: Game, qid: QuestionId, answer: int)
    requires qid in g.responses && IndexOf(g.questions, qid) == g.currentRound
    ensures Scores(g, qid, true)
    ensures Recorded(g, qid, answer).currentRound == g.currentRound
    ensures Scores(Recorded(g, qid, answer), qid, true)
  {
  }

  /** Such a state is reached from a fresh two-question game: answer the second question first
      (no score, round 1), and from then on each correct re-answer to it scores. */
  lemma SkipAheadThenRescore(a: QuestionId, b: QuestionId, player: UserId, first: int, again: int)
    requires a != b
    ensures var g0 := FreshGame([a, b], player);
      var g1 := Recorded(g0, b, first);
      && !Scores(g0, b, true)
      && g1.currentRound == 1
      && Scores(g1, b, true)
      && Scores(Recorded(g1, b, again), b, true)
  {
  }

  /** Every stored game is well-formed. */
  ghost predicate GamesWellFormed(games: map<GameId, Game>) {
    forall gid :: gid in games ==> WellFormed(games[gid])
  }

  /** Every stored question is listed by the game it names and has a valid answer index. */
  ghost predicate QuestionsListed(games: map<GameId, Game>, questions: map<QuestionId, Question>) {
    forall qid :: qid in questions ==>
      && questions[qid].gameId in games
      && qid in games[questions[qid].gameId].questions
      && HasValidAnswer(questions[qid])
  }

  /** Every question a game lists is stored and names that game. */
  ghost predicate ListedStored(games: map<GameId, Game>, questions: map<QuestionId, Question>) {
    forall gid, i :: gid in games && 0 <= i < |games[gid].questions| ==>
      && games[gid].questions[i] in questions
      && questions[games[gid].questions[i]].gameId == gid
  }

  /** The consistency of the game and question stores that every exported operation keeps. */
  ghost predicate Consistent(games: map<GameId, Game>, questions: map<QuestionId, Question>) {
    GamesWellFormed(games) && QuestionsListed(games, questions) && ListedStored(games, questions)
  }

  /** The first `n` questions of `qs`, each keyed by the id at the same position of `qids`
      (a later id overwrites an earlier equal one). */
  ghost function Batch(qids: seq<QuestionId>, qs: seq<Question>, n: nat): map<QuestionId, Question>
    requires |qids| == |qs| && n <= |qs|
  {
    if n == 0 then map[] else Batch(qids, qs, n - 1)[qids[n - 1] := qs[n - 1]]
  }

  /** A batch of distinct ids holds exactly its first `n` ids, each with its own question. */
  lemma {:induction false} BatchContents(qids: seq<QuestionId>, qs: seq<Question>, n: nat)
    requires |qids| == |qs| && n <= |qs| && Distinct(qids)
    ensures Batch(qids, qs, n).Keys == set j | 0 <= j < n :: qids[j]
    ensures forall j :: 0 <= j < n ==> Batch(qids, qs, n)[qids[j]] == qs[j]
  {
    if n != 0 {
      BatchContents(qids, qs, n - 1);
      assert (set j | 0 <= j < n :: qids[j]) == (set j | 0 <= j < n - 1 :: qids[j]) + {qids[n - 1]};
    }
  }

  /** The next id of a distinct sequence of fresh ids is not taken by the batch stored so far. */
  lemma BatchFresh(base: map<QuestionId, Question>, qids: seq<QuestionId>, qs: seq<Question>, n: nat)
    requires |qids| == |qs| && n < |qs| && Distinct(qids) && qids[n] !in base
    ensures qids[n] !in base + Batch(qids, qs, n)
  {
    BatchContents(qids, qs, n);
  }

  /** The questions the population loop builds, one per candidate, in candidate order. */
  ghost function Populated(gid: GameId, candidates: seq<Candidate>, shifts: seq<nat>): (qs: seq<Question>)
    requires |shifts| == |candidates|
    requires forall i :: 0 <= i < |candidates| ==> shifts[i] <= |candidates[i].incorrectAnswers|
    ensures |qs| == |candidates|
    ensures forall j :: 0 <= j < |qs| ==> qs[j] == PopulatedQuestion(gid, candidates[j], shifts[j])
  {
    seq(|candidates|, j requires 0 <= j < |candidates| => PopulatedQuestion(gid, candidates[j], shifts[j]))
  }

  /** Storing one more question after the batch is storing the next batch. */
  lemma BatchStep(base: map<QuestionId, Question>, qids: seq<QuestionId>, qs: seq<Question>, n: nat)
    requires |qids| == |qs| && n < |qs|
    ensures (base + Batch(qids, qs, n))[qids[n] := qs[n]] == base + Batch(qids, qs, n + 1)
  {
  }

  /** Adding the whole batch of distinct fresh ids to `base` keeps every old entry and stores
      each question under its own id. */
  lemma MergeBatch(base: map<QuestionId, Question>, current: map<QuestionId, Question>,
                   qids: seq<QuestionId>, qs: seq<Question>)
    requires |qids| == |qs| && Distinct(qids)
    requires forall i :: 0 <= i < |qids| ==> qids[i] !in base
    requires current == base + Batch(qids, qs, |qs|)
    ensures current.Keys == base.Keys + Elements(qids)
    ensures forall qid :: qid in base ==> current[qid] == base[qid]
    ensures forall j :: 0 <= j < |qids| ==> current[qids[j]] == qs[j]
  {
    BatchContents(qids, qs, |qs|);
    assert Elements(qids) == set j | 0 <= j < |qs| :: qids[j];
  }

  /** The preconditions shared by the three parts of `PopulatePreservesConsistent`: a fresh game
      `gid` whose distinct fresh ids `qids` are added to the question store, each under `gid`
      and with a valid answer index. */
  ghost predicate PopulatedFresh(games: map<GameId, Game>, questions: map<QuestionId, Question>,
                                 questions': map<QuestionId, Question>, gid: GameId, qids: seq<QuestionId>)
  {
    && gid !in games && Distinct(qids)
    && (forall i :: 0 <= i < |qids| ==> qids[i] !in questions)
    && questions'.Keys == questions.Keys + Elements(qids)
    && (forall qid :: qid in questions ==> questions'[qid] == questions[qid])
    && (forall i :: 0 <= i < |qids| ==> questions'[qids[i]].gameId == gid && HasValidAnswer(questions'[qids[i]]))
  }

  /** Populating keeps every stored question listed by its game. */
  lemma PopulateKeepsListed(games: map<GameId, Game>, questions: map<QuestionId, Question>,
                            questions': map<QuestionId, Question>, gid: GameId, uid: UserId, qids: seq<QuestionId>)
    requires QuestionsListed(games, questions) && PopulatedFresh(games, questions, questions', gid, qids)
    ensures QuestionsListed(games[gid := FreshGame(qids, uid)], questions')
  {
  }

  /** Populating keeps every listed question stored under its game. */
  lemma PopulateKeepsStored(games: map<GameId, Game>, questions: map<QuestionId, Question>,
                            questions': map<QuestionId, Question>, gid: GameId, uid: UserId, qids: seq<QuestionId>)
    requires ListedStored(games, questions) && PopulatedFresh(games, questions, questions', gid, qids)
    ensures ListedStored(games[gid := FreshGame(qids, uid)], questions')
  {
  }

  /** Populating a fresh game with fresh, distinct question ids, each stored with a valid
      answer index under that game, keeps the stores consistent. */
  lemma PopulatePreservesConsistent(games: map<GameId, Game>, questions: map<QuestionId, Question>,
                                    questions': map<QuestionId, Question>, gid: GameId, uid: UserId, qids: seq<QuestionId>)
    requires Consistent(games, questions) && PopulatedFresh(games, questions, questions', gid, qids)
    ensures Consistent(games[gid := FreshGame(qids, uid)], questions')
  {
    PopulateKeepsListed(games, questions, questions', gid, uid, qids);
    PopulateKeepsStored(games, questions, questions', gid, uid, qids);
  }

  /** Recording an answer to a stored question, in that question's own game, keeps the stores
      consistent. */
  lemma RecordPreservesConsistent(games: map<GameId, Game>, questions: map<QuestionId, Question>, qid: QuestionId, answer: int)
    requires Consistent(games, questions) && qid in questions
    ensures var gid := questions[qid].gameId;
      Consistent(games[gid := Recorded(games[gid], qid, answer)], questions)
  {
    var gid := questions[qid].gameId;
    RecordPreservesWellFormed(games[gid], qid, answer);
  }

  class Engine {
    var games: map<GameId, Game>
    var questions: map<QuestionId, Question>
    var users: map<UserId, User>

    /** The object invariant: the stores are consistent. */
    ghost predicate Valid()
      reads this
    {
      Consistent(games, questions)
    }

    /** The three stores start empty. */
    constructor ()
      ensures Valid()
      ensures games == map[] && questions == map[] && users == map[]
    {
      games, questions, users := map[], map[], map[];
    }

    /* ===== Game store ===== */

    /** `getGameById`: the stored game, or absent. */
    function GetGameById(gid: GameId): (r: Option<Game>)
      reads this
      ensures r.Some? <==> gid in games
      ensures r.Some? ==> r.value == games[gid]
    {
      if gid in games then Some(games[gid]) else None
    }

    /** `getGameCurrentRound`: the round of a known game, which lies within its questions. */
    function GetGameCurrentRound(gid: GameId): (r: Option<int>)
      reads this
      ensures r.Some? <==> gid in games
      ensures r.Some? ==> r.value == games[gid].currentRound
      ensures Valid() && r.Some? ==> 0 <= r.value <= |games[gid].questions|
    {
      if gid in games then
        RoundWithinBounds(games[gid]);
        Some(games[gid].currentRound)
      else None
    }

    /** `isGameOver`: unknown ids count as finished; a known game is over once its round has
        reached the number of its questions. */
    function IsGameOver(gid: GameId): (over: bool)
      reads this
      ensures gid !in games ==> over
      ensures gid in games ==> (over <==> games[gid].currentRound >= |games[gid].questions|)
    {
      gid !in games || games[gid].currentRound >= |games[gid].questions|
    }

    /** `recordAnswer`: only the named game changes, as `Recorded` describes. */
    method RecordAnswer(gid: GameId, qid: QuestionId, answer: int)
      requires gid in games
      modifies this
      ensures games == old(games)[gid := Recorded(old(games)[gid], qid, answer)]
      ensures questions == old(questions) && users == old(users)
    {
      var g := games[gid];
      var round := g.currentRound;
      if qid !in g.responses {
        round := round + 1;
      }
      games := games[gid := g.(currentRound := round, responses := g.responses[qid := answer])];
    }

    /** The population part of `createGame`, with the provider's answer given as `candidates`,
        the random rotation amounts as `shifts` and the fresh uuids as `gid` and `qids`: one
        question per candidate, in candidate order, and then the game record. */
    method CreateGame(uid: UserId, gid: GameId, candidates: seq<Candidate>, shifts: seq<nat>, qids: seq<QuestionId>)
      returns (r: GameId)
      requires Valid()
      requires gid !in games
      requires |shifts| == |candidates| && |qids| == |candidates|
      requires forall i :: 0 <= i < |candidates| ==> shifts[i] <= |candidates[i].incorrectAnswers|
      requires Distinct(qids) && forall i :: 0 <= i < |qids| ==> qids[i] !in questions
      modifies this
      ensures Valid()
      ensures r == gid
      ensures games == old(games)[gid := FreshGame(qids, uid)]
      ensures questions.Keys == old(questions).Keys + Elements(qids)
      ensures forall qid :: qid in old(questions) ==> questions[qid] == old(questions)[qid]
      ensures forall i :: 0 <= i < |qids| ==> questions[qids[i]] == PopulatedQuestion(gid, candidates[i], shifts[i])
      ensures users == old(users)
    {
      var questionIds := PopulateQuestions(gid, candidates, shifts, qids);
      PopulatePreservesConsistent(games, old(questions), questions, gid, uid, qids);
      games := games[gid := FreshGame(questionIds, uid)];
      r := gid;
    }

    /** The loop of `createGame`: shuffle each candidate's answers and store the question under
        the next fresh id, collecting the ids in candidate order. */
    method PopulateQuestions(gid: GameId, candidates: seq<Candidate>, shifts: seq<nat>, qids: seq<QuestionId>)
      returns (questionIds: seq<QuestionId>)
      requires |shifts| == |candidates| && |qids| == |candidates|
      requires forall i :: 0 <= i < |candidates| ==> shifts[i] <= |candidates[i].incorrectAnswers|
      requires Distinct(qids) && forall i :: 0 <= i < |qids| ==> qids[i] !in questions
      modifies this
      ensures questionIds == qids
      ensures questions.Keys == old(questions).Keys + Elements(qids)
      ensures forall qid :: qid in old(questions) ==> questions[qid] == old(questions)[qid]
      ensures forall i :: 0 <= i < |qids| ==> questions[qids[i]] == PopulatedQuestion(gid, candidates[i], shifts[i])
      ensures games == old(games) && users == old(users)
    {
      questionIds := [];
      ghost var all := Populated(gid, candidates, shifts);
      for i := 0 to |candidates|
        invariant |questionIds| == i && forall j :: 0 <= j < i ==> questionIds[j] == qids[j]
        invariant games == old(games) && users == old(users)
        invariant questions == old(questions) + Batch(qids, all, i)
      {
        BatchFresh(old(questions), qids, all, i);
        BatchStep(old(questions), qids, all, i);
        var qid := PopulateQuestion(gid, candidates[i], shifts[i], qids[i]);
        questionIds := questionIds + [qid];
      }
      MergeBatch(old(questions), questions, qids, all);
    }

    /** One round of the `createGame` loop: shuffle the candidate's answers and store the
        question under the fresh id `qid`. */
    method PopulateQuestion(gid: GameId, c: Candidate, k: nat, qid: QuestionId) returns (r: QuestionId)
      requires k <= |c.incorrectAnswers| && qid !in questions
      modifies this
      ensures r == qid
      ensures questions == old(questions)[qid := PopulatedQuestion(gid, c, k)]
      ensures games == old(games) && users == old(users)
    {
      var allAnswers := ShuffleArray(c.incorrectAnswers + [c.correctAnswer], k);
      assert allAnswers == Options(c, k);
      r := CreateQuestion(gid, c.question, allAnswers, c.correctAnswer, qid);
    }

    /* ===== Question store ===== */

    /** `getQuestionById`: the stored record, or absent; a stored record belongs to the game
        that lists it and has a valid correct-answer index. */
    function GetQuestionById(qid: QuestionId): (r: Option<Question>)
      reads this
      ensures r.Some? <==> qid in questions
      ensures r.Some? ==> r.value == questions[qid]
      ensures Valid() && r.Some? ==>
        r.value.gameId in games && qid in games[r.value.gameId].questions && HasValidAnswer(r.value)
    {
      if qid in questions then Some(questions[qid]) else None
    }

    /** `getQuestionsByGameId`: every question of the game, each once, paired with its id. The
        order of `Object.keys` is not modelled. */
    method GetQuestionsByGameId(gid: GameId) returns (out: seq<(QuestionId, Question)>)
      ensures forall p :: p in out <==> p.0 in questions && questions[p.0] == p.1 && p.1.gameId == gid
      ensures forall i, j :: 0 <= i < j < |out| ==> out[i].0 != out[j].0
    {
      out := [];
      var remaining := questions.Keys;
      while remaining != {}
        invariant remaining <= questions.Keys
        invariant forall p :: p in out <==>
          p.0 in questions && p.0 !in remaining && questions[p.0] == p.1 && p.1.gameId == gid
        invariant forall i, j :: 0 <= i < j < |out| ==> out[i].0 != out[j].0
        decreases |remaining|
      {
        var qid :| qid in remaining;
        if questions[qid].gameId == gid {
          out := out + [(qid, questions[qid])];
        }
        remaining := remaining - {qid};
      }
    }

    /** `createQuestion` under the fresh id `qid`: exactly one entry is added. */
    method CreateQuestion(gid: GameId, text: string, answers: seq<string>, correctText: string, qid: QuestionId)
      returns (r: QuestionId)
      requires qid !in questions
      modifies this
      ensures r == qid
      ensures questions == old(questions)[qid := NewQuestion(gid, text, answers, correctText)]
      ensures games == old(games) && users == old(users)
    {
      var correctIndex := IndexOf(answers, correctText);
      questions := questions[qid := Question(gid, text, answers, correctIndex)];
      r := qid;
    }

    /* ===== User store ===== */

    /** `getUserById`: the stored record, or absent. */
    function GetUserById(uid: UserId): (r: Option<User>)
      reads this
      ensures r.Some? <==> uid in users
      ensures r.Some? ==> r.value == users[uid]
    {
      if uid in users then Some(users[uid]) else None
    }

    /** `getUserScore`: null for an unknown user, the stored (possibly null) score otherwise. */
    function GetUserScore(uid: UserId): (r: Option<int>)
      reads this
      ensures uid !in users ==> r == None
      ensures uid in users ==> r == users[uid].score
    {
      if uid !in users then None else users[uid].score
    }

    /** `createUser`: last write wins, whether or not the id existed. */
    method CreateUser(uid: UserId)
      modifies this
      ensures users == old(users)[uid := Unassigned()]
      ensures games == old(games) && questions == old(questions)
    {
      users := users[uid := User(None, None)];
    }

    /** `updateUserCurrentGame`: a no-op returning absent for an unknown user; otherwise the
        whole record is replaced, resetting the score to 0. */
    method UpdateUserCurrentGame(uid: UserId, gid: GameId) returns (r: Option<GameId>)
      modifies this
      ensures uid !in old(users) ==> r == None && users == old(users)
      ensures uid in old(users) ==> r == Some(gid) && users == old(users)[uid := Assigned(gid)]
      ensures games == old(games) && questions == old(questions)
    {
      if uid !in users {
        return None;
      }
      users := users[uid := User(Some(gid), Some(0))];
      r := Some(gid);
    }

    /** `increaseUserScore`: a no-op returning absent for an unknown user; otherwise the score
        goes up by one (a null score becomes 1) and the new score is returned. */
    method IncreaseUserScore(uid: UserId) returns (r: Option<int>)
      modifies this
      ensures users == ScoreIncreased(old(users), uid)
      ensures uid !in old(users) ==> r == None
      ensures uid in old(users) ==> r == users[uid].score && r == Some(ScorePlusOne(old(users)[uid].score))
      ensures games == old(games) && questions == old(questions)
    {
      if uid !in users {
        return None;
      }
      var u := users[uid];
      var score := if u.score.None? then 1 else u.score.value + 1;
      users := users[uid := u.(score := Some(score))];
      r := Some(score);
    }

    /* ===== Orchestrator ===== */

    /** `startGame`: creates and populates the game, creates the user if absent, and assigns the
        game to the user, whose score is then 0 whatever it was before. */
    method StartGame(uid: UserId, gid: GameId, candidates: seq<Candidate>, shifts: seq<nat>, qids: seq<QuestionId>)
      returns (r: GameId)
      requires Valid()
      requires gid !in games
      requires |shifts| == |candidates| && |qids| == |candidates|
      requires forall i :: 0 <= i < |candidates| ==> shifts[i] <= |candidates[i].incorrectAnswers|
      requires Distinct(qids) && forall i :: 0 <= i < |qids| ==> qids[i] !in questions
      modifies this
      ensures Valid()
      ensures r == gid
      ensures games == old(games)[gid := FreshGame(qids, uid)]
      ensures questions.Keys == old(questions).Keys + Elements(qids)
      ensures forall qid :: qid in old(questions) ==> questions[qid] == old(questions)[qid]
      ensures forall i :: 0 <= i < |qids| ==> questions[qids[i]] == PopulatedQuestion(gid, candidates[i], shifts[i])
      ensures users == old(users)[uid := Assigned(gid)]
      ensures GetUserScore(uid) == Some(0)
      ensures IsGameOver(gid) <==> |qids| == 0
    {
      r := CreateGame(uid, gid, candidates, shifts, qids);
      var user := GetUserById(uid);
      if user.None? {
        CreateUser(uid);
      }
      var current := UpdateUserCurrentGame(uid, r);
    }

    /** `getNextQuestion`: the completion message when the game is over (which includes unknown
        ids, so the invalid-id message is never produced); otherwise the question at the current
        round, without its correct answer. */
    method GetNextQuestion(gid: GameId) returns (r: NextQuestion)
      requires Valid()
      ensures IsGameOver(gid) ==> r == Message(CompletedMessage)
      ensures !IsGameOver(gid) ==>
        var g := games[gid];
        && r.Payload?
        && r.round == g.currentRound
        && 0 <= r.round < |g.questions|
        && r.qid == g.questions[g.currentRound]
        && r.qid in questions
        && r.question == questions[r.qid].text
        && r.answers == questions[r.qid].answers
      ensures r != Message(InvalidGameMessage)
    {
      if IsGameOver(gid) {
        return Message(CompletedMessage);
      }
      var game := GetGameById(gid);
      if game.None? {
        return Message(InvalidGameMessage);
      }
      var g := game.value;
      RoundWithinBounds(g);
      var qid := g.questions[g.currentRound];
      var question := GetQuestionById(qid);
      var q := question.value;
      r := Payload(qid, q.text, q.answers, g.currentRound);
    }

    /** `answerQuestion`: records the answer in the question's own game, reports whether it is
        the stored correct index, and adds a point to the player exactly when `Scores` holds of
        the game as it was before recording. */
    method AnswerQuestion(qid: QuestionId, answer: int) returns (r: AnswerResult)
      requires Valid() && qid in questions
      modifies this
      ensures Valid()
      ensures questions == old(questions)
      ensures r.correct == (answer == old(questions)[qid].correctAnswer)
      ensures var gid := old(questions)[qid].gameId;
        games == old(games)[gid := Recorded(old(games)[gid], qid, answer)]
      ensures var g := old(games)[old(questions)[qid].gameId];
        users == (if Scores(g, qid, r.correct) then ScoreIncreased(old(users), g.player) else old(users))
      ensures r.score == GetUserScore(old(games)[old(questions)[qid].gameId].player)
      ensures r.complete == IsGameOver(old(questions)[qid].gameId)
      ensures var q := old(questions)[qid]; var g := old(games)[q.gameId];
        InOrder(g) && qid in g.responses ==>
          users == old(users) && games[q.gameId].currentRound == g.currentRound
      ensures var gid := old(questions)[qid].gameId;
        old(games)[gid].currentRound <= games[gid].currentRound <= |games[gid].questions|
    {
      var question := GetQuestionById(qid);
      var gid, correctAnswer := question.value.gameId, question.value.correctAnswer;
      var game := GetGameById(gid);
      var g := game.value;
      var player, currentRound, questionIds := g.player, g.currentRound, g.questions;
      var questionNumber := IndexOf(questionIds, qid);

      RecordAnswer(gid, qid, answer);

      var correct := answer == correctAnswer;
      if correct && questionNumber == currentRound {
        var newScore := IncreaseUserScore(player);
      }
      var score := GetUserScore(player);
      var complete := IsGameOver(gid);
      r := AnswerResult(correct, score, complete);

      RecordPreservesConsistent(old(games), questions, qid, answer);
      RoundWithinBounds(games[gid]);
      if InOrder(g) && qid in g.responses {
        InOrderReanswer(g, qid, answer, correct);
      }
    }
  }

  /** A two-question walk-through, population of the first question: shifting
      ["B", "A"] by one puts the correct "A" first. */
  lemma WalkthroughFirstQuestion(gid: GameId)
    ensures var q := PopulatedQuestion(gid, Candidate("Q1", "A", ["B"]), 1);
      q.answers == ["A", "B"] && q.correctAnswer == 0
  {
  }

  /** The walk-through, population of the second question: with no shift ["C", "D"] stays as
      it is and the correct "D" is at index 1. */
  lemma WalkthroughSecondQuestion(gid: GameId)
    ensures var q := PopulatedQuestion(gid, Candidate("Q2", "D", ["C"]), 0);
      q.answers == ["C", "D"] && q.correctAnswer == 1
  {
  }

  /** The walk-through, game step: answering "q1" and then "q2" scores both times and ends
      the game; re-answering "q1" afterwards scores nothing and leaves the round at 2. */
  lemma WalkthroughRounds()
    ensures var g0 := FreshGame(["q1", "q2"], "u");
      var g1 := Recorded(g0, "q1", 0);
      var g2 := Recorded(g1, "q2", 1);
      Scores(g0, "q1", true) && g1.currentRound == 1 &&
      Scores(g1, "q2", true) && g2.currentRound == 2 == |g2.questions| &&
      !Scores(g2, "q1", true) && Recorded(g2, "q1", 0).currentRound == 2
  {
  }

  /** The walk-through, user step: the player assigned to the game starts at 0 and each
      scoring answer adds one. */
  lemma WalkthroughScores()
    ensures var u0 := map["u" := Assigned("g")];
      var u1 := ScoreIncreased(u0, "u");
      var u2 := ScoreIncreased(u1, "u");
      u1["u"] == User(Some("g"), Some(1)) && u2["u"] == User(Some("g"), Some(2))
  {
  }

  /** The engine state of the two-question walk-through: game `gid` of `player` with questions
      `q1` (correct index 0) and `q2` (correct index 1), at `round` with `responses`, and the
      player's score at `score`. */
  ghost predicate TwoQuestionState(e: Engine, gid: GameId, q1: QuestionId, q2: QuestionId, player: UserId,
                                   round: int, responses: map<QuestionId, int>, score: int)
    reads e
  {
    && e.Valid()
    && e.games == map[gid := Game([q1, q2], round, player, responses)]
    && q1 in e.questions && e.questions[q1].gameId == gid && e.questions[q1].correctAnswer == 0
    && q2 in e.questions && e.questions[q2].gameId == gid && e.questions[q2].correctAnswer == 1
    && e.users == map[player := User(Some(gid), Some(score))]
  }

  /** The walk-through on the engine, start: a fresh engine running `startGame` with the two
      candidate questions reaches the walk-through's initial state. */
  method StartTwoQuestions(gid: GameId, q1: QuestionId, q2: QuestionId, player: UserId) returns (e: Engine)
    requires q1 != q2
    ensures fresh(e)
    ensures TwoQuestionState(e, gid, q1, q2, player, 0, map[], 0)
  {
    var c1, c2 := Candidate("Q1", "A", ["B"]), Candidate("Q2", "D", ["C"]);
    WalkthroughFirstQuestion(gid);
    WalkthroughSecondQuestion(gid);
    ghost var p1, p2 := PopulatedQuestion(gid, c1, 1), PopulatedQuestion(gid, c2, 0);
    e := new Engine();
    var r := e.StartGame(player, gid, [c1, c2], [1, 0], [q1, q2]);
    assert e.questions[[q1, q2][0]] == p1 && e.questions[[q1, q2][1]] == p2;
  }

  /** The walk-through on the engine, first answer: `q1` answered correctly at round 0 scores 1. */
  method AnswerFirst(e: Engine, gid: GameId, q1: QuestionId, q2: QuestionId, player: UserId) returns (r: AnswerResult)
    requires q1 != q2 && TwoQuestionState(e, gid, q1, q2, player, 0, map[], 0)
    modifies e
    ensures TwoQuestionState(e, gid, q1, q2, player, 1, map[q1 := 0], 1)
    ensures r == AnswerResult(true, Some(1), false)
  {
    r := e.AnswerQuestion(q1, 0);
  }

  /** The walk-through on the engine, second answer: `q2` answered correctly at round 1 scores 2
      and ends the game. */
  method AnswerSecond(e: Engine, gid: GameId, q1: QuestionId, q2: QuestionId, player: UserId) returns (r: AnswerResult)
    requires q1 != q2 && TwoQuestionState(e, gid, q1, q2, player, 1, map[q1 := 0], 1)
    modifies e
    ensures TwoQuestionState(e, gid, q1, q2, player, 2, map[q1 := 0, q2 := 1], 2)
    ensures r == AnswerResult(true, Some(2), true)
  {
    r := e.AnswerQuestion(q2, 1);
  }

  /** The walk-through on the engine, re-answer: answering `q1` correctly again after the game
      ended changes neither the score nor the round. */
  method AnswerAgain(e: Engine, gid: GameId, q1: QuestionId, q2: QuestionId, player: UserId) returns (r: AnswerResult)
    requires q1 != q2 && TwoQuestionState(e, gid, q1, q2, player, 2, map[q1 := 0, q2 := 1], 2)
    modifies e
    ensures TwoQuestionState(e, gid, q1, q2, player, 2, map[q1 := 0, q2 := 1], 2)
    ensures r == AnswerResult(true, Some(2), true)
  {
    r := e.AnswerQuestion(q1, 0);
    assert map[q1 := 0, q2 := 1][q1 := 0] == map[q1 := 0, q2 := 1];
  }

  /** The two-question walk-through on the engine, end to end: after `startGame`, answering
      the two questions correctly in order returns (correct, 1, not complete) and then
      (correct, 2, complete), and answering the first one again returns (correct, 2, complete). */
  method TwoQuestionGame(gid: GameId, q1: QuestionId, q2: QuestionId, player: UserId)
    returns (first: AnswerResult, second: AnswerResult, again: AnswerResult)
    requires q1 != q2
    ensures first == AnswerResult(true, Some(1), false)
    ensures second == AnswerResult(true, Some(2), true)
    ensures again == AnswerResult(true, Some(2), true)
  {
    var e := StartTwoQuestions(gid, q1, q2, player);
    first := AnswerFirst(e, gid, q1, q2, player);
    second := AnswerSecond(e, gid, q1, q2, player);
    again := AnswerAgain(e, gid, q1, q2, player);
  }
}
