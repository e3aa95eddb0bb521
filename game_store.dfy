/** The game store (src/lib/database/game-db.js): per-game round counter and responses,
    and the answer shuffle used when a game is populated. */
module GameStore {
  import opened Ids
  import opened QuestionStore

  /** A stored game: its question ids in play order, the round counter, the player, and the
      answer recorded so far for each question id. */
  datatype Game = Game(questions: seq<QuestionId>, currentRound: int, player: UserId, responses: map<QuestionId, int>)

  /** One question as the trivia provider delivers it. */
  datatype Candidate = Candidate(question: string, correctAnswer: string, incorrectAnswers: seq<string>)

  /** No id occurs twice in `s`. */
  predicate Distinct<T(==)>(s: seq<T>) {
    forall i, j :: 0 <= i < j < |s| ==> s[i] != s[j]
  }

  ghost function Elements<T>(s: seq<T>): set<T> {
    set x | x in s
  }

  /** The consistency a stored game keeps: the round counts the distinct questions answered,
      every response belongs to one of the game's questions, and those questions are distinct. */
  ghost predicate WellFormed(g: Game) {
    && g.currentRound == |g.responses.Keys|
    && g.responses.Keys <= Elements(g.questions)
    && Distinct(g.questions)
  }

  /** The record `createGame` stores once its questions exist. */
  function FreshGame(questionIds: seq<QuestionId>, player: UserId): (g: Game)
    requires Distinct(questionIds)
    ensures WellFormed(g) && g.currentRound == 0 && g.questions == questionIds && g.player == player
  {
    Game(questionIds, 0, player, map[])
  }

  /** `recordAnswer` on one game: the round advances only when `qid` had no response yet, and
      the response for `qid` is set to `answer`. */
  function Recorded(g: Game, qid: QuestionId, answer: int): (r: Game)
    ensures r.questions == g.questions && r.player == g.player
    ensures r.responses == g.responses[qid := answer]
    ensures qid !in g.responses ==> r.currentRound == g.currentRound + 1
    ensures qid in g.responses ==> r.currentRound == g.currentRound
    ensures g.currentRound <= r.currentRound
  {
    g.(currentRound := if qid in g.responses then g.currentRound else g.currentRound + 1,
       responses := g.responses[qid := answer])
  }

  /** The number of distinct elements of a sequence without repetitions is its length. */
  lemma {:induction false} DistinctElements<T>(s: seq<T>)
    requires Distinct(s)
    ensures |Elements(s)| == |s|
  {
    if |s| > 0 {
      assert Distinct(s[1..]) by {
        forall i, j | 0 <= i < j < |s[1..]| ensures s[1..][i] != s[1..][j] {
          assert s[1..][i] == s[i + 1] && s[1..][j] == s[j + 1];
        }
      }
      DistinctElements(s[1..]);
      assert Elements(s) == {s[0]} + Elements(s[1..]) by {
        forall x | x in Elements(s) ensures x in {s[0]} + Elements(s[1..]) {
          var i :| 0 <= i < |s| && s[i] == x;
          if i > 0 { assert s[1..][i - 1] == x; }
        }
      }
      assert s[0] !in Elements(s[1..]);
    }
  }

  /** The round of a well-formed game never runs past its question list. */
  lemma RoundWithinBounds(g: Game)
    ensures WellFormed(g) ==> 0 <= g.currentRound <= |g.questions|
  {
    if WellFormed(g) {
      DistinctElements(g.questions);
      var keys, all := g.responses.Keys, Elements(g.questions);
      assert keys * all == keys;
      assert |all| == |all - keys| + |keys|;
    }
  }

  /** Recording an answer to one of the game's own questions keeps the game well-formed. */
  lemma RecordPreservesWellFormed(g: Game, qid: QuestionId, answer: int)
    requires WellFormed(g) && qid in g.questions
    ensures WellFormed(Recorded(g, qid, answer))
  {
  }

  /** `shuffleArray` with the random amount `k` fixed: a cyclic rotation to the right by `k`. */
  function Rotate<T>(arr: seq<T>, k: nat): (r: seq<T>)
    requires k == 0 || k < |arr|
    ensures |r| == |arr|
  {
    arr[|arr| - k..] + arr[..|arr| - k]
  }

  /** The shuffle only reorders: the rotation is a permutation of its input. */
  lemma RotatePermutes<T>(arr: seq<T>, k: nat)
    requires k == 0 || k < |arr|
    ensures multiset(Rotate(arr, k)) == multiset(arr)
  {
    assert arr == arr[..|arr| - k] + arr[|arr| - k..];
  }

  /** Rotating right by `k` moves the element at position `i` to position `i + k`, wrapping
      around past the end. */
  lemma RotateMoves<T>(arr: seq<T>, k: nat, i: nat)
    requires k < |arr| && i < |arr|
    ensures i + k < |arr| ==> Rotate(arr, k)[i + k] == arr[i]
    ensures |arr| <= i + k ==> Rotate(arr, k)[i + k - |arr|] == arr[i]
  {
  }

  /** One more step of the shuffle loop (`unshift(pop())`) rotates one place further. */
  lemma RotateStep<T>(arr: seq<T>, j: nat)
    requires j + 1 < |arr|
    ensures var r := Rotate(arr, j); Rotate(arr, j + 1) == [r[|r| - 1]] + r[..|r| - 1]
  {
  }

  /** `shuffleArray`: a copy of `arr` whose last element is moved to the front `k` times. The
      input sequence is a value and is left as it was. */
  method ShuffleArray<T>(arr: seq<T>, k: nat) returns (r: seq<T>)
    requires k == 0 || k < |arr|
    ensures r == Rotate(arr, k)
  {
    r := arr;
    var i := k;
    while i != 0
      invariant 0 <= i <= k
      invariant r == Rotate(arr, k - i)
    {
      RotateStep(arr, k - i);
      i := i - 1;
      r := [r[|r| - 1]] + r[..|r| - 1];
    }
  }

  /** The answer options of a populated question: the incorrect answers followed by the correct
      one, rotated by `k`; the correct answer is among them. */
  function Options(c: Candidate, k: nat): (opts: seq<string>)
    requires k <= |c.incorrectAnswers|
    ensures c.correctAnswer in opts
  {
    var all := c.incorrectAnswers + [c.correctAnswer];
    RotatePermutes(all, k);
    assert c.correctAnswer in multiset(all);
    Rotate(all, k)
  }

  /** The question `createGame` stores for candidate `c`; its correct index is valid and names the
      candidate's correct answer. */
  function PopulatedQuestion(gameId: GameId, c: Candidate, k: nat): (q: Question)
    requires k <= |c.incorrectAnswers|
    ensures q.gameId == gameId && q.text == c.question
    ensures HasValidAnswer(q) && q.answers[q.correctAnswer] == c.correctAnswer
  {
    NewQuestion(gameId, c.question, Options(c, k), c.correctAnswer)
  }

  /** The options of a populated question are exactly the candidate's answers, reordered. */
  lemma PopulatedAnswers(gameId: GameId, c: Candidate, k: nat)
    requires k <= |c.incorrectAnswers|
    ensures multiset(PopulatedQuestion(gameId, c, k).answers) == multiset(c.incorrectAnswers + [c.correctAnswer])
  {
    RotatePermutes(c.incorrectAnswers + [c.correctAnswer], k);
  }
}
