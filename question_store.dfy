/** The question store (src/lib/database/question-db.js): immutable question records. */
module QuestionStore {
  import opened Ids

  /** A stored question. `correctAnswer` is an index into `answers`, or -1 when the correct
      text was not among the answers given at creation. */
  datatype Question = Question(gameId: GameId, text: string, answers: seq<string>, correctAnswer: int)

  /** The correct-answer index points at one of the options. */
  predicate HasValidAnswer(q: Question) {
    0 <= q.correctAnswer < |q.answers|
  }

  /** JavaScript's `Array.prototype.indexOf`: the first position of `x` in `s`, or -1. */
  function IndexOf<T(==)>(s: seq<T>, x: T): (r: int)
    ensures -1 <= r < |s|
    ensures r == -1 <==> x !in s
    ensures 0 <= r ==> s[r] == x && x !in s[..r]
  {
    if |s| == 0 then -1
    else if s[0] == x then 0
    else
      var i := IndexOf(s[1..], x);
      if i == -1 then -1 else i + 1
  }

  /** The record `createQuestion` stores: the correct answer is located by `indexOf`. */
  function NewQuestion(gameId: GameId, text: string, answers: seq<string>, correctText: string): (q: Question)
    ensures q.gameId == gameId && q.text == text && q.answers == answers
    ensures HasValidAnswer(q) <==> correctText in answers
    ensures HasValidAnswer(q) ==> answers[q.correctAnswer] == correctText && correctText !in answers[..q.correctAnswer]
    ensures correctText !in answers ==> q.correctAnswer == -1
  {
    Question(gameId, text, answers, IndexOf(answers, correctText))
  }
}
