/** The user store (src/lib/database/user-db.js): per-user current game and score. */
module UserStore {
  import opened Wrappers
  import opened Ids

  /** A stored user. Both fields are nullable in the source; the score is null until a game
      is assigned. */
  datatype User = User(currentGame: Option<GameId>, score: Option<int>)

  /** The record `createUser` writes, whether or not the id was already present. */
  function Unassigned(): (u: User)
    ensures u.currentGame.None? && u.score.None?
    ensures ScorePlusOne(u.score) == 1
  {
    User(None, None)
  }

  /** The record `updateUserCurrentGame` writes: the whole record is replaced, so the score
      restarts at 0. */
  function Assigned(gameId: GameId): (u: User)
    ensures u.currentGame == Some(gameId) && u.score == Some(0)
    ensures ScorePlusOne(u.score) == 1
  {
    User(Some(gameId), Some(0))
  }

  /** JavaScript `score += 1`, where a null score counts as 0 (`null + 1 === 1`). */
  function ScorePlusOne(score: Option<int>): (r: int)
    ensures score.None? ==> r == 1
    ensures score.Some? ==> r == score.value + 1 && r > score.value
  {
    match score
    case None => 1
    case Some(s) => s + 1
  }

  /** The user map after `increaseUserScore(uid)`: only `uid`'s score changes, and only when
      `uid` is known. */
  function ScoreIncreased(users: map<UserId, User>, uid: UserId): (r: map<UserId, User>)
    ensures r.Keys == users.Keys
    ensures forall u :: u in users && u != uid ==> r[u] == users[u]
    ensures uid in users ==> r[uid].currentGame == users[uid].currentGame
    ensures uid in users ==> r[uid].score == Some(ScorePlusOne(users[uid].score))
    ensures uid in users && users[uid].score.Some? ==> r[uid].score.value == users[uid].score.value + 1
  {
    if uid in users then users[uid := users[uid].(score := Some(ScorePlusOne(users[uid].score)))]
    else users
  }
}
