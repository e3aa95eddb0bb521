/** Optional values, standing for the JavaScript `undefined` / `null` results of the stores. */
module Wrappers {
  datatype Option<+T> = None | Some(value: T)
}

/** Identifiers of the three stores. Game and question ids are uuid strings; user ids are
    whatever string the client sends. */
module Ids {
  type GameId = string
  type QuestionId = string
  type UserId = string
}
