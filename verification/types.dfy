/**
 The records shared by the whole race core (src/types.ts): a participant as
 the race sees it, and the completion times keyed by participant id.
 */
module Types {

  type UserId = string

  /** A chat user as the race sees it: a stable id and a display name. */
  datatype User = User(id: UserId, username: string)

  /** Milliseconds from the race start to each correct submission, by user id. */
  type CompletionTimes = map<UserId, int>
}
