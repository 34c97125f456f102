/**
 * What the sentinel sees of the Plex server and of the Plex account, and
 * the calls it makes on them. The calls are recorded rather than performed.
 */
module Plex {
  import opened Wrappers

  /** The player state that housekeeping closes. */
  const Paused: string := "paused"

  /** A playback client: its `state`, when it reports one, and its IP address. */
  datatype Player = Player(state: Option<string>, address: string)

  /**
   * An active session: `user` is its first username, `sessionId` the id of
   * its `session` attribute when that attribute carries one.
   */
  datatype Session = Session(user: string, sessionKey: string, sessionId: Option<string>, players: seq<Player>)

  /** A friend of the account, as listed by `account.users()`. */
  datatype DirectoryUser = DirectoryUser(username: string, id: string)

  /** Tags for the stop messages: housekeeping, first warning, second warning, ban notice. */
  datatype Reason = PausedNotice | FirstWarning | SecondWarning | FinalNotice

  /** A call on a collaborator: `session.stop(reason=...)` or `account.removeFriend(user)`. */
  datatype Call = Stop(sessionKey: string, reason: Reason) | RemoveFriend(friend: DirectoryUser)
}
