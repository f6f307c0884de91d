/** The payloads that travel between the gateway and the browser. The same
    shapes are declared on both sides of the connection. */
module Wire {

  /** `{ id, username, customColor }` of a message's author. */
  datatype Sender = Sender(id: nat, username: string, customColor: string)

  /** `{ id, username }` of a reaction's author. */
  datatype ReactionUser = ReactionUser(id: nat, username: string)

  /** `{ id, emoji, user }`: one reaction as the client receives it. */
  datatype ReactionView = ReactionView(id: nat, emoji: string, user: ReactionUser)

  /** `{ id, content, createdAt, sender, reactions }`: one message as the
      client receives it. */
  datatype ChatMessage = ChatMessage(id: nat, content: string, createdAt: int, sender: Sender,
                                     reactions: seq<ReactionView>)

  /** The payload of `chat:joined`. */
  datatype RoomInfo = RoomInfo(roomId: nat, name: string, isPrivate: bool, historyEnabled: bool)
}
