/** The request records the server accepts, and an option type for the
    values Python represents with `None`. */
module Schema {

  datatype Option<T> = None | Some(value: T)

  /** One chat message. The role is free text ('user', 'assistant' or
      'system' in practice); only the exact role "user" is treated specially. */
  datatype Message = Message(role: string, content: string)

  /** The body of `POST /api/chat`. */
  datatype ChatRequest = ChatRequest(model: string, messages: seq<Message>, stream: bool)
}
