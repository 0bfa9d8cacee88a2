/** What a handler sends back: an HTTP status code and a JSON body. */
module Api {
  import opened Store

  /** The account fields login hands out: never the password digest. */
  datatype PublicUser = PublicUser(id: int, username: string, role: string)

  /** One line of the directory list_users returns. */
  datatype DirectoryEntry = DirectoryEntry(id: int, alias: string, role: string)

  /** One appointment as get_appointments returns it: date and time as text,
      and the usernames of both parties. */
  datatype AppointmentView = AppointmentView(
    id: int, userId: int, counselorId: int, date: string, time: string,
    status: string, userName: string, counselorName: string)

  datatype Body =
    | ErrorText(error: string)                 // {"error": ...}
    | MessageText(message: string)             // {"message": ...}
    | ServerError                              // {"message": "Server error", "error": str(e)}
    | Uncaught                                 // an exception the handler lets escape: the framework's own 500 page
    | LoggedIn(user: PublicUser)               // {"message": "Login successful", "user": {...}}
    | LoggedInAs(role: string)                 // {"message": "Login successful", "role": ...}
    | Registered(role: string)                 // {"message": "Registered successfully", "role": ...}
    | UserList(users: seq<DirectoryEntry>)     // {"users": [...]}
    | MessageList(messages: seq<Message>)      // {"messages": [...]}
    | AppointmentList(appointments: seq<AppointmentView>)  // {"appointments": [...]}

  datatype Response = Response(status: int, body: Body)

  /** What every handler with an `except Exception` clause answers when the
      store raises. */
  const SERVER_ERROR := Response(500, ServerError)

  /** What the framework answers for an exception the handler does not catch. */
  const UNCAUGHT := Response(500, Uncaught)
}
