/** Values exchanged between the start/end pairing component, the registrar and the
    statistics requests. */
module SessionTypes {

  /** One completed session: who, when it ended (ms since the epoch) and how long it lasted (ms). */
  datatype Session = Session(userId: string, endTimestamp: int, duration: int)

  /** A durations request; the registrar fills in `durations` and sends it back.
      An empty userId asks for the sessions of all users. */
  datatype SessionsInfo = SessionsInfo(userId: string, durations: seq<int>)
}
