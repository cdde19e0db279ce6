/**
 * The records of the registration application as the commands and views use
 * them: sessions with their capacity fields and registrations with their
 * optional session. Primary keys are integers.
 */
module Domain {
  import opened Wrappers

  type PersonId = int
  type SessionPk = int
  type ExchangeId = int

  /** The two languages of the site: ("en", "English") and ("nl", "Dutch"). */
  datatype Lang = En | Nl

  /** The language's code, as the site stores and sends it. */
  function LangCode(language: Lang): string
  {
    match language
    case En => "en"
    case Nl => "nl"
  }

  /** An exchange session: minimum and maximum participants per repeat, and the number of repeats. */
  datatype Session = Session(
    pk: SessionPk,
    exchange: ExchangeId,
    participantsMin: int,
    participantsMax: int,
    sessionCount: int)

  /** The effective capacity of a session: participants_max * session_count. */
  function Capacity(s: Session): int
  {
    s.participantsMax * s.sessionCount
  }

  /** One language's description of an exchange session. */
  datatype SessionDescription = SessionDescription(
    title: string,
    subtitle: string,
    intro: string,
    program: string,
    language: Lang,
    date: string,
    location: string)

  /** A registration of a requestor for an exchange; session None means "assign me anywhere". */
  datatype Registration = Registration(
    requestor: PersonId,
    exchange: ExchangeId,
    session: Option<SessionPk>,
    priority: int,
    dateTime: int,
    notes: string,
    reason: string)
}
