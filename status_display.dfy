/**
 * How a tournament's status is shown on its card: `getStatusBadgeVariant`
 * (written out identically in TournamentList.js and MyTournaments.js) and the
 * card footer's text and colour.
 */
module StatusDisplay {
  import opened Records

  /** The Bootstrap badge colours the cards use. */
  datatype BadgeVariant = Primary | Success | Secondary

  /** `getStatusBadgeVariant`: live is green, completed grey, upcoming and anything else blue. */
  function StatusBadgeVariant(s: Status): (v: BadgeVariant)
    ensures v == Success <==> s == Live
    ensures v == Secondary <==> s == Completed
    ensures v == Primary <==> s == Upcoming || s == Unknown
  {
    match s
    case Upcoming => Primary
    case Live => Success
    case Completed => Secondary
    case Unknown => Primary
  }

  /** The footer text: registration is open only while upcoming; a status that is neither upcoming nor live reads as ended. */
  function FooterText(s: Status): (text: string)
    ensures text == "Registration open" <==> s == Upcoming
    ensures text == "Tournament in progress" <==> s == Live
    ensures text == "Tournament ended" <==> s == Completed || s == Unknown
  {
    match s
    case Upcoming => "Registration open"
    case Live => "Tournament in progress"
    case Completed | Unknown => "Tournament ended"
  }

  /** The footer's background class: green while live, grey once completed, none otherwise. */
  function FooterClass(s: Status): (cls: string)
    ensures cls == "bg-success text-white" <==> s == Live
    ensures cls == "bg-secondary text-white" <==> s == Completed
    ensures cls == "" <==> s == Upcoming || s == Unknown
  {
    match s
    case Live => "bg-success text-white"
    case Completed => "bg-secondary text-white"
    case Upcoming | Unknown => ""
  }
}
