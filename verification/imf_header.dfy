/** Header field names of the Internet Message Format
    (`src/imf/header.rs`): the fields section 3.6 of RFC 5322 defines, and
    any other name kept as written. */
module ImfHeader {
  /** `HeaderName`. */
  datatype HeaderName =
      Date
    | From
    | Sender
    | ReplyTo
    | To
    | Cc
    | Bcc
    | MessageID
    | InReplyTo
    | References
    | Subject
    | Comments
    | Keywords
    | ResentDate
    | ResentFrom
    | ResentSender
    | ResentTo
    | ResentCc
    | ResentBcc
    | ResentMessageID
    | ReturnPath
    | Other(name: string)

  /** `HeaderBody`: only unstructured bodies are distinguished. */
  datatype HeaderBody = Unstructured(text: string)

  /** `ImfHeader`. */
  datatype ImfHeader = ImfHeader(name: HeaderName, body: HeaderBody)

  /** The field name a dedicated variant stands for. */
  function Spelling(h: HeaderName): string
    requires !h.Other?
  {
    match h
    case Date => "Date"
    case From => "From"
    case Sender => "Sender"
    case ReplyTo => "Reply-To"
    case To => "To"
    case Cc => "Cc"
    case Bcc => "Bcc"
    case MessageID => "Message-ID"
    case InReplyTo => "In-Reply-To"
    case References => "References"
    case Subject => "Subject"
    case Comments => "Comments"
    case Keywords => "Keywords"
    case ResentDate => "Resent-Date"
    case ResentFrom => "Resent-From"
    case ResentSender => "Resent-Sender"
    case ResentTo => "Resent-To"
    case ResentCc => "Resent-Cc"
    case ResentBcc => "Resent-Bcc"
    case ResentMessageID => "Resent-Message-ID"
    case ReturnPath => "Return-Path"
  }

  /** The names with a dedicated variant. */
  const LISTED: set<string> := {
    "Date",
    "From",
    "Sender",
    "Reply-To",
    "To",
    "Cc",
    "Bcc",
    "Message-ID",
    "In-Reply-To",
    "References",
    "Subject",
    "Comments",
    "Keywords",
    "Resent-Date",
    "Resent-From",
    "Resent-Sender",
    "Resent-To",
    "Resent-Cc",
    "Resent-Bcc",
    "Resent-Message-ID",
    "Return-Path"
  }

  /** `HeaderName::from(&str)`: exact, case-sensitive matching. */
  function FromName(s: string): (h: HeaderName)
    ensures h.Other? <==> s !in LISTED
    ensures h.Other? ==> h.name == s
    ensures !h.Other? ==> Spelling(h) == s
  {
    if s == "Date" then Date
    else if s == "From" then From
    else if s == "Sender" then Sender
    else if s == "Reply-To" then ReplyTo
    else if s == "To" then To
    else if s == "Cc" then Cc
    else if s == "Bcc" then Bcc
    else if s == "Message-ID" then MessageID
    else if s == "In-Reply-To" then InReplyTo
    else if s == "References" then References
    else if s == "Subject" then Subject
    else if s == "Comments" then Comments
    else if s == "Keywords" then Keywords
    else if s == "Resent-Date" then ResentDate
    else if s == "Resent-From" then ResentFrom
    else if s == "Resent-Sender" then ResentSender
    else if s == "Resent-To" then ResentTo
    else if s == "Resent-Cc" then ResentCc
    else if s == "Resent-Bcc" then ResentBcc
    else if s == "Resent-Message-ID" then ResentMessageID
    else if s == "Return-Path" then ReturnPath
    else Other(s)
  }

  /** Every dedicated variant is recovered from its spelling. */
  lemma SpellingRoundTrip(h: HeaderName)
    requires !h.Other?
    ensures FromName(Spelling(h)) == h
  {
  }

  /** Distinct dedicated variants have distinct spellings. */
  lemma SpellingInjective(a: HeaderName, b: HeaderName)
    requires !a.Other? && !b.Other? && a != b
    ensures Spelling(a) != Spelling(b)
  {
    SpellingRoundTrip(a);
    SpellingRoundTrip(b);
  }

  /** Matching is case-sensitive: a lower-case spelling is not a
      recognised field. */
  lemma CaseSensitive()
    ensures FromName("date") == Other("date")
  {
  }
}
