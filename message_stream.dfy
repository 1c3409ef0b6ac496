/**
 * The reference meaning of every accumulator of the aggregation loop, as a
 * function of the message stream that the loop has consumed so far.  Each
 * function is defined by what the messages before and including the last
 * one say, so that the loop's one-message updates can be checked against
 * it.
 */
module MessageStream {
  import opened Wrappers
  import opened Text
  import opened Tallies
  import opened ReportInput

  /** Messages less than an hour apart belong to one conversation. */
  const ConversationGap := 3600
  /** Replies slower than a day are not response times. */
  const MaxResponseTime := 86400
  /** The two `local_type` values of text messages. */
  const TextType := 1
  const AppTextType := 244813135921

  datatype Counts = Counts(sent: nat, received: nat)
  datatype Starts = Starts(initiated: nat, received: nat)
  datatype LastMessage = LastMessage(time: int, isSent: bool)

  // ---- Keys -------------------------------------------------------------

  function ContactKey(e: Event): Option<string> { Some(e.contact) }
  function SentKey(e: Event): Option<string> { if e.msg.isSent then Some(e.contact) else None }
  function ReceivedKey(e: Event): Option<string> { if e.msg.isSent then None else Some(e.contact) }
  function DayKey(e: Event): Option<int> { Some(e.msg.day) }
  /** Hours 0 to 5 are the small hours. */
  function MidnightKey(e: Event): Option<string> { if e.msg.hour < 6 then Some(e.contact) else None }

  /** The contact's messages in month `m`. */
  function MonthKey(m: int): Event -> Option<string> {
    (e: Event) => if e.msg.month == m then Some(e.contact) else None
  }

  /** The contact's messages on day `d`. */
  function DayContactKey(d: int): Event -> Option<string> {
    (e: Event) => if e.msg.day == d then Some(e.contact) else None
  }

  /** Heatmap rows run Monday (0) to Sunday (6). */
  function HeatRow(w: Weekday): (r: int)
    ensures 0 <= r < 7
    ensures (r + 1) % 7 == w
  {
    if w == 0 then 6 else w - 1
  }

  datatype Cell = Cell(row: int, hour: int)

  function CellKey(e: Event): Option<Cell> { Some(Cell(HeatRow(e.msg.weekday), e.msg.hour)) }

  /** The contacts in order of their first message. */
  function Contacts(es: seq<Event>): seq<string> { Order(es, ContactKey) }

  // ---- Conversations and response times --------------------------------

  /** `lastMessageTime`: each contact's latest message so far, over all
      tables and shards. */
  function LastMessages(es: seq<Event>): map<string, LastMessage>
    decreases |es|
  {
    if es == [] then map[]
    else LastMessages(Init(es))[Last(es).contact := LastMessage(Last(es).msg.time, Last(es).msg.isSent)]
  }

  /** `e`, following the messages `before`, starts a new conversation: its
      contact has no earlier message, or the last one is more than an hour
      older. */
  predicate OpensConversation(before: seq<Event>, e: Event) {
    var last := LastMessages(before);
    e.contact !in last || e.msg.time - last[e.contact].time > ConversationGap
  }

  /** The response time `e` records: an outgoing message inside a
      conversation, answering an incoming one, between 0 and 24 hours later
      (both exclusive). */
  function ResponseTime(before: seq<Event>, e: Event): (r: Option<int>)
    ensures r.Some? ==> 0 < r.value < MaxResponseTime
  {
    if OpensConversation(before, e) then None
    else
      var last := LastMessages(before)[e.contact];
      var delta := e.msg.time - last.time;
      if last.isSent != e.msg.isSent && e.msg.isSent && !last.isSent && 0 < delta < MaxResponseTime
      then Some(delta) else None
  }

  /** The messages that open a conversation, in stream order. */
  function Openings(es: seq<Event>): seq<Event>
    decreases |es|
  {
    if es == [] then []
    else Openings(Init(es)) + (if OpensConversation(Init(es), Last(es)) then [Last(es)] else [])
  }

  datatype Sample = Sample(contact: string, seconds: int)

  function SampleKey(s: Sample): Option<string> { Some(s.contact) }

  /** Every response time recorded, in stream order. */
  function Samples(es: seq<Event>): seq<Sample>
    decreases |es|
  {
    if es == [] then []
    else
      var r := ResponseTime(Init(es), Last(es));
      Samples(Init(es)) + (if r.Some? then [Sample(Last(es).contact, r.value)] else [])
  }

  /** The response times recorded for contact `c`, in order. */
  function SamplesOf(ss: seq<Sample>, c: string): seq<int>
    decreases |ss|
  {
    if ss == [] then []
    else SamplesOf(Init(ss), c) + (if Last(ss).contact == c then [Last(ss).seconds] else [])
  }

  // ---- Phrases -------------------------------------------------------------

  /** The start of the trailing run of characters that satisfy `isPunct`
      in `s[..j]`. */
  function TrailingRunStart(s: string, j: nat, isPunct: char -> bool): (i: nat)
    requires j <= |s|
    ensures i <= j
  {
    if j > 0 && isPunct(s[j - 1]) then TrailingRunStart(s, j - 1, isPunct) else j
  }

  lemma {:induction false} TrailingRunStartSpec(s: string, j: nat, isPunct: char -> bool)
    requires j <= |s|
    ensures forall k :: TrailingRunStart(s, j, isPunct) <= k < j ==> isPunct(s[k])
    ensures TrailingRunStart(s, j, isPunct) > 0 ==> !isPunct(s[TrailingRunStart(s, j, isPunct) - 1])
    decreases j
  {
    if j > 0 && isPunct(s[j - 1]) {
      TrailingRunStartSpec(s, j - 1, isPunct);
    }
  }

  /** `s.replace(/[\p{P}\p{S}]+$/gu, '')`, with `isPunct` standing for
      membership in the Unicode punctuation and symbol categories. */
  function StripTrailingPunct(s: string, isPunct: char -> bool): string
  {
    s[..TrailingRunStart(s, |s|, isPunct)]
  }

  predicate IsTextType(localType: int) {
    localType == TextType || localType == AppTextType
  }

  /** The common phrase an outgoing text message contributes, if any. */
  function Phrase(m: Message, isPunct: char -> bool): Option<string>
  {
    if IsTextType(m.localType) && m.content.Some? && m.content.value != "" && m.isSent then
      var c := StripTrailingPunct(Lower(Trim(m.content.value)), isPunct);
      if 2 <= Utf16Length(c) <= 20 && !Contains(c, "http") && !Contains(c, "<")
         && !StartsWith(c, "[") && !StartsWith(c, "<?xml")
      then Some(c) else None
    else None
  }

  function PhraseKey(isPunct: char -> bool): Event -> Option<string> {
    (e: Event) => Phrase(e.msg, isPunct)
  }

  // ---- Months and days -----------------------------------------------------

  /** The inner month map of `monthlyStats` for contact `c`: slot `m - 1`
      is `monthMap.get(m) || 0`. */
  function MonthRow(es: seq<Event>, c: string): (r: seq<nat>)
    ensures |r| == 12
    ensures forall i :: 0 <= i < 12 ==> r[i] == Count(es, MonthKey(i + 1), c)
  {
    seq(12, i requires 0 <= i < 12 => Count(es, MonthKey(i + 1), c))
  }

  /** `sessionActiveDays`: the days on which contact `c` has messages. */
  function ActiveDays(es: seq<Event>, c: string): set<int>
    decreases |es|
  {
    if es == [] then {}
    else ActiveDays(Init(es), c) + (if Last(es).contact == c then {Last(es).msg.day} else {})
  }
}
