/**
 * The one-pass aggregation loop of the annual report: every message of
 * every private-chat table of every shard updates the counters, the
 * conversation watermark, the response-time samples, the phrase counter,
 * the per-day and per-month maps, the active-day sets and the 7x24
 * heatmap.  Each accumulator is proved equal to its reference meaning in
 * `MessageStream` over the messages consumed so far.
 */
module Aggregation {
  import opened Wrappers
  import opened Text
  import opened Tallies
  import opened ReportInput
  import opened MessageStream
  import opened SqlLike

  /** The loop's accumulators (all but the heatmap), each a JavaScript `Map`
      with its insertion order where the report depends on that order. */
  datatype Accumulators = Accumulators(
    totalMessages: nat,
    contactStats: Dict<string, Counts>,
    conversationStarts: Dict<string, Starts>,
    lastMessageTime: map<string, LastMessage>,
    responseTimeStats: Dict<string, seq<int>>,
    phraseCount: Counter<string>,
    monthlyStats: Dict<string, seq<nat>>,
    dailyStats: Counter<int>,
    dailyContactStats: Dict<int, Counter<string>>,
    sessionActiveDays: Dict<string, set<int>>,
    midnightStats: Counter<string>)

  // ---- Reference meaning of each accumulator ---------------------------

  function StatsOf(es: seq<Event>): Dict<string, Counts> {
    Dict(Contacts(es), map c | c in Contacts(es) :: Counts(Count(es, SentKey, c), Count(es, ReceivedKey, c)))
  }

  function StartsOf(es: seq<Event>): Dict<string, Starts> {
    Dict(Contacts(es), map c | c in Contacts(es) :: StartsFor(es, c))
  }

  function ResponseTimesOf(es: seq<Event>): Dict<string, seq<int>> {
    var ss := Samples(es);
    Dict(Order(ss, SampleKey), map c | c in Order(ss, SampleKey) :: SamplesOf(ss, c))
  }

  function MonthlyOf(es: seq<Event>): Dict<string, seq<nat>> {
    Dict(Contacts(es), map c | c in Contacts(es) :: MonthRow(es, c))
  }

  function DayContactsOf(es: seq<Event>): Dict<int, Counter<string>> {
    Dict(Order(es, DayKey), map d | d in Order(es, DayKey) :: CounterOf(es, DayContactKey(d)))
  }

  function ActiveDaysOf(es: seq<Event>): Dict<string, set<int>> {
    Dict(Contacts(es), map c | c in Contacts(es) :: ActiveDays(es, c))
  }

  /** What the accumulators hold after the loop has consumed `es`. */
  function Summary(es: seq<Event>, isPunct: char -> bool): Accumulators {
    Accumulators(
      |es|, StatsOf(es), StartsOf(es), LastMessages(es), ResponseTimesOf(es),
      CounterOf(es, PhraseKey(isPunct)), MonthlyOf(es), CounterOf(es, DayKey),
      DayContactsOf(es), ActiveDaysOf(es), CounterOf(es, MidnightKey))
  }

  // ---- One message at a time ---------------------------------------------

  lemma ContactsSnoc(es: seq<Event>, e: Event)
    ensures Contacts(es + [e]) == if e.contact in Contacts(es) then Contacts(es) else Contacts(es) + [e.contact]
  {
    OrderSnoc(es, e, ContactKey);
  }

  /** A key function that only ever yields a message's own contact. */
  ghost predicate OwnContact(key: Event -> Option<string>) {
    forall e :: key(e).Some? ==> key(e).value == e.contact
  }

  /** Such a key counts nothing for a contact without messages. */
  lemma {:induction false} CountWithoutContact(es: seq<Event>, key: Event -> Option<string>, c: string)
    requires c !in Contacts(es) && OwnContact(key)
    ensures Count(es, key, c) == 0
    decreases |es|
  {
    if es != [] {
      var p := Init(es);
      assert es == p + [Last(es)];
      ContactsSnoc(p, Last(es));
      CountWithoutContact(p, key, c);
    }
  }

  /** Nor does it over the openings of such a contact. */
  lemma {:induction false} OpeningsWithoutContact(es: seq<Event>, key: Event -> Option<string>, c: string)
    requires c !in Contacts(es) && OwnContact(key)
    ensures Count(Openings(es), key, c) == 0
    decreases |es|
  {
    if es != [] {
      var p := Init(es);
      assert es == p + [Last(es)];
      ContactsSnoc(p, Last(es));
      OpeningsWithoutContact(p, key, c);
      assert Last(es).contact != c;
      if OpensConversation(p, Last(es)) {
        assert Openings(es) == Openings(p) + [Last(es)];
        CountSnoc(Openings(p), Last(es), key, c);
      } else {
        assert Openings(es) == Openings(p);
      }
    }
  }

  /** How one message changes its contact's sent and received counts. */
  function CountsStep(st: Counts, isSent: bool): Counts {
    if isSent then st.(sent := st.sent + 1) else st.(received := st.received + 1)
  }

  lemma StatsSnoc(es: seq<Event>, e: Event)
    ensures var s := StatsOf(es);
            StatsOf(es + [e]) == s.Put(e.contact, CountsStep(s.GetOr(e.contact, Counts(0, 0)), e.msg.isSent))
  {
    var c := e.contact;
    var s, t := StatsOf(es), StatsOf(es + [e]);
    var v := CountsStep(s.GetOr(c, Counts(0, 0)), e.msg.isSent);
    assert t.keys == (if c in s.entries then s.keys else s.keys + [c]) by { ContactsSnoc(es, e); }
    assert t.entries.Keys == s.entries.Keys + {c} by { ContactsSnoc(es, e); }
    assert t.entries[c] == v by {
      ContactsSnoc(es, e);
      if c !in Contacts(es) {
        CountWithoutContact(es, SentKey, c);
        CountWithoutContact(es, ReceivedKey, c);
      }
      CountSnoc(es, e, SentKey, c);
      CountSnoc(es, e, ReceivedKey, c);
    }
    forall x | x in s.entries && x != c ensures x in t.entries && t.entries[x] == s.entries[x] {
      ContactsSnoc(es, e);
      CountSnoc(es, e, SentKey, x);
      CountSnoc(es, e, ReceivedKey, x);
    }
    PutAgrees(s, t, c, v);
  }

  lemma OpeningsSnoc(es: seq<Event>, e: Event)
    ensures Openings(es + [e]) == Openings(es) + (if OpensConversation(es, e) then [e] else [])
  {
    InitOfSnoc(es, e);
  }

  /** The conversation starts of contact `c`. */
  function StartsFor(es: seq<Event>, c: string): Starts {
    Starts(Count(Openings(es), SentKey, c), Count(Openings(es), ReceivedKey, c))
  }

  lemma StartsForSnoc(es: seq<Event>, e: Event, c: string)
    ensures StartsFor(es + [e], c) ==
              if c == e.contact then StartsStep(StartsFor(es, c), OpensConversation(es, e), e.msg.isSent)
              else StartsFor(es, c)
  {
    var o := Openings(es);
    var opens := OpensConversation(es, e);
    var o' := o + (if opens then [e] else []);
    assert Openings(es + [e]) == o' by { OpeningsSnoc(es, e); }
    if opens {
      CountSnoc(o, e, SentKey, c);
      CountSnoc(o, e, ReceivedKey, c);
    } else {
      assert o' == o;
    }
  }

  /** How one message changes its contact's conversation starts. */
  function StartsStep(st: Starts, opens: bool, isSent: bool): Starts {
    if !opens then st
    else if isSent then st.(initiated := st.initiated + 1)
    else st.(received := st.received + 1)
  }

  lemma StartsEntry(es: seq<Event>, e: Event)
    ensures var s := StartsOf(es);
            var st := if e.contact in s.entries then s.entries[e.contact] else Starts(0, 0);
            st == StartsFor(es, e.contact)
  {
    var c := e.contact;
    if c !in Contacts(es) {
        OpeningsWithoutContact(es, SentKey, c);
        OpeningsWithoutContact(es, ReceivedKey, c);
    }
  }
  lemma StartsOthersUnchanged(es: seq<Event>, e: Event, x: string)
    requires x in StartsOf(es).entries && x != e.contact
    ensures x in StartsOf(es + [e]).entries && StartsOf(es + [e]).entries[x] == StartsOf(es).entries[x]
  {
      ContactsSnoc(es, e);
      StartsForSnoc(es, e, x);
  }

  lemma StartsSnoc(es: seq<Event>, e: Event)
    ensures var s := StartsOf(es);
            StartsOf(es + [e]) ==
              s.Put(e.contact, StartsStep(s.GetOr(e.contact, Starts(0, 0)), OpensConversation(es, e), e.msg.isSent))
  {
    var c := e.contact;
    var s, t := StartsOf(es), StartsOf(es + [e]);
    var v := StartsStep(s.GetOr(c, Starts(0, 0)), OpensConversation(es, e), e.msg.isSent);
    assert t.keys == (if c in s.entries then s.keys else s.keys + [c]) by { ContactsSnoc(es, e); }
    assert t.entries.Keys == s.entries.Keys + {c} by { ContactsSnoc(es, e); }
    assert t.entries[c] == v by {
      ContactsSnoc(es, e);
      StartsEntry(es, e);
      StartsForSnoc(es, e, c);
    }
    forall x | x in s.entries && x != c ensures x in t.entries && t.entries[x] == s.entries[x] {
      StartsOthersUnchanged(es, e, x);
    }
    PutAgrees(s, t, c, v);
  }

  lemma LastMessagesSnoc(es: seq<Event>, e: Event)
    ensures LastMessages(es + [e]) == LastMessages(es)[e.contact := LastMessage(e.msg.time, e.msg.isSent)]
  {
    InitOfSnoc(es, e);
  }

  lemma SamplesSnoc(es: seq<Event>, e: Event)
    ensures Samples(es + [e]) ==
            Samples(es) + (if ResponseTime(es, e).Some? then [Sample(e.contact, ResponseTime(es, e).value)] else [])
  {
    InitOfSnoc(es, e);
  }

  lemma SamplesOfSnoc(ss: seq<Sample>, x: Sample, c: string)
    ensures SamplesOf(ss + [x], c) == SamplesOf(ss, c) + (if x.contact == c then [x.seconds] else [])
  {
    InitOfSnoc(ss, x);
  }

  lemma {:induction false} SamplesOfAbsent(ss: seq<Sample>, c: string)
    requires c !in Order(ss, SampleKey)
    ensures SamplesOf(ss, c) == []
    decreases |ss|
  {
    if ss != [] {
      var p := Init(ss);
      assert ss == p + [Last(ss)];
      OrderSnoc(p, Last(ss), SampleKey);
      SamplesOfAbsent(p, c);
    }
  }

  lemma ResponseTimesSnoc(es: seq<Event>, e: Event)
    ensures var rt := ResponseTimesOf(es);
            ResponseTimesOf(es + [e]) ==
              match ResponseTime(es, e)
              case None => rt
              case Some(d) => rt.Put(e.contact, rt.GetOr(e.contact, []) + [d])
  {
    var r := ResponseTime(es, e);
    var ss := Samples(es);
    if r.Some? {
      var c := e.contact;
      var x := Sample(c, r.value);
      assert Samples(es + [e]) == ss + [x] by { SamplesSnoc(es, e); }
      var rt, t := ResponseTimesOf(es), ResponseTimesOf(es + [e]);
      var v := rt.GetOr(c, []) + [r.value];
      assert t.keys == (if c in rt.entries then rt.keys else rt.keys + [c]) by { OrderSnoc(ss, x, SampleKey); }
      assert t.entries.Keys == rt.entries.Keys + {c} by { OrderSnoc(ss, x, SampleKey); }
      assert t.entries[c] == v by {
        OrderSnoc(ss, x, SampleKey);
        if c !in Order(ss, SampleKey) {
          SamplesOfAbsent(ss, c);
        }
        SamplesOfSnoc(ss, x, c);
      }
      forall y | y in rt.entries && y != c ensures y in t.entries && t.entries[y] == rt.entries[y] {
        OrderSnoc(ss, x, SampleKey);
        SamplesOfSnoc(ss, x, y);
      }
      PutAgrees(rt, t, c, v);
    } else {
      assert Samples(es + [e]) == ss by { SamplesSnoc(es, e); }
    }
  }

  function Zeros(): (r: seq<nat>)
    ensures |r| == 12 && forall i :: 0 <= i < 12 ==> r[i] == 0
  {
    seq(12, i => 0)
  }

  lemma MonthRowSnoc(es: seq<Event>, e: Event, c: string)
    ensures var row := MonthRow(es, c);
            MonthRow(es + [e], c) == if c == e.contact then row[e.msg.month - 1 := row[e.msg.month - 1] + 1] else row
  {
    forall m | 1 <= m <= 12
      ensures Count(es + [e], MonthKey(m), c) == Count(es, MonthKey(m), c) + (if MonthKey(m)(e) == Some(c) then 1 else 0)
    {
      CountSnoc(es, e, MonthKey(m), c);
    }
  }

  lemma MonthRowAbsent(es: seq<Event>, c: string)
    requires c !in Contacts(es)
    ensures MonthRow(es, c) == Zeros()
  {
    forall m | 1 <= m <= 12 ensures Count(es, MonthKey(m), c) == 0 {
      CountWithoutContact(es, MonthKey(m), c);
    }
  }

  /** `monthMap.set(m, (monthMap.get(m) || 0) + 1)` on a month row. */
  function MonthStep(row: seq<nat>, m: Month): seq<nat>
    requires |row| == 12
  {
    row[m - 1 := row[m - 1] + 1]
  }

  lemma MonthlyEntrySnoc(es: seq<Event>, e: Event)
    ensures var ms := MonthlyOf(es);
            var row := ms.GetOr(e.contact, Zeros());
            |row| == 12 && e.contact in MonthlyOf(es + [e]).entries &&
            MonthlyOf(es + [e]).entries[e.contact] == MonthStep(row, e.msg.month)
  {
    ContactsSnoc(es, e);
    if e.contact !in Contacts(es) {
      MonthRowAbsent(es, e.contact);
    }
    MonthRowSnoc(es, e, e.contact);
  }

  lemma MonthlyOthersSnoc(es: seq<Event>, e: Event, y: string)
    requires y in MonthlyOf(es).entries && y != e.contact
    ensures y in MonthlyOf(es + [e]).entries && MonthlyOf(es + [e]).entries[y] == MonthlyOf(es).entries[y]
  {
    ContactsSnoc(es, e);
    MonthRowSnoc(es, e, y);
  }

  lemma MonthlySnoc(es: seq<Event>, e: Event)
    ensures var ms := MonthlyOf(es);
            var row := ms.GetOr(e.contact, Zeros());
            |row| == 12 && MonthlyOf(es + [e]) == ms.Put(e.contact, MonthStep(row, e.msg.month))
  {
    var c := e.contact;
    var ms, t := MonthlyOf(es), MonthlyOf(es + [e]);
    ContactsSnoc(es, e);
    MonthlyEntrySnoc(es, e);
    forall y | y in ms.entries && y != c ensures y in t.entries && t.entries[y] == ms.entries[y] {
      MonthlyOthersSnoc(es, e, y);
    }
    PutAgrees(ms, t, c, MonthStep(ms.GetOr(c, Zeros()), e.msg.month));
  }

  lemma {:induction false} DayAbsent(es: seq<Event>, d: int)
    requires d !in Order(es, DayKey)
    ensures CounterOf(es, DayContactKey(d)) == Dict([], map[])
    decreases |es|
  {
    if es != [] {
      var p := Init(es);
      assert es == p + [Last(es)];
      OrderSnoc(p, Last(es), DayKey);
      DayAbsent(p, d);
      CounterOfSnoc(p, Last(es), DayContactKey(d));
    }
  }

  lemma DayContactsKeysSnoc(es: seq<Event>, e: Event)
    ensures var dc, t := DayContactsOf(es), DayContactsOf(es + [e]);
            && t.keys == (if e.msg.day in dc.entries then dc.keys else dc.keys + [e.msg.day])
            && t.entries.Keys == dc.entries.Keys + {e.msg.day}
  {
    OrderSnoc(es, e, DayKey);
    assert DayKey(e) == Some(e.msg.day);
  }

  lemma DayContactsEntrySnoc(es: seq<Event>, e: Event)
    ensures var dc := DayContactsOf(es);
            e.msg.day in DayContactsOf(es + [e]).entries &&
            DayContactsOf(es + [e]).entries[e.msg.day] == Bump(dc.GetOr(e.msg.day, Dict([], map[])), e.contact)
  {
    var d := e.msg.day;
    OrderSnoc(es, e, DayKey);
    if d !in Order(es, DayKey) {
      DayAbsent(es, d);
    }
    CounterOfSnoc(es, e, DayContactKey(d));
  }

  lemma DayContactsOthersSnoc(es: seq<Event>, e: Event, y: int)
    requires y in DayContactsOf(es).entries && y != e.msg.day
    ensures y in DayContactsOf(es + [e]).entries && DayContactsOf(es + [e]).entries[y] == DayContactsOf(es).entries[y]
  {
    OrderSnoc(es, e, DayKey);
    CounterOfSnoc(es, e, DayContactKey(y));
  }

  lemma DayContactsSnoc(es: seq<Event>, e: Event)
    ensures var dc := DayContactsOf(es);
            DayContactsOf(es + [e]) == dc.Put(e.msg.day, Bump(dc.GetOr(e.msg.day, Dict([], map[])), e.contact))
  {
    var d := e.msg.day;
    var dc, t := DayContactsOf(es), DayContactsOf(es + [e]);
    DayContactsKeysSnoc(es, e);
    DayContactsEntrySnoc(es, e);
    forall y | y in dc.entries && y != d ensures y in t.entries && t.entries[y] == dc.entries[y] {
      DayContactsOthersSnoc(es, e, y);
    }
    PutAgrees(dc, t, d, Bump(dc.GetOr(d, Dict([], map[])), e.contact));
  }

  lemma {:induction false} ActiveDaysAbsent(es: seq<Event>, c: string)
    requires c !in Contacts(es)
    ensures ActiveDays(es, c) == {}
    decreases |es|
  {
    if es != [] {
      var p := Init(es);
      assert es == p + [Last(es)];
      ContactsSnoc(p, Last(es));
      ActiveDaysAbsent(p, c);
    }
  }

  lemma ActiveDaysSnoc(es: seq<Event>, e: Event)
    ensures var a := ActiveDaysOf(es);
            ActiveDaysOf(es + [e]) == a.Put(e.contact, a.GetOr(e.contact, {}) + {e.msg.day})
  {
    var c := e.contact;
    var a, t := ActiveDaysOf(es), ActiveDaysOf(es + [e]);
    var v := a.GetOr(c, {}) + {e.msg.day};
    assert t.keys == (if c in a.entries then a.keys else a.keys + [c]) by { ContactsSnoc(es, e); }
    assert t.entries.Keys == a.entries.Keys + {c} by { ContactsSnoc(es, e); }
    assert t.entries[c] == v by {
      ContactsSnoc(es, e);
      InitOfSnoc(es, e);
      if c !in Contacts(es) {
        ActiveDaysAbsent(es, c);
      }
    }
    forall y | y in a.entries && y != c ensures y in t.entries && t.entries[y] == a.entries[y] {
      ContactsSnoc(es, e);
      InitOfSnoc(es, e);
    }
    PutAgrees(a, t, c, v);
  }

  // ---- The loop ------------------------------------------------------------

  function Lookup(m: map<string, LastMessage>, c: string): Option<LastMessage> {
    if c in m then Some(m[c]) else None
  }

  /** Contact statistics: one more sent or received message for `sid`. */
  method TallyContact(contactStats: Dict<string, Counts>, sid: string, m: Message, ghost before: seq<Event>)
    returns (r: Dict<string, Counts>)
    requires contactStats == StatsOf(before)
    ensures r == StatsOf(before + [Event(sid, m)])
  {
    r := contactStats;
    if sid !in r.entries {
      r := r.Put(sid, Counts(0, 0));
    }
    var stats := r.entries[sid];
    if m.isSent {
      stats := stats.(sent := stats.sent + 1);
    } else {
      stats := stats.(received := stats.received + 1);
    }
    PutPut(contactStats, sid, Counts(0, 0), stats);
    r := r.Put(sid, stats);
    StatsSnoc(before, Event(sid, m));
  }

  /** The watermark decides both whether a message opens a conversation
      and which response time it records. */
  lemma WatermarkDecides(before: seq<Event>, e: Event, lastMsg: Option<LastMessage>)
    requires lastMsg == Lookup(LastMessages(before), e.contact)
    ensures OpensConversation(before, e) == (lastMsg.None? || e.msg.time - lastMsg.value.time > ConversationGap)
    ensures !OpensConversation(before, e) ==>
              ResponseTime(before, e) ==
                (var delta := e.msg.time - lastMsg.value.time;
                 if e.msg.isSent && !lastMsg.value.isSent && 0 < delta < MaxResponseTime then Some(delta) else None)
    ensures OpensConversation(before, e) ==> ResponseTime(before, e).None?
  {
  }

  /** Conversation starts and response times, against the watermark
      `lastMsg` of `sid`. */
  method TallyConversation(conversationStarts: Dict<string, Starts>, responseTimeStats: Dict<string, seq<int>>,
                           sid: string, m: Message, lastMsg: Option<LastMessage>, ghost before: seq<Event>)
    returns (starts: Dict<string, Starts>, times: Dict<string, seq<int>>)
    requires conversationStarts == StartsOf(before) && responseTimeStats == ResponseTimesOf(before)
    requires lastMsg == Lookup(LastMessages(before), sid)
    ensures starts == StartsOf(before + [Event(sid, m)])
    ensures times == ResponseTimesOf(before + [Event(sid, m)])
  {
    starts := TallyStart(conversationStarts, sid, m, lastMsg, before);
    times := TallyResponse(responseTimeStats, sid, m, lastMsg, before);
  }

  /** The conversation-start half of the per-message step. */
  method TallyStart(conversationStarts: Dict<string, Starts>, sid: string, m: Message,
                    lastMsg: Option<LastMessage>, ghost before: seq<Event>)
    returns (starts: Dict<string, Starts>)
    requires conversationStarts == StartsOf(before)
    requires lastMsg == Lookup(LastMessages(before), sid)
    ensures starts == StartsOf(before + [Event(sid, m)])
  {
    ghost var e := Event(sid, m);
    WatermarkDecides(before, e, lastMsg);
    ghost var opens := OpensConversation(before, e);
    starts := conversationStarts;
    if sid !in starts.entries {
      starts := starts.Put(sid, Starts(0, 0));
    }
    var convStats := starts.entries[sid];
    ghost var st0 := convStats;
    if lastMsg.None? || m.time - lastMsg.value.time > ConversationGap {
      if m.isSent {
        convStats := convStats.(initiated := convStats.initiated + 1);
      } else {
        convStats := convStats.(received := convStats.received + 1);
      }
    }
    assert convStats == StartsStep(st0, opens, m.isSent);
    PutPut(conversationStarts, sid, Starts(0, 0), convStats);
    starts := starts.Put(sid, convStats);
    StartsSnoc(before, e);
  }

  /** The response-time half of the per-message step. */
  method TallyResponse(responseTimeStats: Dict<string, seq<int>>, sid: string, m: Message,
                       lastMsg: Option<LastMessage>, ghost before: seq<Event>)
    returns (times: Dict<string, seq<int>>)
    requires responseTimeStats == ResponseTimesOf(before)
    requires lastMsg == Lookup(LastMessages(before), sid)
    ensures times == ResponseTimesOf(before + [Event(sid, m)])
  {
    ghost var e := Event(sid, m);
    WatermarkDecides(before, e, lastMsg);
    ghost var rt := ResponseTime(before, e);
    times := responseTimeStats;
    if lastMsg.None? || m.time - lastMsg.value.time > ConversationGap {
    } else if lastMsg.value.isSent != m.isSent {
      if m.isSent && !lastMsg.value.isSent {
        var responseTime := m.time - lastMsg.value.time;
        if responseTime > 0 && responseTime < MaxResponseTime {
          if sid !in times.entries {
            times := times.Put(sid, []);
          }
          PutPut(responseTimeStats, sid, [], times.entries[sid] + [responseTime]);
          times := times.Put(sid, times.entries[sid] + [responseTime]);
        }
      }
    }
    assert times == match rt
                    case None => responseTimeStats
                    case Some(d) => responseTimeStats.Put(sid, responseTimeStats.GetOr(sid, []) + [d]);
    ResponseTimesSnoc(before, e);
  }

  /** The common-phrase counter. */
  method TallyPhrase(phraseCount: Counter<string>, sid: string, m: Message, isPunct: char -> bool, ghost before: seq<Event>)
    returns (r: Counter<string>)
    requires phraseCount == CounterOf(before, PhraseKey(isPunct))
    ensures r == CounterOf(before + [Event(sid, m)], PhraseKey(isPunct))
  {
    r := phraseCount;
    if IsTextType(m.localType) && m.content.Some? && m.content.value != "" && m.isSent {
      var content := StripTrailingPunct(Lower(Trim(m.content.value)), isPunct);
      if 2 <= Utf16Length(content) <= 20 && !Contains(content, "http") && !Contains(content, "<")
         && !StartsWith(content, "[") && !StartsWith(content, "<?xml") {
        r := Bump(r, content);
      }
    }
    CounterOfSnoc(before, Event(sid, m), PhraseKey(isPunct));
  }

  /** The contact's month row. */
  method TallyMonth(monthlyStats: Dict<string, seq<nat>>, sid: string, m: Message, ghost before: seq<Event>)
    returns (r: Dict<string, seq<nat>>)
    requires monthlyStats == MonthlyOf(before)
    ensures r == MonthlyOf(before + [Event(sid, m)])
  {
    MonthlySnoc(before, Event(sid, m));
    r := monthlyStats;
    if sid !in r.entries {
      r := r.Put(sid, Zeros());
    }
    var monthRow := r.entries[sid];
    PutPut(monthlyStats, sid, Zeros(), MonthStep(monthRow, m.month));
    r := r.Put(sid, monthRow[m.month - 1 := monthRow[m.month - 1] + 1]);
  }

  /** The per-day total and the per-day contact counter. */
  method TallyDay(dailyStats: Counter<int>, dailyContactStats: Dict<int, Counter<string>>,
                  sid: string, m: Message, ghost before: seq<Event>)
    returns (daily: Counter<int>, dayContacts: Dict<int, Counter<string>>)
    requires dailyStats == CounterOf(before, DayKey) && dailyContactStats == DayContactsOf(before)
    ensures daily == CounterOf(before + [Event(sid, m)], DayKey)
    ensures dayContacts == DayContactsOf(before + [Event(sid, m)])
  {
    daily := Bump(dailyStats, m.day);
    CounterOfSnoc(before, Event(sid, m), DayKey);
    dayContacts := dailyContactStats;
    if m.day !in dayContacts.entries {
      dayContacts := dayContacts.Put(m.day, Dict([], map[]));
    }
    var dayContactMap := dayContacts.entries[m.day];
    PutPut(dailyContactStats, m.day, Dict([], map[]), Bump(dayContactMap, sid));
    dayContacts := dayContacts.Put(m.day, Bump(dayContactMap, sid));
    DayContactsSnoc(before, Event(sid, m));
  }

  /** The contact's set of active days. */
  method TallyActiveDay(sessionActiveDays: Dict<string, set<int>>, sid: string, m: Message, ghost before: seq<Event>)
    returns (r: Dict<string, set<int>>)
    requires sessionActiveDays == ActiveDaysOf(before)
    ensures r == ActiveDaysOf(before + [Event(sid, m)])
  {
    r := sessionActiveDays;
    if sid !in r.entries {
      r := r.Put(sid, {});
    }
    PutPut(sessionActiveDays, sid, {}, r.entries[sid] + {m.day});
    r := r.Put(sid, r.entries[sid] + {m.day});
    ActiveDaysSnoc(before, Event(sid, m));
  }

  /** The small-hours counter. */
  method TallyMidnight(midnightStats: Counter<string>, sid: string, m: Message, ghost before: seq<Event>)
    returns (r: Counter<string>)
    requires midnightStats == CounterOf(before, MidnightKey)
    ensures r == CounterOf(before + [Event(sid, m)], MidnightKey)
  {
    r := midnightStats;
    if 0 <= m.hour < 6 {
      r := Bump(r, sid);
    }
    CounterOfSnoc(before, Event(sid, m), MidnightKey);
  }

  /** The loop body for message `m` of contact `sid`: `lastMsg` is the
      contact's watermark before it, `before` the messages consumed so far. */
  method Absorb(acc: Accumulators, sid: string, m: Message, lastMsg: Option<LastMessage>,
                isPunct: char -> bool, ghost before: seq<Event>)
    returns (next: Accumulators)
    requires acc == Summary(before, isPunct)
    requires lastMsg == Lookup(acc.lastMessageTime, sid)
    ensures next == Summary(before + [Event(sid, m)], isPunct)
    ensures next.lastMessageTime == acc.lastMessageTime[sid := LastMessage(m.time, m.isSent)]
  {
    var contactStats := TallyContact(acc.contactStats, sid, m, before);
    var conversationStarts, responseTimeStats :=
      TallyConversation(acc.conversationStarts, acc.responseTimeStats, sid, m, lastMsg, before);
    var lastMessageTime := acc.lastMessageTime[sid := LastMessage(m.time, m.isSent)];
    LastMessagesSnoc(before, Event(sid, m));
    var phraseCount := TallyPhrase(acc.phraseCount, sid, m, isPunct, before);
    var monthlyStats := TallyMonth(acc.monthlyStats, sid, m, before);
    var dailyStats, dailyContactStats := TallyDay(acc.dailyStats, acc.dailyContactStats, sid, m, before);
    var sessionActiveDays := TallyActiveDay(acc.sessionActiveDays, sid, m, before);
    var midnightStats := TallyMidnight(acc.midnightStats, sid, m, before);
    next := Accumulators(
      acc.totalMessages + 1, contactStats, conversationStarts, lastMessageTime, responseTimeStats,
      phraseCount, monthlyStats, dailyStats, dailyContactStats, sessionActiveDays, midnightStats);
  }

  // ---- The heatmap ------------------------------------------------------

  /** The 7x24 heatmap holds, per weekday row and hour, the number of
      messages of `es` in that cell. */
  ghost predicate HeatOf(heat: array2<nat>, es: seq<Event>)
    reads heat
  {
    heat.Length0 == 7 && heat.Length1 == 24 &&
    forall r, h :: 0 <= r < 7 && 0 <= h < 24 ==> heat[r, h] == Count(es, CellKey, Cell(r, h))
  }

  /** One more message in its weekday row and hour column. */
  method TallyHeat(heat: array2<nat>, m: Message, sid: string, ghost before: seq<Event>)
    requires HeatOf(heat, before)
    modifies heat
    ensures HeatOf(heat, before + [Event(sid, m)])
  {
    var weekdayIndex := HeatRow(m.weekday);
    heat[weekdayIndex, m.hour] := heat[weekdayIndex, m.hour] + 1;
    forall r, h | 0 <= r < 7 && 0 <= h < 24
      ensures heat[r, h] == Count(before + [Event(sid, m)], CellKey, Cell(r, h))
    {
      CountSnoc(before, Event(sid, m), CellKey, Cell(r, h));
    }
  }

  // ---- The loops --------------------------------------------------------

  lemma TagSnoc(before: seq<Event>, sid: string, rows: seq<Message>, j: nat)
    requires j < |rows|
    ensures before + Tag(sid, rows[..j + 1]) == (before + Tag(sid, rows[..j])) + [Event(sid, rows[j])]
  {
    assert Tag(sid, rows[..j + 1]) == Tag(sid, rows[..j]) + [Event(sid, rows[j])];
  }

  /** The inner loop over the rows of one private-chat table; `lastMsg` is
      the table-local copy of the watermark of `sid`. */
  method AbsorbRows(acc0: Accumulators, heat: array2<nat>, sid: string, rows: seq<Message>,
                    isPunct: char -> bool, ghost before: seq<Event>)
    returns (acc: Accumulators)
    requires acc0 == Summary(before, isPunct) && HeatOf(heat, before)
    modifies heat
    ensures acc == Summary(before + Tag(sid, rows), isPunct)
    ensures HeatOf(heat, before + Tag(sid, rows))
  {
    acc := acc0;
    var lastMsg := Lookup(acc.lastMessageTime, sid);
    ghost var done := before;
    var j := 0;
    while j < |rows|
      invariant 0 <= j <= |rows|
      invariant done == before + Tag(sid, rows[..j])
      invariant acc == Summary(done, isPunct) && HeatOf(heat, done)
      invariant lastMsg == Lookup(acc.lastMessageTime, sid)
    {
      var msg := rows[j];
      acc := Absorb(acc, sid, msg, lastMsg, isPunct, done);
      lastMsg := Some(LastMessage(msg.time, msg.isSent));
      TallyHeat(heat, msg, sid, done);
      TagSnoc(before, sid, rows, j);
      done := done + [Event(sid, msg)];
      j := j + 1;
    }
    assert rows[..j] == rows;
  }

  lemma AppendNothing(es: seq<Event>)
    ensures es + [] == es
  {
  }

  lemma TablesSnoc(before: seq<Event>, index: map<string, string>, attributes: bool, tables: seq<Table>, k: nat)
    requires k < |tables|
    ensures before + TablesEvents(index, attributes, tables[..k + 1]) ==
            (before + TablesEvents(index, attributes, tables[..k])) + TableEvents(index, attributes, tables[k])
  {
    assert tables[..k + 1] == tables[..k] + [tables[k]];
    InitOfSnoc(tables[..k], tables[k]);
  }

  lemma ShardsSnoc(index: map<string, string>, shards: seq<Shard>, i: nat)
    requires i < |shards|
    ensures Events(index, shards[..i + 1]) == Events(index, shards[..i]) + ShardEvents(index, shards[i])
  {
    assert shards[..i + 1] == shards[..i] + [shards[i]];
    InitOfSnoc(shards[..i], shards[i]);
  }

  /** One table: skipped unless it is a `Msg_` table of a private chat in
      a shard that attributes senders and its query succeeded. */
  method AbsorbTable(acc0: Accumulators, heat: array2<nat>, index: map<string, string>, attributes: bool,
                     t: Table, isPunct: char -> bool, ghost before: seq<Event>)
    returns (acc: Accumulators)
    requires acc0 == Summary(before, isPunct) && HeatOf(heat, before)
    modifies heat
    ensures acc == Summary(before + TableEvents(index, attributes, t), isPunct)
    ensures HeatOf(heat, before + TableEvents(index, attributes, t))
  {
    acc := acc0;
    if Like(t.name, "Msg_%") {
      var tableHash := ReplaceFirst(t.name, "Msg_", "");
      if tableHash in index && index[tableHash] != "" {
        var sessionId := index[tableHash];
        if attributes && t.rows.Some? {
          acc := AbsorbRows(acc, heat, sessionId, t.rows.value, isPunct, before);
          return;
        }
      }
    }
    AppendNothing(before);
  }

  /** The loop over the tables of one open shard.  `attributes` says
      whether the shard has `Name2Id` and the owner's row id in it. */
  method AbsorbTables(acc0: Accumulators, heat: array2<nat>, index: map<string, string>, attributes: bool,
                      tables: seq<Table>, isPunct: char -> bool, ghost before: seq<Event>)
    returns (acc: Accumulators)
    requires acc0 == Summary(before, isPunct) && HeatOf(heat, before)
    modifies heat
    ensures acc == Summary(before + TablesEvents(index, attributes, tables), isPunct)
    ensures HeatOf(heat, before + TablesEvents(index, attributes, tables))
  {
    acc := acc0;
    ghost var done := before;
    var k := 0;
    while k < |tables|
      invariant 0 <= k <= |tables|
      invariant done == before + TablesEvents(index, attributes, tables[..k])
      invariant acc == Summary(done, isPunct) && HeatOf(heat, done)
    {
      TablesSnoc(before, index, attributes, tables, k);
      acc := AbsorbTable(acc, heat, index, attributes, tables[k], isPunct, done);
      done := done + TableEvents(index, attributes, tables[k]);
      k := k + 1;
    }
    assert tables[..k] == tables;
  }

  /** One shard: skipped when it did not open; otherwise its tables, with
      senders attributable only when it has `Name2Id` and the owner's row
      id in it. */
  method AbsorbShard(acc0: Accumulators, heat: array2<nat>, index: map<string, string>, sh: Shard,
                     isPunct: char -> bool, ghost before: seq<Event>)
    returns (acc: Accumulators)
    requires acc0 == Summary(before, isPunct) && HeatOf(heat, before)
    modifies heat
    ensures acc == Summary(before + ShardEvents(index, sh), isPunct)
    ensures HeatOf(heat, before + ShardEvents(index, sh))
  {
    if !sh.isOpen {
      AppendNothing(before);
      return acc0;
    }
    var hasName2Id := sh.hasName2Id;
    var myRowId := if hasName2Id then sh.myRowId else None;
    acc := AbsorbTables(acc0, heat, index, hasName2Id && myRowId.Some?, sh.tables, isPunct, before);
  }

  /** The accumulators before the first message. */
  function Empty(isPunct: char -> bool): (acc: Accumulators)
    ensures acc == Summary([], isPunct)
  {
    Accumulators(0, Dict([], map[]), Dict([], map[]), map[], Dict([], map[]), Dict([], map[]),
                 Dict([], map[]), Dict([], map[]), Dict([], map[]), Dict([], map[]), Dict([], map[]))
  }

  /** The whole aggregation: every open shard in order; returns the
      accumulators and the heatmap over the message stream. */
  method Aggregate(index: map<string, string>, shards: seq<Shard>, isPunct: char -> bool)
    returns (acc: Accumulators, heat: array2<nat>)
    ensures acc == Summary(Events(index, shards), isPunct)
    ensures fresh(heat) && HeatOf(heat, Events(index, shards))
  {
    acc := Empty(isPunct);
    heat := new nat[7, 24]((r, h) => 0);
    ghost var done: seq<Event> := [];
    var i := 0;
    while i < |shards|
      invariant 0 <= i <= |shards|
      invariant done == Events(index, shards[..i])
      invariant acc == Summary(done, isPunct) && HeatOf(heat, done)
    {
      ShardsSnoc(index, shards, i);
      acc := AbsorbShard(acc, heat, index, shards[i], isPunct, done);
      done := done + ShardEvents(index, shards[i]);
      i := i + 1;
    }
    assert shards[..i] == shards;
  }
}
