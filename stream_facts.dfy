/**
 * What the accumulators of the annual report promise about the message
 * stream, beyond being computed one message at a time: the per-contact
 * statistics, the heatmap, the per-day and per-month maps all account for
 * every message exactly once; every contact's first message opens a
 * conversation; response times lie strictly between 0 and 24 hours; the
 * active days and the small-hours counts are bounded by the contact's
 * messages.
 */
module StreamFacts {
  import opened Wrappers
  import opened Text
  import opened Tallies
  import opened ReportInput
  import opened MessageStream
  import opened Aggregation

  // ---- Every message is counted once -----------------------------------

  /** Each message of a contact is either sent or received. */
  lemma {:induction false} SentPlusReceived(es: seq<Event>, c: string)
    ensures Count(es, SentKey, c) + Count(es, ReceivedKey, c) == Count(es, ContactKey, c)
    decreases |es|
  {
    if es != [] {
      SentPlusReceived(Init(es), c);
    }
  }

  /** `sent + received` of a contact's statistics, 0 for an unknown one. */
  function MessagesWith(d: Dict<string, Counts>, c: string): nat {
    if c in d.entries then d.entries[c].sent + d.entries[c].received else 0
  }

  /** `contactStats` lists each contact with messages once, and its sent
      and received counts add up to the number of messages. */
  lemma ContactStatsConserve(es: seq<Event>)
    ensures Distinct(StatsOf(es).keys)
    ensures forall c :: c in StatsOf(es).entries <==> Count(es, ContactKey, c) > 0
    ensures SumOver(StatsOf(es).keys, c => MessagesWith(StatsOf(es), c)) == |es|
  {
    var d := StatsOf(es);
    OrderSpec(es, ContactKey);
    forall i | 0 <= i < |d.keys|
      ensures MessagesWith(d, d.keys[i]) == Count(es, ContactKey, d.keys[i])
    {
      SentPlusReceived(es, d.keys[i]);
    }
    SumOverSame(d.keys, c => MessagesWith(d, c), c => Count(es, ContactKey, c));
    CounterTotal(es, ContactKey);
    KeyedTotal(es, ContactKey);
  }

  /** The 168 cells of the heatmap, row by row. */
  function Grid(): (g: seq<Cell>)
    ensures |g| == 168
  {
    seq(168, i requires 0 <= i < 168 => Cell(i / 24, i % 24))
  }

  lemma GridCovers(r: int, h: int)
    requires 0 <= r < 7 && 0 <= h < 24
    ensures Cell(r, h) in Grid()
  {
    var i := r * 24 + h;
    assert i / 24 == r && i % 24 == h;
    assert Grid()[i] == Cell(r, h);
  }

  lemma GridDistinct()
    ensures Distinct(Grid())
  {
    forall i, j | 0 <= i < j < 168
      ensures Grid()[i] != Grid()[j]
    {
      assert i == 24 * (i / 24) + i % 24;
      assert j == 24 * (j / 24) + j % 24;
    }
  }

  /** The heatmap cells add up to the number of messages. */
  lemma HeatmapConserves(es: seq<Event>)
    ensures SumOver(Grid(), cell => Count(es, CellKey, cell)) == |es|
  {
    GridDistinct();
    forall i | 0 <= i < |es|
      ensures CellKey(es[i]).value in Grid()
    {
      GridCovers(HeatRow(es[i].msg.weekday), es[i].msg.hour);
    }
    SumOfCounts(es, CellKey, Grid());
    KeyedTotal(es, CellKey);
  }

  /** `dailyStats` adds up to the number of messages. */
  lemma DailyStatsConserve(es: seq<Event>)
    ensures var d := CounterOf(es, DayKey);
            SumOver(d.keys, k => d.GetOr(k, 0)) == |es|
  {
    CounterSums(es, DayKey);
    KeyedTotal(es, DayKey);
  }

  lemma {:induction false} DayContactsKeyed(es: seq<Event>, d: int)
    ensures Keyed(es, DayContactKey(d)) == Count(es, DayKey, d)
    decreases |es|
  {
    if es != [] {
      DayContactsKeyed(Init(es), d);
    }
  }

  /** The per-contact map of each day adds up to that day's count. */
  lemma DayContactsConserve(es: seq<Event>, d: int)
    ensures var c := CounterOf(es, DayContactKey(d));
            SumOver(c.keys, k => c.GetOr(k, 0)) == Count(es, DayKey, d)
  {
    CounterSums(es, DayContactKey(d));
    DayContactsKeyed(es, d);
  }

  /** The month numbers 1 to 12, the slots of a month row. */
  function MonthNumbers(): (ms: seq<int>)
    ensures |ms| == 12
  {
    seq(12, i requires 0 <= i < 12 => i + 1)
  }

  /** The month of each of contact `c`'s messages. */
  function MonthOfContact(c: string): Event -> Option<int> {
    (e: Event) => if e.contact == c then Some(e.msg.month as int) else None
  }

  lemma {:induction false} MonthOfContactCounts(es: seq<Event>, c: string, m: int)
    ensures Count(es, MonthOfContact(c), m) == Count(es, MonthKey(m), c)
    decreases |es|
  {
    if es != [] {
      MonthOfContactCounts(Init(es), c, m);
    }
  }

  lemma {:induction false} MonthOfContactKeyed(es: seq<Event>, c: string)
    ensures Keyed(es, MonthOfContact(c)) == Count(es, ContactKey, c)
    decreases |es|
  {
    if es != [] {
      MonthOfContactKeyed(Init(es), c);
    }
  }

  /** The month slot of `monthlyStats`, `monthMap.get(m) || 0`. */
  function MonthSlot(row: seq<nat>, m: int): nat
    requires |row| == 12
  {
    if 1 <= m <= 12 then row[m - 1] else 0
  }

  lemma MonthNumbersDistinct()
    ensures Distinct(MonthNumbers())
  {
    var ms := MonthNumbers();
    forall i, j | 0 <= i < j < 12
      ensures ms[i] != ms[j]
    {
    }
  }

  lemma MonthNumbersCover(es: seq<Event>, c: string)
    ensures forall i :: 0 <= i < |es| && MonthOfContact(c)(es[i]).Some? ==> MonthOfContact(c)(es[i]).value in MonthNumbers()
  {
    forall i | 0 <= i < |es| && MonthOfContact(c)(es[i]).Some?
      ensures MonthOfContact(c)(es[i]).value in MonthNumbers()
    {
      var m := es[i].msg.month;
      assert MonthNumbers()[m - 1] == m;
    }
  }

  lemma MonthSlotsCount(es: seq<Event>, c: string)
    ensures SumOver(MonthNumbers(), m => MonthSlot(MonthRow(es, c), m)) ==
            SumOver(MonthNumbers(), m => Count(es, MonthOfContact(c), m))
  {
    var ms := MonthNumbers();
    var row := MonthRow(es, c);
    forall i | 0 <= i < 12
      ensures MonthSlot(row, ms[i]) == Count(es, MonthOfContact(c), ms[i])
    {
      MonthOfContactCounts(es, c, ms[i]);
    }
    SumOverSame(ms, m => MonthSlot(row, m), m => Count(es, MonthOfContact(c), m));
  }

  /** A contact's twelve month counts add up to its messages. */
  lemma MonthsPartition(es: seq<Event>, c: string)
    ensures SumOver(MonthNumbers(), m => MonthSlot(MonthRow(es, c), m)) == Count(es, ContactKey, c)
  {
    var key := MonthOfContact(c);
    MonthNumbersDistinct();
    MonthNumbersCover(es, c);
    SumOfCounts(es, key, MonthNumbers());
    assert SumOver(MonthNumbers(), m => Count(es, key, m)) == Keyed(es, key);
    MonthOfContactKeyed(es, c);
    MonthSlotsCount(es, c);
  }

  // ---- Conversations ----------------------------------------------------

  lemma {:induction false} LastMessagesKnown(es: seq<Event>, c: string)
    ensures c in LastMessages(es) <==> Count(es, ContactKey, c) > 0
    decreases |es|
  {
    if es != [] {
      LastMessagesKnown(Init(es), c);
    }
  }

  /** The openings are some of the messages, so no key counts more often
      among them. */
  lemma {:induction false} OpeningsWithin(es: seq<Event>, key: Event -> Option<string>, c: string)
    ensures Count(Openings(es), key, c) <= Count(es, key, c)
    decreases |es|
  {
    if es != [] {
      var p := Init(es);
      OpeningsWithin(p, key, c);
      InitOfSnoc(p, Last(es));
      assert es == p + [Last(es)];
      OpeningsSnoc(p, Last(es));
      if OpensConversation(p, Last(es)) {
        CountSnoc(Openings(p), Last(es), key, c);
      } else {
        assert Openings(es) == Openings(p);
      }
    }
  }

  /** A contact has an opening exactly when it has a message: its first
      message always opens a conversation. */
  lemma {:induction false} FirstMessageOpens(es: seq<Event>, c: string)
    ensures Count(Openings(es), ContactKey, c) > 0 <==> Count(es, ContactKey, c) > 0
    decreases |es|
  {
    OpeningsWithin(es, ContactKey, c);
    if es != [] {
      var p, e := Init(es), Last(es);
      FirstMessageOpens(p, c);
      InitOfSnoc(p, e);
      assert es == p + [e];
      OpeningsSnoc(p, e);
      if e.contact == c && Count(p, ContactKey, c) == 0 {
        LastMessagesKnown(p, c);
        assert OpensConversation(p, e);
        CountSnoc(Openings(p), e, ContactKey, c);
      } else if OpensConversation(p, e) {
        CountSnoc(Openings(p), e, ContactKey, c);
      } else {
        assert Openings(es) == Openings(p);
      }
    }
  }

  /** Every contact with messages has at least one conversation start,
      and the starts it initiated (received) are among its sent (received)
      messages. */
  lemma ConversationStartsBounded(es: seq<Event>, c: string)
    ensures var s := StartsFor(es, c);
            (s.initiated + s.received > 0 <==> c in Contacts(es)) &&
            s.initiated <= Count(es, SentKey, c) && s.received <= Count(es, ReceivedKey, c)
  {
    SentPlusReceived(Openings(es), c);
    FirstMessageOpens(es, c);
    OrderSpec(es, ContactKey);
    OpeningsWithin(es, SentKey, c);
    OpeningsWithin(es, ReceivedKey, c);
  }

  // ---- Response times ---------------------------------------------------

  lemma {:induction false} SamplesInRange(es: seq<Event>)
    ensures forall i :: 0 <= i < |Samples(es)| ==> 0 < Samples(es)[i].seconds < MaxResponseTime
    decreases |es|
  {
    if es != [] {
      SamplesInRange(Init(es));
    }
  }

  lemma {:induction false} SamplesOfFrom(ss: seq<Sample>, c: string)
    ensures forall x :: x in SamplesOf(ss, c) ==> exists i :: 0 <= i < |ss| && ss[i] == Sample(c, x)
    decreases |ss|
  {
    if ss != [] {
      var p := Init(ss);
      SamplesOfFrom(p, c);
      forall x | x in SamplesOf(ss, c)
        ensures exists i :: 0 <= i < |ss| && ss[i] == Sample(c, x)
      {
        if x in SamplesOf(p, c) {
          var i :| 0 <= i < |p| && p[i] == Sample(c, x);
          assert ss[i] == p[i];
        } else {
          assert ss[|ss| - 1] == Sample(c, x);
        }
      }
    }
  }

  /** Every recorded response time lies strictly between 0 and 24 hours. */
  lemma ResponseTimesInRange(es: seq<Event>)
    ensures var d := ResponseTimesOf(es);
            forall c, x :: c in d.entries && x in d.entries[c] ==> 0 < x < MaxResponseTime
  {
    var d := ResponseTimesOf(es);
    SamplesInRange(es);
    forall c, x | c in d.entries && x in d.entries[c]
      ensures 0 < x < MaxResponseTime
    {
      SamplesOfFrom(Samples(es), c);
      var i :| 0 <= i < |Samples(es)| && Samples(es)[i] == Sample(c, x);
    }
  }

  /** Only an outgoing message records a response time, so a contact has
      at most as many samples as sent messages. */
  lemma {:induction false} SamplesBoundedBySent(es: seq<Event>, c: string)
    ensures |SamplesOf(Samples(es), c)| <= Count(es, SentKey, c)
    decreases |es|
  {
    if es != [] {
      var p, e := Init(es), Last(es);
      SamplesBoundedBySent(p, c);
      InitOfSnoc(p, e);
      assert es == p + [e];
      SamplesSnoc(p, e);
      CountSnoc(p, e, SentKey, c);
      var r := ResponseTime(p, e);
      if r.Some? {
        SamplesOfSnoc(Samples(p), Sample(e.contact, r.value), c);
      } else {
        assert Samples(es) == Samples(p);
      }
    }
  }

  // ---- Active days and the small hours -------------------------------------

  lemma {:induction false} ActiveDaysSpec(es: seq<Event>, c: string, d: int)
    ensures d in ActiveDays(es, c) <==> Count(es, DayContactKey(d), c) > 0
    decreases |es|
  {
    if es != [] {
      ActiveDaysSpec(Init(es), c, d);
    }
  }

  lemma {:induction false} ActiveDaysAtMostMessages(es: seq<Event>, c: string)
    ensures |ActiveDays(es, c)| <= Count(es, ContactKey, c)
    decreases |es|
  {
    if es != [] {
      ActiveDaysAtMostMessages(Init(es), c);
    }
  }

  /** A contact has active days exactly when it has messages, and no more
      days than messages. */
  lemma ActiveDaysOfContacts(es: seq<Event>, c: string)
    ensures ActiveDays(es, c) != {} <==> c in Contacts(es)
    ensures |ActiveDays(es, c)| <= Count(es, ContactKey, c)
  {
    OrderSpec(es, ContactKey);
    ActiveDaysAtMostMessages(es, c);
    if c in Contacts(es) {
      CountPositive(es, ContactKey, c);
      var i :| 0 <= i < |es| && ContactKey(es[i]) == Some(c);
      CountPositive(es, DayContactKey(es[i].msg.day), c);
      ActiveDaysSpec(es, c, es[i].msg.day);
    }
  }

  /** A contact's small-hours messages are among its messages. */
  lemma MidnightWithinMessages(es: seq<Event>, c: string)
    ensures Count(es, MidnightKey, c) <= Count(es, ContactKey, c)
  {
    CountMono(es, MidnightKey, ContactKey, c);
  }

  // ---- Phrases ---------------------------------------------------------------

  /** A phrase comes from an outgoing text message, is 2 to 20 UTF-16 code
      units long, holds no link or markup, and does not end in punctuation. */
  lemma PhraseShape(m: Message, isPunct: char -> bool)
    ensures Phrase(m, isPunct).Some? ==>
              var p := Phrase(m, isPunct).value;
              m.isSent && IsTextType(m.localType) && 2 <= Utf16Length(p) <= 20 &&
              !Contains(p, "http") && !Contains(p, "<") && !StartsWith(p, "[") &&
              p != [] && !isPunct(p[|p| - 1])
  {
    if Phrase(m, isPunct).Some? {
      var c := Lower(Trim(m.content.value));
      TrailingRunStartSpec(c, |c|, isPunct);
      var p := Phrase(m, isPunct).value;
      assert p == c[..TrailingRunStart(c, |c|, isPunct)];
    }
  }

  /** The `<?xml` test never decides anything: such a phrase already
      contains `<`. */
  lemma XmlTestRedundant(p: string)
    ensures StartsWith(p, "<?xml") ==> Contains(p, "<")
  {
    if StartsWith(p, "<?xml") {
      assert OccursAt(p, "<", 0);
    }
  }
}
