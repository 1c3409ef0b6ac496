/**
 * Building the report from the accumulators once the aggregation loop is
 * done: the top contacts, the busiest contact of every month, the peak
 * day, the small-hours contact, the longest run of consecutive chat days,
 * the most balanced contact, the share of conversations the owner opened
 * and the frequent phrases.
 */
module ReportAssembly {
  import opened Wrappers
  import opened Tallies
  import opened ReportInput
  import opened MessageStream
  import opened Ranking
  import opened Streaks

  /** `contactInfoMap.get(id)?.displayName || fallback`, where `infos` holds
      the display names found in the contact database. */
  function DisplayName(infos: map<string, string>, id: string, fallback: string): string {
    if id in infos && infos[id] != "" then infos[id] else fallback
  }

  /** A counter read as a weight: `m.get(k) || 0`. */
  function Weight<K>(c: Counter<K>): K -> nat {
    k => c.GetOr(k, 0)
  }

  // ---- Top contacts -------------------------------------------------------

  datatype TopContact = TopContact(username: string, displayName: string, messageCount: nat,
                                   sentCount: nat, receivedCount: nat)

  function ContactRow(infos: map<string, string>, stats: Dict<string, Counts>, id: string): TopContact {
    var st := stats.GetOr(id, Counts(0, 0));
    TopContact(id, DisplayName(infos, id, id), st.sent + st.received, st.sent, st.received)
  }

  function MessageCount(t: TopContact): int {
    t.messageCount
  }

  /** `Array.from(contactStats.entries()).map(...)` */
  function ContactRows(infos: map<string, string>, stats: Dict<string, Counts>): seq<TopContact> {
    seq(|stats.keys|, i requires 0 <= i < |stats.keys| => ContactRow(infos, stats, stats.keys[i]))
  }

  /** `coreFriends`: the rows sorted by message count, the first three. */
  function CoreFriends(infos: map<string, string>, stats: Dict<string, Counts>): seq<TopContact> {
    Take(SortDesc(ContactRows(infos, stats), MessageCount), 3)
  }

  /** Up to three contacts, busiest first, each with its own counts, and no
      contact left out has more messages than one kept. */
  lemma CoreFriendsSpec(infos: map<string, string>, stats: Dict<string, Counts>)
    ensures var r := CoreFriends(infos, stats);
            && |r| == (if |stats.keys| < 3 then |stats.keys| else 3)
            && SortedDesc(r, MessageCount)
            && (forall t :: t in r ==> t.username in stats.keys && t == ContactRow(infos, stats, t.username))
            && (forall c :: c in stats.keys && (forall t :: t in r ==> t.username != c) ==>
                  forall t :: t in r ==> t.messageCount >= ContactRow(infos, stats, c).messageCount)
  {
    var rows := ContactRows(infos, stats);
    var r := CoreFriends(infos, stats);
    TopSpec(rows, MessageCount, 3);
    forall t | t in r
      ensures t.username in stats.keys && t == ContactRow(infos, stats, t.username)
    {
      var i :| 0 <= i < |rows| && rows[i] == t;
    }
    forall c | c in stats.keys && (forall t :: t in r ==> t.username != c)
      ensures forall t :: t in r ==> t.messageCount >= ContactRow(infos, stats, c).messageCount
    {
      var i :| 0 <= i < |stats.keys| && stats.keys[i] == c;
      assert rows[i] == ContactRow(infos, stats, c);
      TopLeftOut(rows, MessageCount, 3, rows[i]);
    }
  }

  // ---- Frequent phrases ---------------------------------------------------

  datatype PhraseCount = PhraseCount(phrase: string, count: nat)

  function CountOf(p: PhraseCount): int {
    p.count
  }

  /** `.filter(([_, count]) => count >= 2)` over the listed phrases. */
  function Frequent(keys: seq<string>, c: Counter<string>): seq<PhraseCount>
    decreases |keys|
  {
    if keys == [] then []
    else
      var k := Last(keys);
      Frequent(Init(keys), c) + (if c.GetOr(k, 0) >= 2 then [PhraseCount(k, c.GetOr(k, 0))] else [])
  }

  lemma {:induction false} FrequentSpec(keys: seq<string>, c: Counter<string>)
    ensures forall p :: p in Frequent(keys, c) <==> p.phrase in keys && p.count == c.GetOr(p.phrase, 0) && p.count >= 2
    decreases |keys|
  {
    if keys != [] {
      FrequentSpec(Init(keys), c);
      assert keys == Init(keys) + [Last(keys)];
    }
  }

  /** `topPhrases`: the frequent phrases sorted by count, the first 32. */
  function TopPhrases(c: Counter<string>): seq<PhraseCount> {
    Take(SortDesc(Frequent(c.keys, c), CountOf), 32)
  }

  /** At most 32 phrases, each used at least twice with its own count, most
      used first; a frequent phrase left out is used no more often than
      any kept, and none is left out unless all 32 places are taken. */
  lemma TopPhrasesSpec(c: Counter<string>)
    ensures var r := TopPhrases(c);
            && |r| <= 32
            && SortedDesc(r, CountOf)
            && (forall p :: p in r ==> p.phrase in c.keys && p.count == c.GetOr(p.phrase, 0) && p.count >= 2)
            && (forall k :: k in c.keys && c.GetOr(k, 0) >= 2 && (forall p :: p in r ==> p.phrase != k) ==>
                  |r| == 32 && forall p :: p in r ==> p.count >= c.GetOr(k, 0))
  {
    var xs := Frequent(c.keys, c);
    var r := TopPhrases(c);
    FrequentSpec(c.keys, c);
    TopSpec(xs, CountOf, 32);
    forall k | k in c.keys && c.GetOr(k, 0) >= 2 && (forall p :: p in r ==> p.phrase != k)
      ensures |r| == 32 && forall p :: p in r ==> p.count >= c.GetOr(k, 0)
    {
      var x := PhraseCount(k, c.GetOr(k, 0));
      assert x in xs;
      TopLeftOut(xs, CountOf, 32, x);
    }
  }

  // ---- Month by month -----------------------------------------------------

  datatype MonthlyTopFriend = MonthlyTopFriend(month: Month, displayName: string, messageCount: nat)

  /** `monthlyStats.get(id).get(month) || 0` */
  function MonthCount(monthly: Dict<string, seq<nat>>, month: Month): string -> nat {
    id => var row := monthly.GetOr(id, []); if month - 1 < |row| then row[month - 1] else 0
  }

  /** The entry for `month`: the first contact with the most messages that
      month, named "暂无" when the month has none. */
  ghost predicate MonthTop(infos: map<string, string>, monthly: Dict<string, seq<nat>>, month: Month, f: MonthlyTopFriend) {
    && f.month == month
    && exists best :: FirstMaxOf(monthly.keys, MonthCount(monthly, month), "", best, f.messageCount) &&
                      f.displayName == DisplayName(infos, best, if best == "" then "暂无" else best)
  }

  /** `monthlyTopFriends`: one entry per month, January first. */
  method MonthlyTopFriends(infos: map<string, string>, monthly: Dict<string, seq<nat>>)
    returns (r: seq<MonthlyTopFriend>)
    ensures |r| == 12
    ensures forall i :: 0 <= i < 12 ==> MonthTop(infos, monthly, i + 1, r[i])
  {
    r := [];
    var month := 1;
    while month <= 12
      invariant 1 <= month <= 13 && |r| == month - 1
      invariant forall i :: 0 <= i < |r| ==> MonthTop(infos, monthly, i + 1, r[i])
    {
      var top, maxCount := FirstMax(monthly.keys, MonthCount(monthly, month), "");
      var name := DisplayName(infos, top, if top == "" then "暂无" else top);
      assert MonthTop(infos, monthly, month, MonthlyTopFriend(month, name, maxCount));
      r := r + [MonthlyTopFriend(month, name, maxCount)];
      month := month + 1;
    }
  }

  // ---- The peak day -------------------------------------------------------

  datatype PeakDay = PeakDay(date: int, messageCount: nat, topFriend: string, topFriendCount: nat)

  /** `dailyContactStats.get(day)` */
  function DayMap(dayContacts: Dict<int, Counter<string>>, day: int): Option<Counter<string>> {
    if day in dayContacts.entries then Some(dayContacts.entries[day]) else None
  }

  /** The busiest contact of a day: the first with the most messages, or
      nobody ("" and 0) when the day has no contact map or only zeros. */
  ghost predicate DayTop(infos: map<string, string>, dayMap: Option<Counter<string>>, topFriend: string, topFriendCount: nat) {
    match dayMap
    case None => topFriend == "" && topFriendCount == 0
    case Some(c) =>
      exists best :: FirstMaxOf(c.keys, Weight(c), "", best, topFriendCount) &&
                     topFriend == (if topFriendCount == 0 then "" else DisplayName(infos, best, best))
  }

  /** The inner scan over one day's contacts. */
  method DayTopFriend(infos: map<string, string>, dayMap: Option<Counter<string>>)
    returns (topFriend: string, topFriendCount: nat)
    ensures DayTop(infos, dayMap, topFriend, topFriendCount)
  {
    topFriend, topFriendCount := "", 0;
    if dayMap.Some? {
      var best;
      best, topFriendCount := FirstMax(dayMap.value.keys, Weight(dayMap.value), "");
      if topFriendCount > 0 {
        topFriend := DisplayName(infos, best, best);
      }
    }
  }

  /** `peakDay`: no day when every day count is zero; otherwise the first
      day with the most messages and that day's busiest contact. */
  ghost predicate IsPeakDay(infos: map<string, string>, daily: Counter<int>, dayContacts: Dict<int, Counter<string>>,
                      peak: Option<PeakDay>) {
    match peak
    case None => forall j :: 0 <= j < |daily.keys| ==> daily.GetOr(daily.keys[j], 0) == 0
    case Some(p) =>
      && p.messageCount > 0
      && FirstMaxOf(daily.keys, Weight(daily), 0, p.date, p.messageCount)
      && DayTop(infos, DayMap(dayContacts, p.date), p.topFriend, p.topFriendCount)
  }

  method PeakDayOf(infos: map<string, string>, daily: Counter<int>, dayContacts: Dict<int, Counter<string>>)
    returns (peak: Option<PeakDay>)
    ensures IsPeakDay(infos, daily, dayContacts, peak)
  {
    peak := None;
    var maxDayCount: nat := 0;
    ghost var at := 0;
    var days := daily.keys;
    var i := 0;
    while i < |days|
      invariant 0 <= i <= |days|
      invariant forall j :: 0 <= j < i ==> daily.GetOr(days[j], 0) <= maxDayCount
      invariant maxDayCount == 0 <==> peak.None?
      invariant peak.Some? ==>
                  && 0 <= at < i && days[at] == peak.value.date
                  && peak.value.messageCount == maxDayCount == daily.GetOr(days[at], 0)
                  && (forall j :: 0 <= j < at ==> daily.GetOr(days[j], 0) < maxDayCount)
                  && DayTop(infos, DayMap(dayContacts, peak.value.date), peak.value.topFriend, peak.value.topFriendCount)
    {
      var day := days[i];
      var count := daily.GetOr(day, 0);
      if count > maxDayCount {
        maxDayCount := count;
        var topFriend, topFriendCount := DayTopFriend(infos, DayMap(dayContacts, day));
        peak := Some(PeakDay(day, count, topFriend, topFriendCount));
        at := i;
      }
      i := i + 1;
    }
  }

  // ---- The small-hours contact ----------------------------------------------

  datatype MidnightKing = MidnightKing(displayName: string, count: nat, percentage: real)

  /** `midnightKing`: none when no message fell between midnight and six;
      otherwise the first contact with the most such messages and its share
      of them in percent. */
  ghost predicate IsMidnightKing(infos: map<string, string>, midnight: Counter<string>, r: Option<MidnightKing>) {
    var total := SumOver(midnight.keys, Weight(midnight));
    match r
    case None => total == 0
    case Some(k) =>
      && total > 0
      && (exists best :: FirstMaxOf(midnight.keys, Weight(midnight), "", best, k.count) &&
                         k.displayName == DisplayName(infos, best, best))
      && k.percentage == (k.count as real) * 100.0 / (total as real)
  }

  method MidnightKingOf(infos: map<string, string>, midnight: Counter<string>) returns (r: Option<MidnightKing>)
    ensures IsMidnightKing(infos, midnight, r)
  {
    var total := SumOver(midnight.keys, Weight(midnight));
    r := None;
    if total > 0 {
      var best, maxMidnight := FirstMax(midnight.keys, Weight(midnight), "");
      r := Some(MidnightKing(DisplayName(infos, best, best), maxMidnight,
                             (maxMidnight as real) * 100.0 / (total as real)));
    }
  }

  /** The small-hours contact has at least one such message and holds a
      share in (0, 100]. */
  lemma MidnightShare(infos: map<string, string>, midnight: Counter<string>, k: MidnightKing)
    requires IsMidnightKing(infos, midnight, Some(k))
    ensures 0 < k.count <= SumOver(midnight.keys, Weight(midnight))
    ensures 0.0 < k.percentage <= 100.0
  {
    var w := Weight(midnight);
    var total := SumOver(midnight.keys, w);
    var best :| FirstMaxOf(midnight.keys, w, "", best, k.count) && k.displayName == DisplayName(infos, best, best);
    SumOverPositive(midnight.keys, w);
    assert k.count > 0;
    var i :| 0 <= i < |midnight.keys| && midnight.keys[i] == best && w(midnight.keys[i]) == k.count &&
             forall j :: 0 <= j < i ==> w(midnight.keys[j]) < k.count;
    SumOverBound(midnight.keys, w, i);
    PercentBounds(k.count, total);
  }

  /** A part of a positive whole, in percent. */
  lemma PercentBounds(part: nat, whole: nat)
    requires 0 < part <= whole
    ensures 0.0 < (part as real) * 100.0 / (whole as real) <= 100.0
  {
    var p, q := part as real, whole as real;
    assert p * 100.0 <= q * 100.0;
    assert p * 100.0 / q <= q * 100.0 / q;
  }

  // ---- The longest streak -----------------------------------------------------

  datatype Streak = Streak(friendName: string, days: nat, startDate: int, endDate: int)

  function DaysOf(active: Dict<string, set<int>>, id: string): set<int> {
    active.GetOr(id, {})
  }

  /** The longest streak over contacts with at least two active days. */
  ghost predicate IsLongestStreak(infos: map<string, string>, active: Dict<string, set<int>>, r: Option<Streak>) {
    var ks := active.keys;
    && ((forall i :: 0 <= i < |ks| ==> ks[i] != "") ==>
          (r.None? <==> forall i :: 0 <= i < |ks| ==> |DaysOf(active, ks[i])| < 2))
    && (r.Some? ==>
          exists i :: 0 <= i < |ks| && ks[i] != "" && |DaysOf(active, ks[i])| >= 2
            && r.value.friendName == DisplayName(infos, ks[i], ks[i])
            && LongestRunOf(DaysOf(active, ks[i]), r.value.days, r.value.startDate, r.value.endDate)
            && (forall j :: 0 <= j < |ks| && |DaysOf(active, ks[j])| >= 2 ==>
                  forall a, l :: RunIn(DaysOf(active, ks[j]), a, l) ==> l <= r.value.days)
            && (forall j :: 0 <= j < i && |DaysOf(active, ks[j])| >= 2 ==>
                  forall a :: !RunIn(DaysOf(active, ks[j]), a, r.value.days)))
  }

  /** `longestStreak`: the scan over `sessionActiveDays`. */
  method LongestStreakOf(infos: map<string, string>, active: Dict<string, set<int>>) returns (r: Option<Streak>)
    ensures IsLongestStreak(infos, active, r)
  {
    var ks := active.keys;
    var bestStreakDays: nat := 0;
    var bestStreakSessionId := "";
    var bestStreakStart, bestStreakEnd := 0, 0;
    ghost var at := 0;
    var i := 0;
    while i < |ks|
      invariant 0 <= i <= |ks|
      invariant bestStreakDays == 0 <==> forall j :: 0 <= j < i ==> |DaysOf(active, ks[j])| < 2
      invariant bestStreakDays == 0 ==> bestStreakSessionId == ""
      invariant bestStreakDays > 0 ==>
                  && 0 <= at < i && ks[at] == bestStreakSessionId && |DaysOf(active, ks[at])| >= 2
                  && LongestRunOf(DaysOf(active, ks[at]), bestStreakDays, bestStreakStart, bestStreakEnd)
                  && (forall j :: 0 <= j < i && |DaysOf(active, ks[j])| >= 2 ==>
                        forall a, l :: RunIn(DaysOf(active, ks[j]), a, l) ==> l <= bestStreakDays)
                  && (forall j :: 0 <= j < at && |DaysOf(active, ks[j])| >= 2 ==>
                        forall a :: !RunIn(DaysOf(active, ks[j]), a, bestStreakDays))
    {
      var sessionId := ks[i];
      var activeDaysSet := DaysOf(active, sessionId);
      if |activeDaysSet| >= 2 {
        var sortedDates := SortDays(activeDaysSet);
        var maxStreak, maxStart, maxEnd := LongestRun(sortedDates, activeDaysSet);
        if maxStreak > bestStreakDays {
          bestStreakDays := maxStreak;
          bestStreakSessionId := sessionId;
          bestStreakStart, bestStreakEnd := maxStart, maxEnd;
          at := i;
        }
      }
      i := i + 1;
    }
    if bestStreakSessionId != "" && bestStreakDays > 0 {
      r := Some(Streak(DisplayName(infos, bestStreakSessionId, bestStreakSessionId),
                       bestStreakDays, bestStreakStart, bestStreakEnd));
    } else {
      r := None;
    }
  }

  // ---- The most balanced contact ----------------------------------------------

  datatype MutualFriend = MutualFriend(displayName: string, sentCount: nat, receivedCount: nat, ratio: real)

  function StatsFor(stats: Dict<string, Counts>, id: string): Counts {
    stats.GetOr(id, Counts(0, 0))
  }

  /** At least 50 messages each way. */
  predicate Eligible(st: Counts) {
    st.sent >= 50 && st.received >= 50
  }

  function Abs(x: real): real {
    if x < 0.0 then -x else x
  }

  /** How far sent/received is from one to one. */
  function RatioDiff(st: Counts): real
    requires st.received > 0
  {
    Abs(st.sent as real / st.received as real - 1.0)
  }

  function MutualRow(infos: map<string, string>, id: string, st: Counts): MutualFriend
    requires st.received > 0
  {
    MutualFriend(DisplayName(infos, id, id), st.sent, st.received, st.sent as real / st.received as real)
  }

  /** `mutualFriend`: none without an eligible contact; otherwise the first
      eligible contact whose ratio is closest to one. */
  ghost predicate IsMutualFriend(infos: map<string, string>, stats: Dict<string, Counts>, r: Option<MutualFriend>) {
    var ks := stats.keys;
    match r
    case None => forall j :: 0 <= j < |ks| ==> !Eligible(StatsFor(stats, ks[j]))
    case Some(f) =>
      exists i :: 0 <= i < |ks| && Eligible(StatsFor(stats, ks[i]))
        && f == MutualRow(infos, ks[i], StatsFor(stats, ks[i]))
        && (forall j :: 0 <= j < |ks| && Eligible(StatsFor(stats, ks[j])) ==>
              RatioDiff(StatsFor(stats, ks[i])) <= RatioDiff(StatsFor(stats, ks[j])))
        && (forall j :: 0 <= j < i && Eligible(StatsFor(stats, ks[j])) ==>
              RatioDiff(StatsFor(stats, ks[i])) < RatioDiff(StatsFor(stats, ks[j])))
  }

  method MutualFriendOf(infos: map<string, string>, stats: Dict<string, Counts>) returns (r: Option<MutualFriend>)
    ensures IsMutualFriend(infos, stats, r)
  {
    var ks := stats.keys;
    r := None;
    var bestRatioDiff: real := 0.0;
    ghost var at := 0;
    var i := 0;
    while i < |ks|
      invariant 0 <= i <= |ks|
      invariant r.None? <==> forall j :: 0 <= j < i ==> !Eligible(StatsFor(stats, ks[j]))
      invariant r.Some? ==>
                  && 0 <= at < i && Eligible(StatsFor(stats, ks[at]))
                  && r.value == MutualRow(infos, ks[at], StatsFor(stats, ks[at]))
                  && bestRatioDiff == RatioDiff(StatsFor(stats, ks[at]))
                  && (forall j :: 0 <= j < i && Eligible(StatsFor(stats, ks[j])) ==>
                        bestRatioDiff <= RatioDiff(StatsFor(stats, ks[j])))
                  && (forall j :: 0 <= j < at && Eligible(StatsFor(stats, ks[j])) ==>
                        bestRatioDiff < RatioDiff(StatsFor(stats, ks[j])))
    {
      var sessionId := ks[i];
      var st := StatsFor(stats, sessionId);
      if st.sent >= 50 && st.received >= 50 {
        var ratio := st.sent as real / st.received as real;
        var ratioDiff := Abs(ratio - 1.0);
        if r.None? || ratioDiff < bestRatioDiff {
          bestRatioDiff := ratioDiff;
          r := Some(MutualFriend(DisplayName(infos, sessionId, sessionId), st.sent, st.received, ratio));
          at := i;
        }
      }
      i := i + 1;
    }
  }

  // ---- Who opens the conversations --------------------------------------------

  datatype SocialInitiative = SocialInitiative(initiatedChats: nat, receivedChats: nat, initiativeRate: real)

  function Initiated(starts: Dict<string, Starts>): string -> nat {
    id => starts.GetOr(id, Starts(0, 0)).initiated
  }

  function Opened(starts: Dict<string, Starts>): string -> nat {
    id => starts.GetOr(id, Starts(0, 0)).received
  }

  /** `socialInitiative`: the conversations the owner opened and those the
      contacts opened, summed over all contacts, and the owner's share in
      percent; none when there were no conversations. */
  ghost predicate IsSocialInitiative(starts: Dict<string, Starts>, r: Option<SocialInitiative>) {
    var ini := SumOver(starts.keys, Initiated(starts));
    var rec := SumOver(starts.keys, Opened(starts));
    match r
    case None => ini + rec == 0
    case Some(x) =>
      && ini + rec > 0 && x.initiatedChats == ini && x.receivedChats == rec
      && x.initiativeRate == (ini as real) * 100.0 / ((ini + rec) as real)
  }

  method SocialInitiativeOf(starts: Dict<string, Starts>) returns (r: Option<SocialInitiative>)
    ensures IsSocialInitiative(starts, r)
  {
    var ks := starts.keys;
    var totalInitiated: nat, totalReceived: nat := 0, 0;
    var i := 0;
    while i < |ks|
      invariant 0 <= i <= |ks|
      invariant totalInitiated == SumOver(ks[..i], Initiated(starts))
      invariant totalReceived == SumOver(ks[..i], Opened(starts))
    {
      var st := starts.GetOr(ks[i], Starts(0, 0));
      SumOverSnoc(ks[..i], ks[i], Initiated(starts));
      SumOverSnoc(ks[..i], ks[i], Opened(starts));
      assert ks[..i + 1] == ks[..i] + [ks[i]];
      totalInitiated := totalInitiated + st.initiated;
      totalReceived := totalReceived + st.received;
      i := i + 1;
    }
    assert ks[..i] == ks;
    var totalConversations := totalInitiated + totalReceived;
    if totalConversations > 0 {
      r := Some(SocialInitiative(totalInitiated, totalReceived,
                                 (totalInitiated as real) * 100.0 / (totalConversations as real)));
    } else {
      r := None;
    }
  }

  /** The owner's share is a percentage. */
  lemma InitiativeRateBounds(starts: Dict<string, Starts>, x: SocialInitiative)
    requires IsSocialInitiative(starts, Some(x))
    ensures 0.0 <= x.initiativeRate <= 100.0
    ensures x.initiativeRate == 100.0 <==> x.receivedChats == 0
  {
    Percentage(x.initiatedChats as real, (x.initiatedChats + x.receivedChats) as real);
  }

  /** `p * 100 / q` for `0 <= p <= q` lies in `[0, 100]`, and is 100 only
      when `p == q`. */
  lemma Percentage(p: real, q: real)
    requires q > 0.0 && 0.0 <= p <= q
    ensures 0.0 <= p * 100.0 / q <= 100.0
    ensures p * 100.0 / q == 100.0 <==> p == q
  {
    var r := p * 100.0 / q;
    assert r * q == p * 100.0;
  }

  // ---- Reply speed --------------------------------------------------------------

  datatype ResponseSpeed = ResponseSpeed(avgResponseTime: real, fastestFriend: string, fastestTime: real)

  /** `times.reduce((a, b) => a + b, 0)` */
  function Total(xs: seq<int>): int
    decreases |xs|
  {
    if xs == [] then 0 else Total(Init(xs)) + Last(xs)
  }

  /** The mean of a non-empty list of response times, unrounded. */
  function Mean(xs: seq<int>): real
    requires xs != []
  {
    Total(xs) as real / |xs| as real
  }

  function TimesFor(rt: Dict<string, seq<int>>, id: string): seq<int> {
    rt.GetOr(id, [])
  }

  /** A contact with at least ten recorded replies takes part. */
  predicate Regular(xs: seq<int>) {
    |xs| >= 10
  }

  /** `allResponseTimes`: the samples of the contacts of `ks` that take
      part, contact after contact. */
  function Pooled(rt: Dict<string, seq<int>>, ks: seq<string>): seq<int>
    decreases |ks|
  {
    if ks == [] then []
    else Pooled(rt, Init(ks)) + (if Regular(TimesFor(rt, Last(ks))) then TimesFor(rt, Last(ks)) else [])
  }

  /** Among the first `n` contacts of `ks`, `at` is the first of those
      taking part whose mean is the smallest. */
  ghost predicate FastestAmong(rt: Dict<string, seq<int>>, ks: seq<string>, n: nat, at: int) {
    && 0 <= at < n <= |ks| && Regular(TimesFor(rt, ks[at]))
    && (forall j :: 0 <= j < n && Regular(TimesFor(rt, ks[j])) ==>
          Mean(TimesFor(rt, ks[at])) <= Mean(TimesFor(rt, ks[j])))
    && (forall j :: 0 <= j < at && Regular(TimesFor(rt, ks[j])) ==>
          Mean(TimesFor(rt, ks[at])) < Mean(TimesFor(rt, ks[j])))
  }

  /** `responseSpeed`: none when no contact has ten replies; otherwise the
      mean over all their samples, and the first of them whose own mean is
      the smallest. */
  ghost predicate IsResponseSpeed(infos: map<string, string>, rt: Dict<string, seq<int>>, r: Option<ResponseSpeed>) {
    var ks := rt.keys;
    match r
    case None => forall j :: 0 <= j < |ks| ==> !Regular(TimesFor(rt, ks[j]))
    case Some(x) =>
      && Pooled(rt, ks) != []
      && x.avgResponseTime == Mean(Pooled(rt, ks))
      && exists i :: FastestAmong(rt, ks, |ks|, i)
           && x.fastestFriend == DisplayName(infos, ks[i], ks[i])
           && x.fastestTime == Mean(TimesFor(rt, ks[i]))
  }

  lemma FastestKeep(rt: Dict<string, seq<int>>, ks: seq<string>, i: nat, at: int)
    requires FastestAmong(rt, ks, i, at) && i < |ks|
    requires Regular(TimesFor(rt, ks[i])) ==> Mean(TimesFor(rt, ks[at])) <= Mean(TimesFor(rt, ks[i]))
    ensures FastestAmong(rt, ks, i + 1, at)
  {
  }

  lemma FastestTake(rt: Dict<string, seq<int>>, ks: seq<string>, i: nat, found: bool, at: int)
    requires i < |ks| && Regular(TimesFor(rt, ks[i]))
    requires found ==> FastestAmong(rt, ks, i, at) && Mean(TimesFor(rt, ks[i])) < Mean(TimesFor(rt, ks[at]))
    requires !found ==> forall j :: 0 <= j < i ==> !Regular(TimesFor(rt, ks[j]))
    ensures FastestAmong(rt, ks, i + 1, i)
  {
  }

  method ResponseSpeedOf(infos: map<string, string>, rt: Dict<string, seq<int>>) returns (r: Option<ResponseSpeed>)
    ensures IsResponseSpeed(infos, rt, r)
  {
    var ks := rt.keys;
    var allResponseTimes: seq<int> := [];
    var fastestFriendId := "";
    var fastestAvgTime: real := 0.0;
    var found := false;
    ghost var at := 0;
    var i := 0;
    while i < |ks|
      invariant 0 <= i <= |ks|
      invariant allResponseTimes == Pooled(rt, ks[..i])
      invariant !found ==> allResponseTimes == []
      invariant !found <==> forall j :: 0 <= j < i ==> !Regular(TimesFor(rt, ks[j]))
      invariant found ==>
                  && allResponseTimes != [] && FastestAmong(rt, ks, i, at)
                  && fastestFriendId == ks[at] && fastestAvgTime == Mean(TimesFor(rt, ks[at]))
    {
      var sessionId := ks[i];
      var times := TimesFor(rt, sessionId);
      PooledSnoc(rt, ks, i);
      if |times| >= 10 {
        allResponseTimes := allResponseTimes + times;
        var avgTime := Mean(times);
        if !found || avgTime < fastestAvgTime {
          FastestTake(rt, ks, i, found, at);
          fastestAvgTime := avgTime;
          fastestFriendId := sessionId;
          found := true;
          at := i;
        } else {
          FastestKeep(rt, ks, i, at);
        }
      } else if found {
        FastestKeep(rt, ks, i, at);
      }
      i := i + 1;
    }
    assert ks[..i] == ks;
    if |allResponseTimes| > 0 {
      r := Some(ResponseSpeed(Mean(allResponseTimes), DisplayName(infos, fastestFriendId, fastestFriendId),
                              fastestAvgTime));
    } else {
      r := None;
    }
  }

  lemma PooledSnoc(rt: Dict<string, seq<int>>, ks: seq<string>, i: nat)
    requires i < |ks|
    ensures Pooled(rt, ks[..i + 1]) ==
            Pooled(rt, ks[..i]) + (if Regular(TimesFor(rt, ks[i])) then TimesFor(rt, ks[i]) else [])
  {
    assert ks[..i + 1] == ks[..i] + [ks[i]];
    InitOfSnoc(ks[..i], ks[i]);
  }

  lemma {:induction false} TotalAppend(a: seq<int>, b: seq<int>)
    ensures Total(a + b) == Total(a) + Total(b)
    decreases |b|
  {
    if b != [] {
      InitOfSnoc(Init(b), Last(b));
      assert a + b == (a + Init(b)) + [Last(b)];
      InitOfSnoc(a + Init(b), Last(b));
      TotalAppend(a, Init(b));
    } else {
      assert a + b == a;
    }
  }

  /** A bound `m` below a list's mean is below the mean of its total. */
  lemma BelowMean(xs: seq<int>, m: real)
    requires xs != [] && m <= Mean(xs)
    ensures m * (|xs| as real) <= Total(xs) as real
  {
    var n := |xs| as real;
    assert Mean(xs) * n == Total(xs) as real;
    assert m * n <= Mean(xs) * n;
  }

  /** A bound below the mean of every contact that takes part is below
      the mean of their pooled samples. */
  lemma {:induction false} PooledAbove(rt: Dict<string, seq<int>>, ks: seq<string>, m: real)
    requires forall j :: 0 <= j < |ks| && Regular(TimesFor(rt, ks[j])) ==> m <= Mean(TimesFor(rt, ks[j]))
    ensures m * (|Pooled(rt, ks)| as real) <= Total(Pooled(rt, ks)) as real
    decreases |ks|
  {
    if ks != [] {
      var p, k := Init(ks), Last(ks);
      var t, q := TimesFor(rt, k), Pooled(rt, p);
      assert Pooled(rt, ks) == q + (if Regular(t) then t else []);
      assert forall j :: 0 <= j < |p| ==> p[j] == ks[j];
      PooledAbove(rt, p, m);
      if Regular(t) {
        assert k == ks[|ks| - 1];
        BelowMean(t, m);
        AboveAppend(q, t, m);
      } else {
        assert q + [] == q;
      }
    }
  }

  lemma AboveAppend(a: seq<int>, b: seq<int>, m: real)
    requires m * (|a| as real) <= Total(a) as real && m * (|b| as real) <= Total(b) as real
    ensures m * (|a + b| as real) <= Total(a + b) as real
  {
    TotalAppend(a, b);
    var x, y := |a| as real, |b| as real;
    assert |a + b| as real == x + y;
    assert m * (x + y) == m * x + m * y;
  }

  /** The fastest contact's mean never exceeds the overall mean. */
  lemma FastestWithinAverage(infos: map<string, string>, rt: Dict<string, seq<int>>, x: ResponseSpeed)
    requires IsResponseSpeed(infos, rt, Some(x))
    ensures x.fastestTime <= x.avgResponseTime
  {
    var ks := rt.keys;
    var i :| FastestAmong(rt, ks, |ks|, i) && x.fastestTime == Mean(TimesFor(rt, ks[i]));
    PooledAbove(rt, ks, x.fastestTime);
    var all := Pooled(rt, ks);
    QuotientAbove(x.fastestTime, Total(all) as real, |all| as real);
  }

  lemma QuotientAbove(m: real, t: real, n: real)
    requires n > 0.0 && m * n <= t
    ensures m <= t / n
  {
    var q := t / n;
    assert q * n == t;
  }

  lemma {:induction false} TotalRange(xs: seq<int>)
    requires forall v :: v in xs ==> 0 < v < MaxResponseTime
    ensures xs != [] ==> 0 < Total(xs) < |xs| * MaxResponseTime
    decreases |xs|
  {
    if xs != [] {
      var p := Init(xs);
      assert forall v :: v in p ==> v in xs;
      TotalRange(p);
      assert Last(xs) in xs;
    }
  }

  /** The mean of samples between 0 and 24 hours lies there too. */
  lemma MeanInRange(xs: seq<int>)
    requires xs != [] && forall v :: v in xs ==> 0 < v < MaxResponseTime
    ensures 0.0 < Mean(xs) < MaxResponseTime as real
  {
    TotalRange(xs);
    var n, a := |xs| as real, Mean(xs);
    assert a * n == Total(xs) as real;
    assert Total(xs) as real < n * (MaxResponseTime as real);
  }

  lemma {:induction false} PooledInRange(rt: Dict<string, seq<int>>, ks: seq<string>)
    requires forall c, v :: v in TimesFor(rt, c) ==> 0 < v < MaxResponseTime
    ensures forall v :: v in Pooled(rt, ks) ==> 0 < v < MaxResponseTime
    decreases |ks|
  {
    if ks != [] {
      PooledInRange(rt, Init(ks));
    }
  }

  /** With every sample between 0 and 24 hours, both reported speeds lie
      there too, the fastest contact's no slower than the average. */
  lemma ResponseSpeedInRange(infos: map<string, string>, rt: Dict<string, seq<int>>, x: ResponseSpeed)
    requires IsResponseSpeed(infos, rt, Some(x))
    requires forall c, v :: v in TimesFor(rt, c) ==> 0 < v < MaxResponseTime
    ensures 0.0 < x.fastestTime <= x.avgResponseTime < MaxResponseTime as real
  {
    var ks := rt.keys;
    var i :| FastestAmong(rt, ks, |ks|, i) && x.fastestTime == Mean(TimesFor(rt, ks[i]));
    MeanInRange(TimesFor(rt, ks[i]));
    PooledInRange(rt, ks);
    MeanInRange(Pooled(rt, ks));
    FastestWithinAverage(infos, rt, x);
  }
}
