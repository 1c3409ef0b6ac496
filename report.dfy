/**
 * `generateReport(year)`: locate the account's databases, select the
 * private chats, run the aggregation loop over every message shard and
 * assemble the annual report, or stop with the first error.
 */
module AnnualReport {
  import opened Wrappers
  import opened Tallies
  import opened ReportInput
  import opened MessageStream
  import opened AccountDirectory
  import opened Aggregation
  import opened Ranking
  import opened ReportAssembly
  import opened StreamFacts

  datatype Report = Report(
    year: int,
    totalMessages: nat,
    totalFriends: nat,
    coreFriends: seq<TopContact>,
    monthlyTopFriends: seq<MonthlyTopFriend>,
    peakDay: Option<PeakDay>,
    longestStreak: Option<Streak>,
    activityHeatmap: seq<seq<nat>>,
    midnightKing: Option<MidnightKing>,
    mutualFriend: Option<MutualFriend>,
    socialInitiative: Option<SocialInitiative>,
    responseSpeed: Option<ResponseSpeed>,
    topPhrases: seq<PhraseCount>)

  /** The report that accumulators `acc` and heatmap rows `heat` give. */
  ghost predicate AssembledFrom(year: int, acc: Accumulators, heat: seq<seq<nat>>, infos: map<string, string>, r: Report) {
    && r.year == year
    && r.totalMessages == acc.totalMessages
    && r.totalFriends == |acc.contactStats.keys|
    && r.coreFriends == CoreFriends(infos, acc.contactStats)
    && |r.monthlyTopFriends| == 12
    && (forall i :: 0 <= i < 12 ==> MonthTop(infos, acc.monthlyStats, i + 1, r.monthlyTopFriends[i]))
    && IsPeakDay(infos, acc.dailyStats, acc.dailyContactStats, r.peakDay)
    && IsLongestStreak(infos, acc.sessionActiveDays, r.longestStreak)
    && r.activityHeatmap == heat
    && IsMidnightKing(infos, acc.midnightStats, r.midnightKing)
    && IsMutualFriend(infos, acc.contactStats, r.mutualFriend)
    && IsSocialInitiative(acc.conversationStarts, r.socialInitiative)
    && IsResponseSpeed(infos, acc.responseTimeStats, r.responseSpeed)
    && r.topPhrases == TopPhrases(acc.phraseCount)
  }

  /** `{ data: heatmapData }`: the 7 x 24 grid as rows. */
  function Rows(heat: array2<nat>): (rows: seq<seq<nat>>)
    requires heat.Length0 == 7 && heat.Length1 == 24
    reads heat
    ensures |rows| == 7 && forall r :: 0 <= r < 7 ==> |rows[r]| == 24
    ensures forall r, h :: 0 <= r < 7 && 0 <= h < 24 ==> rows[r][h] == heat[r, h]
  {
    seq(7, r requires 0 <= r < 7 reads heat => seq(24, h requires 0 <= h < 24 reads heat => heat[r, h]))
  }

  /** The final part of `generateReport`, from the accumulators on. */
  method Assemble(year: int, acc: Accumulators, heat: array2<nat>, infos: map<string, string>) returns (r: Report)
    requires heat.Length0 == 7 && heat.Length1 == 24
    ensures AssembledFrom(year, acc, Rows(heat), infos, r)
  {
    var monthlyTopFriends := MonthlyTopFriends(infos, acc.monthlyStats);
    var peakDay := PeakDayOf(infos, acc.dailyStats, acc.dailyContactStats);
    var midnightKing := MidnightKingOf(infos, acc.midnightStats);
    var longestStreak := LongestStreakOf(infos, acc.sessionActiveDays);
    var mutualFriend := MutualFriendOf(infos, acc.contactStats);
    var socialInitiative := SocialInitiativeOf(acc.conversationStarts);
    var responseSpeed := ResponseSpeedOf(infos, acc.responseTimeStats);
    r := Report(year, acc.totalMessages, |acc.contactStats.keys|, CoreFriends(infos, acc.contactStats),
                monthlyTopFriends, peakDay, longestStreak, Rows(heat), midnightKing, mutualFriend,
                socialInitiative, responseSpeed, TopPhrases(acc.phraseCount));
  }

  // ---- From the databases to the message stream ------------------------------

  /** `hashToUsername` over the private-chat sessions. */
  function IndexOf(sessions: seq<string>, wxid: string, hash: string -> string): map<string, string> {
    HashIndex(PrivateUsernames(sessions, wxid), hash)
  }

  /** The shards, opened in file order. */
  function ShardsOf(dbFiles: seq<string>, openShard: string -> Shard): (r: seq<Shard>)
    ensures |r| == |dbFiles| && forall i :: 0 <= i < |r| ==> r[i] == openShard(dbFiles[i])
  {
    seq(|dbFiles|, i requires 0 <= i < |dbFiles| => openShard(dbFiles[i]))
  }

  /** The heatmap cells the stream `es` fills. */
  ghost function HeatCounts(es: seq<Event>): seq<seq<nat>> {
    seq(7, r => seq(24, h => Count(es, CellKey, Cell(r, h))))
  }

  /** The report of the message stream `es`. */
  ghost predicate ReportOf(year: int, es: seq<Event>, infos: map<string, string>, isPunct: char -> bool, r: Report) {
    AssembledFrom(year, Summary(es, isPunct), HeatCounts(es), infos, r)
  }

  datatype Outcome =
    | Success(report: Report)
    | NoWxid                       // 未配置微信ID
    | NoAccountDir(wxid: string)   // 未找到账号 … 的数据库目录
    | NoMessageDb                  // 未找到消息数据库
    | NoSessionDb                  // 未找到 session.db

  /** What `generateReport` returns once the account directory is known. */
  ghost predicate OutcomeOf(year: int, wxid: string, dir: Option<string>, dirFiles: string -> seq<string>,
                            sessionDbAt: string -> bool,
                            sessions: seq<string>, openShard: string -> Shard, hash: string -> string,
                            infos: map<string, string>, isPunct: char -> bool, r: Outcome) {
    // `!accountDir` also rejects the empty name that a blank id resolves to
    if dir.None? || dir.value == "" then r == NoAccountDir(wxid)
    else
      var d := dir.value;
      var files := dirFiles(d);
      var dbFiles := FindMessageDbFiles(files);
      if dbFiles == [] then r == NoMessageDb
      else if !sessionDbAt(d) then r == NoSessionDb
      else r.Success? &&
           ReportOf(year, Events(IndexOf(sessions, wxid, hash), ShardsOf(dbFiles, openShard)), infos, isPunct, r.report)
  }

  /**
   * `generateReport(year)`.  `myWxid` is the configured id, `listing` the
   * entries of the decrypted-database directory (`baseExists` says whether
   * it exists, `existsAt` whether a path joined onto it exists), `dirFiles` lists a directory (empty when it cannot be
   * read), `sessionDbAt(d)` is `fs.existsSync` of `session.db` joined
   * onto account directory `d`, `sessions` are the `SessionTable` usernames in table order,
   * `openShard` opens a message shard and runs the yearly queries on it,
   * `hash` is the table-name hash of a username and `infos` the display
   * names from the contact database.
   */
  method GenerateReport(year: int, myWxid: Option<string>, baseExists: bool, existsAt: string -> bool,
                        listing: seq<Entry>,
                        dirFiles: string -> seq<string>, sessionDbAt: string -> bool, sessions: seq<string>,
                        openShard: string -> Shard, hash: string -> string, infos: map<string, string>, isPunct: char -> bool)
    returns (r: Outcome)
    ensures r == NoWxid <==> myWxid.None? || myWxid.value == ""
    ensures myWxid.Some? && myWxid.value != "" ==>
              forall dir :: AccountDirOf(baseExists, existsAt, listing, myWxid.value, dir) ==>
                OutcomeOf(year, myWxid.value, dir, dirFiles, sessionDbAt, sessions, openShard, hash, infos, isPunct, r)
  {
    if myWxid.None? || myWxid.value == "" {
      return NoWxid;
    }
    var wxid := myWxid.value;
    var accountDir := FindAccountDir(baseExists, existsAt, listing, wxid);
    forall dir | AccountDirOf(baseExists, existsAt, listing, wxid, dir)
      ensures dir == accountDir
    {
      AccountDirUnique(baseExists, existsAt, listing, wxid, dir, accountDir);
    }
    if accountDir.None? || accountDir.value == "" {
      return NoAccountDir(wxid);
    }
    var files := dirFiles(accountDir.value);
    var dbFiles := FindMessageDbFiles(files);
    if dbFiles == [] {
      return NoMessageDb;
    }
    if !sessionDbAt(accountDir.value) {
      return NoSessionDb;
    }
    var report := ReportFromShards(year, wxid, dbFiles, sessions, openShard, hash, infos, isPunct);
    return Success(report);
  }

  /** A blank configured id passes the `!wxid` test but cleans to the empty
      name, whose joined path is the base directory itself: the directory
      search returns `""` and the report stops at the missing account
      directory. */
  lemma BlankIdHasNoAccountDir(year: int, existsAt: string -> bool, listing: seq<Entry>,
                               dirFiles: string -> seq<string>, sessionDbAt: string -> bool, sessions: seq<string>,
                               openShard: string -> Shard, hash: string -> string, infos: map<string, string>,
                               isPunct: char -> bool, r: Outcome)
    requires !existsAt(" ")
    ensures AccountDirOf(true, existsAt, listing, " ", Some(""))
    ensures OutcomeOf(year, " ", Some(""), dirFiles, sessionDbAt, sessions, openShard, hash, infos, isPunct, r) <==>
            r == NoAccountDir(" ")
  {
    Text.TrimSpec(" ");
    assert CleanAccountDirName(" ") == "";
  }

  /** Selecting the private chats, the aggregation loop over the shards and
      the assembly. */
  method ReportFromShards(year: int, wxid: string, dbFiles: seq<string>, sessions: seq<string>,
                          openShard: string -> Shard, hash: string -> string, infos: map<string, string>,
                          isPunct: char -> bool)
    returns (report: Report)
    ensures ReportOf(year, Events(IndexOf(sessions, wxid, hash), ShardsOf(dbFiles, openShard)), infos, isPunct, report)
  {
    var index := IndexOf(sessions, wxid, hash);
    var shards := ShardsOf(dbFiles, openShard);
    var acc, heat := Aggregate(index, shards, isPunct);
    report := Assemble(year, acc, heat, infos);
    RowsAreCounts(heat, Events(index, shards));
  }

  lemma RowsAreCounts(heat: array2<nat>, es: seq<Event>)
    requires HeatOf(heat, es)
    ensures Rows(heat) == HeatCounts(es)
  {
    var a, b := Rows(heat), HeatCounts(es);
    forall r | 0 <= r < 7
      ensures a[r] == b[r]
    {
    }
  }

  // ---- What the report says about the messages -----------------------------

  /** A heatmap cell read from the report's rows. */
  function HeatCell(rows: seq<seq<nat>>): Cell -> nat {
    (cell: Cell) => if 0 <= cell.row < |rows| && 0 <= cell.hour < |rows[cell.row]| then rows[cell.row][cell.hour] else 0
  }

  /** The heatmap of a message stream holds every message exactly once. */
  lemma HeatmapOfStream(es: seq<Event>)
    ensures SumOver(Grid(), HeatCell(HeatCounts(es))) == |es|
  {
    var f := HeatCell(HeatCounts(es));
    forall i | 0 <= i < |Grid()|
      ensures f(Grid()[i]) == Count(es, CellKey, Grid()[i])
    {
    }
    SumOverSame(Grid(), f, cell => Count(es, CellKey, cell));
    HeatmapConserves(es);
  }

  /** The top contacts of a stream are the contacts with the most messages,
      each with its own message counts. */
  lemma CoreFriendsOfStream(es: seq<Event>, infos: map<string, string>)
    ensures var top := CoreFriends(infos, StatsOf(es));
            && |top| == (if |Contacts(es)| < 3 then |Contacts(es)| else 3)
            && (forall t :: t in top ==>
                  && t.username in Contacts(es)
                  && t.sentCount == Count(es, SentKey, t.username)
                  && t.receivedCount == Count(es, ReceivedKey, t.username)
                  && t.messageCount == Count(es, ContactKey, t.username))
            && (forall c :: c in Contacts(es) && (forall t :: t in top ==> t.username != c) ==>
                  forall t :: t in top ==> t.messageCount >= Count(es, ContactKey, c))
  {
    var stats := StatsOf(es);
    CoreFriendsSpec(infos, stats);
    forall c | c in Contacts(es)
      ensures ContactRow(infos, stats, c).messageCount == Count(es, ContactKey, c)
    {
      SentPlusReceived(es, c);
    }
  }

  /** The peak day of a stream is a day with the most messages, and there
      is one exactly when there are messages. */
  lemma PeakDayOfStream(es: seq<Event>, infos: map<string, string>, peak: Option<PeakDay>)
    requires IsPeakDay(infos, CounterOf(es, DayKey), DayContactsOf(es), peak)
    ensures peak.None? <==> es == []
    ensures peak.Some? ==>
              && peak.value.messageCount == Count(es, DayKey, peak.value.date)
              && forall d :: Count(es, DayKey, d) <= peak.value.messageCount
  {
    var daily := CounterOf(es, DayKey);
    forall d
      ensures Weight(daily)(d) == Count(es, DayKey, d)
    {
      DailyCount(es, d);
    }
    if es != [] {
      FirstDayCounted(es);
    }
  }

  /** The daily counter holds the number of messages of every day. */
  lemma DailyCount(es: seq<Event>, d: int)
    ensures CounterOf(es, DayKey).GetOr(d, 0) == Count(es, DayKey, d)
  {
    OrderSpec(es, DayKey);
  }

  /** A non-empty stream has a day with a positive count. */
  lemma FirstDayCounted(es: seq<Event>)
    requires es != []
    ensures var daily := CounterOf(es, DayKey);
            es[0].msg.day in daily.keys && daily.GetOr(es[0].msg.day, 0) > 0
  {
    OrderSpec(es, DayKey);
    CountPositive(es, DayKey, es[0].msg.day);
    assert DayKey(es[0]) == Some(es[0].msg.day);
  }

  /** Each month's entry has the most messages any contact exchanged that
      month, and names such a contact when it is not zero. */
  lemma MonthEntryOfStream(es: seq<Event>, infos: map<string, string>, m: Month, f: MonthlyTopFriend)
    requires MonthTop(infos, MonthlyOf(es), m, f)
    ensures forall c :: c in Contacts(es) ==> Count(es, MonthKey(m), c) <= f.messageCount
    ensures f.messageCount > 0 ==> exists c :: c in Contacts(es) && Count(es, MonthKey(m), c) == f.messageCount
  {
    var monthly := MonthlyOf(es);
    var w := MonthCount(monthly, m);
    forall c | c in Contacts(es)
      ensures w(c) == Count(es, MonthKey(m), c)
    {
      MonthlyCount(es, m, c);
    }
    var best :| FirstMaxOf(monthly.keys, w, "", best, f.messageCount) &&
                f.displayName == DisplayName(infos, best, if best == "" then "暂无" else best);
    forall c | c in Contacts(es)
      ensures Count(es, MonthKey(m), c) <= f.messageCount
    {
      var j :| 0 <= j < |monthly.keys| && monthly.keys[j] == c;
    }
    if f.messageCount > 0 {
      var i :| 0 <= i < |monthly.keys| && monthly.keys[i] == best && w(monthly.keys[i]) == f.messageCount &&
               forall j :: 0 <= j < i ==> w(monthly.keys[j]) < f.messageCount;
      assert best in Contacts(es);
    }
  }

  /** The monthly table holds each contact's count for each month. */
  lemma MonthlyCount(es: seq<Event>, m: Month, c: string)
    requires c in Contacts(es)
    ensures MonthCount(MonthlyOf(es), m)(c) == Count(es, MonthKey(m), c)
  {
    var row := MonthRow(es, c);
    assert c in MonthlyOf(es).entries && MonthlyOf(es).entries[c] == row;
    assert row[m - 1] == Count(es, MonthKey(m), c);
  }

  /** In the report of a message stream, the reply speeds lie strictly
      between 0 and 24 hours, the fastest contact's no slower than the
      average. */
  lemma ResponseSpeedOfStream(es: seq<Event>, infos: map<string, string>, x: ResponseSpeed)
    requires IsResponseSpeed(infos, ResponseTimesOf(es), Some(x))
    ensures 0.0 < x.fastestTime <= x.avgResponseTime < MaxResponseTime as real
  {
    var rt := ResponseTimesOf(es);
    ResponseTimesInRange(es);
    assert forall c, v :: v in TimesFor(rt, c) ==> 0 < v < MaxResponseTime;
    ResponseSpeedInRange(infos, rt, x);
  }
}
