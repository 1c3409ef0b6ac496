# CipherTalk core, modelled in Dafny

CipherTalk is a desktop viewer for decrypted WeChat databases. This project
models five parts of it and proves properties of them:

- **The annual report engine** (`annualReportService.ts`). It works out
  the account's data directory and cleans WeChat ids into account names. It
  selects the private chats from `session.db` and maps the MD5-named
  `Msg_<hash>` tables back to contacts. It then runs one pass over every
  message of the year, updating per-contact, per-day and per-month counters,
  a conversation watermark, reply-time samples, a phrase counter, active-day
  sets and a 7 x 24 heatmap. From these it builds the report: the top three
  friends, each month's busiest friend, the peak day, the small-hours
  friend, the longest chat streak, the most balanced friend, the share of
  conversations opened, the reply speed and the top 32 phrases.
- **The app-lock store** (`authStore.ts`). It tracks whether a lock is
  enabled, whether the app is locked, and whether the lock is a password or
  a biometric credential (Windows Hello / WebAuthn). Enabling one method
  clears the other.
- **The URL-safe Base64 codec** (`base64.ts`). It is built on the
  browser's `btoa`/`atob`.
- **The WeChat-emoji renderer** (`wechatEmoji.tsx`). It splits text on
  `[name]` tokens and replaces known emoji with images.
- **The transcript extractor of the Whisper service**
  (`voiceTranscribeServiceWhisper.ts`, `extractText`). From whisper.cpp
  output it keeps the text of each `[start --> end] text` line.

## How the model is built

Imperative code stays imperative:

- Each `for` loop of the source is a Dafny `method` with a `while` loop,
  except the loop that fills `hashToUsername`, which is the recursive
  function `ReportInput.HashIndex` over the usernames.
- The heatmap is an `array2`.
- The lock store is a `class`; its methods modify its fields.
- `fromBase64Url` fills an `array`.

Every method is proved against a reference function or predicate:

- The aggregation loop: each accumulator equals a function of the message
  stream consumed so far.
- The report assembly: each selection satisfies a predicate that states
  the maximum together with its tie-breaking.
- The emoji and transcript loops: each equals a recursive scanner.

Lemmas then connect these reference definitions to one another: round
trips, conservation of counts, bounds, leftmost and greedy matching, and
"if and only if" characterisations.

JavaScript `Map` iteration order decides ties in the source, so each map is
a `Dict` that keeps its key order. Side effects are parameters of the model:

- the directory listings and file lists;
- the rows of the SQL queries;
- the MD5 table-name hash;
- the contact display names;
- the punctuation class `\p{P}\p{S}`;
- `hashPassword`;
- the outcome of a biometric prompt;
- the emoji catalogue `hasEmoji` / `getEmojiPath`.

The SQL `LIKE` filters are modelled with their SQLite semantics: `%` and
`_` are wildcards, and ASCII letters match regardless of case.

## Model

| member | source | states |
|---|---|---|
| AccountDirectory.CleanAccountDirNameRules | electron/services/annualReportService.ts:112-129 | A blank name stays blank. A name starting `wxid_` (any case) and followed by a letter or digit is cut to `wxid_` plus the longest alphanumeric run after it; without such a character it stays as it is. Any other name loses a trailing `_` plus four alphanumerics. Every other name is only trimmed. The result is always a prefix of the trimmed name. |
| AccountDirectory.AlnumRunEndSpec | electron/services/annualReportService.ts:118 | The run that `[a-zA-Z0-9]+` takes after `wxid_` is maximal: every character in it is ASCII alphanumeric, and so is none right after it. |
| AccountDirectory.CleanCustomIdExample | electron/services/annualReportService.ts:123-126 | `xiangchao1985_b29d` is cleaned to `xiangchao1985`. |
| AccountDirectory.CleanWxidExample | electron/services/annualReportService.ts:116-119 | `wxid_abc123_x1y2` is cleaned to `wxid_abc123`. |
| AccountDirectory.CleanBareWxidExample | electron/services/annualReportService.ts:116-119 | An already clean `wxid_abc123` is left unchanged. |
| AccountDirectory.FindAccountDir | electron/services/annualReportService.ts:135-183 | With no base directory the result is nothing. Otherwise it is the id when the path joined from it exists (the empty name joins to the base directory, which exists), else the cleaned id when it differs and its path exists. Failing both, it is the first directory in listing order that passes one of the case-insensitive exact, prefix, reverse-prefix or cleaned-name tests, or nothing. |
| AccountDirectory.AccountDirUnique | electron/services/annualReportService.ts:135-183 | The specification of the directory search admits exactly one result. |
| AccountDirectory.ScanListing | electron/services/annualReportService.ts:154-181 | The result is nothing exactly when no entry passes a test; otherwise it is the name of the first entry that does. |
| AccountDirectory.ResolvePrefixedDirectory | electron/services/annualReportService.ts:168-169 | Account `wxid_abc123` finds directory `wxid_abc123_x1y2` through the prefix test. |
| AccountDirectory.FindMessageDbFiles | electron/services/annualReportService.ts:185-195 | The shard files are exactly the listed names that start with `msg` or `message` and end in `.db`, ignoring case. |
| AccountDirectory.FindMessageDbFilesAppend | electron/services/annualReportService.ts:188-191 | The filter keeps listing order: the shards of two listings in a row are the shards of the first followed by those of the second, and one name is kept exactly when it passes the test. |
| SqlLike.LikeGhPattern | electron/services/annualReportService.ts:337 | `LIKE 'gh_%'` holds exactly for names of at least three characters that start with `g`, `h` (any case). |
| SqlLike.LikeChatroomPattern | electron/services/annualReportService.ts:334 | `LIKE '%@chatroom'` holds exactly for names that end in `@chatroom`, ignoring case. |
| SqlLike.LikeMsgPattern | electron/services/annualReportService.ts:388-391 | `LIKE 'Msg_%'` holds exactly for names of at least four characters that start with `msg` (any case). |
| ReportInput.SessionRowKeptSpec | electron/services/annualReportService.ts:332-338 | The intended session filter keeps exactly the usernames that are not group chats, not `filehelper` and do not start with `gh_`. |
| ReportInput.AsWrittenDropsMore | electron/services/annualReportService.ts:337 | Every row that the filter as written keeps is also kept by the intended filter. |
| ReportInput.GhPrefixedFriendDropped | electron/services/annualReportService.ts:337 | The filter as written drops the ordinary username `ghost99`; the intended filter keeps it. |
| ReportInput.PrivateUsernamesSpec | electron/services/annualReportService.ts:341-349 | A username is private exactly when it is a session, passes the intended filter and equals neither the owner's id nor the cleaned id, ignoring case. Every session the written `LIKE 'gh_%'` clause keeps is private; the only extra private names start with `gh` but not `gh_`. |
| ReportInput.HashIndexSpec | electron/services/annualReportService.ts:351-355 | The hash index has exactly the users' hashes as keys. Each key maps to the last user with that hash, since a later `set` overwrites. |
| ReportInput.SessionOfTable | electron/services/annualReportService.ts:394-397 | A table resolves only to a non-empty contact of the index. |
| ReportInput.Tag | electron/services/annualReportService.ts:443-449 | Each row of a table becomes one message of that table's contact, in order. |
| ReportInput.EventsFromIndexedContacts | electron/services/annualReportService.ts:381-398 | Every message that reaches the loop belongs to a non-empty private-chat contact of the index. |
| ReportInput.UnattributedShardContributesNothing | electron/services/annualReportService.ts:402-406 | A shard without `Name2Id` or the owner's row id contributes no messages. |
| Text.TrimSpec | electron/services/annualReportService.ts:113 | `trim()` returns the middle slice of the input. Only whitespace is cut from either side, and a non-empty result starts and ends with non-whitespace. |
| Text.TrimOfTrimmed | electron/services/annualReportService.ts:113 | Trimming a string that has no whitespace at either end changes nothing. |
| Text.Split | electron/services/voiceTranscribeServiceWhisper.ts:252 | `split` gives at least one piece, and no piece contains the separator. |
| Text.JoinSplit | electron/services/voiceTranscribeServiceWhisper.ts:252 | Joining the pieces of a split with the separator gives back the input. |
| Text.ReplaceAllChar | src/utils/base64.ts:8-9 | Replacing every occurrence of one character by another keeps the length and changes exactly those positions. |
| Text.ReplaceAllAppend | src/utils/base64.ts:8-10 | A global replace distributes over concatenation. |
| Text.Utf16Length | electron/services/annualReportService.ts:499 | A string's `length` in UTF-16 code units lies between its number of code points and twice that. |
| Text.LowerChar | electron/services/annualReportService.ts:117 | `toLowerCase` maps `A`-`Z` to `a`-`z` and leaves every other character as it is. |
| Tallies.CounterOfSnoc | electron/services/annualReportService.ts:505 | One more element is one `set(k, (get(k) \|\| 0) + 1)` on its key, or no change for an element without a key. |
| Tallies.OrderSpec | electron/services/annualReportService.ts:578-579 | A counter's keys, in insertion order, have no repeats. They are exactly the keys with a positive count. |
| Tallies.CounterSums | electron/services/annualReportService.ts:515 | The entries of a counter add up to the number of elements that carry a key. |
| Tallies.CounterTotal | electron/services/annualReportService.ts:515 | Summing the counts over the keys in insertion order gives the number of keyed elements. |
| MessageStream.HeatRow | electron/services/annualReportService.ts:529-530 | The heatmap row lies in 0..6 and is the weekday shifted by one: Monday is 0 and Sunday is 6. |
| MessageStream.ResponseTime | electron/services/annualReportService.ts:476-486 | A recorded reply time is strictly between 0 and 86400 seconds. |
| MessageStream.TrailingRunStartSpec | electron/services/annualReportService.ts:497 | The stripped suffix is the maximal run of trailing punctuation: every character in it is punctuation, and the character before it is not. |
| MessageStream.MonthRow | electron/services/annualReportService.ts:508-513 | A contact's month row has twelve slots, and slot `i` is the contact's message count in month `i + 1`. |
| Aggregation.Aggregate | electron/services/annualReportService.ts:360-542 | After all shards, every accumulator equals its reference function of the message stream. This covers contact stats, conversation starts, watermark, reply times, phrases, monthly, daily and per-day-contact counts, active days and small-hours counts. The heatmap cell (r, h) holds the number of messages in that cell. |
| Aggregation.AbsorbShard | electron/services/annualReportService.ts:381-542 | Processing a shard takes the accumulators and the heatmap from the stream so far to the stream extended by that shard's messages. |
| Aggregation.AbsorbTables | electron/services/annualReportService.ts:393-541 | The same for a shard's tables, one after another. |
| Aggregation.AbsorbTable | electron/services/annualReportService.ts:394-540 | The same for one table. A table that is not a `Msg_` table, has no private contact, belongs to a shard that cannot attribute senders, or fails its query adds nothing. |
| Aggregation.AbsorbRows | electron/services/annualReportService.ts:449-537 | The same for the rows of a table, in query order. |
| Aggregation.Absorb | electron/services/annualReportService.ts:450-536 | One message takes every accumulator to its value on the extended stream and moves the watermark to that message. |
| Aggregation.TallyContact | electron/services/annualReportService.ts:452-461 | The sent/received counter becomes that of the extended stream. |
| Aggregation.WatermarkDecides | electron/services/annualReportService.ts:467-489 | The watermark test is the same as the stream definition. A conversation opens with no earlier message or after a gap of more than 3600 s. Otherwise a reply time is recorded only for an outgoing message after an incoming one, less than 24 h later. |
| Aggregation.TallyConversation | electron/services/annualReportService.ts:463-489 | Conversation starts and reply times become those of the extended stream. |
| Aggregation.TallyStart | electron/services/annualReportService.ts:463-475 | The opened/received-openings counter becomes that of the extended stream. |
| Aggregation.TallyResponse | electron/services/annualReportService.ts:476-486 | The reply-time lists become those of the extended stream. |
| Aggregation.TallyPhrase | electron/services/annualReportService.ts:492-506 | The phrase counter becomes that of the extended stream. |
| Aggregation.TallyMonth | electron/services/annualReportService.ts:508-513 | The per-contact month rows become those of the extended stream. |
| Aggregation.TallyDay | electron/services/annualReportService.ts:515-521 | The daily counter and the per-day contact counters become those of the extended stream. |
| Aggregation.TallyActiveDay | electron/services/annualReportService.ts:523-527 | The active-day sets become those of the extended stream. |
| Aggregation.TallyMidnight | electron/services/annualReportService.ts:533-536 | The small-hours counter becomes that of the extended stream. |
| Aggregation.StatsSnoc | electron/services/annualReportService.ts:452-461 | A message bumps exactly its contact's sent or received count; a new contact starts at zero. |
| Aggregation.StartsSnoc | electron/services/annualReportService.ts:463-475 | A message that opens a conversation bumps its contact's initiated or received count; any other message only ensures the entry exists. |
| Aggregation.ResponseTimesSnoc | electron/services/annualReportService.ts:476-486 | A message with a reply time appends it to its contact's list; other messages change nothing. |
| Aggregation.LastMessagesSnoc | electron/services/annualReportService.ts:487-488 | The watermark of a message's contact becomes that message's time and direction. |
| Aggregation.MonthlySnoc | electron/services/annualReportService.ts:508-513 | A message bumps exactly its month's slot in its contact's row. |
| Aggregation.DayContactsSnoc | electron/services/annualReportService.ts:516-521 | A message bumps its contact in its day's counter and creates the day if it is new. |
| Aggregation.ActiveDaysSnoc | electron/services/annualReportService.ts:523-527 | A message adds its day to its contact's set. |
| Aggregation.TallyHeat | electron/services/annualReportService.ts:529-531 | Incrementing one heatmap cell keeps the heatmap equal to the cell counts of the extended stream. |
| StreamFacts.SentPlusReceived | electron/services/annualReportService.ts:457-461 | A contact's sent and received counts add up to its messages. |
| StreamFacts.ContactStatsConserve | electron/services/annualReportService.ts:452-461 | The contact stats list each contact once. A contact has an entry exactly when it has messages, and all messages add up to `totalMessages`. |
| StreamFacts.HeatmapConserves | electron/services/annualReportService.ts:529-531 | The 168 heatmap cells add up to the number of messages. |
| StreamFacts.DailyStatsConserve | electron/services/annualReportService.ts:515 | The daily counts add up to the number of messages. |
| StreamFacts.DayContactsConserve | electron/services/annualReportService.ts:516-521 | A day's per-contact counts add up to that day's count. |
| StreamFacts.MonthsPartition | electron/services/annualReportService.ts:508-513 | A contact's twelve month slots add up to its messages. |
| StreamFacts.LastMessagesKnown | electron/services/annualReportService.ts:487-488 | A contact has a watermark exactly when it has messages. |
| StreamFacts.FirstMessageOpens | electron/services/annualReportService.ts:469 | A contact has an opened conversation exactly when it has messages. |
| StreamFacts.ConversationStartsBounded | electron/services/annualReportService.ts:463-475 | A contact's conversation counts are positive exactly when it has messages. Openings by the owner are at most the messages sent; openings by the contact are at most the messages received. |
| StreamFacts.ResponseTimesInRange | electron/services/annualReportService.ts:478-484 | Every recorded reply time is strictly between 0 and 86400 seconds. |
| StreamFacts.SamplesBoundedBySent | electron/services/annualReportService.ts:478 | A contact has at most as many reply times as messages sent. |
| StreamFacts.ActiveDaysSpec | electron/services/annualReportService.ts:523-527 | A day is active for a contact exactly when they exchanged a message that day. |
| StreamFacts.ActiveDaysOfContacts | electron/services/annualReportService.ts:523-527 | A contact's active-day set is non-empty exactly when the contact has messages, and has at most that many days. |
| StreamFacts.MidnightWithinMessages | electron/services/annualReportService.ts:533-536 | A contact's small-hours count is at most its messages. |
| StreamFacts.PhraseShape | electron/services/annualReportService.ts:492-506 | A counted phrase comes from a sent text message. It is 2 to 20 UTF-16 units long, contains neither `http` nor `<`, does not start with `[`, and does not end in punctuation. |
| StreamFacts.XmlTestRedundant | electron/services/annualReportService.ts:502-503 | The `<?xml` test never rejects a phrase that the `<` test has not already rejected. |
| Ranking.SortDescSpec | electron/services/annualReportService.ts:591 | The descending sort by weight is sorted and a permutation of its input. It is stable: elements of equal weight keep their order, as `Array.prototype.sort` guarantees. |
| Ranking.TopSpec | electron/services/annualReportService.ts:591-592 | The first k of the sorted list are min(k, n) elements of the input, sorted. |
| Ranking.TopLeftOut | electron/services/annualReportService.ts:592 | An element left out of the top k means the list was longer than k, and every kept element weighs at least as much as it. |
| Ranking.FirstMax | electron/services/annualReportService.ts:598-607 | The strict-`>` scan returns the first key of maximal positive weight, or the default key and 0 when no weight is positive. |
| Ranking.FirstMaxUnique | electron/services/annualReportService.ts:598-607 | That specification determines the key and the maximum. |
| Streaks.SortDays | electron/services/annualReportService.ts:674-677 | The active days, sorted, form a strictly increasing list of exactly the days in the set. |
| Streaks.LongestRun | electron/services/annualReportService.ts:679-705 | The scan returns the length, first and last day of the earliest longest run of consecutive days in the set. |
| ReportAssembly.CoreFriendsSpec | electron/services/annualReportService.ts:578-592 | The core friends are min(3, contacts) contacts, busiest first, each with its own counts. No contact left out has more messages than one kept. |
| ReportAssembly.FrequentSpec | electron/services/annualReportService.ts:799-800 | The filtered phrases are exactly those used at least twice, each with its count. |
| ReportAssembly.TopPhrasesSpec | electron/services/annualReportService.ts:798-803 | At most 32 phrases, most used first, each used at least twice with its own count. A phrase used twice or more is left out only when 32 phrases with at least its count are kept. |
| ReportAssembly.MonthlyTopFriends | electron/services/annualReportService.ts:594-615 | One entry per month 1..12, holding that month's first contact with the most messages. A month without messages shows `暂无` and 0. |
| ReportAssembly.DayTopFriend | electron/services/annualReportService.ts:625-636 | The peak day's top friend is the first contact of the day with the most messages, shown by display name. |
| ReportAssembly.PeakDayOf | electron/services/annualReportService.ts:617-640 | The peak day is the first day with the highest message count, with its top friend; there is none without messages. |
| ReportAssembly.MidnightKingOf | electron/services/annualReportService.ts:642-662 | The small-hours friend is the first contact with the most messages between 0 and 6 o'clock, with its share of all such messages in percent. There is none when no such message exists. |
| ReportAssembly.MidnightShare | electron/services/annualReportService.ts:645-661 | That friend's count is positive and at most the total, and the share lies in (0, 100]. |
| ReportAssembly.LongestStreakOf | electron/services/annualReportService.ts:664-730 | Only contacts with at least two active days take part. The result is the first contact with the longest run of consecutive days, with the run's first and last day; there is none when no contact takes part. |
| ReportAssembly.MutualFriendOf | electron/services/annualReportService.ts:732-752 | Among contacts with at least 50 sent and 50 received messages, the result is the first one whose sent/received ratio is closest to 1, with that ratio; there is none when no contact qualifies. |
| ReportAssembly.SocialInitiativeOf | electron/services/annualReportService.ts:754-770 | The conversations opened by the owner and by contacts, summed over contacts, and the owner's share in percent. There is none when there were no conversations. |
| ReportAssembly.InitiativeRateBounds | electron/services/annualReportService.ts:764-769 | The owner's share lies in [0, 100], and is 100 exactly when contacts opened none. |
| ReportAssembly.ResponseSpeedOf | electron/services/annualReportService.ts:772-796 | Only contacts with at least ten reply times take part. The result is the mean of all their reply times, and the first of them whose own mean is the smallest; there is none when no contact takes part. |
| ReportAssembly.FastestWithinAverage | electron/services/annualReportService.ts:778-796 | The fastest contact's mean is never above the overall mean. |
| ReportAssembly.ResponseSpeedInRange | electron/services/annualReportService.ts:778-796 | With every sample between 0 and 24 h, both reported speeds are too, and the fastest is at most the average. |
| ReportAssembly.MeanInRange | electron/services/annualReportService.ts:781 | The mean of samples strictly between 0 and 86400 lies strictly between them. |
| AnnualReport.Rows | electron/services/annualReportService.ts:807 | The heatmap is returned as 7 rows of 24 cells holding the array's values. |
| AnnualReport.Assemble | electron/services/annualReportService.ts:578-827 | The report carries the year, `totalMessages`, the number of contacts and every section above, each built from the accumulators. |
| AnnualReport.ReportFromShards | electron/services/annualReportService.ts:351-542 | Building the index, aggregating all shards and assembling gives the report of the message stream those shards contribute. |
| AnnualReport.GenerateReport | electron/services/annualReportService.ts:303-829 | The report fails for a missing or empty id, and for a missing or empty-named account directory, an empty list of message databases or a `session.db` that the existence test does not find. Otherwise it is the report of the message stream. |
| AnnualReport.BlankIdHasNoAccountDir | electron/services/annualReportService.ts:305-315 | A blank id such as `" "` passes the id test, resolves to the empty directory name (the base directory itself), and the report fails with the missing account directory. |
| AnnualReport.ShardsOf | electron/services/annualReportService.ts:381-383 | The shards are opened one per database file, in file order. |
| AnnualReport.RowsAreCounts | electron/services/annualReportService.ts:529-531 | The returned heatmap rows are the stream's cell counts. |
| AnnualReport.HeatmapOfStream | electron/services/annualReportService.ts:529-531 | The reported heatmap adds up to the number of messages. |
| AnnualReport.CoreFriendsOfStream | electron/services/annualReportService.ts:578-592 | On a message stream, each core friend's counts are its sent, received and total messages, and no left-out contact has more messages. |
| AnnualReport.PeakDayOfStream | electron/services/annualReportService.ts:617-640 | On a message stream there is a peak day exactly when there are messages, and no day has more messages than it. |
| AnnualReport.MonthEntryOfStream | electron/services/annualReportService.ts:594-615 | No contact has more messages in the month than the month's entry. A positive entry is some contact's count. |
| AnnualReport.ResponseSpeedOfStream | electron/services/annualReportService.ts:772-796 | On a message stream both reply speeds lie strictly between 0 and 24 h, and the fastest is at most the average. |
| Base64Url.ToBase64Url | src/utils/base64.ts:1-11 | The loop and the replacements give the unpadded URL-safe encoding of the buffer. |
| Base64Url.FromBase64Url | src/utils/base64.ts:13-28 | Decoding fails (`atob` throws) exactly when the padded input is not Base64. Otherwise it returns a fresh buffer with the decoded bytes. |
| Base64Url.CodesOf | src/utils/base64.ts:22-27 | The buffer holds the char codes of the binary string. |
| Base64Url.RoundTrip | src/utils/base64.ts:1-28 | Decoding the encoding of any bytes gives back those bytes. |
| Base64Url.EncodeUrlAlphabet | src/utils/base64.ts:7-10 | The encoding uses only `A-Z a-z 0-9 - _` and has ceil(4n/3) characters. |
| Base64Url.DecodeUrlDefined | src/utils/base64.ts:13-21 | On URL-alphabet input, decoding succeeds exactly when the length is not 1 mod 4. |
| Base64Url.DecodeUrlForeign | src/utils/base64.ts:21 | A character outside both alphabets, padding and whitespace makes decoding fail. |
| Base64Url.PadLen | src/utils/base64.ts:18 | `(4 - n % 4) % 4` is at most 3 and makes the length a multiple of 4. |
| Base64Url.OctetsOfSextets | src/utils/base64.ts:7 | Regrouping the 6-bit groups of any bytes into octets gives the bytes back. |
| Base64Url.CharCodesOfBinary | src/utils/base64.ts:4-6 | `String.fromCharCode` then `charCodeAt` gives each byte back. |
| Base64Url.Atob | src/utils/base64.ts:21 | A successful `atob` yields a binary string (every code below 256). |
| Base64Url.Swap | src/utils/base64.ts:8-9 | A global one-character replace keeps the length and changes exactly the replaced positions. |
| AuthStore.Store.constructor | src/stores/authStore.ts:52-58 | The store starts unlocked, unauthenticated, disabled, without credential or method. |
| AuthStore.Store.Init | src/stores/authStore.ts:60-89 | The state becomes the one derived from the saved configuration. |
| AuthStore.AfterInit | src/stores/authStore.ts:67-85 | The lock is enabled exactly when the configuration says so and a credential or password hash exists. The store starts locked and unauthenticated exactly when enabled. The method is password when a hash exists, else biometric when a credential exists. |
| AuthStore.MethodOf | src/stores/authStore.ts:68-73 | The method is password exactly when a hash exists, biometric exactly when a credential but no hash exists, and none otherwise. |
| AuthStore.Store.EnableAuth | src/stores/authStore.ts:91-153 | A successful enrolment enables the biometric lock with its credential and clears the password. A refusal returns its error and changes nothing. |
| AuthStore.AfterEnable | src/stores/authStore.ts:101-105 | Enabling sets the biometric method and the credential and leaves the lock state alone. |
| AuthStore.EnrolledConfig | src/stores/authStore.ts:106-110 | The saved configuration is enabled with the credential and holds no password. |
| AuthStore.Store.SetupPassword | src/stores/authStore.ts:155-174 | Setting a password enables the password method, clears the credential and saves hash and salt. |
| AuthStore.PasswordConfig | src/stores/authStore.ts:165-168 | The saved configuration is enabled with the hash and salt and holds no credential. |
| AuthStore.AfterSetupPassword | src/stores/authStore.ts:159-163 | The password method is enabled and the credential cleared; the lock state is unchanged. |
| AuthStore.Store.VerifyPassword | src/stores/authStore.ts:176-197 | The reply says whether the password's hash matches the saved hash. Only a match unlocks and authenticates. |
| AuthStore.VerifyReply | src/stores/authStore.ts:178-193 | Success exactly when a hash and salt are saved and the password hashes to the saved hash. Without both it fails with `未设置密码`. |
| AuthStore.Store.DisableAuth | src/stores/authStore.ts:199-211 | Disabling unlocks, authenticates, clears method and credential, and saves an empty configuration. |
| AuthStore.AfterDisable | src/stores/authStore.ts:200-206 | The state after disabling is unlocked and authenticated, with no method or credential. |
| AuthStore.Store.Unlock | src/stores/authStore.ts:213-261 | The reply depends on the method, the credential and the prompt's verdict. Only a successful reply unlocks. |
| AuthStore.UnlockReply | src/stores/authStore.ts:214-256 | The password method is refused with `请使用密码解锁`, and a missing credential with `未找到凭证`. Otherwise the unlock succeeds exactly when the prompt verifies. |
| AuthStore.Unlocked | src/stores/authStore.ts:186-189 | Unlocking clears the lock, sets authenticated and keeps everything else. |
| AuthStore.Store.Lock | src/stores/authStore.ts:263-267 | `lock` locks only when the lock is enabled. |
| AuthStore.AfterLock | src/stores/authStore.ts:263-267 | The store is locked afterwards exactly when it was locked or the lock is enabled; nothing else changes. |
| AuthStore.Store.SetLocked | src/stores/authStore.ts:269 | Only the locked flag changes, to the given value. |
| AuthStore.InitExclusive | src/stores/authStore.ts:106-110 | A configuration holding only one method never starts with the password method and a credential together. |
| AuthStore.InitAfterSetup | src/stores/authStore.ts:155-168 | After a non-empty password hash is saved, the next start is enabled, locked and unauthenticated, with the password method. |
| AuthStore.InitAfterEnable | src/stores/authStore.ts:106-110 | After enrolment, the next start is enabled and locked with the biometric method and the credential. |
| AuthStore.InitAfterDisable | src/stores/authStore.ts:199-211 | Starting from the configuration saved by `disableAuth` gives the same state as disabling the initial store. |
| AuthStore.VerifyAfterSetup | src/stores/authStore.ts:155-193 | With a non-empty salt and hash, the password just set verifies, and a password with a different hash fails with `密码错误`. |
| AuthStore.UnlockNeedsPassword | src/stores/authStore.ts:216-218 | Once a password is set, `unlock` always asks for the password. |
| AuthStore.LockThenUnlock | src/stores/authStore.ts:263-267 | With the lock enabled, `lock` locks, and a later unlock restores the state as unlocked and authenticated. |
| WechatEmoji.ParseWechatEmoji | src/utils/wechatEmoji.tsx:21-68 | The loop builds exactly the parts of the reference scanner. Empty text is returned as is. |
| WechatEmoji.ParseShows | src/utils/wechatEmoji.tsx:21-68 | Non-empty text renders as a non-empty list of parts. Their visible text concatenates to the input, and every image is a known emoji with its URL. |
| WechatEmoji.HasWechatEmoji | src/utils/wechatEmoji.tsx:73-81 | The result is true exactly when the text is non-empty and some `[name]` token names a known emoji. |
| WechatEmoji.HasEmojiIffImage | src/utils/wechatEmoji.tsx:21-81 | When rendering shows an image, `hasWechatEmoji` is true. When every known emoji has a path, the converse holds too. |
| WechatEmoji.TokenAtIff | src/utils/wechatEmoji.tsx:5 | `/\[([^\]]+)\]/` matches at p exactly when `[` is at p, a `]` ends at least one non-`]` character later, and none lies between. |
| WechatEmoji.NextMatchLeftmost | src/utils/wechatEmoji.tsx:31 | `exec` finds the leftmost token at or after `lastIndex`; when it finds none, there is none. |
| WechatEmoji.EmojiUrl | src/utils/wechatEmoji.tsx:10-16 | A URL exists exactly for a name the catalogue knows whose package path is present and non-empty, and it is `./wechat-emojis/` followed by that path with its first `assets/` removed. |
| WechatEmoji.ScanShows | src/utils/wechatEmoji.tsx:31-65 | The parts from `lastIndex` on show exactly the rest of the text. |
| WechatEmoji.ScanWellFormed | src/utils/wechatEmoji.tsx:35-58 | Every image part stands for a known emoji with its URL and alt text. |
| WechatEmoji.ScanImages | src/utils/wechatEmoji.tsx:31-59 | An image part appears only if some later token is a known emoji. When paths always exist, it appears whenever such a token does. |
| WechatEmoji.Step | src/utils/wechatEmoji.tsx:31-59 | One loop step keeps the emitted parts plus the scanner's rest equal to what the scanner gives. |
| WechatEmoji.PushEmoji | src/utils/wechatEmoji.tsx:37-56 | The text before the token, then the image or the raw token, are appended. |
| WhisperOutput.ExtractText | electron/services/voiceTranscribeServiceWhisper.ts:250-264 | The loop returns exactly the reference extraction of its output. |
| WhisperOutput.CaptureSound | electron/services/voiceTranscribeServiceWhisper.ts:257 | A capture found at p has the regex's full shape: `[`, time, space, `-->`, space, time, `]`, space, then the captured text. |
| WhisperOutput.CaptureComplete | electron/services/voiceTranscribeServiceWhisper.ts:257 | Wherever that shape occurs at p, the matcher finds a capture there, starting no earlier and ending no earlier (greedy). |
| WhisperOutput.FirstMatchLeftmost | electron/services/voiceTranscribeServiceWhisper.ts:257 | `match` takes the leftmost position with a capture; when there is none, no position has one. |
| WhisperOutput.BacktrackSpec | electron/services/voiceTranscribeServiceWhisper.ts:257 | `\s+(.+)` gives back the last spaces it can: the capture starts at the last position after at least one space that is not a line terminator. |
| WhisperOutput.PieceIffMatch | electron/services/voiceTranscribeServiceWhisper.ts:257-259 | A line yields text exactly when the regex matches somewhere in it. |
| WhisperOutput.PieceTrimmed | electron/services/voiceTranscribeServiceWhisper.ts:259 | The text taken from a line is trimmed. |
| WhisperOutput.PiecesSpec | electron/services/voiceTranscribeServiceWhisper.ts:255-261 | There are at most as many texts as lines, each trimmed, and none exactly when no line matches. |
| WhisperOutput.JoinTrimmed | electron/services/voiceTranscribeServiceWhisper.ts:263 | Joining non-empty trimmed texts with a space gives a trimmed string that starts and ends with the first and last text's ends. |
| WhisperOutput.ExtractTrimmed | electron/services/voiceTranscribeServiceWhisper.ts:263 | The transcript is trimmed. |
| WhisperOutput.ExtractNothing | electron/services/voiceTranscribeServiceWhisper.ts:252-263 | With no matching line the transcript is empty. |
| WhisperOutput.ExtractWithoutBracket | electron/services/voiceTranscribeServiceWhisper.ts:252-263 | Output without `[` gives an empty transcript. |
| WhisperOutput.ExtractJoins | electron/services/voiceTranscribeServiceWhisper.ts:263 | When no line's text is empty, the final `trim` changes nothing: the transcript is the texts joined by spaces. |

## Left out

- Reading the databases and the file system is left out. `fs`, `better-sqlite3`, `session.db`, `contact.db` and the `PRAGMA`/column probing become inputs: listings, rows per table, and whether a shard opened and holds `Name2Id`. A table whose probing or query throws has `rows == None`. The database cache of `getMessageDb` is left out.
- `getTableHash` (MD5) is a parameter, since hashing is not modelled. The display names and avatars read from `contact.db` are an input map, and avatars are dropped.
- Dates are day numbers. `Date` parsing, SQLite's local-time `strftime`, the year window of the query and `formatDate` are not modelled. A streak is reported as its first and last day numbers.
- `Math.round` on the percentages, the ratio and the reply times is left out. These values are exact rationals.
- `getAvailableYears` and `getDecryptedDbDir` are left out: both only read the databases, the configuration and the environment.
- `toLowerCase` is modelled for ASCII letters only; Unicode case mapping is not.
- The phrase filter's `[\p{P}\p{S}]` class is a parameter `isPunct`, because the Unicode category tables are not modelled.
- Strings are sequences of code points. Only the phrase length test counts UTF-16 code units (`Utf16Length`).
- `btoa`/`atob` are modelled by the forgiving-base64 rules of the HTML standard, on byte strings.
- The lock store's `async` behaviour, concurrent calls and `console.error` are left out.
- Configuration persistence is a `config` field that each method rewrites.
- `hashPassword` and its random salt are parameters.
- The Windows Hello and WebAuthn prompts are modelled as an `Enrolment` or `Verdict` input. That input carries the error message the source would derive with `getFriendlyErrorMessage`, whose message table is not modelled.
- AuthStore.Store.SetupPassword: does not model the failure path where `hashPassword` throws, because hashing is a total parameter here.
- AuthStore.Store.Init: does not model the path where reading the configuration throws and the state is left unchanged, because configuration reads cannot fail here.
- The React elements are modelled as `Text` and `Image` parts with source, alt and title; `key` and `className` are left out.
- The regular expressions of `wechatEmoji.tsx` and `extractText` are hand-written matchers proved against the patterns' shapes, not a general regex engine.
- The rest of the Whisper service is left out: model download, process spawning and file handling are I/O.
- AccountDirectory.FindAccountDir: whether a path under the base directory exists is the parameter `existsAt`, so the file system's case rules (case-insensitive on Windows) and its normalisation of `.`, `..` and separators in an id are not modelled.
- ReportInput.PrivateUsernamesSpec: states the intended session filter of the Findings row, not the written `LIKE 'gh_%'`, which also drops private chats whose names start with `gh` but not `gh_`; the lemma states that difference.
- AnnualReport.ReportFromShards: reports the stream of the private chats under the intended session filter, so a chat such as `ghost99`, which the written query drops, is counted here.
- AnnualReport.GenerateReport: the existence test for `session.db` is the parameter `sessionDbAt`, so the file system's case rules and symlink resolution are not modelled; it uses the intended session filter, as ReportFromShards does; and has no outcome for the outer `catch` that returns `String(e)`, taken when opening or querying `session.db` throws or when a shard's `sqlite_master` listing throws, because database reads cannot fail in this model.
- AuthStore.Store.VerifyPassword: does not model the `catch` that returns `e.message || '验证失败'` when a configuration read or `hashPassword` throws, because both are total here.
- StreamFacts.PhraseShape: states what a counted phrase looks like, not that every such message is counted.

## Findings

| source | as written | input that shows it | evidently intended | confidence | as-written member | corrected member |
|---|---|---|---|---|---|---|
| electron/services/annualReportService.ts:337 | `username NOT LIKE 'gh_%'` treats `_` as SQLite's one-character wildcard, so every username of three or more characters that starts with `gh` is dropped. | The private chat `ghost99` is dropped: `ghost99` LIKE `gh_%` holds, because `_` matches `o`. | Drop only official accounts, whose usernames start with the literal `gh_` (`LIKE 'gh\_%' ESCAPE '\'`). | medium; not executed | ReportInput.GhPrefixedFriendDropped | ReportInput.SessionRowKeptSpec |
