/**
 * What the annual report engine reads from the decrypted databases, as
 * already-decoded values: the session list of `session.db`, and for every
 * message shard its `Msg_<hash>` tables with the rows the yearly query
 * returns.  Also the selection of private-chat sessions and the mapping
 * from table names back to contacts, which together decide which messages
 * reach the aggregation loop and under which contact.
 */
module ReportInput {
  import opened Wrappers
  import opened Text
  import opened SqlLike
  import opened Tallies
  import AccountDirectory

  type Month = m: int | 1 <= m <= 12 witness 1
  type Hour = h: int | 0 <= h < 24
  /** `strftime('%w')`: 0 is Sunday. */
  type Weekday = w: int | 0 <= w < 7

  /**
   * One row of the yearly message query.  `day`, `month`, `hour` and
   * `weekday` are SQLite's local-time decoding of `time`; `day` is the
   * calendar day as a day number, so consecutive days differ by one.
   * `content` is the selected content column, `None` when the table has
   * none or the value is NULL.
   */
  datatype Message = Message(
    time: int,
    isSent: bool,
    day: int,
    month: Month,
    hour: Hour,
    weekday: Weekday,
    localType: int,
    content: Option<string>)

  /** A table of a shard; `rows` is `None` when probing or querying it threw. */
  datatype Table = Table(name: string, rows: Option<seq<Message>>)

  /** A message shard: whether it opened, whether it has a `Name2Id` table,
      the row id of the account owner in it, and its tables. */
  datatype Shard = Shard(isOpen: bool, hasName2Id: bool, myRowId: Option<int>, tables: seq<Table>)

  /** A message as the loop sees it: attributed to the contact of its table. */
  datatype Event = Event(contact: string, msg: Message)

  // ---- Session selection ----------------------------------------------

  /** The `SessionTable` query's WHERE clause as written: `_` in `'gh_%'` is
      SQLite's one-character wildcard. */
  predicate SessionRowKeptAsWritten(u: string) {
    !Like(u, "%@chatroom") && u != "filehelper" && !Like(u, "gh_%")
  }

  /** The clause as intended: group chats, the file helper and official
      accounts (names starting with the literal `gh_`) are dropped. */
  predicate SessionRowKept(u: string) {
    !Like(u, "%@chatroom") && u != "filehelper" && !StartsWith(Lower(u), "gh_")
  }

  /** The written clause drops every session the intended one drops. */
  lemma AsWrittenDropsMore(u: string)
    ensures SessionRowKeptAsWritten(u) ==> SessionRowKept(u)
  {
    LikeGhPattern(u);
    if StartsWith(Lower(u), "gh_") {
      assert Lower(u)[0] == 'g' && Lower(u)[1] == 'h';
    }
  }

  /** A friend whose WeChat id merely starts with `gh`, such as `ghost99`,
      is dropped by the written clause although they are no official account. */
  lemma GhPrefixedFriendDropped()
    ensures !SessionRowKeptAsWritten("ghost99")
    ensures SessionRowKept("ghost99")
  {
    var u := "ghost99";
    LikeGhPattern(u);
    LikeChatroomPattern(u);
    assert Lower(u)[..3] == "gho";
  }

  /** No session that the intended clause keeps is a group chat or an
      official account. */
  lemma SessionRowKeptSpec(u: string)
    ensures SessionRowKept(u) <==>
            !EndsWith(Lower(u), "@chatroom") && u != "filehelper" && !StartsWith(Lower(u), "gh_")
  {
    LikeChatroomPattern(u);
  }

  /** The owner's own session, under the raw or the cleaned id, compared
      case-insensitively. */
  predicate IsSelf(u: string, wxid: string) {
    Lower(u) == Lower(wxid) || Lower(u) == Lower(AccountDirectory.CleanAccountDirName(wxid))
  }

  /** The private-chat usernames: the sessions the query keeps, in table
      order, minus the owner's own.  The query clause is the intended one,
      `SessionRowKept`; the written one is `SessionRowKeptAsWritten`. */
  function PrivateUsernames(sessions: seq<string>, wxid: string): seq<string>
    decreases |sessions|
  {
    if sessions == [] then []
    else
      var u := Last(sessions);
      PrivateUsernames(Init(sessions), wxid) + (if SessionRowKept(u) && !IsSelf(u, wxid) then [u] else [])
  }

  /** The private chats are the kept sessions other than the owner's; they
      include every session the written clause keeps, and differ from it
      only in sessions whose names start with `gh` but not with `gh_`. */
  lemma {:induction false} PrivateUsernamesSpec(sessions: seq<string>, wxid: string)
    ensures forall u :: u in PrivateUsernames(sessions, wxid) <==>
                        u in sessions && SessionRowKept(u) && !IsSelf(u, wxid)
    ensures forall u :: u in sessions && SessionRowKeptAsWritten(u) && !IsSelf(u, wxid) ==>
                        u in PrivateUsernames(sessions, wxid)
    ensures forall u :: u in PrivateUsernames(sessions, wxid) && !SessionRowKeptAsWritten(u) ==>
                        Like(u, "gh_%") && !StartsWith(Lower(u), "gh_")
    decreases |sessions|
  {
    if sessions != [] {
      PrivateUsernamesSpec(Init(sessions), wxid);
      assert sessions == Init(sessions) + [Last(sessions)];
    }
    forall u | u in sessions && SessionRowKeptAsWritten(u)
      ensures SessionRowKept(u)
    {
      AsWrittenDropsMore(u);
    }
  }

  // ---- Table to contact -----------------------------------------------

  /** `hashToUsername`: later usernames overwrite earlier ones with the same
      hash.  `hash` stands for the MD5 hex digest of a username. */
  function HashIndex(users: seq<string>, hash: string -> string): map<string, string>
    decreases |users|
  {
    if users == [] then map[]
    else HashIndex(Init(users), hash)[hash(Last(users)) := Last(users)]
  }

  /** Every username's hash is indexed, and each entry is the last username
      with that hash. */
  lemma HashIndexSpec(users: seq<string>, hash: string -> string)
    ensures forall h :: h in HashIndex(users, hash) <==> exists i :: 0 <= i < |users| && hash(users[i]) == h
    ensures forall h :: h in HashIndex(users, hash) ==>
              exists i :: 0 <= i < |users| && users[i] == HashIndex(users, hash)[h] && hash(users[i]) == h &&
                          forall j :: i < j < |users| ==> hash(users[j]) != h
  {
    forall h
      ensures h in HashIndex(users, hash) <==> exists i :: 0 <= i < |users| && hash(users[i]) == h
    {
      HashIndexKey(users, hash, h);
    }
    forall h | h in HashIndex(users, hash)
      ensures exists i :: 0 <= i < |users| && users[i] == HashIndex(users, hash)[h] && hash(users[i]) == h &&
                          forall j :: i < j < |users| ==> hash(users[j]) != h
    {
      var i := HashIndexEntry(users, hash, h);
    }
  }

  /** A hash is indexed exactly when some username has it. */
  lemma {:induction false} HashIndexKey(users: seq<string>, hash: string -> string, h: string)
    ensures h in HashIndex(users, hash) <==> exists i :: 0 <= i < |users| && hash(users[i]) == h
    decreases |users|
  {
    if users != [] {
      var p := Init(users);
      var n := |users| - 1;
      HashIndexKey(p, hash, h);
      if h in HashIndex(p, hash) {
        var i :| 0 <= i < |p| && hash(p[i]) == h;
        assert users[i] == p[i];
      }
      if exists i :: 0 <= i < |users| && hash(users[i]) == h {
        var i :| 0 <= i < |users| && hash(users[i]) == h;
        if i < n {
          assert p[i] == users[i];
        }
      }
    }
  }

  /** The entry of an indexed hash is the last username with that hash. */
  lemma {:induction false} HashIndexEntry(users: seq<string>, hash: string -> string, h: string) returns (i: nat)
    requires h in HashIndex(users, hash)
    ensures i < |users| && users[i] == HashIndex(users, hash)[h] && hash(users[i]) == h
    ensures forall j :: i < j < |users| ==> hash(users[j]) != h
    decreases |users|
  {
    var p := Init(users);
    var n := |users| - 1;
    if h == hash(users[n]) {
      i := n;
    } else {
      i := HashIndexEntry(p, hash, h);
      assert users[i] == p[i];
      assert forall j :: i < j < n ==> users[j] == p[j];
    }
  }

  /** The contact whose private chat a table holds: the table name minus
      its first `Msg_`, looked up in the index; an empty username counts as
      none. */
  function SessionOfTable(index: map<string, string>, tableName: string): (r: Option<string>)
    ensures r.Some? ==> r.value != "" && r.value in index.Values
  {
    var h := ReplaceFirst(tableName, "Msg_", "");
    if h in index && index[h] != "" then Some(index[h]) else None
  }

  // ---- Which messages reach the loop ----------------------------------

  /** The rows of one table, each attributed to `contact`. */
  function Tag(contact: string, rows: seq<Message>): (r: seq<Event>)
    ensures |r| == |rows|
    ensures forall i :: 0 <= i < |rows| ==> r[i] == Event(contact, rows[i])
  {
    seq(|rows|, i requires 0 <= i < |rows| => Event(contact, rows[i]))
  }

  /** A shard can attribute a message to its sender only with a `Name2Id`
      table that contains the owner. */
  predicate CanAttribute(sh: Shard) {
    sh.hasName2Id && sh.myRowId.Some?
  }

  /** The messages one table contributes: none unless it is a `Msg_%` table
      of a private chat in a shard that can attribute senders and its query
      succeeded. */
  function TableEvents(index: map<string, string>, attributes: bool, t: Table): seq<Event>
  {
    if !Like(t.name, "Msg_%") then []
    else
      match SessionOfTable(index, t.name)
      case None => []
      case Some(contact) => if !attributes || t.rows.None? then [] else Tag(contact, t.rows.value)
  }

  function TablesEvents(index: map<string, string>, attributes: bool, ts: seq<Table>): seq<Event>
    decreases |ts|
  {
    if ts == [] then []
    else TablesEvents(index, attributes, Init(ts)) + TableEvents(index, attributes, Last(ts))
  }

  function ShardEvents(index: map<string, string>, sh: Shard): seq<Event>
  {
    if !sh.isOpen then [] else TablesEvents(index, CanAttribute(sh), sh.tables)
  }

  /** The message stream of the aggregation loop: shards in file order,
      tables in listing order, rows in query order. */
  function Events(index: map<string, string>, shards: seq<Shard>): seq<Event>
    decreases |shards|
  {
    if shards == [] then []
    else Events(index, Init(shards)) + ShardEvents(index, Last(shards))
  }

  /** Every message of the stream belongs to a private-chat contact that the
      index knows. */
  lemma {:induction false} EventsFromIndexedContacts(index: map<string, string>, shards: seq<Shard>)
    ensures forall e :: e in Events(index, shards) ==> e.contact != "" && e.contact in index.Values
    decreases |shards|
  {
    if shards != [] {
      EventsFromIndexedContacts(index, Init(shards));
      var sh := Last(shards);
      if sh.isOpen {
        TablesFromIndexedContacts(index, CanAttribute(sh), sh.tables);
      }
    }
  }

  lemma {:induction false} TablesFromIndexedContacts(index: map<string, string>, attributes: bool, ts: seq<Table>)
    ensures forall e :: e in TablesEvents(index, attributes, ts) ==> e.contact != "" && e.contact in index.Values
    decreases |ts|
  {
    if ts != [] {
      TablesFromIndexedContacts(index, attributes, Init(ts));
    }
  }

  /** A shard without a usable `Name2Id` table contributes nothing. */
  lemma {:induction false} UnattributedShardContributesNothing(index: map<string, string>, ts: seq<Table>)
    ensures TablesEvents(index, false, ts) == []
    decreases |ts|
  {
    if ts != [] {
      UnattributedShardContributesNothing(index, Init(ts));
    }
  }
}
