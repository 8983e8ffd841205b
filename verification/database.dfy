/**
 One user's database file as a whole: the `accounts`, `history` and `actions` tables, and
 the calls that change them, each taken as one all-or-nothing transition.
 */
module AccountDatabase {
  import opened Seqs
  import opened Accounts
  import opened CommaList
  import opened Ledger
  import opened Reconcile
  import opened Sweep

  /**
   The tables of one user's database file that the core writes. The file also has a
   `general` table, which no modelled call touches.
   */
  datatype State = State(accounts: Table, history: seq<HistoryEntry>, actions: seq<ActionEntry>)

  /** The file `createUserDatabases` leaves behind: every table empty. */
  const Fresh: State := State([], [], [])

  /** The history row of one call: the raw list lengths and each delta comma-joined. */
  function HistoryRow(time: string, followers: seq<string>, following: seq<string>, d: Deltas): (e: HistoryEntry) {
    HistoryEntry(time, |followers|, |following|,
      Join(d.newFollowers), Join(d.lostFollowers), Join(d.newFollowing), Join(d.unFollowing))
  }

  /**
   `updateFollowersAndFollowing(followersList, followingList)`. The accounts table ends
   with one row per listed or stored name, flagged by membership in the two lists; exactly
   one history row is appended, counting the lists as given (duplicates included), with
   blank new-follower and new-following deltas when the table was empty; the actions
   table is left alone.
   */
  function UpdateFollowersAndFollowing(s: State, followers: seq<string>, following: seq<string>, time: string): (r: State)
    ensures forall u :: u in Usernames(r.accounts) <==> u in Usernames(s.accounts) || u in followers || u in following
    ensures forall i | 0 <= i < |r.accounts| ::
      r.accounts[i].followsMe == (r.accounts[i].username in followers)
      && r.accounts[i].iFollow == (r.accounts[i].username in following)
    ensures IsPrefix(Usernames(s.accounts), Usernames(r.accounts))
    ensures forall i | 0 <= i < |s.accounts| :: SameExceptFlags(r.accounts[i], s.accounts[i])
    ensures forall i | |s.accounts| <= i < |r.accounts| ::
      r.accounts[i] == NewRow(r.accounts[i].username, r.accounts[i].followsMe, r.accounts[i].iFollow)
    ensures |r.history| == |s.history| + 1 && r.history[..|s.history|] == s.history
    ensures r.history[|s.history|].time == time
    ensures r.history[|s.history|].followersCount == |followers|
    ensures r.history[|s.history|].followingCount == |following|
    ensures |s.accounts| == 0 ==>
      (r.history[|s.history|].newFollowers == "" && r.history[|s.history|].newFollowing == ""
      && r.history[|s.history|].lostFollowers == "" && r.history[|s.history|].unFollowing == "")
    ensures r.actions == s.actions
  {
    var d := ComputeDeltas(s.accounts, followers, following);
    State(ApplyGroups(s.accounts, followers, following),
      s.history + [HistoryRow(time, followers, following, d)],
      s.actions)
  }

  /**
   After the call the stored followers are exactly the listed followers, and the stored
   followed accounts exactly the listed following.
   */
  lemma StoredFlagsMatchLists(s: State, followers: seq<string>, following: seq<string>, time: string, u: string)
    ensures var r := UpdateFollowersAndFollowing(s, followers, following, time);
      (Follower(r.accounts, u) <==> u in followers) && (Followed(r.accounts, u) <==> u in following)
  {
    var r := UpdateFollowersAndFollowing(s, followers, following, time);
    FlagsByMembership(r.accounts, Usernames(s.accounts), followers, following, u);
  }

  /** In a table flagged by membership that stores every listed name, the flags answer membership. */
  lemma FlagsByMembership(r: Table, stored: seq<string>, followers: seq<string>, following: seq<string>, u: string)
    requires forall v :: v in Usernames(r) <==> v in stored || v in followers || v in following
    requires forall i | 0 <= i < |r| ::
      r[i].followsMe == (r[i].username in followers) && r[i].iFollow == (r[i].username in following)
    ensures (Follower(r, u) <==> u in followers) && (Followed(r, u) <==> u in following)
  {
    if u in followers || u in following {
      assert u in Usernames(r);
      var i :| 0 <= i < |r| && Usernames(r)[i] == u;
      assert r[i].username == u;
    }
  }

  /** A delta list holds only names from the lists or the table, so it inherits their listability. */
  lemma DeltasListable(t: Table, followers: seq<string>, following: seq<string>)
    requires Listable(followers) && Listable(following) && Listable(Usernames(t))
    ensures var d := ComputeDeltas(t, followers, following);
      Listable(d.newFollowers) && Listable(d.lostFollowers) && Listable(d.newFollowing) && Listable(d.unFollowing)
  {
    var d := ComputeDeltas(t, followers, following);
    forall u | Follower(t, u) || Followed(t, u)
      ensures u in Usernames(t)
    {
      var i :| 0 <= i < |t| && t[i].username == u;
      assert Usernames(t)[i] == u;
    }
  }

  /**
   When no name is blank or holds a comma, the history row reads back as the deltas: its
   new followers are the listed followers the table did not flag as followers (none on the
   first run), its lost followers the flagged followers missing from the list, and likewise
   for following.
   */
  lemma HistoryRecordsDeltas(s: State, followers: seq<string>, following: seq<string>, time: string)
    requires Listable(followers) && Listable(following) && Listable(Usernames(s.accounts))
    ensures var e := UpdateFollowersAndFollowing(s, followers, following, time).history[|s.history|];
      (forall u :: u in ParseList(e.newFollowers) <==> |s.accounts| > 0 && u in followers && !Follower(s.accounts, u))
      && (forall u :: u in ParseList(e.lostFollowers) <==> Follower(s.accounts, u) && u !in followers)
      && (forall u :: u in ParseList(e.newFollowing) <==> |s.accounts| > 0 && u in following && !Followed(s.accounts, u))
      && (forall u :: u in ParseList(e.unFollowing) <==> Followed(s.accounts, u) && u !in following)
  {
    var d := ComputeDeltas(s.accounts, followers, following);
    DeltasListable(s.accounts, followers, following);
    ParseJoinRoundTrip(d.newFollowers);
    ParseJoinRoundTrip(d.lostFollowers);
    ParseJoinRoundTrip(d.newFollowing);
    ParseJoinRoundTrip(d.unFollowing);
  }

  /**
   The earliest revision read both lists from text files with `split(',')`. An empty
   file is then read as one blank name rather than as no names.
   */
  function UpdateFromFilesAsWritten(s: State, followersText: string, followingText: string, time: string): (r: State)
    ensures |r.history| == |s.history| + 1
    ensures r.history[|s.history|].followersCount == multiset(followersText)[','] + 1
    ensures r.history[|s.history|].followingCount == multiset(followingText)[','] + 1
  {
    SplitCount(followersText);
    SplitCount(followingText);
    UpdateFollowersAndFollowing(s, Split(followersText), Split(followingText), time)
  }

  /**
   Two empty files on a fresh database: the as-written reading stores a blank username
   flagged as a mutual and records one follower and one following.
   */
  lemma EmptyFilesCreateBlankMutual(time: string)
    ensures var r := UpdateFromFilesAsWritten(Fresh, "", "", time);
      r.accounts == [NewRow("", true, true)]
      && r.history[0].followersCount == 1 && r.history[0].followingCount == 1
  {
    EmptyTextSplitsToBlankName();
    var r := UpdateFromFilesAsWritten(Fresh, "", "", time);
    OnlyBlankNameStored(r.accounts);
  }

  /** A table of fresh rows holding only the blank name, flagged as listed in both lists. */
  lemma OnlyBlankNameStored(r: Table)
    requires forall u :: u in Usernames(r) <==> u == ""
    requires forall i | 0 <= i < |r| :: r[i].followsMe == (r[i].username == "") && r[i].iFollow == (r[i].username == "")
    requires forall i | 0 <= i < |r| :: r[i] == NewRow(r[i].username, r[i].followsMe, r[i].iFollow)
    ensures r == [NewRow("", true, true)]
  {
    RowsPerName(r, {""});
    assert Usernames(r)[0] == "";
  }

  /**
   The file reading with the empty text taken as the empty list. Empty files then add no
   account and count no follower or following.
   */
  function UpdateFromFiles(s: State, followersText: string, followingText: string, time: string): (r: State)
    ensures |r.history| == |s.history| + 1
    ensures followersText == "" ==> r.history[|s.history|].followersCount == 0
    ensures followingText == "" ==> r.history[|s.history|].followingCount == 0
    ensures followersText == "" && followingText == "" ==> Usernames(r.accounts) == Usernames(s.accounts)
    ensures forall u :: u in Usernames(r.accounts) <==>
      u in Usernames(s.accounts) || u in ParseList(followersText) || u in ParseList(followingText)
  {
    var r := UpdateFollowersAndFollowing(s, ParseList(followersText), ParseList(followingText), time);
    if followersText == "" && followingText == "" then
      NoNewNames(s.accounts, r.accounts);
      r
    else r
  }

  /** A table that extends another and holds no other name holds the same names, in order. */
  lemma NoNewNames(t: Table, r: Table)
    requires forall u :: u in Usernames(r) <==> u in Usernames(t)
    requires IsPrefix(Usernames(t), Usernames(r))
    ensures Usernames(r) == Usernames(t)
  {
    RowsPerName(r, Elems(Usernames(t)));
    RowsPerName(t, Elems(Usernames(t)));
  }

  /** The calls that change a database file. */
  datatype Call =
    | Sync(followers: seq<string>, following: seq<string>, time: string)
    | Expire(now: int, daysLimit: int)
    | Act(accountId: string, actionType: string, time: string)

  /**
   One call. None deletes an account, reorders the stored usernames, or rewrites a
   history or action row.
   */
  function Step(s: State, c: Call): (r: State)
    ensures IsPrefix(Usernames(s.accounts), Usernames(r.accounts))
    ensures IsPrefix(s.history, r.history)
    ensures IsPrefix(s.actions, r.actions)
  {
    match c
    case Sync(followers, following, time) =>
      PrefixReflexive(s.actions);
      UpdateFollowersAndFollowing(s, followers, following, time)
    case Expire(now, daysLimit) =>
      var swept := UpdateExpired(s.accounts, now, daysLimit).accounts;
      PrefixReflexive(Usernames(s.accounts));
      PrefixReflexive(s.history);
      PrefixReflexive(s.actions);
      State(swept, s.history, s.actions)
    case Act(accountId, actionType, time) =>
      PrefixReflexive(Usernames(s.accounts));
      PrefixReflexive(s.history);
      State(s.accounts, s.history, AddAction(s.actions, accountId, actionType, time))
  }

  /** A sequence of calls, first to last. */
  function Run(s: State, calls: seq<Call>): (r: State)
    decreases |calls|
  {
    if calls == [] then s else Run(Step(s, calls[0]), calls[1..])
  }

  /**
   Whatever calls run, the history and the actions only grow at the end and no account is
   ever removed or moved: the tables are append-only.
   */
  lemma {:induction false} RunAppendOnly(s: State, calls: seq<Call>)
    ensures var r := Run(s, calls);
      IsPrefix(Usernames(s.accounts), Usernames(r.accounts))
      && IsPrefix(s.history, r.history) && IsPrefix(s.actions, r.actions)
    decreases |calls|
  {
    if calls != [] {
      var s1 := Step(s, calls[0]);
      RunAppendOnly(s1, calls[1..]);
      var r := Run(s1, calls[1..]);
      PrefixTransitive(Usernames(s.accounts), Usernames(s1.accounts), Usernames(r.accounts));
      PrefixTransitive(s.history, s1.history, r.history);
      PrefixTransitive(s.actions, s1.actions, r.actions);
    }
  }
}
