/**
 The concrete runs the repository's tests describe, stated against the model. The lists
 are parameters pinned by `requires` to the values the tests use; each run is reduced to
 a lemma about the resulting table, stated for any distinct usernames.
 */
module Scenarios {
  import opened Wrappers
  import opened Seqs
  import opened Accounts
  import opened Ledger
  import opened Reconcile
  import opened Sweep
  import opened AccountDatabase

  /** Every row of a reconciled table answers follower and followed questions by list membership. */
  lemma FlagsByMembershipAll(r: Table, stored: seq<string>, followers: seq<string>, following: seq<string>)
    requires forall v :: v in Usernames(r) <==> v in stored || v in followers || v in following
    requires forall i | 0 <= i < |r| ::
      r[i].followsMe == (r[i].username in followers) && r[i].iFollow == (r[i].username in following)
    ensures forall u :: (Follower(r, u) <==> u in followers) && (Followed(r, u) <==> u in following)
  {
    forall u
      ensures (Follower(r, u) <==> u in followers) && (Followed(r, u) <==> u in following)
    {
      FlagsByMembership(r, stored, followers, following, u);
    }
  }

  // First and second synchronisation (backend/AccountDatabase.test.js, lines 51-87)

  /** The table after the first run, for any three distinct names in the roles of user1..user3. */
  lemma FirstSyncTable(r: Table, f: seq<string>, g: seq<string>, a: string, b: string, c: string)
    requires f == [a, b] && g == [b, c] && a != b && b != c && a != c
    requires forall v :: v in Usernames(r) <==> v in f || v in g
    requires forall i | 0 <= i < |r| ::
      r[i].followsMe == (r[i].username in f) && r[i].iFollow == (r[i].username in g)
    ensures |r| == 3
    ensures Follower(r, a) && !Followed(r, a)
    ensures Follower(r, b) && Followed(r, b)
    ensures !Follower(r, c) && Followed(r, c)
  {
    RowsPerName(r, {a, b, c});
    FlagsByMembership(r, [], f, g, a);
    FlagsByMembership(r, [], f, g, b);
    FlagsByMembership(r, [], f, g, c);
  }

  /**
   First run on an empty table with followers [user1, user2] and following [user2, user3]:
   three accounts, flagged (1,0), (1,1) and (0,1).
   */
  lemma FirstSyncAccounts(f: seq<string>, g: seq<string>, time: string)
    requires f == ["user1", "user2"] && g == ["user2", "user3"]
    ensures var s := UpdateFollowersAndFollowing(Fresh, f, g, time);
      |s.accounts| == 3
      && (Follower(s.accounts, "user1") && !Followed(s.accounts, "user1"))
      && (Follower(s.accounts, "user2") && Followed(s.accounts, "user2"))
      && (!Follower(s.accounts, "user3") && Followed(s.accounts, "user3"))
  {
    var s := UpdateFollowersAndFollowing(Fresh, f, g, time);
    FirstSyncTable(s.accounts, f, g, "user1", "user2", "user3");
  }

  /** The first run records one history row counting two and two, with every delta blank. */
  lemma FirstSyncHistory(f: seq<string>, g: seq<string>, time: string)
    requires f == ["user1", "user2"] && g == ["user2", "user3"]
    ensures UpdateFollowersAndFollowing(Fresh, f, g, time).history == [HistoryEntry(time, 2, 2, "", "", "", "")]
  {
  }

  /** The table after the second run, for any five distinct names in the roles of user1..user5. */
  lemma SecondSyncTable(r: Table, t: Table, f0: seq<string>, g0: seq<string>, f: seq<string>, g: seq<string>,
                                           a: string, b: string, c: string, d: string, e: string)
    requires f0 == [a, b] && g0 == [b, c] && f == [a, d] && g == [b, e]
    requires a != b && a != c && a != d && a != e && b != c && b != d && b != e && c != d && c != e && d != e
    requires forall v :: v in Usernames(t) <==> v in f0 || v in g0
    requires forall v :: v in Usernames(r) <==> v in Usernames(t) || v in f || v in g
    requires forall i | 0 <= i < |r| ::
      r[i].followsMe == (r[i].username in f) && r[i].iFollow == (r[i].username in g)
    ensures |r| == 5
    ensures c in Usernames(r)
    ensures Follower(r, a) && !Followed(r, a)
    ensures !Follower(r, b) && Followed(r, b)
    ensures !Follower(r, c) && !Followed(r, c)
    ensures Follower(r, d) && !Followed(r, d)
    ensures !Follower(r, e) && Followed(r, e)
  {
    RowsPerName(r, {a, b, c, d, e});
    FlagsByMembership(r, Usernames(t), f, g, a);
    FlagsByMembership(r, Usernames(t), f, g, b);
    FlagsByMembership(r, Usernames(t), f, g, c);
    FlagsByMembership(r, Usernames(t), f, g, d);
    FlagsByMembership(r, Usernames(t), f, g, e);
  }

  /** The names a table flagged as followers and as followed, for three distinct names. */
  lemma {:induction false} StoredSelections(t: Table, a: string, b: string, c: string)
    requires forall u :: Follower(t, u) <==> u in [a, b]
    requires forall u :: Followed(t, u) <==> u in [b, c]
    ensures forall u :: u in NamesWhere(t, FollowsMe) <==> u == a || u == b
    ensures forall u :: u in NamesWhere(t, IFollow) <==> u == b || u == c
    ensures |t| > 0
  {
    forall u
      ensures (u in NamesWhere(t, FollowsMe) <==> u == a || u == b)
      && (u in NamesWhere(t, IFollow) <==> u == b || u == c)
    {
      NamesWhereFlags(t, u);
    }
    assert Follower(t, a);
  }

  /** One name kept, one lost and one added, from both sides of the comparison. */
  lemma DropBoth(orig: seq<string>, listed: seq<string>, kept: string, lost: string, added: string)
    requires Distinct(orig)
    requires forall u :: u in orig <==> u == kept || u == lost
    requires listed == [kept, added] && kept != lost && added != kept && added != lost
    ensures Drop(listed, orig) == [added] && Drop(orig, listed) == [lost]
  {
    DropDistinct(orig, listed);
    OnlyMember(Drop(orig, listed), lost);
  }

  /** The deltas of the second run, from the flags the first run stored. */
  lemma SecondSyncDeltas(t: Table, f: seq<string>, g: seq<string>)
    requires f == ["user1", "user4"] && g == ["user2", "user5"]
    requires forall u :: Follower(t, u) <==> u in ["user1", "user2"]
    requires forall u :: Followed(t, u) <==> u in ["user2", "user3"]
    ensures ComputeDeltas(t, f, g) == Deltas(["user4"], ["user2"], ["user5"], ["user3"])
  {
    StoredSelections(t, "user1", "user2", "user3");
    DropBoth(NamesWhere(t, FollowsMe), f, "user1", "user2", "user4");
    DropBoth(NamesWhere(t, IFollow), g, "user2", "user3", "user5");
  }

  /**
   Second run with followers [user1, user4] and following [user2, user5]: five accounts,
   flagged (1,0), (0,1), (0,0), (1,0) and (0,1); user3 keeps its row.
   */
  lemma SecondSyncAccounts(f1: seq<string>, g1: seq<string>, f2: seq<string>, g2: seq<string>, t1: string, t2: string)
    requires f1 == ["user1", "user2"] && g1 == ["user2", "user3"]
    requires f2 == ["user1", "user4"] && g2 == ["user2", "user5"]
    ensures var s := UpdateFollowersAndFollowing(UpdateFollowersAndFollowing(Fresh, f1, g1, t1), f2, g2, t2);
      |s.accounts| == 5
      && (Follower(s.accounts, "user1") && !Followed(s.accounts, "user1"))
      && (!Follower(s.accounts, "user2") && Followed(s.accounts, "user2"))
      && ("user3" in Usernames(s.accounts) && !Follower(s.accounts, "user3") && !Followed(s.accounts, "user3"))
      && (Follower(s.accounts, "user4") && !Followed(s.accounts, "user4"))
      && (!Follower(s.accounts, "user5") && Followed(s.accounts, "user5"))
  {
    var s1 := UpdateFollowersAndFollowing(Fresh, f1, g1, t1);
    var s := UpdateFollowersAndFollowing(s1, f2, g2, t2);
    SecondSyncTable(s.accounts, s1.accounts, f1, g1, f2, g2, "user1", "user2", "user3", "user4", "user5");
  }

  /**
   The second run's history row: two and two, new follower user4, lost follower user2,
   newly followed user5, un-followed user3.
   */
  lemma SecondSyncHistory(f1: seq<string>, g1: seq<string>, f2: seq<string>, g2: seq<string>, t1: string, t2: string)
    requires f1 == ["user1", "user2"] && g1 == ["user2", "user3"]
    requires f2 == ["user1", "user4"] && g2 == ["user2", "user5"]
    ensures var s := UpdateFollowersAndFollowing(UpdateFollowersAndFollowing(Fresh, f1, g1, t1), f2, g2, t2);
      s.history[1] == HistoryEntry(t2, 2, 2, "user4", "user2", "user5", "user3")
  {
    var s1 := UpdateFollowersAndFollowing(Fresh, f1, g1, t1);
    FlagsByMembershipAll(s1.accounts, [], f1, g1);
    SecondSyncDeltas(s1.accounts, f2, g2);
  }

  // Edge cases (backend/AccountDatabase.test.js, lines 203-217; test.js, lines 302-304)

  /** Empty lists on an empty table store nothing. */
  lemma EmptyListsScenario(time: string)
    ensures UpdateFollowersAndFollowing(Fresh, [], [], time).accounts == []
  {
    var r := UpdateFollowersAndFollowing(Fresh, [], [], time).accounts;
    RowsPerName(r, {});
  }

  /** A table holding exactly two distinct names has two rows. */
  lemma TwoNames(r: Table, a: string, b: string)
    requires a != b
    requires forall v :: v in Usernames(r) <==> v in [a, a] || v in [b, b]
    ensures |r| == 2
  {
    RowsPerName(r, {a, b});
  }

  /**
   Followers [user1, user1] and following [user2, user2]: two accounts, while the history
   row counts the lists as given, two and two.
   */
  lemma DuplicatesScenario(f: seq<string>, g: seq<string>, time: string)
    requires f == ["user1", "user1"] && g == ["user2", "user2"]
    ensures var s := UpdateFollowersAndFollowing(Fresh, f, g, time);
      |s.accounts| == 2 && s.history[0].followersCount == 2 && s.history[0].followingCount == 2
  {
    var s := UpdateFollowersAndFollowing(Fresh, f, g, time);
    TwoNames(s.accounts, "user1", "user2");
  }

  // getRandomMutual (backend/AccountDatabase.test.js, lines 93-108)

  /** Whatever the roll, the only account flagged both ways is the one picked. */
  lemma OnlyMutualPicked(r: Table, f: seq<string>, g: seq<string>, a: string, b: string, c: string, m: string, roll: real)
    requires 0.0 <= roll < 1.0
    requires f == [a, b, m] && g == [c, m] && a != c && b != c && a != m && b != m
    requires forall v :: v in Usernames(r) <==> v in Usernames(Fresh.accounts) || v in f || v in g
    requires forall i | 0 <= i < |r| ::
      r[i].followsMe == (r[i].username in f) && r[i].iFollow == (r[i].username in g)
    ensures GetRandomMutual(r, roll) == Some(m)
  {
    assert m in Usernames(r);
    var i :| 0 <= i < |r| && Usernames(r)[i] == m;
    assert r[i].followsMe && r[i].iFollow;
  }

  /** With followers [user1, user2, user4] and following [user3, user4], every roll picks user4. */
  lemma RandomMutualScenario(f: seq<string>, g: seq<string>, time: string, roll: real)
    requires f == ["user1", "user2", "user4"] && g == ["user3", "user4"]
    requires 0.0 <= roll < 1.0
    ensures GetRandomMutual(UpdateFollowersAndFollowing(Fresh, f, g, time).accounts, roll) == Some("user4")
  {
    var r := UpdateFollowersAndFollowing(Fresh, f, g, time).accounts;
    OnlyMutualPicked(r, f, g, "user1", "user2", "user3", "user4", roll);
  }

  /** With no name in both lists, no roll picks anyone. */
  lemma NoMutualScenario(f: seq<string>, g: seq<string>, time: string, roll: real)
    requires f == ["user1", "user2"] && g == ["user3", "user4"]
    requires 0.0 <= roll < 1.0
    ensures GetRandomMutual(UpdateFollowersAndFollowing(Fresh, f, g, time).accounts, roll) == None
  {
    var r := UpdateFollowersAndFollowing(Fresh, f, g, time).accounts;
    NonePicked(r, f, g, "user1", "user2", "user3", "user4", roll);
  }

  /** Lists with no name in common leave no account flagged both ways, so no roll picks anyone. */
  lemma NonePicked(r: Table, f: seq<string>, g: seq<string>, a: string, b: string, c: string, d: string, roll: real)
    requires 0.0 <= roll < 1.0
    requires f == [a, b] && g == [c, d] && a != c && a != d && b != c && b != d
    requires forall i | 0 <= i < |r| ::
      r[i].followsMe == (r[i].username in f) && r[i].iFollow == (r[i].username in g)
    ensures GetRandomMutual(r, roll) == None
  {
  }

  // addAction (backend/AccountDatabase.test.js, lines 141-152)

  /** One action on an empty ledger: one row, of the requested type, for the account. */
  lemma AddActionScenario(time: string)
    ensures var a := AddAction([], "user1", "follow", time);
      |a| == 1 && a[0].accountId == "user1" && a[0].actionType == "follow"
  {
  }

  // updateExpired (backend/AccountDatabase.test.js, lines 112-139)

  /** Every row for `u` has no request outstanding and the given blacklist flag. */
  predicate Cleared(t: seq<Account>, u: string, blacklisted: bool) {
    forall i | 0 <= i < |t| && t[i].username == u :: t[i].blacklisted == blacklisted && t[i].requestTime == NoRequest
  }

  /** The test's setup step: the request time of the named accounts set to `ms`. */
  function WithRequest(t: Table, names: seq<string>, ms: int): (r: Table)
    ensures Usernames(r) == Usernames(t)
    ensures forall i | 0 <= i < |t| ::
      r[i] == if t[i].username in names then t[i].(requestTime := SentAt(ms)) else t[i]
  {
    var r := seq(|t|, i requires 0 <= i < |t| => if t[i].username in names then t[i].(requestTime := SentAt(ms)) else t[i]);
    assert Usernames(r) == Usernames(t);
    r
  }

  /**
   A sweep over a table where `stranger` (not a follower) and `fan` (a follower) both have
   requests older than the limit: the stranger is blacklisted and reported, the fan is
   not, and both requests are cleared.
   */
  lemma ExpiryOutcome(t: Table, now: int, daysLimit: int, stranger: string, fan: string)
    requires daysLimit >= 0
    requires stranger in Usernames(t) && fan in Usernames(t)
    requires forall i | 0 <= i < |t| && t[i].username == stranger ::
      !t[i].followsMe && t[i].requestTime == SentAt(now - (daysLimit + 1) * MsPerDay)
    requires forall i | 0 <= i < |t| && t[i].username == fan ::
      t[i].followsMe && !t[i].blacklisted && t[i].requestTime == SentAt(now - (daysLimit + 1) * MsPerDay)
    ensures var r := UpdateExpired(t, now, daysLimit);
      stranger in Usernames(r.accounts) && fan in Usernames(r.accounts)
      && stranger in r.blacklisted && fan !in r.blacklisted
      && Cleared(r.accounts, stranger, true)
      && Cleared(r.accounts, fan, false)
  {
    var r := UpdateExpired(t, now, daysLimit);
    var i :| 0 <= i < |t| && Usernames(t)[i] == stranger;
    assert t[i].username == stranger && Expired(t[i], now, daysLimit);
    forall j | 0 <= j < |r.accounts| && (r.accounts[j].username == stranger || r.accounts[j].username == fan)
      ensures Expired(t[j], now, daysLimit) && t[j].username == r.accounts[j].username
    {
      assert Usernames(r.accounts)[j] == Usernames(t)[j];
    }
  }

  /** A table a first synchronisation with `f` and `g` produced. */
  ghost predicate FreshlySynced(r: Table, f: seq<string>, g: seq<string>) {
    (forall v :: v in Usernames(r) <==> v in f || v in g)
    && (forall i | 0 <= i < |r| :: r[i].followsMe == (r[i].username in f) && r[i].iFollow == (r[i].username in g))
    && (forall i | 0 <= i < |r| :: r[i] == NewRow(r[i].username, r[i].followsMe, r[i].iFollow))
  }

  /** Synchronising an empty database yields a freshly synced table. */
  lemma FreshSync(f: seq<string>, g: seq<string>, time: string)
    ensures FreshlySynced(UpdateFollowersAndFollowing(Fresh, f, g, time).accounts, f, g)
  {
  }

  /**
   The test's sweep: after a run with followers [user1, user2, user4] and following
   [user1, user3], user3 and user4 get requests eight days old and the limit is seven
   days. user3 is blacklisted and returned, user4 is not, and neither keeps a request.
   */
  lemma ExpiryScenario(f: seq<string>, g: seq<string>, time: string, now: int)
    requires f == ["user1", "user2", "user4"] && g == ["user1", "user3"]
    ensures var t := WithRequest(UpdateFollowersAndFollowing(Fresh, f, g, time).accounts, ["user3", "user4"], now - 8 * MsPerDay);
      var r := UpdateExpired(t, now, 7);
      "user3" in Usernames(r.accounts) && "user4" in Usernames(r.accounts)
      && "user3" in r.blacklisted && "user4" !in r.blacklisted
      && Cleared(r.accounts, "user3", true)
      && Cleared(r.accounts, "user4", false)
  {
    FreshSync(f, g, time);
    ExpiryRun(UpdateFollowersAndFollowing(Fresh, f, g, time).accounts, f, g, now, "user1", "user2", "user3", "user4");
  }

  /** The sweep of the test, for any four distinct names in the roles of user1..user4. */
  lemma ExpiryRun(s: Table, f: seq<string>, g: seq<string>, now: int, a: string, b: string, c: string, d: string)
    requires f == [a, b, d] && g == [a, c]
    requires a != c && b != c && c != d
    requires FreshlySynced(s, f, g)
    ensures var t := WithRequest(s, [c, d], now - 8 * MsPerDay);
      var r := UpdateExpired(t, now, 7);
      c in Usernames(r.accounts) && d in Usernames(r.accounts)
      && c in r.blacklisted && d !in r.blacklisted
      && Cleared(r.accounts, c, true)
      && Cleared(r.accounts, d, false)
  {
    var t := WithRequest(s, [c, d], now - 8 * MsPerDay);
    assert c in Usernames(t) && d in Usernames(t);
    ExpiryOutcome(t, now, 7, c, d);
  }
}
