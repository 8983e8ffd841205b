/** The two append-only tables: `history` (one row per reconciliation) and `actions`. */
module Ledger {

  /** One row of the `history` table; each delta is a comma-joined list of usernames. */
  datatype HistoryEntry = HistoryEntry(
    time: string,
    followersCount: nat,
    followingCount: nat,
    newFollowers: string,
    lostFollowers: string,
    newFollowing: string,
    unFollowing: string)

  /**
   One row of the `actions` table. The `account_id` column is declared INTEGER, but callers
   pass usernames (and once `-1`); SQLite keeps whatever is bound, so it is text here.
   */
  datatype ActionEntry = ActionEntry(accountId: string, actionType: string, time: string)

  /** `INSERT INTO actions (account_id, action_type, time) VALUES (?, ?, ?)`. */
  function AddAction(actions: seq<ActionEntry>, accountId: string, actionType: string, time: string): (r: seq<ActionEntry>)
    ensures |r| == |actions| + 1
    ensures r[..|actions|] == actions
    ensures r[|actions|].accountId == accountId && r[|actions|].actionType == actionType && r[|actions|].time == time
  {
    actions + [ActionEntry(accountId, actionType, time)]
  }

  /**
   The ledger is an audit trail, not a set: each call adds one more copy of its row, so
   two identical calls leave two identical rows.
   */
  lemma AddActionNoDedup(actions: seq<ActionEntry>, accountId: string, actionType: string, time: string)
    ensures var e := ActionEntry(accountId, actionType, time);
      multiset(AddAction(actions, accountId, actionType, time))[e] == multiset(actions)[e] + 1
    ensures var twice := AddAction(AddAction(actions, accountId, actionType, time), accountId, actionType, time);
      |twice| == |actions| + 2 && twice[|actions|] == twice[|actions| + 1]
  {
    var e := ActionEntry(accountId, actionType, time);
    assert multiset(actions + [e]) == multiset(actions) + multiset{e};
  }
}
