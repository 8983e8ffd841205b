/**
 The expiry sweep `updateExpired(DAYS_LIMIT)`: every follow request outstanding for more
 than `DAYS_LIMIT` days is withdrawn, and the account is blacklisted unless it has
 followed back in the meantime.
 */
module Sweep {
  import opened Seqs
  import opened Accounts

  /** `24 * 60 * 60 * 1000`: milliseconds per day. */
  const MsPerDay: int := 24 * 60 * 60 * 1000

  /** `Date.now() - Date.parse(request_time) > DAYS_LIMIT * 24 * 60 * 60 * 1000` for an outstanding request. */
  predicate Expired(a: Account, now: int, daysLimit: int) {
    a.requestTime.SentAt? && now - a.requestTime.ms > daysLimit * MsPerDay
  }

  /** What the sweep does to one row. */
  function Resolve(a: Account, now: int, daysLimit: int): (b: Account) {
    if !Expired(a, now, daysLimit) then a
    else if a.followsMe then a.(requestTime := NoRequest)
    else a.(requestTime := NoRequest, blacklisted := true)
  }

  /** The table after the sweep, and the usernames it blacklisted. */
  datatype SweepOutcome = SweepOutcome(accounts: Table, blacklisted: seq<string>)

  /** An account whose request expired and which does not follow the owner: it gets blacklisted. */
  predicate Rejected(a: Account, now: int, daysLimit: int) {
    Expired(a, now, daysLimit) && !a.followsMe
  }

  /** The usernames of the rejected rows, in row order. */
  function RejectedNames(rows: seq<Account>, now: int, daysLimit: int): (names: seq<string>)
    ensures forall u :: u in names <==>
      exists i | 0 <= i < |rows| :: rows[i].username == u && Rejected(rows[i], now, daysLimit)
    decreases |rows|
  {
    if rows == [] then []
    else
      var rest := RejectedNames(rows[1..], now, daysLimit);
      assert forall i | 1 <= i < |rows| :: rows[1..][i - 1] == rows[i];
      if Rejected(rows[0], now, daysLimit) then [rows[0].username] + rest else rest
  }

  /** Rows with distinct usernames give distinct rejected names. */
  lemma {:induction false} RejectedNamesDistinct(rows: seq<Account>, now: int, daysLimit: int)
    requires Distinct(Usernames(rows))
    ensures Distinct(RejectedNames(rows, now, daysLimit))
    decreases |rows|
  {
    if rows != [] {
      assert Usernames(rows) == [rows[0].username] + Usernames(rows[1..]);
      RejectedNamesDistinct(rows[1..], now, daysLimit);
      forall i | 0 <= i < |rows[1..]|
        ensures rows[1..][i].username != rows[0].username
      {
        assert Usernames(rows)[i + 1] == rows[1..][i].username;
      }
      assert rows[0].username !in RejectedNames(rows[1..], now, daysLimit);
    }
  }

  /** The rejected names come in row order. */
  lemma {:induction false} RejectedNamesInRowOrder(rows: seq<Account>, now: int, daysLimit: int)
    ensures SubsequenceOf(RejectedNames(rows, now, daysLimit), Usernames(rows))
    decreases |rows|
  {
    if rows != [] {
      RejectedNamesInRowOrder(rows[1..], now, daysLimit);
      HeadThenTail(rows, RejectedNames(rows[1..], now, daysLimit), Rejected(rows[0], now, daysLimit));
    }
  }

  /**
   `updateExpired` on the accounts table. An expired request is cleared and the account
   is then blacklisted exactly when it does not follow the owner; only those usernames
   are returned. Rows without an expired request are left as they are, and the usernames
   and their order do not change.
   */
  function UpdateExpired(t: Table, now: int, daysLimit: int): (r: SweepOutcome)
    ensures Usernames(r.accounts) == Usernames(t)
    ensures forall i | 0 <= i < |t| && !Expired(t[i], now, daysLimit) :: r.accounts[i] == t[i]
    ensures forall i | 0 <= i < |t| && Expired(t[i], now, daysLimit) ::
      r.accounts[i].requestTime == NoRequest
      && r.accounts[i].blacklisted == (t[i].blacklisted || !t[i].followsMe)
      && r.accounts[i] == t[i].(requestTime := NoRequest, blacklisted := r.accounts[i].blacklisted)
    ensures forall u :: u in r.blacklisted <==>
      exists i | 0 <= i < |t| :: t[i].username == u && Expired(t[i], now, daysLimit) && !t[i].followsMe
    ensures Distinct(r.blacklisted) && SubsequenceOf(r.blacklisted, Usernames(t))
  {
    var accounts := seq(|t|, i requires 0 <= i < |t| => Resolve(t[i], now, daysLimit));
    assert Usernames(accounts) == Usernames(t);
    RejectedNamesDistinct(t, now, daysLimit);
    RejectedNamesInRowOrder(t, now, daysLimit);
    SweepOutcome(accounts, RejectedNames(t, now, daysLimit))
  }

  /** After a sweep no request is expired any more at the same instant. */
  lemma SweepLeavesNothingExpired(t: Table, now: int, daysLimit: int)
    ensures var r := UpdateExpired(t, now, daysLimit);
      forall i | 0 <= i < |r.accounts| :: !Expired(r.accounts[i], now, daysLimit)
  {
    var r := UpdateExpired(t, now, daysLimit);
    forall i | 0 <= i < |r.accounts|
      ensures !Expired(r.accounts[i], now, daysLimit)
    {
      if Expired(t[i], now, daysLimit) {
        assert r.accounts[i].requestTime == NoRequest;
      } else {
        assert r.accounts[i] == t[i];
      }
    }
  }

  /** A sweep that finds nothing expired changes nothing and blacklists nobody. */
  lemma SweepOfSettledTable(t: Table, now: int, daysLimit: int)
    requires forall i | 0 <= i < |t| :: !Expired(t[i], now, daysLimit)
    ensures UpdateExpired(t, now, daysLimit) == SweepOutcome(t, [])
  {
    var r := UpdateExpired(t, now, daysLimit);
    assert r.accounts == t;
    NoMemberIsEmpty(r.blacklisted);
  }

  /** Sweeping twice at the same instant: the second sweep changes nothing and blacklists nobody. */
  lemma SweepIdempotent(t: Table, now: int, daysLimit: int)
    ensures var r := UpdateExpired(t, now, daysLimit);
      var t2 := r.accounts;
      UpdateExpired(t2, now, daysLimit) == SweepOutcome(t2, [])
  {
    var r := UpdateExpired(t, now, daysLimit);
    SweepLeavesNothingExpired(t, now, daysLimit);
    SweepOfSettledTable(r.accounts, now, daysLimit);
  }
}
