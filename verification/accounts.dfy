/**
 The `accounts` table: one row per username, in row-id order, with the upsert the
 reconciliation uses and the mutual selection.
 */
module Accounts {
  import opened Wrappers
  import opened Seqs

  /** `request_time`: NULL and the empty string both mean that no request is outstanding. */
  datatype RequestTime = NoRequest | SentAt(ms: int)

  /** One row of the `accounts` table. Integer flag columns are booleans here. */
  datatype Account = Account(
    username: string,
    lastUpdated: Option<string>,
    followersCount: Option<int>,
    followingCount: Option<int>,
    mutualsCount: Option<int>,
    postsCount: Option<int>,
    followingStatus: Option<string>,
    requestTime: RequestTime,
    blacklisted: bool,
    userInteracted: bool,
    followsMe: bool,
    iFollow: bool)

  /** `rows.map(row => row.username)`. */
  function Usernames(t: seq<Account>): (names: seq<string>)
    ensures |names| == |t|
    ensures forall i | 0 <= i < |t| :: names[i] == t[i].username
  {
    seq(|t|, i requires 0 <= i < |t| => t[i].username)
  }

  /** The table in `SELECT` order; the `UNIQUE` constraint on `username` holds. */
  type Table = t: seq<Account> | Distinct(Usernames(t))

  /** The row an `INSERT (username, follows_me, i_follow)` creates: every other column takes its default. */
  function NewRow(username: string, followsMe: bool, iFollow: bool): (row: Account) {
    Account(username, None, None, None, None, None, None, NoRequest, false, false, followsMe, iFollow)
  }

  /** `b` is `a` with at most its two relationship flags changed. */
  predicate SameExceptFlags(b: Account, a: Account) {
    b == a.(followsMe := b.followsMe, iFollow := b.iFollow)
  }

  /** The table records that `u` follows the owner. */
  predicate Follower(t: seq<Account>, u: string) {
    exists i | 0 <= i < |t| :: t[i].username == u && t[i].followsMe
  }

  /** The table records that the owner follows `u`. */
  predicate Followed(t: seq<Account>, u: string) {
    exists i | 0 <= i < |t| :: t[i].username == u && t[i].iFollow
  }

  /**
   `INSERT INTO accounts (username, follows_me, i_follow) VALUES (?, ?, ?)
    ON CONFLICT(username) DO UPDATE SET follows_me = …, i_follow = …`:
   an existing row keeps its place and every column except the two flags; a new name
   gets a fresh row at the end.
   */
  function Upsert(t: Table, u: string, followsMe: bool, iFollow: bool): (r: Table)
    ensures Usernames(r) == if u in Usernames(t) then Usernames(t) else Usernames(t) + [u]
    ensures forall i | 0 <= i < |t| ::
      r[i] == if t[i].username == u then t[i].(followsMe := followsMe, iFollow := iFollow) else t[i]
    ensures u !in Usernames(t) ==> r[|t|] == NewRow(u, followsMe, iFollow)
  {
    var i := IndexOf(Usernames(t), u);
    if i < |t| then
      var r := t[i := t[i].(followsMe := followsMe, iFollow := iFollow)];
      assert Usernames(r) == Usernames(t);
      r
    else
      var r := t + [NewRow(u, followsMe, iFollow)];
      assert Usernames(r) == Usernames(t) + [u];
      r
  }

  /** One `updateAccount.run([username, follows_me, i_follow])`. */
  datatype Update = Update(username: string, followsMe: bool, iFollow: bool)

  /** The usernames the updates touch, in order. */
  function UpdatedNames(ops: seq<Update>): (names: seq<string>)
    ensures |names| == |ops|
    ensures forall k | 0 <= k < |ops| :: names[k] == ops[k].username
  {
    seq(|ops|, k requires 0 <= k < |ops| => ops[k].username)
  }

  /**
   Runs the prepared upsert once per update, in order. Earlier rows keep their places
   and all columns but the flags; a row no update names is untouched; rows appended
   are fresh rows for names the table did not hold.
   */
  function UpsertAll(t: Table, ops: seq<Update>): (r: Table)
    ensures |t| <= |r|
    ensures Usernames(r)[..|t|] == Usernames(t)
    ensures forall u :: u in Usernames(r) <==> u in Usernames(t) || u in UpdatedNames(ops)
    ensures forall i | 0 <= i < |t| :: SameExceptFlags(r[i], t[i])
    ensures forall i | 0 <= i < |t| && t[i].username !in UpdatedNames(ops) :: r[i] == t[i]
    ensures forall i | |t| <= i < |r| :: r[i] == NewRow(r[i].username, r[i].followsMe, r[i].iFollow)
    decreases |ops|
  {
    if ops == [] then t
    else
      var init := ops[..|ops| - 1];
      var last := ops[|ops| - 1];
      assert UpdatedNames(ops) == UpdatedNames(init) + [last.username];
      var mid := UpsertAll(t, init);
      UpsertExtends(t, mid, UpdatedNames(init), last.username, last.followsMe, last.iFollow);
      Upsert(mid, last.username, last.followsMe, last.iFollow)
  }

  /** One more upsert keeps every property `UpsertAll` promises, with one more name touched. */
  lemma UpsertExtends(t: Table, mid: Table, names: seq<string>, u: string, followsMe: bool, iFollow: bool)
    requires |t| <= |mid|
    requires Usernames(mid)[..|t|] == Usernames(t)
    requires forall v :: v in Usernames(mid) <==> v in Usernames(t) || v in names
    requires forall i | 0 <= i < |t| :: SameExceptFlags(mid[i], t[i])
    requires forall i | 0 <= i < |t| && t[i].username !in names :: mid[i] == t[i]
    requires forall i | |t| <= i < |mid| :: mid[i] == NewRow(mid[i].username, mid[i].followsMe, mid[i].iFollow)
    ensures var r := Upsert(mid, u, followsMe, iFollow);
      |t| <= |r|
      && Usernames(r)[..|t|] == Usernames(t)
      && (forall v :: v in Usernames(r) <==> v in Usernames(t) || v in names + [u])
      && (forall i | 0 <= i < |t| :: SameExceptFlags(r[i], t[i]))
      && (forall i | 0 <= i < |t| && t[i].username !in names + [u] :: r[i] == t[i])
      && (forall i | |t| <= i < |r| :: r[i] == NewRow(r[i].username, r[i].followsMe, r[i].iFollow))
  {
    UpsertKeepsNames(Usernames(t), mid, names, u, followsMe, iFollow);
    UpsertKeepsRows(t, mid, names, u, followsMe, iFollow);
  }

  /** The usernames side of `UpsertExtends`. */
  lemma UpsertKeepsNames(before: seq<string>, mid: Table, names: seq<string>, u: string, followsMe: bool, iFollow: bool)
    requires |before| <= |mid|
    requires Usernames(mid)[..|before|] == before
    requires forall v :: v in Usernames(mid) <==> v in before || v in names
    ensures var r := Upsert(mid, u, followsMe, iFollow);
      |before| <= |r|
      && Usernames(r)[..|before|] == before
      && (forall v :: v in Usernames(r) <==> v in before || v in names + [u])
  {
    var r := Upsert(mid, u, followsMe, iFollow);
    assert |Usernames(r)| == |r|;
    assert Usernames(r)[..|before|] == Usernames(mid)[..|before|];
  }

  /** The rows side of `UpsertExtends`. */
  lemma UpsertKeepsRows(t: Table, mid: Table, names: seq<string>, u: string, followsMe: bool, iFollow: bool)
    requires |t| <= |mid|
    requires forall i | 0 <= i < |t| :: SameExceptFlags(mid[i], t[i])
    requires forall i | 0 <= i < |t| && t[i].username !in names :: mid[i] == t[i]
    requires forall i | |t| <= i < |mid| :: mid[i] == NewRow(mid[i].username, mid[i].followsMe, mid[i].iFollow)
    ensures var r := Upsert(mid, u, followsMe, iFollow);
      |t| <= |r|
      && (forall i | 0 <= i < |t| :: SameExceptFlags(r[i], t[i]))
      && (forall i | 0 <= i < |t| && t[i].username !in names + [u] :: r[i] == t[i])
      && (forall i | |t| <= i < |r| :: r[i] == NewRow(r[i].username, r[i].followsMe, r[i].iFollow))
  {
    var r := Upsert(mid, u, followsMe, iFollow);
    assert |Usernames(r)| == |r| && |Usernames(mid)| == |mid|;
  }

  /** Each update sets the flags that the name's membership in the two lists dictates. */
  predicate Agree(ops: seq<Update>, followers: seq<string>, following: seq<string>) {
    forall k | 0 <= k < |ops| ::
      ops[k].followsMe == (ops[k].username in followers) && ops[k].iFollow == (ops[k].username in following)
  }

  /**
   When every update sets the flags a name's membership in `followers` and `following`
   dictates, every row an update touched ends with exactly those flags, however often
   and in whatever order the name was updated.
   */
  lemma {:induction false} UpsertAllFlags(t: Table, ops: seq<Update>, followers: seq<string>, following: seq<string>)
    requires Agree(ops, followers, following)
    ensures forall i | 0 <= i < |UpsertAll(t, ops)| && UpsertAll(t, ops)[i].username in UpdatedNames(ops) ::
      UpsertAll(t, ops)[i].followsMe == (UpsertAll(t, ops)[i].username in followers)
      && UpsertAll(t, ops)[i].iFollow == (UpsertAll(t, ops)[i].username in following)
    decreases |ops|
  {
    if ops != [] {
      var init := ops[..|ops| - 1];
      var last := ops[|ops| - 1];
      assert Agree(init, followers, following) by {
        forall k | 0 <= k < |init|
          ensures init[k].followsMe == (init[k].username in followers) && init[k].iFollow == (init[k].username in following)
        {
          assert init[k] == ops[k];
        }
      }
      UpsertAllFlags(t, init, followers, following);
      assert UpdatedNames(ops) == UpdatedNames(init) + [last.username];
      UpsertFlagsStep(UpsertAll(t, init), UpdatedNames(init), last, followers, following);
    }
  }

  /**
   An agreeing upsert on a table whose touched rows already agree leaves every touched
   row, the upserted one included, agreeing with the lists.
   */
  lemma UpsertFlagsStep(mid: Table, names: seq<string>, last: Update, followers: seq<string>, following: seq<string>)
    requires last.followsMe == (last.username in followers) && last.iFollow == (last.username in following)
    requires forall i | 0 <= i < |mid| && mid[i].username in names ::
      mid[i].followsMe == (mid[i].username in followers) && mid[i].iFollow == (mid[i].username in following)
    ensures var r := Upsert(mid, last.username, last.followsMe, last.iFollow);
      forall i | 0 <= i < |r| && r[i].username in names + [last.username] ::
        r[i].followsMe == (r[i].username in followers) && r[i].iFollow == (r[i].username in following)
  {
    var r := Upsert(mid, last.username, last.followsMe, last.iFollow);
    forall i | 0 <= i < |r| && r[i].username in names + [last.username]
      ensures r[i].followsMe == (r[i].username in followers) && r[i].iFollow == (r[i].username in following)
    {
      if i < |mid| {
        assert Usernames(r)[i] == Usernames(mid)[i];
      }
    }
  }

  /**
   Agreeing updates that touch every stored name leave every row, old or new, with the
   flags the lists dictate.
   */
  lemma UpsertAllSettles(t: Table, ops: seq<Update>, followers: seq<string>, following: seq<string>)
    requires Agree(ops, followers, following)
    requires forall u | u in Usernames(t) :: u in UpdatedNames(ops)
    ensures forall i | 0 <= i < |UpsertAll(t, ops)| ::
      UpsertAll(t, ops)[i].followsMe == (UpsertAll(t, ops)[i].username in followers)
      && UpsertAll(t, ops)[i].iFollow == (UpsertAll(t, ops)[i].username in following)
  {
    UpsertAllFlags(t, ops, followers, following);
    EveryRowTouched(UpsertAll(t, ops), Usernames(t), UpdatedNames(ops), followers, following);
  }

  /** When every stored name was touched, the flags of the touched rows are the flags of all rows. */
  lemma EveryRowTouched(r: Table, before: seq<string>, names: seq<string>, followers: seq<string>, following: seq<string>)
    requires forall u :: u in Usernames(r) <==> u in before || u in names
    requires forall u | u in before :: u in names
    requires forall i | 0 <= i < |r| && r[i].username in names ::
      r[i].followsMe == (r[i].username in followers) && r[i].iFollow == (r[i].username in following)
    ensures forall i | 0 <= i < |r| ::
      r[i].followsMe == (r[i].username in followers) && r[i].iFollow == (r[i].username in following)
  {
    assert forall i | 0 <= i < |r| :: r[i].username in Usernames(r);
  }

  /** The flags a selection of rows looks at. */
  datatype Relation = FollowsMe | IFollow | Mutual

  /** The row's flags show the relation. */
  predicate Holds(a: Account, rel: Relation) {
    match rel
    case FollowsMe => a.followsMe
    case IFollow => a.iFollow
    case Mutual => a.followsMe && a.iFollow
  }

  /**
   `rows.filter(row => …flags…).map(row => row.username)`: the usernames of the rows
   showing `rel`, in row order; duplicate-free when the table is.
   */
  function NamesWhere(t: seq<Account>, rel: Relation): (r: seq<string>)
    ensures forall u :: u in r <==> exists i | 0 <= i < |t| :: t[i].username == u && Holds(t[i], rel)
    ensures Distinct(Usernames(t)) ==> Distinct(r)
  {
    if t == [] then []
    else
      var rest := NamesWhere(t[1..], rel);
      assert forall i | 1 <= i < |t| :: t[1..][i - 1] == t[i];
      assert Usernames(t[1..]) == Usernames(t)[1..];
      if Holds(t[0], rel) then
        assert Distinct(Usernames(t)) ==> t[0].username !in rest;
        [t[0].username] + rest
      else rest
  }

  /** The selected names come in row order. */
  lemma {:induction false} NamesWhereInRowOrder(t: seq<Account>, rel: Relation)
    ensures SubsequenceOf(NamesWhere(t, rel), Usernames(t))
    decreases |t|
  {
    if t != [] {
      NamesWhereInRowOrder(t[1..], rel);
      HeadThenTail(t, NamesWhere(t[1..], rel), Holds(t[0], rel));
    }
  }

  /**
   One step of a row-order selection: whether or not the first row's name is put in
   front, a selection from the later rows stays in row order.
   */
  lemma HeadThenTail(t: seq<Account>, rest: seq<string>, take: bool)
    requires t != []
    requires SubsequenceOf(rest, Usernames(t[1..]))
    ensures SubsequenceOf(if take then [t[0].username] + rest else rest, Usernames(t))
  {
    assert Usernames(t)[1..] == Usernames(t[1..]);
    if take {
      assert ([t[0].username] + rest)[1..] == rest;
    } else {
      SubsequenceSkip(rest, Usernames(t));
    }
  }

  /** The names selected by the follower and the followed flags are the table's followers and followed accounts. */
  lemma NamesWhereFlags(t: seq<Account>, u: string)
    ensures u in NamesWhere(t, FollowsMe) <==> Follower(t, u)
    ensures u in NamesWhere(t, IFollow) <==> Followed(t, u)
  {
    if Follower(t, u) {
      var i :| 0 <= i < |t| && t[i].username == u && t[i].followsMe;
      assert Holds(t[i], FollowsMe);
    }
    if Followed(t, u) {
      var i :| 0 <= i < |t| && t[i].username == u && t[i].iFollow;
      assert Holds(t[i], IFollow);
    }
  }

  /** The usernames whose rows have both flags set, in row order. */
  function Mutuals(t: Table): (m: seq<string>)
    ensures forall u :: u in m <==> exists i | 0 <= i < |t| :: t[i].username == u && t[i].followsMe && t[i].iFollow
    ensures Distinct(m) && SubsequenceOf(m, Usernames(t))
  {
    NamesWhereInRowOrder(t, Mutual);
    NamesWhere(t, Mutual)
  }

  /**
   `getRandomMutual`: `roll` stands for `Math.random()` and the pick is
   `mutuals[Math.floor(roll * mutuals.length)]`, which is `undefined` (None here) when
   there is no mutual.
   */
  function GetRandomMutual(t: Table, roll: real): (r: Option<string>)
    requires 0.0 <= roll < 1.0
    ensures r.Some? <==> exists i | 0 <= i < |t| :: t[i].followsMe && t[i].iFollow
    ensures r.Some? ==> exists i | 0 <= i < |t| :: t[i].username == r.value && t[i].followsMe && t[i].iFollow
  {
    var m := Mutuals(t);
    var k := ScaledIndex(roll, |m|);
    if 0 <= k < |m| then
      assert m[k] in m;
      Some(m[k])
    else
      ScaledFloorInRange(roll, |m|);
      assert forall i | 0 <= i < |t| && t[i].followsMe && t[i].iFollow :: t[i].username in m;
      None
  }

  /** `Math.floor(roll * n)`. */
  function ScaledIndex(roll: real, n: nat): (k: int) {
    (roll * n as real).Floor
  }

  /** `Math.floor(roll * n)` is a valid index into a non-empty array of length `n`. */
  lemma ScaledFloorInRange(roll: real, n: nat)
    requires 0.0 <= roll < 1.0
    ensures n > 0 ==> 0 <= ScaledIndex(roll, n) < n
  {
    if n > 0 {
      assert 0.0 <= roll * n as real;
      assert roll * n as real < 1.0 * n as real;
    }
  }

  /** Some value of `Math.random()` scales to index `k` of an array of length `n`. */
  lemma RollFor(k: nat, n: nat) returns (roll: real)
    requires k < n
    ensures 0.0 <= roll < 1.0
    ensures ScaledIndex(roll, n) == k
  {
    roll := k as real / n as real;
    assert roll * n as real == k as real;
  }

  /** Every mutual is the pick of some value of `Math.random()`. */
  lemma EveryMutualReachable(t: Table, u: string)
    requires u in Mutuals(t)
    ensures exists roll: real | 0.0 <= roll < 1.0 :: GetRandomMutual(t, roll) == Some(u)
  {
    var m := Mutuals(t);
    var k := IndexOf(m, u);
    var roll := RollFor(k, |m|);
    assert GetRandomMutual(t, roll) == Some(u);
  }
}
