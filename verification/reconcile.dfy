/**
 The follower-state reconciliation of `updateFollowersAndFollowing`: classify every name,
 upsert the relationship flags, and compute the four history deltas against the flags
 recorded before the call.
 */
module Reconcile {
  import opened Seqs
  import opened Accounts

  /** The four account groups, each a list in the order the source builds it. */
  datatype Groups = Groups(
    mutual: seq<string>,
    onlyIFollow: seq<string>,
    onlyTheyFollow: seq<string>,
    neither: seq<string>)

  /**
   Builds the groups by filtering the input lists (so a repeated input name is repeated
   in its group) and the names already in the table.
   */
  function Classify(t: Table, followers: seq<string>, following: seq<string>): (g: Groups)
    ensures forall u :: u in g.mutual <==> u in followers && u in following
    ensures forall u :: u in g.onlyIFollow <==> u in following && u !in followers
    ensures forall u :: u in g.onlyTheyFollow <==> u in followers && u !in following
    ensures forall u :: u in g.neither <==> u in Usernames(t) && u !in followers && u !in following
  {
    Groups(
      Keep(followers, following),
      Drop(following, followers),
      Drop(followers, following),
      Drop(Drop(Usernames(t), followers), following))
  }

  /**
   The groups filter lists, not sets: a name repeated in an input list is repeated, as
   often, in its group, while the neither-group repeats no stored name.
   */
  lemma GroupsKeepDuplicates(t: Table, followers: seq<string>, following: seq<string>)
    ensures var g := Classify(t, followers, following);
      (forall u :: multiset(g.mutual)[u] == if u in following then multiset(followers)[u] else 0)
      && (forall u :: multiset(g.onlyTheyFollow)[u] == if u in following then 0 else multiset(followers)[u])
      && (forall u :: multiset(g.onlyIFollow)[u] == if u in followers then 0 else multiset(following)[u])
      && Distinct(g.neither)
  {
    DropDistinct(Usernames(t), followers);
    DropDistinct(Drop(Usernames(t), followers), following);
  }

  /** Every name the call mentions or the table holds lies in exactly one group. */
  lemma ClassificationPartition(t: Table, followers: seq<string>, following: seq<string>, u: string)
    requires u in followers || u in following || u in Usernames(t)
    ensures var g := Classify(t, followers, following);
      (if u in g.mutual then 1 else 0) + (if u in g.onlyIFollow then 1 else 0)
      + (if u in g.onlyTheyFollow then 1 else 0) + (if u in g.neither then 1 else 0) == 1
  {
  }

  /** One prepared-statement run per name of a group, all with the group's flags. */
  function Tag(names: seq<string>, followsMe: bool, iFollow: bool): (ops: seq<Update>)
    ensures |ops| == |names|
    ensures forall k | 0 <= k < |ops| :: ops[k] == Update(names[k], followsMe, iFollow)
  {
    seq(|names|, k requires 0 <= k < |names| => Update(names[k], followsMe, iFollow))
  }

  /** The upserts in the order the source runs them: mutual, only-I-follow, only-they-follow, neither. */
  function Updates(g: Groups): (ops: seq<Update>) {
    Tag(g.mutual, true, true) + Tag(g.onlyIFollow, false, true)
    + Tag(g.onlyTheyFollow, true, false) + Tag(g.neither, false, false)
  }

  /** A group's updates agree with the lists when its flags fit every name in it. */
  lemma TagAgree(names: seq<string>, followsMe: bool, iFollow: bool, followers: seq<string>, following: seq<string>)
    requires forall u | u in names :: followsMe == (u in followers) && iFollow == (u in following)
    ensures Agree(Tag(names, followsMe, iFollow), followers, following)
  {
    var ops := Tag(names, followsMe, iFollow);
    forall k | 0 <= k < |ops|
      ensures ops[k].followsMe == (ops[k].username in followers) && ops[k].iFollow == (ops[k].username in following)
    {
      assert ops[k].username == names[k] && names[k] in names;
    }
  }

  /** The names a group's updates touch are the group itself. */
  lemma TagNames(names: seq<string>, followsMe: bool, iFollow: bool)
    ensures UpdatedNames(Tag(names, followsMe, iFollow)) == names
  {
  }

  /** The names touched by consecutive batches of updates, batch after batch. */
  lemma UpdatedNamesConcat(a: seq<Update>, b: seq<Update>)
    ensures UpdatedNames(a + b) == UpdatedNames(a) + UpdatedNames(b)
  {
  }

  /** Batches that each agree with the lists agree when run one after the other. */
  lemma AgreeConcat(a: seq<Update>, b: seq<Update>, followers: seq<string>, following: seq<string>)
    requires Agree(a, followers, following) && Agree(b, followers, following)
    ensures Agree(a + b, followers, following)
  {
    var ops := a + b;
    forall k | 0 <= k < |ops|
      ensures ops[k].followsMe == (ops[k].username in followers) && ops[k].iFollow == (ops[k].username in following)
    {
      if k >= |a| {
        assert ops[k] == b[k - |a|];
      }
    }
  }

  /** Each upsert sets the flags that the name's membership in the two lists dictates. */
  lemma UpdatesAgree(t: Table, followers: seq<string>, following: seq<string>)
    ensures Agree(Updates(Classify(t, followers, following)), followers, following)
  {
    var g := Classify(t, followers, following);
    var a, b, c, d := Tag(g.mutual, true, true), Tag(g.onlyIFollow, false, true),
      Tag(g.onlyTheyFollow, true, false), Tag(g.neither, false, false);
    TagAgree(g.mutual, true, true, followers, following);
    TagAgree(g.onlyIFollow, false, true, followers, following);
    TagAgree(g.onlyTheyFollow, true, false, followers, following);
    TagAgree(g.neither, false, false, followers, following);
    AgreeConcat(a, b, followers, following);
    AgreeConcat(a + b, c, followers, following);
    AgreeConcat(a + b + c, d, followers, following);
  }

  /** The updates touch the four groups' names, in group order. */
  lemma UpdatesNames(g: Groups)
    ensures UpdatedNames(Updates(g)) == g.mutual + g.onlyIFollow + g.onlyTheyFollow + g.neither
  {
    var a, b, c, d := Tag(g.mutual, true, true), Tag(g.onlyIFollow, false, true),
      Tag(g.onlyTheyFollow, true, false), Tag(g.neither, false, false);
    TagNames(g.mutual, true, true);
    TagNames(g.onlyIFollow, false, true);
    TagNames(g.onlyTheyFollow, true, false);
    TagNames(g.neither, false, false);
    UpdatedNamesConcat(a, b);
    UpdatedNamesConcat(a + b, c);
    UpdatedNamesConcat(a + b + c, d);
  }

  /** The upserts touch exactly the names of the lists and of the table. */
  lemma UpdatesCover(t: Table, followers: seq<string>, following: seq<string>)
    ensures var names := UpdatedNames(Updates(Classify(t, followers, following)));
      forall u :: u in names <==> u in followers || u in following || u in Usernames(t)
  {
    UpdatesNames(Classify(t, followers, following));
  }

  /**
   The account-table half of the transition. Afterwards the table holds one row for every
   name in the lists or already stored and nothing else; every row's flags say whether the
   name is in each list; rows already stored keep their place and every other column; new
   rows carry column defaults.
   */
  function ApplyGroups(t: Table, followers: seq<string>, following: seq<string>): (r: Table)
    ensures forall u :: u in Usernames(r) <==> u in Usernames(t) || u in followers || u in following
    ensures forall i | 0 <= i < |r| ::
      r[i].followsMe == (r[i].username in followers) && r[i].iFollow == (r[i].username in following)
    ensures |t| <= |r| && Usernames(r)[..|t|] == Usernames(t)
    ensures forall i | 0 <= i < |t| :: SameExceptFlags(r[i], t[i])
    ensures forall i | |t| <= i < |r| :: r[i] == NewRow(r[i].username, r[i].followsMe, r[i].iFollow)
  {
    var ops := Updates(Classify(t, followers, following));
    UpdatesAgree(t, followers, following);
    UpdatesCover(t, followers, following);
    UpsertAllSettles(t, ops, followers, following);
    UpsertAll(t, ops)
  }

  /** A table has exactly as many rows as the set of names it holds. */
  lemma RowsPerName(r: Table, names: set<string>)
    requires forall u :: u in Usernames(r) <==> u in names
    ensures |r| == |names|
  {
    DistinctCardinality(Usernames(r));
    assert Elems(Usernames(r)) == names;
  }

  /**
   Duplicated input names never add rows: the table ends with exactly as many rows as
   there are distinct names among the two lists and the stored rows.
   */
  lemma RowCount(t: Table, followers: seq<string>, following: seq<string>)
    ensures |ApplyGroups(t, followers, following)| == |Elems(Usernames(t)) + Elems(followers) + Elems(following)|
  {
    RowsPerListedName(t, followers, following, ApplyGroups(t, followers, following));
  }

  /** A table holding exactly the listed and stored names has one row per distinct name. */
  lemma RowsPerListedName(t: Table, followers: seq<string>, following: seq<string>, r: Table)
    requires forall u :: u in Usernames(r) <==> u in Usernames(t) || u in followers || u in following
    ensures |r| == |Elems(Usernames(t)) + Elems(followers) + Elems(following)|
  {
    var names := Elems(Usernames(t)) + Elems(followers) + Elems(following);
    assert forall u :: u in names <==> u in Usernames(t) || u in followers || u in following;
    RowsPerName(r, names);
  }

  /** The four history deltas, as lists in the order the source joins them. */
  datatype Deltas = Deltas(
    newFollowers: seq<string>,
    lostFollowers: seq<string>,
    newFollowing: seq<string>,
    unFollowing: seq<string>)

  /** No delta has anything in it. */
  predicate Empty(d: Deltas) {
    d.newFollowers == [] && d.lostFollowers == [] && d.newFollowing == [] && d.unFollowing == []
  }

  /**
   The deltas against the flags stored before the call. New followers and new following
   filter the input lists (keeping their duplicates) and are forced empty on the first
   run, when the table has no rows; lost followers and un-following list stored names in
   row order.
   */
  function ComputeDeltas(t: Table, followers: seq<string>, following: seq<string>): (d: Deltas)
    ensures |t| == 0 ==> Empty(d)
    ensures forall u :: u in d.newFollowers <==> |t| > 0 && u in followers && !Follower(t, u)
    ensures forall u :: u in d.lostFollowers <==> Follower(t, u) && u !in followers
    ensures forall u :: u in d.newFollowing <==> |t| > 0 && u in following && !Followed(t, u)
    ensures forall u :: u in d.unFollowing <==> Followed(t, u) && u !in following
  {
    var origFollowers := NamesWhere(t, FollowsMe);
    var origFollowing := NamesWhere(t, IFollow);
    Deltas(
      if |t| == 0 then [] else Drop(followers, origFollowers),
      Drop(origFollowers, followers),
      if |t| == 0 then [] else Drop(following, origFollowing),
      Drop(origFollowing, following))
  }

  /**
   A delta that filters an input list keeps each of that list's duplicates; the deltas
   that list stored names never repeat a name.
   */
  lemma DeltaMultiplicities(t: Table, followers: seq<string>, following: seq<string>)
    ensures var d := ComputeDeltas(t, followers, following);
      (|t| > 0 ==> forall u :: multiset(d.newFollowers)[u] == if Follower(t, u) then 0 else multiset(followers)[u])
      && (|t| > 0 ==> forall u :: multiset(d.newFollowing)[u] == if Followed(t, u) then 0 else multiset(following)[u])
      && Distinct(d.lostFollowers) && Distinct(d.unFollowing)
  {
    DropDistinct(NamesWhere(t, FollowsMe), followers);
    DropDistinct(NamesWhere(t, IFollow), following);
  }

  /** New followers and new following keep the order of the input lists they come from. */
  lemma NewDeltasSubsequence(t: Table, followers: seq<string>, following: seq<string>)
    ensures SubsequenceOf(ComputeDeltas(t, followers, following).newFollowers, followers)
    ensures SubsequenceOf(ComputeDeltas(t, followers, following).newFollowing, following)
  {
    if |t| > 0 {
      DropIsSubsequence(followers, NamesWhere(t, FollowsMe));
      DropIsSubsequence(following, NamesWhere(t, IFollow));
    }
  }

  /**
   Lost followers and un-following list stored names in row order, the order in which
   `new Set(rows.filter(…).map(…))` keeps them.
   */
  lemma LostDeltasInRowOrder(t: Table, followers: seq<string>, following: seq<string>)
    ensures SubsequenceOf(ComputeDeltas(t, followers, following).lostFollowers, Usernames(t))
    ensures SubsequenceOf(ComputeDeltas(t, followers, following).unFollowing, Usernames(t))
  {
    var origFollowers := NamesWhere(t, FollowsMe);
    var origFollowing := NamesWhere(t, IFollow);
    DropIsSubsequence(origFollowers, followers);
    NamesWhereInRowOrder(t, FollowsMe);
    SubsequenceTransitive(Drop(origFollowers, followers), origFollowers, Usernames(t));
    DropIsSubsequence(origFollowing, following);
    NamesWhereInRowOrder(t, IFollow);
    SubsequenceTransitive(Drop(origFollowing, following), origFollowing, Usernames(t));
  }

  /** No name is both a new and a lost follower, nor both newly followed and un-followed. */
  lemma DeltasDisjoint(t: Table, followers: seq<string>, following: seq<string>)
    ensures var d := ComputeDeltas(t, followers, following);
      (forall u :: !(u in d.newFollowers && u in d.lostFollowers))
      && (forall u :: !(u in d.newFollowing && u in d.unFollowing))
  {
  }

  /**
   A table whose rows already carry the flags the lists dictate, and which already holds
   every listed name, is a fixed point of any transition keeping those properties.
   */
  lemma SettledTableIsStable(r: Table, r2: Table, followers: seq<string>, following: seq<string>)
    requires forall i | 0 <= i < |r| ::
      r[i].followsMe == (r[i].username in followers) && r[i].iFollow == (r[i].username in following)
    requires forall i | 0 <= i < |r2| ::
      r2[i].followsMe == (r2[i].username in followers) && r2[i].iFollow == (r2[i].username in following)
    requires forall u :: u in Usernames(r2) <==> u in Usernames(r) || u in followers || u in following
    requires forall u | u in followers || u in following :: u in Usernames(r)
    requires |r| <= |r2| && Usernames(r2)[..|r|] == Usernames(r)
    requires forall i | 0 <= i < |r| :: SameExceptFlags(r2[i], r[i])
    ensures r2 == r
  {
    // Both tables hold the same names, so neither has more rows.
    RowsPerName(r, Elems(Usernames(r)));
    RowsPerName(r2, Elems(Usernames(r)));
    forall i | 0 <= i < |r|
      ensures r2[i] == r[i]
    {
      assert Usernames(r2)[i] == Usernames(r)[i];
    }
  }

  /** Deltas against a table that already matches the lists are all empty. */
  lemma SettledTableHasNoDeltas(r: Table, followers: seq<string>, following: seq<string>)
    requires forall i | 0 <= i < |r| ::
      r[i].followsMe == (r[i].username in followers) && r[i].iFollow == (r[i].username in following)
    requires forall u | u in followers || u in following :: u in Usernames(r)
    ensures Empty(ComputeDeltas(r, followers, following))
  {
    var d := ComputeDeltas(r, followers, following);
    forall u
      ensures u !in d.newFollowers && u !in d.lostFollowers && u !in d.newFollowing && u !in d.unFollowing
    {
      if u in followers || u in following {
        var i :| 0 <= i < |r| && Usernames(r)[i] == u;
        assert r[i].username == u;
      }
    }
    NoMemberIsEmpty(d.newFollowers);
    NoMemberIsEmpty(d.lostFollowers);
    NoMemberIsEmpty(d.newFollowing);
    NoMemberIsEmpty(d.unFollowing);
  }

  /**
   Reconciling twice with the same lists: the second call changes no row and records four
   empty deltas.
   */
  lemma ReconcileIdempotent(t: Table, followers: seq<string>, following: seq<string>)
    ensures var r := ApplyGroups(t, followers, following);
      ApplyGroups(r, followers, following) == r && Empty(ComputeDeltas(r, followers, following))
  {
    var r := ApplyGroups(t, followers, following);
    SettledTableIsStable(r, ApplyGroups(r, followers, following), followers, following);
    SettledTableHasNoDeltas(r, followers, following);
  }
}
