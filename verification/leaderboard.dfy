/** `topScores`: every user ranked by `totalPoints` with the window function
    `RANK() OVER (ORDER BY "totalPoints" DESC)`, the first ten rows returned.
    Tied users share a rank and the next distinct score skips past them
    (competition ranking: 90, 80, 80, 70 rank 1, 2, 2, 4). */
module Leaderboard {
  import opened Common
  import opened Entities

  const RANK_LIMIT := 10

  /** `TopQuery`: one leaderboard row. */
  datatype TopRow = TopRow(username: string, totalPoints: int, rank: int)

  predicate SortedDesc(s: seq<User>) {
    forall i, j :: 0 <= i < j < |s| ==> s[i].totalPoints >= s[j].totalPoints
  }

  /** How many users in `s` have strictly more than `p` points. */
  function CountAbove(s: seq<User>, p: int): (n: nat)
    ensures n <= |s|
  {
    if |s| == 0 then 0
    else (if s[0].totalPoints > p then 1 else 0) + CountAbove(s[1..], p)
  }

  /** Insert `u` into a descending sequence, ahead of the users it ties with. */
  function InsertDesc(u: User, s: seq<User>): (r: seq<User>)
    requires SortedDesc(s)
    ensures SortedDesc(r)
    ensures multiset(r) == multiset(s) + multiset{u}
    ensures |r| == |s| + 1
    ensures r[0] == u || (|s| > 0 && r[0] == s[0])
  {
    if |s| == 0 || u.totalPoints >= s[0].totalPoints then [u] + s
    else
      var rest := InsertDesc(u, s[1..]);
      assert s == [s[0]] + s[1..];
      [s[0]] + rest
  }

  /** The ordering the window imposes: users by descending points. Among
      users with equal points the table order is kept. */
  function SortDesc(s: seq<User>): (r: seq<User>)
    ensures SortedDesc(r)
    ensures multiset(r) == multiset(s)
    ensures |r| == |s|
  {
    if |s| == 0 then []
    else
      assert s == [s[0]] + s[1..];
      InsertDesc(s[0], SortDesc(s[1..]))
  }

  lemma {:induction false} CountAboveInsert(u: User, s: seq<User>, p: int)
    requires SortedDesc(s)
    ensures CountAbove(InsertDesc(u, s), p) == CountAbove(s, p) + (if u.totalPoints > p then 1 else 0)
  {
    if |s| == 0 || u.totalPoints >= s[0].totalPoints {
      assert ([u] + s)[1..] == s;
    } else {
      CountAboveInsert(u, s[1..], p);
      assert ([s[0]] + InsertDesc(u, s[1..]))[1..] == InsertDesc(u, s[1..]);
    }
  }

  /** Ordering the users does not change how many beat a given score. */
  lemma {:induction false} CountAboveSort(s: seq<User>, p: int)
    ensures CountAbove(SortDesc(s), p) == CountAbove(s, p)
  {
    if |s| > 0 {
      CountAboveSort(s[1..], p);
      CountAboveInsert(s[0], SortDesc(s[1..]), p);
    }
  }

  /** An already descending table is left in its order. */
  lemma {:induction false} SortDescKeepsSorted(s: seq<User>)
    requires SortedDesc(s)
    ensures SortDesc(s) == s
  {
    if |s| > 0 {
      SortDescKeepsSorted(s[1..]);
      assert s == [s[0]] + s[1..];
    }
  }

  /** The window's rank of row `i` of the ordered rows, as the window function
      produces it: the first row ranks 1, a row tying its predecessor shares
      its rank, and any other row ranks by its position. */
  function RankAt(s: seq<User>, i: nat): (r: nat)
    requires i < |s|
    ensures 1 <= r <= i + 1
  {
    if i == 0 then 1
    else if s[i - 1].totalPoints == s[i].totalPoints then RankAt(s, i - 1)
    else i + 1
  }

  /** One less than a row's rank is the position where its block of tied
      scores starts. */
  lemma {:induction false} RankAtBlockStart(s: seq<User>, i: nat)
    requires SortedDesc(s) && i < |s|
    ensures 1 <= RankAt(s, i) <= i + 1
    ensures s[RankAt(s, i) - 1].totalPoints == s[i].totalPoints
    ensures RankAt(s, i) == 1 || s[RankAt(s, i) - 2].totalPoints > s[i].totalPoints
  {
    if i > 0 && s[i - 1].totalPoints == s[i].totalPoints {
      RankAtBlockStart(s, i - 1);
    }
  }

  /** In a descending sequence, exactly the first `k` entries beating `p`
      means `k` entries beat it. */
  lemma {:induction false} CountAboveOfSorted(s: seq<User>, p: int, k: nat)
    requires k <= |s|
    requires forall j :: 0 <= j < k ==> s[j].totalPoints > p
    requires forall j :: k <= j < |s| ==> s[j].totalPoints <= p
    ensures CountAbove(s, p) == k
  {
    if |s| > 0 {
      if k > 0 {
        CountAboveOfSorted(s[1..], p, k - 1);
      } else {
        CountAboveOfSorted(s[1..], p, 0);
      }
    }
  }

  /** The window's rank is competition ranking: one more than the number of
      rows with strictly more points. */
  lemma RankIsCompetition(s: seq<User>, i: nat)
    requires SortedDesc(s) && i < |s|
    ensures RankAt(s, i) == 1 + CountAbove(s, s[i].totalPoints)
  {
    RankAtBlockStart(s, i);
    var b := RankAt(s, i) - 1;
    forall j | 0 <= j < b
      ensures s[j].totalPoints > s[i].totalPoints
    {
      assert s[j].totalPoints >= s[b - 1].totalPoints;
    }
    forall j | b <= j < |s|
      ensures s[j].totalPoints <= s[i].totalPoints
    {
      assert s[b].totalPoints >= s[j].totalPoints;
    }
    CountAboveOfSorted(s, s[i].totalPoints, b);
  }

  /** Every row of the ordered table, ranked against the whole table. */
  lemma RanksAgainstTable(users: seq<User>)
    ensures forall i :: 0 <= i < |users| ==>
              && RankAt(SortDesc(users), i) == 1 + CountAbove(users, SortDesc(users)[i].totalPoints)
              && CountAbove(users, SortDesc(users)[i].totalPoints) <= i
  {
    var s := SortDesc(users);
    forall i | 0 <= i < |users|
      ensures RankAt(s, i) == 1 + CountAbove(users, s[i].totalPoints)
      ensures CountAbove(users, s[i].totalPoints) <= i
    {
      RankIsCompetition(s, i);
      RankAtBlockStart(s, i);
      CountAboveSort(users, s[i].totalPoints);
    }
  }

  function Min(a: int, b: int): int {
    if a < b then a else b
  }

  /** `rows` carries, in order, the names and points of the first users of `s`. */
  predicate ListsPrefix(rows: seq<TopRow>, s: seq<User>) {
    |rows| <= |s|
    && forall i :: 0 <= i < |rows| ==>
         rows[i].username == s[i].username && rows[i].totalPoints == s[i].totalPoints
  }

  /** `topScores()`: `null` when the query fails; otherwise the first ten
      rows (or all, when there are fewer) of the table ordered by descending
      points, each ranked one above the number of users in the whole table
      with more points, so that no row is preceded by fewer users than
      outscore it. Which of several tied users come first is not fixed. */
  function TopScores(users: seq<User>, queryFails: bool): (r: Option<seq<TopRow>>)
    ensures r.None? <==> queryFails
    ensures r.Some? ==> |r.value| == Min(RANK_LIMIT, |users|)
    ensures r.Some? ==>
              exists s: seq<User> :: multiset(s) == multiset(users) && SortedDesc(s) && ListsPrefix(r.value, s)
    ensures r.Some? ==> forall i, j :: 0 <= i < j < |r.value| ==>
              r.value[i].totalPoints >= r.value[j].totalPoints
    ensures r.Some? ==> forall i :: 0 <= i < |r.value| ==>
              r.value[i].rank == 1 + CountAbove(users, r.value[i].totalPoints)
    ensures r.Some? ==> forall i :: 0 <= i < |r.value| ==>
              CountAbove(users, r.value[i].totalPoints) <= i
  {
    if queryFails then None
    else
      var s := SortDesc(users);
      var n := Min(RANK_LIMIT, |users|);
      RanksAgainstTable(users);
      var rows := seq(n, i requires 0 <= i < n => TopRow(s[i].username, s[i].totalPoints, RankAt(s, i)));
      assert ListsPrefix(rows, s);
      Some(rows)
  }

  /** Every returned row is the name and score of a user of the table. */
  lemma TopScoresRowsAreUsers(users: seq<User>, i: int)
    requires 0 <= i < Min(RANK_LIMIT, |users|)
    ensures exists k :: 0 <= k < |users|
              && users[k].username == TopScores(users, false).value[i].username
              && users[k].totalPoints == TopScores(users, false).value[i].totalPoints
  {
    var s := SortDesc(users);
    assert s[i] in multiset(users);
    var k :| 0 <= k < |users| && users[k] == s[i];
  }

  /** The worked case: scores 90, 80, 80, 70 rank 1, 2, 2, 4. */
  lemma TiesShareRank(users: seq<User>)
    requires |users| == 4
    requires users[0].totalPoints == 90 && users[1].totalPoints == 80
    requires users[2].totalPoints == 80 && users[3].totalPoints == 70
    ensures var r := TopScores(users, false);
            r.Some? && |r.value| == 4
            && r.value[0].rank == 1 && r.value[1].rank == 2
            && r.value[2].rank == 2 && r.value[3].rank == 4
  {
    SortDescKeepsSorted(users);
    assert RankAt(users, 1) == 2;
    assert RankAt(users, 2) == 2;
    assert RankAt(users, 3) == 4;
  }
}
