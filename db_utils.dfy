/**
 * The rank rules of `db_utils.py`. The source runs one SQL query per rule
 * against the `ranks` and `challenges` tables; here each table is a sequence
 * of rows and each query is a function over those sequences.
 */
module DbUtils {
  import opened Wrappers

  /** A row of the `ranks` table: a named band of weekly kilometres, both bounds inclusive. */
  datatype Rank = Rank(id: int, name: string, minKm: real, maxKm: real)

  /** A row of the `challenges` table, tied to a rank by its id. */
  datatype Challenge = Challenge(rankId: int, text: string)

  /**
   * `SELECT … FROM rows WHERE keep ORDER BY key DESC LIMIT 1`: a kept row
   * whose key no other kept row exceeds, or None when no row is kept. SQL
   * leaves the choice among rows with equal keys open; this picks the first
   * in table order.
   */
  function SelectTop(rows: seq<Rank>, keep: Rank -> bool, key: Rank -> real): (r: Option<Rank>)
    ensures r.None? <==> forall x :: x in rows ==> !keep(x)
    ensures r.Some? ==> r.value in rows && keep(r.value)
    ensures r.Some? ==> forall x :: x in rows && keep(x) ==> key(x) <= key(r.value)
  {
    if rows == [] then None
    else
      var rest := SelectTop(rows[1..], keep, key);
      assert forall x :: x in rows ==> x == rows[0] || x in rows[1..];
      if keep(rows[0]) && (rest.None? || key(rows[0]) >= key(rest.value)) then Some(rows[0])
      else rest
  }

  /** The `WHERE min_km <= km AND max_km >= km` test. */
  predicate Contains(r: Rank, km: real)
  {
    r.minKm <= km <= r.maxKm
  }

  /**
   * `determine_rank_db`: among the ranks whose band holds `km`, the one with
   * the largest lower bound; when no band holds `km`, the rank with the
   * largest upper bound. The source reads the first row of that fallback
   * query without checking for one, so it fails on an empty table.
   * The function returns the whole row; the source returns its name.
   */
  function DetermineRank(ranks: seq<Rank>, km: real): (row: Rank)
    requires |ranks| > 0
    ensures row in ranks
    ensures (exists x :: x in ranks && Contains(x, km)) ==>
      && Contains(row, km)
      && forall x :: x in ranks && Contains(x, km) ==> x.minKm <= row.minKm
    ensures (forall x :: x in ranks ==> !Contains(x, km)) ==>
      forall x :: x in ranks ==> x.maxKm <= row.maxKm
  {
    match SelectTop(ranks, (r: Rank) => Contains(r, km), (r: Rank) => r.minKm)
    case Some(row) => row
    case None =>
      assert ranks[0] in ranks;
      SelectTop(ranks, (r: Rank) => true, (r: Rank) => r.maxKm).value
  }

  /** The join `r1.min_km > r2.min_km WHERE r2.name = name`: some rank called `name` lies below `r1`. */
  predicate Above(r1: Rank, ranks: seq<Rank>, name: string)
  {
    exists r2 :: r2 in ranks && r2.name == name && r1.minKm > r2.minKm
  }

  /** `(current rank, next rank, km to next rank)`; the last two are both absent at the top. */
  datatype Progress = Progress(current: string, next: Option<string>, kmNeeded: Option<real>)

  /**
   * `calculate_progress_db`: the current rank's name, and the rank with the
   * smallest lower bound above it together with the distance from `km` to
   * that lower bound. With no rank above, both are absent, never zero.
   */
  function CalculateProgress(ranks: seq<Rank>, km: real): (p: Progress)
    requires |ranks| > 0
    ensures p.next.Some? <==> p.kmNeeded.Some?
  {
    var current := DetermineRank(ranks, km).name;
    match SelectTop(ranks, (r1: Rank) => Above(r1, ranks, current), (r1: Rank) => -r1.minKm)
    case None => Progress(current, None, None)
    case Some(next) => Progress(current, Some(next.name), Some(next.minKm - km))
  }

  /**
   * The current rank is DetermineRank's; the next rank is absent exactly
   * when no rank lies above a rank of the current name, and otherwise is one
   * with the smallest lower bound among those, `kmNeeded` being the distance
   * from `km` to that bound.
   */
  lemma CalculateProgressSpec(ranks: seq<Rank>, km: real)
    requires |ranks| > 0
    ensures var p := CalculateProgress(ranks, km);
      && p.current == DetermineRank(ranks, km).name
      && (p.next.None? <==> forall r :: r in ranks ==> !Above(r, ranks, p.current))
      && (p.next.Some? ==> exists r ::
            && r in ranks && Above(r, ranks, p.current)
            && (forall x :: x in ranks && Above(x, ranks, p.current) ==> r.minKm <= x.minKm)
            && r.name == p.next.value && p.kmNeeded.value == r.minKm - km)
  {
    var current := DetermineRank(ranks, km).name;
    var sel := SelectTop(ranks, (r1: Rank) => Above(r1, ranks, current), (r1: Rank) => -r1.minKm);
    var p := CalculateProgress(ranks, km);
    assert p.current == current;
    if sel.Some? {
      var r := sel.value;
      assert p.next.Some? && p.next.value == r.name && p.kmNeeded.value == r.minKm - km;
      assert r in ranks && Above(r, ranks, current);
    } else {
      assert p.next.None?;
    }
  }

  /** No two ranks share a name. */
  predicate DistinctNames(ranks: seq<Rank>)
  {
    forall i, j :: 0 <= i < j < |ranks| ==> ranks[i].name != ranks[j].name
  }

  /**
   * With distinct names, the next rank is the one with the smallest lower
   * bound strictly above the current rank's lower bound, and it exists
   * exactly when some rank starts above the current one.
   */
  lemma NextRankAboveCurrent(ranks: seq<Rank>, km: real)
    requires |ranks| > 0 && DistinctNames(ranks)
    ensures var cur := DetermineRank(ranks, km);
      var p := CalculateProgress(ranks, km);
      && (p.next.None? <==> forall x :: x in ranks ==> x.minKm <= cur.minKm)
      && (p.next.Some? ==> exists r ::
            && r in ranks && r.minKm > cur.minKm
            && (forall x :: x in ranks && x.minKm > cur.minKm ==> r.minKm <= x.minKm)
            && r.name == p.next.value && p.kmNeeded.value == r.minKm - km)
  {
  }

  /** The `WHERE` conditions the challenge queries put on the joined rank row: `r.name = ?` or `r.min_km = ?`. */
  datatype RankFilter = NameIs(name: string) | MinKmIs(km: real)

  predicate Keeps(f: RankFilter, r: Rank)
  {
    match f
    case NameIs(name) => r.name == name
    case MinKmIs(km) => r.minKm == km
  }

  /** Positions of the rank rows a challenge joins with under filter `f`. */
  ghost function RowsMatching(c: Challenge, ranks: seq<Rank>, f: RankFilter): set<int>
  {
    set j | 0 <= j < |ranks| && ranks[j].id == c.rankId && Keeps(f, ranks[j])
  }

  /** Position pairs (challenge, rank) of the join under filter `f` whose challenge text is `t`. */
  ghost function JoinPairs(challenges: seq<Challenge>, ranks: seq<Rank>, f: RankFilter, t: string): set<(int, int)>
  {
    set i, j | 0 <= i < |challenges| && 0 <= j < |ranks| && challenges[i].text == t
      && ranks[j].id == challenges[i].rankId && Keeps(f, ranks[j]) :: (i, j)
  }

  /** A set of pairs with a fixed first component and second components from `s` is as large as `s`. */
  lemma {:induction false} PairedSetSize<K, T>(k: K, s: set<T>, ps: set<(K, T)>)
    requires forall p :: p in ps <==> p.0 == k && p.1 in s
    ensures |ps| == |s|
    decreases |s|
  {
    if s != {} {
      var x :| x in s;
      PairedSetSize(k, s - {x}, ps - {(k, x)});
    } else {
      assert forall p :: p !in ps;
    }
  }

  /** The pairs of challenge position `i` with each rank position in `rows`. */
  ghost function PairsWith(i: int, rows: set<int>): set<(int, int)>
  {
    set j | j in rows :: (i, j)
  }

  /**
   * The join pairs of a table are those of the challenges before the last
   * one, all with a smaller challenge position, plus those of the last one.
   */
  lemma JoinPairsCover(challenges: seq<Challenge>, ranks: seq<Rank>, f: RankFilter, t: string)
    requires |challenges| > 0
    ensures var n := |challenges| - 1;
      var before := JoinPairs(challenges[..n], ranks, f, t);
      && (forall p :: p in before ==> p.0 < n)
      && JoinPairs(challenges, ranks, f, t)
         == before + (if challenges[n].text == t then PairsWith(n, RowsMatching(challenges[n], ranks, f)) else {})
  {
  }

  /** The join pairs of a table split into those of its last challenge and those of the rows before. */
  lemma JoinPairsSplit(challenges: seq<Challenge>, ranks: seq<Rank>, f: RankFilter, t: string)
    requires |challenges| > 0
    ensures var n := |challenges| - 1;
      |JoinPairs(challenges, ranks, f, t)|
        == |JoinPairs(challenges[..n], ranks, f, t)|
           + (if challenges[n].text == t then |RowsMatching(challenges[n], ranks, f)| else 0)
  {
    var n := |challenges| - 1;
    var before := JoinPairs(challenges[..n], ranks, f, t);
    var rows := RowsMatching(challenges[n], ranks, f);
    JoinPairsCover(challenges, ranks, f, t);
    if challenges[n].text == t {
      var last := PairsWith(n, rows);
      forall p: (int, int) | p.0 == n && p.1 in rows
        ensures p in last
      {
        var j := p.1;
        assert (n, j) in last;
      }
      PairedSetSize(n, rows, last);
      assert before * last == {};
    }
  }

  /**
   * `SELECT c.challenge_text FROM challenges c JOIN ranks r ON c.rank_id = r.id
   * WHERE …` with the condition `f`: one text per matching (challenge, rank)
   * pair, in an order the query leaves open; this model lists them challenge
   * by challenge.
   */
  function JoinTexts(challenges: seq<Challenge>, ranks: seq<Rank>, f: RankFilter): (texts: seq<string>)
    ensures forall t :: t in texts <==> exists c, r ::
      c in challenges && r in ranks && r.id == c.rankId && Keeps(f, r) && c.text == t
    ensures texts == [] <==> forall c, r :: c in challenges && r in ranks && r.id == c.rankId ==> !Keeps(f, r)
  {
    if challenges == [] then []
    else
      var n := |challenges| - 1;
      var before := JoinTexts(challenges[..n], ranks, f);
      assert forall x :: x in challenges ==> x == challenges[n] || x in challenges[..n];
      before + MatchingRows(challenges[n], ranks, f)
  }

  /** The texts one challenge contributes to the join: its text once per matching rank row. */
  function MatchingRows(c: Challenge, ranks: seq<Rank>, f: RankFilter): (texts: seq<string>)
    ensures forall t :: t in texts <==> t == c.text && exists r :: r in ranks && r.id == c.rankId && Keeps(f, r)
    ensures texts == [] <==> forall r :: r in ranks ==> !(r.id == c.rankId && Keeps(f, r))
  {
    if ranks == [] then []
    else
      var n := |ranks| - 1;
      assert forall x :: x in ranks ==> x == ranks[n] || x in ranks[..n];
      var matches := ranks[n].id == c.rankId && Keeps(f, ranks[n]);
      MatchingRows(c, ranks[..n], f) + (if matches then [c.text] else [])
  }

  /** The rows a challenge matches in a table are those it matches before the last row, plus possibly the last. */
  lemma RowsMatchingSplit(c: Challenge, ranks: seq<Rank>, f: RankFilter)
    requires |ranks| > 0
    ensures var n := |ranks| - 1;
      var matches := ranks[n].id == c.rankId && Keeps(f, ranks[n]);
      && n !in RowsMatching(c, ranks[..n], f)
      && RowsMatching(c, ranks, f) == RowsMatching(c, ranks[..n], f) + (if matches then {n} else {})
  {
  }

  /** A challenge's text appears in its part of the join once per rank row it matches, and no other text does. */
  lemma {:induction false} MatchingRowsCount(c: Challenge, ranks: seq<Rank>, f: RankFilter, t: string)
    ensures multiset(MatchingRows(c, ranks, f))[t] == if t == c.text then |RowsMatching(c, ranks, f)| else 0
  {
    if ranks != [] {
      var n := |ranks| - 1;
      MatchingRowsCount(c, ranks[..n], f, t);
      var matches := ranks[n].id == c.rankId && Keeps(f, ranks[n]);
      var rest := MatchingRows(c, ranks[..n], f);
      var added := if matches then [c.text] else [];
      assert MatchingRows(c, ranks, f) == rest + added;
      assert multiset(rest + added) == multiset(rest) + multiset(added);
      RowsMatchingSplit(c, ranks, f);
    }
  }

  /**
   * Bag semantics of the join: each text occurs in the result exactly as
   * often as there are matching (challenge, rank) pairs carrying it.
   */
  lemma {:induction false} JoinTextsCount(challenges: seq<Challenge>, ranks: seq<Rank>, f: RankFilter, t: string)
    ensures multiset(JoinTexts(challenges, ranks, f))[t] == |JoinPairs(challenges, ranks, f, t)|
  {
    if challenges != [] {
      var n := |challenges| - 1;
      JoinTextsCount(challenges[..n], ranks, f, t);
      MatchingRowsCount(challenges[n], ranks, f, t);
      JoinPairsSplit(challenges, ranks, f, t);
    }
  }

  /** `SELECT MIN(min_km) FROM ranks` on a non-empty table. */
  function LowestMinKm(ranks: seq<Rank>): (m: real)
    requires |ranks| > 0
    ensures exists r :: r in ranks && r.minKm == m
    ensures forall r :: r in ranks ==> m <= r.minKm
  {
    if |ranks| == 1 then ranks[0].minKm
    else
      var rest := LowestMinKm(ranks[1..]);
      assert forall x :: x in ranks ==> x == ranks[0] || x in ranks[1..];
      if ranks[0].minKm <= rest then ranks[0].minKm else rest
  }

  /** Whether `r` is one of the ranks with the smallest lower bound. */
  predicate Lowest(r: Rank, ranks: seq<Rank>)
  {
    forall x :: x in ranks ==> r.minKm <= x.minKm
  }

  /** On a non-empty table, `r.min_km = (SELECT MIN(min_km) FROM ranks)` keeps exactly the lowest ranks. */
  lemma LowestFilter(ranks: seq<Rank>)
    requires |ranks| > 0
    ensures forall r :: r in ranks ==> (Keeps(MinKmIs(LowestMinKm(ranks)), r) <==> Lowest(r, ranks))
  {
  }

  /**
   * `get_challenges_for_rank`: the challenge texts of the ranks called
   * `name`; when there are none, the texts of the ranks with the smallest
   * lower bound. On an empty rank table `MIN(min_km)` is NULL and the
   * fallback query matches nothing.
   */
  function ChallengesForRank(ranks: seq<Rank>, challenges: seq<Challenge>, name: string): (texts: seq<string>)
    ensures forall t :: t in texts ==> exists c, r :: c in challenges && r in ranks && r.id == c.rankId && c.text == t
    ensures texts == [] <==> forall c, r :: c in challenges && r in ranks && r.id == c.rankId ==>
      r.name != name && !Lowest(r, ranks)
  {
    var own := JoinTexts(challenges, ranks, NameIs(name));
    if own != [] then own
    else if |ranks| == 0 then []
    else
      var low := LowestMinKm(ranks);
      LowestFilter(ranks);
      JoinTexts(challenges, ranks, MinKmIs(low))
  }

  /** When some challenge belongs to a rank called `name`, the result is exactly the texts of such challenges. */
  lemma ChallengesOfNamedRank(ranks: seq<Rank>, challenges: seq<Challenge>, name: string)
    requires exists c, r :: c in challenges && r in ranks && r.id == c.rankId && r.name == name
    ensures forall t :: t in ChallengesForRank(ranks, challenges, name) <==> exists c, r ::
      c in challenges && r in ranks && r.id == c.rankId && r.name == name && c.text == t
    ensures forall t ::
      multiset(ChallengesForRank(ranks, challenges, name))[t] == |JoinPairs(challenges, ranks, NameIs(name), t)|
  {
    var own := JoinTexts(challenges, ranks, NameIs(name));
    assert own != [];
    assert ChallengesForRank(ranks, challenges, name) == own;
    forall t
      ensures multiset(own)[t] == |JoinPairs(challenges, ranks, NameIs(name), t)|
    {
      JoinTextsCount(challenges, ranks, NameIs(name), t);
    }
  }

  /**
   * When no challenge belongs to a rank called `name`, the result is
   * exactly the texts of the challenges of the lowest ranks, and empty when
   * those have none.
   */
  lemma ChallengesFallBackToLowest(ranks: seq<Rank>, challenges: seq<Challenge>, name: string)
    requires forall c, r :: c in challenges && r in ranks && r.id == c.rankId ==> r.name != name
    ensures forall t :: t in ChallengesForRank(ranks, challenges, name) <==> exists c, r ::
      c in challenges && r in ranks && r.id == c.rankId && Lowest(r, ranks) && c.text == t
    ensures |ranks| > 0 ==> forall t ::
      multiset(ChallengesForRank(ranks, challenges, name))[t] == |JoinPairs(challenges, ranks, MinKmIs(LowestMinKm(ranks)), t)|
  {
    var own := JoinTexts(challenges, ranks, NameIs(name));
    assert own == [];
    var res := ChallengesForRank(ranks, challenges, name);
    if |ranks| > 0 {
      var low := LowestMinKm(ranks);
      LowestFilter(ranks);
      assert res == JoinTexts(challenges, ranks, MinKmIs(low));
      forall t
        ensures multiset(res)[t] == |JoinPairs(challenges, ranks, MinKmIs(low), t)|
      {
        JoinTextsCount(challenges, ranks, MinKmIs(low), t);
      }
      forall t
        ensures t in res <==> exists c, r ::
          c in challenges && r in ranks && r.id == c.rankId && Lowest(r, ranks) && c.text == t
      {
        if exists c, r :: c in challenges && r in ranks && r.id == c.rankId && Lowest(r, ranks) && c.text == t {
          var c, r :| c in challenges && r in ranks && r.id == c.rankId && Lowest(r, ranks) && c.text == t;
          assert Keeps(MinKmIs(low), r);
        }
        if t in res {
          var c, r :| c in challenges && r in ranks && r.id == c.rankId && Keeps(MinKmIs(low), r) && c.text == t;
          assert Lowest(r, ranks);
        }
      }
    }
  }

  /**
   * A tier table as the bot intends it: bands each non-empty and ending
   * exactly where the next begins, with distinct names. That the rows are
   * stored in ascending order is an assumption of the tier lemmas below
   * (it lets them name the tier by position); the queries themselves depend
   * on row order only among rows with equal sort keys. Adjacency is written
   * over a pair `i, j` with `j == i + 1` so that its trigger is the pair of
   * terms `ranks[i]`, `ranks[j]`: the form indexing `ranks[i + 1]` lets the
   * verifier build `ranks[i + 2]`, `ranks[i + 3]`, … without end.
   */
  ghost predicate Partitioned(ranks: seq<Rank>)
  {
    && |ranks| > 0
    && (forall i :: 0 <= i < |ranks| ==> ranks[i].minKm < ranks[i].maxKm)
    && (forall i, j :: 0 <= i < j < |ranks| && j == i + 1 ==> ranks[i].maxKm == ranks[j].minKm)
    && DistinctNames(ranks)
  }

  /**
   * `km` belongs to tier `i` of a partitioned table: at or above its lower
   * bound and below its upper bound, which the top tier also includes. On a
   * shared bound the higher tier owns the value.
   */
  predicate InTier(ranks: seq<Rank>, i: int, km: real)
    requires 0 <= i < |ranks|
  {
    ranks[i].minKm <= km && (km < ranks[i].maxKm || (i == |ranks| - 1 && km == ranks[i].maxKm))
  }

  /** In a partitioned table every band ends at or below the start of each later band. */
  lemma {:induction false} PartitionAscending(ranks: seq<Rank>, i: int, j: int)
    requires Partitioned(ranks) && 0 <= i < j < |ranks|
    ensures ranks[i].maxKm <= ranks[j].minKm
    decreases j - i
  {
    if i + 1 < j {
      PartitionAscending(ranks, i, j - 1);
    }
  }

  /** Every distance from the lowest lower bound to the highest upper bound lies in some tier. */
  lemma {:induction false} TierExists(ranks: seq<Rank>, km: real, from: int)
    requires Partitioned(ranks) && 0 <= from < |ranks|
    requires ranks[from].minKm <= km <= ranks[|ranks| - 1].maxKm
    ensures exists i :: from <= i < |ranks| && InTier(ranks, i, km)
    decreases |ranks| - from
  {
    if !InTier(ranks, from, km) {
      TierExists(ranks, km, from + 1);
    }
  }

  /** On a partitioned table `determine_rank_db` returns the tier `km` lies in. */
  lemma DetermineRankInTier(ranks: seq<Rank>, km: real, i: int)
    requires Partitioned(ranks) && 0 <= i < |ranks| && InTier(ranks, i, km)
    ensures DetermineRank(ranks, km) == ranks[i]
  {
    var row := DetermineRank(ranks, km);
    assert Contains(ranks[i], km);
    var j :| 0 <= j < |ranks| && ranks[j] == row;
    if j < i {
      PartitionAscending(ranks, j, i);
    } else if i < j {
      PartitionAscending(ranks, i, j);
    }
  }

  /**
   * With distinct names, when `r` is the only rank with the smallest lower
   * bound above the current rank's, `calculate_progress_db` names `r`.
   */
  lemma NextRankIs(ranks: seq<Rank>, km: real, cur: Rank, r: Rank)
    requires |ranks| > 0 && DistinctNames(ranks) && cur == DetermineRank(ranks, km)
    requires r in ranks && r.minKm > cur.minKm
    requires forall x :: x in ranks && x.minKm > cur.minKm ==> x == r || r.minKm < x.minKm
    ensures CalculateProgress(ranks, km) == Progress(cur.name, Some(r.name), Some(r.minKm - km))
  {
  }

  /** With distinct names, when no rank starts above the current one there is no next rank. */
  lemma NoNextRank(ranks: seq<Rank>, km: real, cur: Rank)
    requires |ranks| > 0 && DistinctNames(ranks) && cur == DetermineRank(ranks, km)
    requires forall x :: x in ranks ==> x.minKm <= cur.minKm
    ensures CalculateProgress(ranks, km) == Progress(cur.name, None, None)
  {
  }

  /** In a partitioned table the tier after `i` is the only one with the smallest lower bound above tier `i`'s. */
  lemma TierAfter(ranks: seq<Rank>, i: int)
    requires Partitioned(ranks) && 0 <= i && i + 1 < |ranks|
    ensures ranks[i + 1].minKm > ranks[i].minKm
    ensures forall x :: x in ranks && x.minKm > ranks[i].minKm ==> x == ranks[i + 1] || ranks[i + 1].minKm < x.minKm
  {
    forall x | x in ranks && x.minKm > ranks[i].minKm
      ensures x == ranks[i + 1] || ranks[i + 1].minKm < x.minKm
    {
      var j :| 0 <= j < |ranks| && ranks[j] == x;
      if j < i {
        PartitionAscending(ranks, j, i);
      } else if i + 1 < j {
        PartitionAscending(ranks, i + 1, j);
      }
    }
  }

  /**
   * In a partitioned table the top tier has the largest lower bound, and
   * every other tier ends strictly below the top tier's upper bound.
   */
  lemma TopTierHighest(ranks: seq<Rank>)
    requires Partitioned(ranks)
    ensures forall x :: x in ranks ==> x.minKm <= ranks[|ranks| - 1].minKm
    ensures forall x :: x in ranks ==> x == ranks[|ranks| - 1] || x.maxKm < ranks[|ranks| - 1].maxKm
  {
    var top := |ranks| - 1;
    forall x | x in ranks
      ensures x.minKm <= ranks[top].minKm && (x == ranks[top] || x.maxKm < ranks[top].maxKm)
    {
      var j :| 0 <= j < |ranks| && ranks[j] == x;
      if j < top {
        PartitionAscending(ranks, j, top);
      }
    }
  }

  /** In a partitioned table no band holds a distance below the lowest bound or above the highest. */
  lemma NoTierHolds(ranks: seq<Rank>, km: real)
    requires Partitioned(ranks) && (km < ranks[0].minKm || km > ranks[|ranks| - 1].maxKm)
    ensures forall x :: x in ranks ==> !Contains(x, km)
  {
    TopTierHighest(ranks);
    forall x | x in ranks
      ensures ranks[0].minKm <= x.minKm
    {
      var j :| 0 <= j < |ranks| && ranks[j] == x;
      if 0 < j {
        PartitionAscending(ranks, 0, j);
      }
    }
  }

  /** Below the top tier of a partitioned table the next rank is the tier directly above. */
  lemma NextOfTier(ranks: seq<Rank>, km: real, i: int)
    requires Partitioned(ranks) && 0 <= i && i + 1 < |ranks| && InTier(ranks, i, km)
    ensures CalculateProgress(ranks, km).current == ranks[i].name
    ensures CalculateProgress(ranks, km).next.Some? && CalculateProgress(ranks, km).next.value == ranks[i + 1].name
    ensures CalculateProgress(ranks, km).kmNeeded.Some? && CalculateProgress(ranks, km).kmNeeded.value == ranks[i + 1].minKm - km
  {
    var cur, r := ranks[i], ranks[i + 1];
    assert CalculateProgress(ranks, km) == Progress(cur.name, Some(r.name), Some(r.minKm - km)) by {
      DetermineRankInTier(ranks, km, i);
      TierAfter(ranks, i);
      assert DistinctNames(ranks) && r in ranks;
      NextRankIs(ranks, km, cur, r);
    }
  }

  /** At the top tier of a partitioned table there is no next rank. */
  lemma TopTierHasNoNext(ranks: seq<Rank>, km: real)
    requires Partitioned(ranks) && InTier(ranks, |ranks| - 1, km)
    ensures CalculateProgress(ranks, km) == Progress(ranks[|ranks| - 1].name, None, None)
  {
    DetermineRankInTier(ranks, km, |ranks| - 1);
    TopTierHighest(ranks);
    NoNextRank(ranks, km, ranks[|ranks| - 1]);
  }

  /**
   * On a partitioned table `calculate_progress_db` names the tier above the
   * current one and the positive distance to its lower bound; at the top
   * tier both are absent.
   */
  lemma ProgressInTier(ranks: seq<Rank>, km: real, i: int)
    requires Partitioned(ranks) && 0 <= i < |ranks| && InTier(ranks, i, km)
    ensures CalculateProgress(ranks, km).current == ranks[i].name
    ensures CalculateProgress(ranks, km).next.None? <==> i == |ranks| - 1
    ensures CalculateProgress(ranks, km).kmNeeded.Some? ==> CalculateProgress(ranks, km).kmNeeded.value > 0.0
  {
    if i + 1 < |ranks| {
      NextOfTier(ranks, km, i);
    } else {
      TopTierHasNoNext(ranks, km);
    }
  }

  /**
   * On a partitioned table the rank never drops as the weekly distance
   * grows: the tier of the larger distance starts no lower.
   */
  lemma DetermineRankMonotonic(ranks: seq<Rank>, a: real, b: real)
    requires Partitioned(ranks) && ranks[0].minKm <= a <= b <= ranks[|ranks| - 1].maxKm
    ensures DetermineRank(ranks, a).minKm <= DetermineRank(ranks, b).minKm
  {
    TierExists(ranks, a, 0);
    TierExists(ranks, b, 0);
    var i :| 0 <= i < |ranks| && InTier(ranks, i, a);
    var j :| 0 <= j < |ranks| && InTier(ranks, j, b);
    DetermineRankInTier(ranks, a, i);
    DetermineRankInTier(ranks, b, j);
    if j < i {
      PartitionAscending(ranks, j, i);
    } else if i < j {
      PartitionAscending(ranks, i, j);
    }
  }

  /**
   * Outside the table's range, above the top or below the bottom (a negative
   * distance, say), no band holds `km` and the fallback picks the top tier,
   * which has no next rank.
   */
  lemma OutOfRangeFallsBackToTop(ranks: seq<Rank>, km: real)
    requires Partitioned(ranks) && (km < ranks[0].minKm || km > ranks[|ranks| - 1].maxKm)
    ensures DetermineRank(ranks, km) == ranks[|ranks| - 1]
    ensures CalculateProgress(ranks, km) == Progress(ranks[|ranks| - 1].name, None, None)
  {
    NoTierHolds(ranks, km);
    TopTierHighest(ranks);
    NoNextRank(ranks, km, ranks[|ranks| - 1]);
  }

  /** A three-tier table: Padawan up to 10 km a week, Knight up to 30, Master above. */
  predicate IsSampleTable(t: seq<Rank>)
  {
    t == [Rank(1, "Padawan", 0.0, 10.0), Rank(2, "Knight", 10.0, 30.0), Rank(3, "Master", 30.0, 1000.0)]
  }

  /**
   * On the sample table: 7 km is a Padawan 3 km short of Knight; exactly
   * 10 km, the shared bound, is already a Knight; 12 km is a Knight 18 km
   * short of Master; Master has no next rank.
   */
  lemma SampleProgress(t: seq<Rank>)
    requires IsSampleTable(t)
    ensures CalculateProgress(t, 7.0) == Progress("Padawan", Some("Knight"), Some(3.0))
    ensures CalculateProgress(t, 10.0) == Progress("Knight", Some("Master"), Some(20.0))
    ensures CalculateProgress(t, 12.0) == Progress("Knight", Some("Master"), Some(18.0))
    ensures CalculateProgress(t, 45.0) == Progress("Master", None, None)
  {
    assert Partitioned(t);
    NextOfTier(t, 7.0, 0);
    NextOfTier(t, 10.0, 1);
    NextOfTier(t, 12.0, 1);
    TopTierHasNoNext(t, 45.0);
  }

  /**
   * The rank is monotonic only within the table's range: on the sample
   * table a negative distance falls back to Master, while 0 km, the lowest
   * bound, is Padawan.
   */
  lemma SampleDropsEnteringRange(t: seq<Rank>)
    requires IsSampleTable(t)
    ensures DetermineRank(t, -1.0).name == "Master"
    ensures DetermineRank(t, 0.0).name == "Padawan"
    ensures DetermineRank(t, 0.0).minKm < DetermineRank(t, -1.0).minKm
  {
    assert Partitioned(t);
    OutOfRangeFallsBackToTop(t, -1.0);
    DetermineRankInTier(t, 0.0, 0);
  }
}
