/**
 * The pure rules the room engine applies inside its actions
 * (server/game-storage.ts and the timeout tally of server/routes.ts):
 * roster lookup, plurality of category and suspect votes, the two
 * guess-validation rules, score awards and role dealing.
 */
module RoundRules {
  import opened Wrappers
  import opened Sequences
  import opened Schema

  /** The Classic-mode word a spy receives instead of the secret word. */
  const SpyPlaceholder: string := "أنت الجاسوس"

  /** The roster's ids, in roster order. */
  function Ids(players: seq<Player>): seq<string>
  {
    seq(|players|, i requires 0 <= i < |players| => players[i].id)
  }

  /** The index of the first player with this id, if any. */
  function IndexOf(players: seq<Player>, id: string): (r: Option<nat>)
    ensures r.Some? ==> (r.value < |players| && players[r.value].id == id
      && forall j :: 0 <= j < r.value ==> players[j].id != id)
    ensures r.None? <==> forall j :: 0 <= j < |players| ==> players[j].id != id
  {
    if players == [] then None
    else if players[0].id == id then Some(0)
    else
      match IndexOf(players[1..], id)
      case None => None
      case Some(i) => Some(i + 1)
  }

  /** Whether the first player with this id is the host; false when nobody has it. */
  predicate IsHost(players: seq<Player>, id: string)
  {
    var i := IndexOf(players, id);
    i.Some? && players[i.value].isHost
  }

  // ---------------------------------------------------------------- plurality

  /** The largest of `counts`, 0 when there are none. */
  function MaxOf(counts: seq<nat>): nat
  {
    if counts == [] then 0
    else
      var rest := MaxOf(counts[1..]);
      if counts[0] >= rest then counts[0] else rest
  }

  /** `MaxOf` bounds every count and is one of them. */
  lemma {:induction false} MaxOfIsMaximum(counts: seq<nat>)
    ensures forall i :: 0 <= i < |counts| ==> counts[i] <= MaxOf(counts)
    ensures counts != [] ==> exists i :: 0 <= i < |counts| && counts[i] == MaxOf(counts)
  {
    if counts != [] {
      MaxOfIsMaximum(counts[1..]);
      forall i | 1 <= i < |counts| ensures counts[i] <= MaxOf(counts) {
        assert counts[i] == counts[1..][i - 1];
      }
      if counts[0] < MaxOf(counts[1..]) {
        var k :| 0 <= k < |counts[1..]| && counts[1..][k] == MaxOf(counts[1..]);
        assert counts[k + 1] == MaxOf(counts);
      }
    }
  }

  /** The keys whose count equals `m`, in key order. */
  function Reaching<K>(keys: seq<K>, counts: seq<nat>, m: nat): seq<K>
    requires |keys| == |counts|
  {
    if keys == [] then []
    else (if counts[0] == m then [keys[0]] else []) + Reaching(keys[1..], counts[1..], m)
  }

  lemma {:induction false} ReachingMembers<K>(keys: seq<K>, counts: seq<nat>, m: nat, x: K)
    requires |keys| == |counts|
    ensures x in Reaching(keys, counts, m) <==> exists i :: 0 <= i < |keys| && keys[i] == x && counts[i] == m
  {
    if keys != [] {
      ReachingMembers(keys[1..], counts[1..], m, x);
      if exists i :: 0 < i < |keys| && keys[i] == x && counts[i] == m {
        var i :| 0 < i < |keys| && keys[i] == x && counts[i] == m;
        assert keys[1..][i - 1] == x && counts[1..][i - 1] == m;
      }
      if exists i :: 0 <= i < |keys[1..]| && keys[1..][i] == x && counts[1..][i] == m {
        var i :| 0 <= i < |keys[1..]| && keys[1..][i] == x && counts[1..][i] == m;
        assert keys[i + 1] == x && counts[i + 1] == m;
      }
    }
  }

  /** The keys whose count is the largest, in key order; `counts[i]` is the count of `keys[i]`. */
  function Plurality<K>(keys: seq<K>, counts: seq<nat>): seq<K>
    requires |keys| == |counts|
  {
    Reaching(keys, counts, MaxOf(counts))
  }

  /** A key is among the most counted exactly when no other key has a larger count. */
  lemma PluralityMembers<K>(keys: seq<K>, counts: seq<nat>, x: K)
    requires |keys| == |counts|
    ensures x in Plurality(keys, counts) <==>
      exists i :: 0 <= i < |keys| && keys[i] == x && forall j :: 0 <= j < |counts| ==> counts[j] <= counts[i]
  {
    MaxOfIsMaximum(counts);
    ReachingMembers(keys, counts, MaxOf(counts), x);
    if exists i :: 0 <= i < |keys| && keys[i] == x && forall j :: 0 <= j < |counts| ==> counts[j] <= counts[i] {
      var i :| 0 <= i < |keys| && keys[i] == x && forall j :: 0 <= j < |counts| ==> counts[j] <= counts[i];
      var k :| 0 <= k < |counts| && counts[k] == MaxOf(counts);
      assert counts[i] == MaxOf(counts);
    }
  }

  /** There is always a most counted key when there are keys. */
  lemma PluralityNonEmpty<K>(keys: seq<K>, counts: seq<nat>)
    requires |keys| == |counts| && keys != []
    ensures Plurality(keys, counts) != []
  {
    MaxOfIsMaximum(counts);
    var k :| 0 <= k < |counts| && counts[k] == MaxOf(counts);
    ReachingMembers(keys, counts, MaxOf(counts), keys[k]);
  }

  /** The number of votes for `category`. */
  function CategoryCount(votes: seq<CategoryVote>, category: string): nat
  {
    if votes == [] then 0
    else (if votes[0].category == category then 1 else 0) + CategoryCount(votes[1..], category)
  }

  /** The vote count of each of `categories`, in order. */
  function CategoryCounts(categories: seq<string>, votes: seq<CategoryVote>): (counts: seq<nat>)
    ensures |counts| == |categories|
  {
    if categories == [] then []
    else [CategoryCount(votes, categories[0])] + CategoryCounts(categories[1..], votes)
  }

  lemma {:induction false} CategoryCountsAt(categories: seq<string>, votes: seq<CategoryVote>, i: nat)
    requires i < |categories|
    ensures CategoryCounts(categories, votes)[i] == CategoryCount(votes, categories[i])
  {
    if i > 0 {
      CategoryCountsAt(categories[1..], votes, i - 1);
    }
  }

  /** The category ids with the most votes; votes for other ids are ignored. */
  function TopCategories(votes: seq<CategoryVote>): (top: seq<string>)
    ensures top != []
  {
    PluralityNonEmpty(CategoryIds, CategoryCounts(CategoryIds, votes));
    Plurality(CategoryIds, CategoryCounts(CategoryIds, votes))
  }

  /** Among `categories`, the most voted ones are exactly those no other one outvotes. */
  lemma PluralityOfCategories(categories: seq<string>, votes: seq<CategoryVote>, c: string)
    ensures c in Plurality(categories, CategoryCounts(categories, votes)) <==>
      c in categories && forall d :: d in categories ==> CategoryCount(votes, d) <= CategoryCount(votes, c)
  {
    var counts := CategoryCounts(categories, votes);
    PluralityMembers(categories, counts, c);
    forall i | 0 <= i < |categories| ensures counts[i] == CategoryCount(votes, categories[i]) {
      CategoryCountsAt(categories, votes, i);
    }
    if c in Plurality(categories, counts) {
      var i :| 0 <= i < |categories| && categories[i] == c && forall j :: 0 <= j < |counts| ==> counts[j] <= counts[i];
      forall d | d in categories ensures CategoryCount(votes, d) <= CategoryCount(votes, c) {
        var j :| 0 <= j < |categories| && categories[j] == d;
        assert counts[j] <= counts[i];
      }
    }
    if c in categories && forall d :: d in categories ==> CategoryCount(votes, d) <= CategoryCount(votes, c) {
      var i :| 0 <= i < |categories| && categories[i] == c;
      forall j | 0 <= j < |counts| ensures counts[j] <= counts[i] {
        assert categories[j] in categories;
      }
    }
  }

  /** A category is among the top ones exactly when it is a known category no other category outvotes. */
  lemma TopCategoriesMembers(votes: seq<CategoryVote>, c: string)
    ensures c in TopCategories(votes) <==>
      c in CategoryIds && forall d :: d in CategoryIds ==> CategoryCount(votes, d) <= CategoryCount(votes, c)
  {
    PluralityOfCategories(CategoryIds, votes, c);
  }

  /** A category that trails another one can never be selected. */
  lemma TrailingCategoryLoses(votes: seq<CategoryVote>, c: string, d: string)
    requires d in CategoryIds && CategoryCount(votes, c) < CategoryCount(votes, d)
    ensures c !in TopCategories(votes)
  {
    TopCategoriesMembers(votes, c);
  }

  /** The number of votes naming `id` as the spy. */
  function SuspectCount(votes: seq<SpyVote>, id: string): nat
  {
    if votes == [] then 0
    else (if votes[0].suspectId == id then 1 else 0) + SuspectCount(votes[1..], id)
  }

  /** The suspect count of each of `ids`, in order. */
  function SuspectCounts(ids: seq<string>, votes: seq<SpyVote>): (counts: seq<nat>)
    ensures |counts| == |ids|
  {
    if ids == [] then []
    else [SuspectCount(votes, ids[0])] + SuspectCounts(ids[1..], votes)
  }

  lemma {:induction false} SuspectCountsAt(ids: seq<string>, votes: seq<SpyVote>, i: nat)
    requires i < |ids|
    ensures SuspectCounts(ids, votes)[i] == SuspectCount(votes, ids[i])
  {
    if i > 0 {
      SuspectCountsAt(ids[1..], votes, i - 1);
    }
  }

  /** The roster ids with the most suspect votes; votes naming anyone else are ignored. */
  function TopSuspects(players: seq<Player>, votes: seq<SpyVote>): (top: seq<string>)
    ensures players != [] ==> top != []
  {
    if players == [] then []
    else
      PluralityNonEmpty(Ids(players), SuspectCounts(Ids(players), votes));
      Plurality(Ids(players), SuspectCounts(Ids(players), votes))
  }

  /** A player is among the top suspects exactly when no other player drew more votes. */
  lemma TopSuspectsMembers(players: seq<Player>, votes: seq<SpyVote>, id: string)
    ensures id in TopSuspects(players, votes) <==>
      id in Ids(players) && forall j :: j in Ids(players) ==> SuspectCount(votes, j) <= SuspectCount(votes, id)
  {
    if players != [] {
      var ids := Ids(players);
      var counts := SuspectCounts(ids, votes);
      PluralityMembers(ids, counts, id);
      forall i | 0 <= i < |ids| ensures counts[i] == SuspectCount(votes, ids[i]) {
        SuspectCountsAt(ids, votes, i);
      }
      if id in TopSuspects(players, votes) {
        var i :| 0 <= i < |ids| && ids[i] == id && forall j :: 0 <= j < |counts| ==> counts[j] <= counts[i];
        forall x | x in ids ensures SuspectCount(votes, x) <= SuspectCount(votes, id) {
          var j :| 0 <= j < |ids| && ids[j] == x;
          assert counts[j] <= counts[i];
        }
      }
      if id in ids && forall x :: x in ids ==> SuspectCount(votes, x) <= SuspectCount(votes, id) {
        var i :| 0 <= i < |ids| && ids[i] == id;
        forall j | 0 <= j < |counts| ensures counts[j] <= counts[i] {
          assert ids[j] in ids;
        }
      }
    }
  }

  /** Whether the first player with this id holds the spy role; false when nobody has it. */
  predicate IsSpyId(players: seq<Player>, id: string)
  {
    var i := IndexOf(players, id);
    i.Some? && players[i.value].role == Some(Spy)
  }

  // ---------------------------------------------------------------- scoring

  /** Every player that `earns` gains one point; nothing else changes. */
  function Reward(players: seq<Player>, earns: Player -> bool): seq<Player>
  {
    seq(|players|, i requires 0 <= i < |players| =>
      if earns(players[i]) then players[i].(score := players[i].score + 1) else players[i])
  }

  function TotalScore(players: seq<Player>): int
  {
    if players == [] then 0 else players[0].score + TotalScore(players[1..])
  }

  /** An award adds exactly one point per earning player and keeps everything but the scores. */
  lemma {:induction false} RewardTotal(players: seq<Player>, earns: Player -> bool)
    ensures |Reward(players, earns)| == |players|
    ensures Ids(Reward(players, earns)) == Ids(players)
    ensures forall i :: 0 <= i < |players| ==>
      Reward(players, earns)[i].(score := players[i].score) == players[i]
      && Reward(players, earns)[i].score - players[i].score == (if earns(players[i]) then 1 else 0)
    ensures TotalScore(Reward(players, earns)) == TotalScore(players) + |Filter(players, earns)|
  {
    if players != [] {
      RewardTotal(players[1..], earns);
      assert Reward(players, earns)[1..] == Reward(players[1..], earns);
    }
  }

  /** Whether a player voted for `suspectId`. */
  function AccusedBy(votes: seq<SpyVote>, suspectId: string): Player -> bool
  {
    (p: Player) => SpyVote(p.id, suspectId) in votes
  }

  /** Whether a player was dealt the spy role. */
  predicate HoldsSpyRole(p: Player)
  {
    p.role == Some(Spy)
  }

  /** Whether a player's id is among `ids`. */
  function Among(ids: seq<string>): Player -> bool
  {
    (p: Player) => p.id in ids
  }

  /** The voters of the revealed suspect, each by one point. */
  function RewardVoters(players: seq<Player>, votes: seq<SpyVote>, suspectId: string): seq<Player>
  {
    Reward(players, AccusedBy(votes, suspectId))
  }

  /** Every spy, each by one point. */
  function RewardSpies(players: seq<Player>): seq<Player>
  {
    Reward(players, HoldsSpyRole)
  }

  /** The players whose id is among the revealed spies, each by one point. */
  function RewardRevealed(players: seq<Player>, revealed: seq<string>): seq<Player>
  {
    Reward(players, Among(revealed))
  }

  /** The score change of the spy vote: a caught spy rewards its voters, a wrong reveal rewards every spy. */
  function SpyVoteScores(players: seq<Player>, votes: seq<SpyVote>, revealedId: string): (scored: seq<Player>)
    ensures |scored| == |players| && Ids(scored) == Ids(players)
  {
    if IsSpyId(players, revealedId) then RewardVoters(players, votes, revealedId) else RewardSpies(players)
  }

  /** The spy vote changes no score by more than one and only those the rule names. */
  lemma SpyVoteScoring(players: seq<Player>, votes: seq<SpyVote>, revealedId: string)
    ensures var after := SpyVoteScores(players, votes, revealedId);
      |after| == |players| && Ids(after) == Ids(players)
      && forall i :: 0 <= i < |players| ==>
        after[i].(score := players[i].score) == players[i]
        && after[i].score - players[i].score ==
          (if IsSpyId(players, revealedId) then (if SpyVote(players[i].id, revealedId) in votes then 1 else 0)
           else (if players[i].role == Some(Spy) then 1 else 0))
  {
    if IsSpyId(players, revealedId) {
      RewardTotal(players, AccusedBy(votes, revealedId));
    } else {
      RewardTotal(players, HoldsSpyRole);
    }
  }

  // ---------------------------------------------------------------- guess validation

  /** The number of votes saying the guess is correct. */
  function CorrectVotes(votes: seq<GuessValidationVote>): nat
  {
    if votes == [] then 0 else (if votes[0].isCorrect then 1 else 0) + CorrectVotes(votes[1..])
  }

  /** The number of votes saying the guess is wrong. */
  function IncorrectVotes(votes: seq<GuessValidationVote>): nat
  {
    if votes == [] then 0 else (if votes[0].isCorrect then 0 else 1) + IncorrectVotes(votes[1..])
  }

  /** Every validation vote is either correct or incorrect. */
  lemma {:induction false} VotesSplit(votes: seq<GuessValidationVote>)
    ensures CorrectVotes(votes) + IncorrectVotes(votes) == |votes|
  {
    if votes != [] {
      VotesSplit(votes[1..]);
    }
  }

  /** The quorum rule: more than half of the votes say correct, with exact (non-integer) halving. */
  predicate QuorumAwardsSpy(votes: seq<GuessValidationVote>)
    ensures QuorumAwardsSpy(votes) <==> CorrectVotes(votes) > IncorrectVotes(votes)
  {
    VotesSplit(votes);
    2 * CorrectVotes(votes) > |votes|
  }

  /** The timeout rule: at least one vote and no fewer correct than incorrect votes. */
  predicate TimeoutAwardsSpy(votes: seq<GuessValidationVote>)
    ensures TimeoutAwardsSpy(votes) ==> CorrectVotes(votes) > 0
  {
    VotesSplit(votes);
    CorrectVotes(votes) >= IncorrectVotes(votes) && |votes| > 0
  }

  /** A strict majority wins under both rules; a tie wins only at the timeout; no votes win neither. */
  lemma GuessRulesCompared(votes: seq<GuessValidationVote>)
    ensures QuorumAwardsSpy(votes) ==> TimeoutAwardsSpy(votes)
    ensures TimeoutAwardsSpy(votes) <==> |votes| > 0 && 2 * CorrectVotes(votes) >= |votes|
    ensures TimeoutAwardsSpy(votes) && !QuorumAwardsSpy(votes) <==> |votes| > 0 && 2 * CorrectVotes(votes) == |votes|
    ensures votes == [] ==> !QuorumAwardsSpy(votes) && !TimeoutAwardsSpy(votes)
  {
    VotesSplit(votes);
  }

  /** One correct and one incorrect vote: the timeout rule awards the spy, the quorum rule does not. */
  lemma TieFavoursSpyOnlyAtTimeout()
    ensures var votes := [GuessValidationVote("a", true), GuessValidationVote("b", false)];
      TimeoutAwardsSpy(votes) && !QuorumAwardsSpy(votes)
  {
    var votes := [GuessValidationVote("a", true), GuessValidationVote("b", false)];
    assert votes[1..][1..] == [];
    assert CorrectVotes(votes) == 1;
    assert IncorrectVotes(votes) == 1;
  }

  /** The players who take part in guess validation: everyone not revealed. */
  function NonRevealedCount(players: seq<Player>, revealed: seq<string>): nat
  {
    |Filter(players, (p: Player) => p.id !in revealed)|
  }

  // ---------------------------------------------------------------- dealing roles

  /** `order` is a shuffle of the roster indices `0 .. n-1`. */
  predicate IsShuffle(order: seq<nat>, n: nat)
  {
    |order| == n && (forall i :: 0 <= i < n ==> order[i] < n) && NoDuplicates(order)
  }

  /** The end index of a prefix slice of `count` elements on a list of length `n`, as the source's slice clamps it. */
  function SliceEnd(count: int, n: nat): (r: nat)
    ensures r <= n
  {
    if count < 0 then (if n + count < 0 then 0 else n + count)
    else if count < n then count
    else n
  }

  /**
   * How many spies a round deals: the room's count, or the roster-size default
   * when the count is 0, taken as a slice end over the shuffled roster.
   */
  function SpyTake(spyCount: int, n: nat): (take: nat)
    ensures take <= n
    ensures spyCount >= 1 ==> take == (if spyCount < n then spyCount else n)
    ensures spyCount == 0 ==> take == (if SpyCountForPlayers(n) < n then SpyCountForPlayers(n) else n)
  {
    SliceEnd(if spyCount != 0 then spyCount else SpyCountForPlayers(n), n)
  }

  /** A spy count the host can set leaves at least one spy and at least one regular player. */
  lemma SpyTakeBounds(spyCount: int, n: nat)
    requires 2 <= n && 1 <= spyCount <= n / 2
    ensures 1 <= SpyTake(spyCount, n) < n
  {
  }

  /** The ids of the first `take` players of the shuffled roster. */
  function ChosenSpyIds(players: seq<Player>, order: seq<nat>, take: nat): (spyIds: seq<string>)
    requires IsShuffle(order, |players|) && take <= |players|
    ensures |spyIds| == take
    ensures forall id :: id in spyIds ==> id in Ids(players)
  {
    var spyIds := seq(take, j requires 0 <= j < take => players[order[j]].id);
    assert forall j :: 0 <= j < take ==> spyIds[j] == Ids(players)[order[j]];
    spyIds
  }

  /** The word a spy receives: the placeholder in Classic mode, the spy word in Blind mode. */
  function SpyWordFor(mode: GameMode, spyWord: Option<string>): Option<string>
  {
    if mode == Classic then Some(SpyPlaceholder) else spyWord
  }

  /** Each chosen player becomes a spy with the spy's word; everyone else a regular player with the secret word. */
  function DealRoles(players: seq<Player>, spyIds: seq<string>, mode: GameMode,
                     currentWord: Option<string>, spyWord: Option<string>): (dealt: seq<Player>)
    ensures |dealt| == |players| && Ids(dealt) == Ids(players)
  {
    seq(|players|, i requires 0 <= i < |players| =>
      if players[i].id in spyIds then players[i].(role := Some(Spy), word := SpyWordFor(mode, spyWord))
      else players[i].(role := Some(Regular), word := currentWord))
  }

  /** The roster positions that hold a spy. */
  function SpyPositions(players: seq<Player>): set<nat>
  {
    set i: nat | i < |players| && players[i].role == Some(Spy)
  }

  /** The first `take` entries of a duplicate-free sequence form a set of `take` elements. */
  lemma {:induction false} PrefixSetSize(order: seq<nat>, take: nat)
    requires take <= |order| && NoDuplicates(order)
    ensures |set j | 0 <= j < take :: order[j]| == take
  {
    if take > 0 {
      PrefixSetSize(order, take - 1);
      var before := set j | 0 <= j < take - 1 :: order[j];
      assert (set j | 0 <= j < take :: order[j]) == before + {order[take - 1]};
      assert order[take - 1] !in before;
    }
  }

  /** Dealing a round from a shuffle: the first `SpyTake` shuffled players are the spies. */
  function Deal(players: seq<Player>, order: seq<nat>, spyCount: int, mode: GameMode,
                currentWord: Option<string>, spyWord: Option<string>): (dealt: seq<Player>)
    requires IsShuffle(order, |players|)
    ensures |dealt| == |players| && Ids(dealt) == Ids(players)
  {
    DealRoles(players, ChosenSpyIds(players, order, SpyTake(spyCount, |players|)), mode, currentWord, spyWord)
  }

  /** The spies dealt from a shuffle sit exactly at the first `SpyTake` shuffled positions. */
  lemma DealtSpyPositions(players: seq<Player>, order: seq<nat>, spyCount: int, mode: GameMode,
                          currentWord: Option<string>, spyWord: Option<string>)
    requires NoDuplicates(Ids(players)) && IsShuffle(order, |players|)
    ensures SpyPositions(Deal(players, order, spyCount, mode, currentWord, spyWord))
         == (set j | 0 <= j < SpyTake(spyCount, |players|) :: order[j])
  {
    var take := SpyTake(spyCount, |players|);
    var spyIds := ChosenSpyIds(players, order, take);
    var dealt := Deal(players, order, spyCount, mode, currentWord, spyWord);
    forall i: nat | i < |players|
      ensures i in SpyPositions(dealt) <==> i in (set j | 0 <= j < take :: order[j])
    {
      if players[i].id in spyIds {
        var j :| 0 <= j < take && spyIds[j] == players[i].id;
        assert Ids(players)[order[j]] == Ids(players)[i];
      } else {
        forall j | 0 <= j < take ensures order[j] != i {
          assert spyIds[j] == players[order[j]].id;
        }
      }
    }
  }

  /**
   * Dealing from a shuffle: the spies are exactly the first `SpyTake` shuffled
   * positions, so there are that many of them; every player gets a role, every
   * spy holds the spy's word and every regular player the secret word, and
   * nothing but role and word changes.
   */
  lemma DealtRoles(players: seq<Player>, order: seq<nat>, spyCount: int, mode: GameMode,
                   currentWord: Option<string>, spyWord: Option<string>)
    requires NoDuplicates(Ids(players)) && IsShuffle(order, |players|)
    ensures var dealt := Deal(players, order, spyCount, mode, currentWord, spyWord);
      && SpyPositions(dealt) == (set j | 0 <= j < SpyTake(spyCount, |players|) :: order[j])
      && |SpyPositions(dealt)| == SpyTake(spyCount, |players|)
      && |dealt| == |players|
      && forall i :: 0 <= i < |dealt| ==>
        && dealt[i].(role := players[i].role, word := players[i].word) == players[i]
        && dealt[i].role.Some?
        && (dealt[i].role == Some(Spy) ==> dealt[i].word == SpyWordFor(mode, spyWord))
        && (dealt[i].role == Some(Regular) ==> dealt[i].word == currentWord)
  {
    DealtSpyPositions(players, order, spyCount, mode, currentWord, spyWord);
    PrefixSetSize(order, SpyTake(spyCount, |players|));
  }

  /** Round reset of a player: role, word and vote markers are cleared. */
  function ClearRound(players: seq<Player>): (cleared: seq<Player>)
    ensures |cleared| == |players| && Ids(cleared) == Ids(players)
    ensures forall i :: 0 <= i < |cleared| ==> cleared[i].role == None && cleared[i].word == None
  {
    seq(|players|, i requires 0 <= i < |players| =>
      players[i].(role := None, word := None, hasVoted := Some(false), votedFor := None, isEliminated := Some(false)))
  }

  // ---------------------------------------------------------------- membership

  /** Exactly the player whose id is `hostId` carries the host flag, and that player is ready. */
  predicate HostConsistent(players: seq<Player>, hostId: string)
  {
    && (forall i :: 0 <= i < |players| ==> (players[i].isHost <==> players[i].id == hostId))
    && (exists i :: 0 <= i < |players| && players[i].id == hostId && players[i].isReady)
  }

  /** The roster without `playerId`, in roster order. */
  function Without(players: seq<Player>, playerId: string): seq<Player>
  {
    Filter(players, (p: Player) => p.id != playerId)
  }

  /** The roster after `playerId` leaves: when the host left, the first remaining player becomes host and ready. */
  function RosterAfterLeave(players: seq<Player>, hostId: string, playerId: string): (roster: seq<Player>)
    ensures Ids(roster) == Ids(Without(players, playerId))
  {
    var rest := Without(players, playerId);
    if rest != [] && hostId == playerId then rest[0 := rest[0].(isHost := true, isReady := true)] else rest
  }

  /** The host after `playerId` leaves: the first remaining player when the host left, otherwise the same host. */
  function HostAfterLeave(players: seq<Player>, hostId: string, playerId: string): (host: string)
    ensures host == hostId || host in Ids(Without(players, playerId))
    ensures hostId != playerId ==> host == hostId
  {
    var rest := Without(players, playerId);
    if rest != [] && hostId == playerId then assert Ids(rest)[0] == rest[0].id; rest[0].id else hostId
  }

  lemma IdsHead(players: seq<Player>)
    requires players != []
    ensures Ids(players) == [players[0].id] + Ids(players[1..])
  {
  }

  /** The ids left after removing `playerId` are the other ids of the roster. */
  lemma {:induction false} IdsWithout(players: seq<Player>, playerId: string, x: string)
    ensures x in Ids(Without(players, playerId)) <==> x in Ids(players) && x != playerId
  {
    if players != [] {
      IdsHead(players);
      IdsWithout(players[1..], playerId, x);
      var rest := Without(players[1..], playerId);
      if players[0].id != playerId {
        assert Without(players, playerId) == [players[0]] + rest;
        IdsHead([players[0]] + rest);
        assert ([players[0]] + rest)[1..] == rest;
      } else {
        assert Without(players, playerId) == rest;
      }
    }
  }

  /** Removing one id from a roster of distinct ids drops exactly the one player that has it. */
  lemma {:induction false} WithoutOne(players: seq<Player>, playerId: string)
    requires NoDuplicates(Ids(players))
    ensures NoDuplicates(Ids(Without(players, playerId)))
    ensures |Without(players, playerId)| == |players| - (if playerId in Ids(players) then 1 else 0)
  {
    if players != [] {
      var tail := players[1..];
      IdsHead(players);
      assert players[0].id !in Ids(tail) by {
        forall k | 0 <= k < |Ids(tail)| ensures Ids(tail)[k] != players[0].id {
          assert Ids(players)[k + 1] == Ids(tail)[k] && Ids(players)[0] == players[0].id;
        }
      }
      assert NoDuplicates(Ids(tail)) by {
        forall i, j | 0 <= i < j < |Ids(tail)| ensures Ids(tail)[i] != Ids(tail)[j] {
          assert Ids(players)[i + 1] == Ids(tail)[i] && Ids(players)[j + 1] == Ids(tail)[j];
        }
      }
      WithoutOne(tail, playerId);
      var rest := Without(tail, playerId);
      if players[0].id != playerId {
        assert Without(players, playerId) == [players[0]] + rest;
        IdsHead([players[0]] + rest);
        assert ([players[0]] + rest)[1..] == rest;
        IdsWithout(tail, playerId, players[0].id);
        assert playerId in Ids(players) <==> playerId in Ids(tail);
      } else {
        assert Without(players, playerId) == rest;
      }
    }
  }

  /** After a leave that leaves anyone, the roster again has exactly one host, who is ready. */
  lemma LeaveHost(players: seq<Player>, hostId: string, playerId: string)
    requires HostConsistent(players, hostId) && NoDuplicates(Ids(Without(players, playerId)))
    requires RosterAfterLeave(players, hostId, playerId) != []
    ensures HostConsistent(RosterAfterLeave(players, hostId, playerId), HostAfterLeave(players, hostId, playerId))
  {
    var rest := Without(players, playerId);
    var after := RosterAfterLeave(players, hostId, playerId);
    var host := HostAfterLeave(players, hostId, playerId);
    forall i | 0 <= i < |rest| ensures rest[i].isHost <==> rest[i].id == hostId {
      assert rest[i] in players;
    }
    if hostId == playerId {
      forall i | 0 < i < |after| ensures !after[i].isHost && after[i].id != host {
        assert Ids(rest)[i] != Ids(rest)[0];
      }
      assert after[0].id == host && after[0].isReady;
    } else {
      var h :| 0 <= h < |players| && players[h].id == hostId && players[h].isReady;
      assert players[h] in rest;
      var k :| 0 <= k < |rest| && rest[k] == players[h];
    }
  }

  /**
   * Leaving removes exactly the leaving player and keeps every other one;
   * when anyone is left, the roster again has exactly one host, who is ready,
   * and the roster's ids stay distinct.
   */
  lemma LeaveRoster(players: seq<Player>, hostId: string, playerId: string)
    requires NoDuplicates(Ids(players)) && HostConsistent(players, hostId)
    ensures var after := RosterAfterLeave(players, hostId, playerId);
      && |after| == |players| - (if playerId in Ids(players) then 1 else 0)
      && playerId !in Ids(after)
      && (forall q :: q in players && q.id != playerId ==> q.id in Ids(after))
      && NoDuplicates(Ids(after))
      && (after != [] ==> HostConsistent(after, HostAfterLeave(players, hostId, playerId)))
  {
    var rest := Without(players, playerId);
    var after := RosterAfterLeave(players, hostId, playerId);
    WithoutOne(players, playerId);
    assert Ids(after) == Ids(rest);
    forall q | q in players && q.id != playerId ensures q.id in Ids(after) {
      assert q in rest;
      var k :| 0 <= k < |rest| && rest[k] == q;
      assert Ids(rest)[k] == q.id;
    }
    assert playerId !in Ids(after) by {
      forall k | 0 <= k < |rest| ensures Ids(rest)[k] != playerId {
        assert rest[k] in rest;
      }
    }
    if after != [] {
      LeaveHost(players, hostId, playerId);
    }
  }

  /** Clearing the round keeps every player's identity, host and ready flags and score. */
  lemma ClearRoundKeeps(players: seq<Player>)
    ensures |ClearRound(players)| == |players| && Ids(ClearRound(players)) == Ids(players)
    ensures forall i :: 0 <= i < |players| ==>
      var p := ClearRound(players)[i];
      p.name == players[i].name && p.isHost == players[i].isHost && p.isReady == players[i].isReady
      && p.score == players[i].score && p.role == None && p.word == None
  {
  }

  /** Two rosters seat the same players: the same ids, host flags and ready flags, position by position. */
  predicate SameSeats(a: seq<Player>, b: seq<Player>)
  {
    |a| == |b| && forall i :: 0 <= i < |a| ==> a[i].id == b[i].id && a[i].isHost == b[i].isHost && a[i].isReady == b[i].isReady
  }

  /** Rosters that seat the same players agree on ids and on who hosts. */
  lemma SameSeatsKeep(a: seq<Player>, b: seq<Player>, hostId: string)
    requires SameSeats(a, b)
    ensures Ids(a) == Ids(b)
    ensures HostConsistent(a, hostId) ==> HostConsistent(b, hostId)
  {
    if HostConsistent(a, hostId) {
      var h :| 0 <= h < |a| && a[h].id == hostId && a[h].isReady;
      assert b[h].id == hostId && b[h].isReady;
    }
  }
}
