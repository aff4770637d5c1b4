/**
 * The in-memory game server: a room is an object whose fields every player
 * action updates in place, and the store maps room codes to rooms and player
 * ids to the code of the room they sit in.
 *
 * Every action either applies or is refused; a refused action changes
 * nothing.  The server reports a refusal by returning no room; here each
 * action returns `ok`.  The random draws an action consumes (a tie-break
 * index, a word index, a shuffle of the roster) and the fresh ids and clock
 * readings it mints are parameters.
 */
module GameStorage {
  import opened Wrappers
  import opened Sequences
  import opened Schema
  import opened Words
  import opened RoundRules

  // ---------------------------------------------------------------- votes

  function CategoryVoters(votes: seq<CategoryVote>): seq<string>
  {
    seq(|votes|, i requires 0 <= i < |votes| => votes[i].playerId)
  }

  function SpyVoters(votes: seq<SpyVote>): seq<string>
  {
    seq(|votes|, i requires 0 <= i < |votes| => votes[i].voterId)
  }

  function GuessVoters(votes: seq<GuessValidationVote>): seq<string>
  {
    seq(|votes|, i requires 0 <= i < |votes| => votes[i].playerId)
  }

  // ---------------------------------------------------------------- starting a round

  /** The random choices one category selection consumes. */
  datatype SelectionDraw = SelectionDraw(category: nat, word: nat, spyWord: nat, shuffle: seq<nat>)

  /** What selecting a category decides: the category, the secret word, the spy's word and the dealt roster. */
  datatype RoundStart = RoundStart(category: string, word: Option<string>, spyWord: Option<string>, players: seq<Player>)

  /**
   * Category selection once everyone has voted: a random category among the
   * most voted ones, a random word of it, the room's spy count (or the
   * roster-size default when the count is 0), in Blind mode a different word of
   * the same category for the spies, and the first spies of the shuffled roster.
   */
  function StartRound(players: seq<Player>, votes: seq<CategoryVote>, spyCount: int, mode: GameMode,
                      spyWord: Option<string>, t: Tables, draw: SelectionDraw): (s: RoundStart)
    requires IsShuffle(draw.shuffle, |players|)
    ensures s.category in TopCategories(votes) && s.category in CategoryIds
    ensures s.word.Some? <==> |WordsFor(t, s.category)| > 0
    ensures s.word.Some? ==> s.word.value in WordsFor(t, s.category)
    ensures mode == Blind && s.spyWord.Some? ==> s.spyWord.value in WordsFor(t, s.category) && s.word.Some? && s.spyWord.value != s.word.value
    ensures mode == Blind ==>
      (s.spyWord.Some? <==> s.word.Some? && exists w :: w in WordsFor(t, s.category) && w != s.word.value)
    ensures mode == Classic ==> s.spyWord == spyWord
    ensures s.players == Deal(players, draw.shuffle, spyCount, mode, s.word, s.spyWord)
  {
    var top := TopCategories(votes);
    var category := Pick(top, draw.category).value;
    TopCategoriesMembers(votes, category);
    var word := GetRandomWord(t, category, draw.word);
    // The secret word is missing only when the list is empty, and then no different word exists either.
    var newSpyWord :=
      if mode == Blind then (match word case Some(w) => GetDifferentWord(t, category, w, draw.spyWord) case None => None)
      else spyWord;
    RoundStart(category, word, newSpyWord, Deal(players, draw.shuffle, spyCount, mode, word, newSpyWord))
  }

  /** What tallying the spy votes decides: the revealed suspect, the scored roster and the next phase. */
  datatype Reveal = Reveal(revealedId: string, players: seq<Player>, phase: GamePhase)

  /**
   * A random suspect among the most accused is revealed; a spy sends the round
   * to the spy's guess and scores the players who accused them, anyone else
   * ends the round and scores every spy.
   */
  function RevealSuspect(players: seq<Player>, votes: seq<SpyVote>, pick: nat): (r: Reveal)
    requires players != []
    ensures r.revealedId in TopSuspects(players, votes) && r.revealedId in Ids(players)
    ensures r.phase == (if IsSpyId(players, r.revealedId) then SpyGuess else Results)
    ensures |r.players| == |players| && Ids(r.players) == Ids(players)
    ensures forall i :: 0 <= i < |players| ==>
      && r.players[i].(score := players[i].score) == players[i]
      && r.players[i].score - players[i].score ==
        (if r.phase == SpyGuess then (if SpyVote(players[i].id, r.revealedId) in votes then 1 else 0)
         else (if players[i].role == Some(Spy) then 1 else 0))
  {
    var revealedId := Pick(TopSuspects(players, votes), pick).value;
    TopSuspectsMembers(players, votes, revealedId);
    SpyVoteScoring(players, votes, revealedId);
    Reveal(revealedId, SpyVoteScores(players, votes, revealedId), if IsSpyId(players, revealedId) then SpyGuess else Results)
  }

  // ---------------------------------------------------------------- the room

  class Room {
    const id: string
    const gameMode: GameMode
    var hostId: string
    var players: seq<Player>
    var phase: GamePhase
    var currentWord: Option<string>
    var spyWord: Option<string>
    var selectedCategory: Option<string>
    var categoryVotes: seq<CategoryVote>
    var spyVotes: seq<SpyVote>
    var currentPlayerIndex: nat
    var questionsAsked: nat
    var messages: seq<Message>
    var questions: seq<Question>
    var roundNumber: nat
    var spyGuess: Option<string>
    var guessValidationVotes: seq<GuessValidationVote>
    var revealedSpyIds: seq<string>
    var spyCount: int

    /**
     * A live room: a non-empty roster of distinct ids, exactly one host who is
     * the room's `hostId` and is ready, a spy count of at least one, at most one
     * vote per player in each ballot, and at most one revealed suspect.
     */
    ghost predicate Valid()
      reads this
    {
      && players != []
      && NoDuplicates(Ids(players))
      && HostConsistent(players, hostId)
      && spyCount >= 1
      && NoDuplicates(CategoryVoters(categoryVotes))
      && NoDuplicates(SpyVoters(spyVotes))
      && NoDuplicates(GuessVoters(guessValidationVotes))
      && |revealedSpyIds| <= 1
    }

    /** The host of a valid room sits on its roster. */
    lemma HostOnRoster()
      requires Valid()
      ensures hostId in Ids(players)
    {
      var i :| 0 <= i < |players| && players[i].id == hostId && players[i].isReady;
      assert Ids(players)[i] == hostId;
    }

    /** The room's fields at the start of category voting for a further round. */
    ghost predicate InCategoryVoting()
      reads this
    {
      && phase == CategoryVoting
      && categoryVotes == [] && spyVotes == [] && guessValidationVotes == [] && revealedSpyIds == []
      && questions == [] && currentPlayerIndex == 0 && questionsAsked == 0
      && currentWord == None && spyWord == None && selectedCategory == None && spyGuess == None
    }

    /** The room's fields as category selection leaves them. */
    ghost predicate InWordReveal(s: RoundStart)
      reads this
    {
      && selectedCategory == Some(s.category) && currentWord == s.word && spyWord == s.spyWord
      && players == s.players && phase == WordReveal
      && revealedSpyIds == [] && spyVotes == [] && questions == [] && questionsAsked == 0
      && currentPlayerIndex == 0 && spyGuess == None && guessValidationVotes == []
    }

    /** A new room in the lobby whose only player is its host. */
    constructor (roomId: string, playerId: string, playerName: string, mode: GameMode)
      ensures Valid()
      ensures id == roomId && gameMode == mode && hostId == playerId && phase == Lobby
      ensures players == [Player(playerId, playerName, true, true, 0, None, None, None, None, None)]
      ensures categoryVotes == [] && spyVotes == [] && guessValidationVotes == [] && revealedSpyIds == []
      ensures messages == [] && questions == [] && currentPlayerIndex == 0 && questionsAsked == 0
      ensures roundNumber == 1 && spyCount == 1
      ensures currentWord == None && spyWord == None && selectedCategory == None && spyGuess == None
    {
      id := roomId;
      gameMode := mode;
      hostId := playerId;
      players := [Player(playerId, playerName, true, true, 0, None, None, None, None, None)];
      phase := Lobby;
      currentWord := None;
      spyWord := None;
      selectedCategory := None;
      categoryVotes := [];
      spyVotes := [];
      currentPlayerIndex := 0;
      questionsAsked := 0;
      messages := [];
      questions := [];
      roundNumber := 1;
      spyGuess := None;
      guessValidationVotes := [];
      revealedSpyIds := [];
      spyCount := 1;
      new;
      assert HostConsistent(players, hostId) by {
        assert players[0].id == hostId && players[0].isReady;
      }
    }

    /** A new player joins a lobby that is not full, unready and without points. */
    method AddPlayer(playerId: string, playerName: string) returns (ok: bool)
      requires Valid() && playerId !in Ids(players)
      modifies this`players
      ensures Valid()
      ensures ok <==> phase == Lobby && |old(players)| < MaxPlayers()
      ensures players == if ok then old(players) + [Player(playerId, playerName, false, false, 0, None, None, None, None, None)]
                         else old(players)
    {
      if phase != Lobby || |players| >= 10 {
        return false;
      }
      ghost var before := players;
      players := players + [Player(playerId, playerName, false, false, 0, None, None, None, None, None)];
      assert Ids(players) == Ids(before) + [playerId];
      ghost var h :| 0 <= h < |before| && before[h].id == hostId && before[h].isReady;
      assert Ids(before)[h] == hostId && playerId != hostId;
      assert players[h] == before[h];
      return true;
    }

    /** A player other than the host flips their ready flag; anyone else changes nothing. */
    method TogglePlayerReady(playerId: string)
      requires Valid()
      modifies this`players
      ensures Valid()
      ensures var i := IndexOf(old(players), playerId);
        players == if i.Some? && !old(players)[i.value].isHost
                   then old(players)[i.value := old(players)[i.value].(isReady := !old(players)[i.value].isReady)]
                   else old(players)
      ensures forall j :: 0 <= j < |players| ==> players[j].isReady != old(players)[j].isReady ==> players[j].id == playerId && !players[j].isHost
    {
      var i := IndexOf(players, playerId);
      if i.Some? && !players[i.value].isHost {
        ghost var before := players;
        var p := players[i.value];
        players := players[i.value := p.(isReady := !p.isReady)];
        assert Ids(players) == Ids(before);
        ghost var h :| 0 <= h < |before| && before[h].id == hostId && before[h].isReady;
        assert before[h].isHost;
        assert players[h] == before[h];
      }
    }

    /**
     * The host sets the number of spies: the request is clamped to at least one
     * and at most half the roster, rounded down.
     */
    method UpdateSpyCount(playerId: string, count: int) returns (ok: bool)
      requires Valid()
      modifies this`spyCount
      ensures Valid()
      ensures ok <==> IsHost(players, playerId)
      ensures !ok ==> spyCount == old(spyCount)
      ensures ok ==> spyCount >= 1
      ensures ok && |players| >= 2 ==> spyCount <= |players| / 2
      ensures ok && |players| < 2 ==> spyCount == 1
      ensures ok && 1 <= count <= |players| / 2 ==> spyCount == count
      ensures ok && count > |players| / 2 >= 1 ==> spyCount == |players| / 2
      ensures ok && count < 1 ==> spyCount == 1
    {
      if !IsHost(players, playerId) {
        return false;
      }
      var half := |players| / 2;
      var capped := if count < half then count else half;
      spyCount := if 1 < capped then capped else 1;
      return true;
    }

    /**
     * The host starts the game once at least four players are in and every
     * other player is ready: the room moves to category voting with an empty
     * ballot.  The current phase is not checked.
     */
    method StartGame(playerId: string) returns (ok: bool)
      requires Valid()
      modifies this`phase, this`categoryVotes
      ensures Valid()
      ensures ok <==> IsHost(players, playerId) && |players| >= MinPlayersForStart()
                      && forall p :: p in players ==> p.isReady || p.isHost
      ensures phase == (if ok then CategoryVoting else old(phase))
      ensures categoryVotes == (if ok then [] else old(categoryVotes))
    {
      if !IsHost(players, playerId) || |players| < 4 {
        return false;
      }
      var i := 0;
      while i < |players|
        invariant 0 <= i <= |players|
        invariant forall j :: 0 <= j < i ==> players[j].isReady || players[j].isHost
      {
        if !(players[i].isReady || players[i].isHost) {
          return false;
        }
        i := i + 1;
      }
      phase := CategoryVoting;
      categoryVotes := [];
      return true;
    }

    /** Each player takes the role and word `DealRoles` gives them. */
    method AssignRoles(spyIds: seq<string>)
      requires Valid()
      modifies this`players
      ensures Valid()
      ensures players == DealRoles(old(players), spyIds, gameMode, currentWord, spyWord)
    {
      ghost var before := players;
      var i := 0;
      while i < |players|
        invariant 0 <= i <= |players| == |before|
        invariant forall j :: 0 <= j < i ==> players[j] == DealRoles(before, spyIds, gameMode, currentWord, spyWord)[j]
        invariant forall j :: i <= j < |players| ==> players[j] == before[j]
      {
        var p := players[i];
        if p.id in spyIds {
          var w := if gameMode == Classic then Some(SpyPlaceholder) else spyWord;
          players := players[i := p.(role := Some(Spy), word := w)];
        } else {
          players := players[i := p.(role := Some(Regular), word := currentWord)];
        }
        i := i + 1;
      }
      SameSeatsKeep(before, players, hostId);
    }

    /** Category selection: see `StartRound` for what it decides. */
    method SelectCategoryAndStartWordReveal(t: Tables, draw: SelectionDraw)
      requires Valid() && IsShuffle(draw.shuffle, |players|)
      modifies this`selectedCategory, this`currentWord, this`spyWord, this`players, this`phase,
               this`revealedSpyIds, this`spyVotes, this`questions, this`questionsAsked,
               this`currentPlayerIndex, this`spyGuess, this`guessValidationVotes
      ensures Valid()
      ensures InWordReveal(StartRound(old(players), categoryVotes, spyCount, gameMode, old(spyWord), t, draw))
    {
      var start := StartRound(players, categoryVotes, spyCount, gameMode, spyWord, t, draw);
      var spyIds := ChosenSpyIds(players, draw.shuffle, SpyTake(spyCount, |players|));
      selectedCategory, currentWord, spyWord := Some(start.category), start.word, start.spyWord;
      EnterWordReveal();
      AssignRoles(spyIds);
    }

    /** The room moves to the word reveal with every ballot, guess and turn cleared. */
    method EnterWordReveal()
      modifies this`phase, this`revealedSpyIds, this`spyVotes, this`questions, this`questionsAsked,
               this`currentPlayerIndex, this`spyGuess, this`guessValidationVotes
      ensures phase == WordReveal && revealedSpyIds == [] && spyVotes == [] && questions == []
              && questionsAsked == 0 && currentPlayerIndex == 0 && spyGuess == None && guessValidationVotes == []
    {
      phase := WordReveal;
      ClearBallots();
      ClearTurns();
    }

    /** The spy ballot, the revealed suspect, the spy's guess and the guess ballot are cleared. */
    method ClearBallots()
      modifies this`revealedSpyIds, this`spyVotes, this`spyGuess, this`guessValidationVotes
      ensures revealedSpyIds == [] && spyVotes == [] && spyGuess == None && guessValidationVotes == []
    {
      revealedSpyIds := [];
      spyVotes := [];
      spyGuess := None;
      guessValidationVotes := [];
    }

    /** The questions, the question count and the turn are reset. */
    method ClearTurns()
      modifies this`questions, this`questionsAsked, this`currentPlayerIndex
      ensures questions == [] && questionsAsked == 0 && currentPlayerIndex == 0
    {
      questions := [];
      questionsAsked := 0;
      currentPlayerIndex := 0;
    }

    /**
     * A player casts their one category vote; the vote that completes the
     * ballot selects the category and deals the roles.
     */
    method VoteCategory(playerId: string, category: string, t: Tables, draw: SelectionDraw) returns (ok: bool)
      requires Valid() && IsShuffle(draw.shuffle, |players|)
      modifies this`categoryVotes, this`selectedCategory, this`currentWord, this`spyWord, this`players, this`phase,
               this`revealedSpyIds, this`spyVotes, this`questions, this`questionsAsked,
               this`currentPlayerIndex, this`spyGuess, this`guessValidationVotes
      ensures Valid()
      ensures ok <==> old(phase) == CategoryVoting && playerId !in CategoryVoters(old(categoryVotes))
      ensures categoryVotes == if ok then old(categoryVotes) + [CategoryVote(playerId, category)] else old(categoryVotes)
      ensures ok && |categoryVotes| == |old(players)| ==>
        InWordReveal(StartRound(old(players), categoryVotes, spyCount, gameMode, old(spyWord), t, draw))
      ensures !(ok && |categoryVotes| == |old(players)|) ==>
        unchanged(this`selectedCategory, this`currentWord, this`spyWord, this`players, this`phase,
                  this`revealedSpyIds, this`spyVotes, this`questions, this`questionsAsked,
                  this`currentPlayerIndex, this`spyGuess, this`guessValidationVotes)
    {
      if phase != CategoryVoting || playerId in CategoryVoters(categoryVotes) {
        return false;
      }
      ghost var before := categoryVotes;
      categoryVotes := categoryVotes + [CategoryVote(playerId, category)];
      assert CategoryVoters(categoryVotes) == CategoryVoters(before) + [playerId];
      if |categoryVotes| == |players| {
        SelectCategoryAndStartWordReveal(t, draw);
      }
      return true;
    }

    /** The player whose turn it is asks a question; it is added unanswered. */
    method AskQuestion(playerId: string, targetId: string, question: string) returns (ok: bool)
      requires Valid()
      modifies this`questions, this`questionsAsked
      ensures Valid()
      ensures ok <==> phase == Questioning && currentPlayerIndex < |players| && players[currentPlayerIndex].id == playerId
      ensures questions == if ok then old(questions) + [Question(playerId, targetId, question, None)] else old(questions)
      ensures questionsAsked == if ok then old(questionsAsked) + 1 else old(questionsAsked)
    {
      if phase != Questioning || currentPlayerIndex >= |players| || players[currentPlayerIndex].id != playerId {
        return false;
      }
      questions := questions + [Question(playerId, targetId, question, None)];
      questionsAsked := questionsAsked + 1;
      return true;
    }

    /**
     * The target of the latest question answers it, unless it already holds a
     * non-empty answer; an empty answer counts as no answer.
     */
    method AnswerQuestion(playerId: string, answer: string) returns (ok: bool)
      requires Valid()
      modifies this`questions
      ensures Valid()
      ensures ok <==> phase == Questioning && old(questions) != []
                      && Last(old(questions)).targetId == playerId && !Answered(Last(old(questions)))
      ensures ok ==> |questions| == |old(questions)|
                     && questions[..|questions| - 1] == old(questions)[..|questions| - 1]
                     && Last(questions) == Last(old(questions)).(answer := Some(answer))
      ensures !ok ==> questions == old(questions)
    {
      if phase != Questioning || questions == [] {
        return false;
      }
      var last := questions[|questions| - 1];
      if last.targetId != playerId || Answered(last) {
        return false;
      }
      questions := questions[|questions| - 1 := last.(answer := Some(answer))];
      return true;
    }

    /**
     * The player whose turn it is ends it: the turn passes to the next player
     * and the question count restarts; after the last player the room moves to
     * spy voting with an empty ballot.
     */
    method EndTurn(playerId: string) returns (ok: bool)
      requires Valid()
      modifies this`currentPlayerIndex, this`questionsAsked, this`phase, this`spyVotes
      ensures Valid()
      ensures ok <==> old(phase) == Questioning && old(currentPlayerIndex) < |players|
                      && players[old(currentPlayerIndex)].id == playerId
      ensures ok ==> currentPlayerIndex == old(currentPlayerIndex) + 1 && questionsAsked == 0
      ensures ok ==> (phase == SpyVoting <==> currentPlayerIndex == |players|)
      ensures ok && phase == SpyVoting ==> spyVotes == []
      ensures ok && phase != SpyVoting ==> phase == Questioning && spyVotes == old(spyVotes)
      ensures !ok ==> unchanged(this`currentPlayerIndex, this`questionsAsked, this`phase, this`spyVotes)
    {
      if phase != Questioning || currentPlayerIndex >= |players| || players[currentPlayerIndex].id != playerId {
        return false;
      }
      currentPlayerIndex := currentPlayerIndex + 1;
      questionsAsked := 0;
      if currentPlayerIndex >= |players| {
        phase := SpyVoting;
        spyVotes := [];
      }
      return true;
    }

    /** Every player that `earns` picks gains one point. */
    method AwardPoints(earns: Player -> bool)
      requires Valid()
      modifies this`players
      ensures Valid()
      ensures players == Reward(old(players), earns)
    {
      ghost var before := players;
      var i := 0;
      while i < |players|
        invariant 0 <= i <= |players| == |before|
        invariant forall j :: 0 <= j < i ==> players[j] == Reward(before, earns)[j]
        invariant forall j :: i <= j < |players| ==> players[j] == before[j]
      {
        if earns(players[i]) {
          players := players[i := players[i].(score := players[i].score + 1)];
        }
        i := i + 1;
      }
      SameSeatsKeep(before, players, hostId);
    }

    /** Tallying the spy votes: see `RevealSuspect` for what it decides. */
    method ProcessSpyVotes(pick: nat)
      requires Valid()
      modifies this`revealedSpyIds, this`players, this`phase
      ensures Valid()
      ensures var r := RevealSuspect(old(players), spyVotes, pick);
        revealedSpyIds == [r.revealedId] && players == r.players && phase == r.phase
    {
      var top := TopSuspects(players, spyVotes);
      var revealedId := top[pick % |top|];
      revealedSpyIds := [revealedId];
      var votes := spyVotes;
      if IsSpyId(players, revealedId) {
        AwardPoints(AccusedBy(votes, revealedId));
        phase := SpyGuess;
      } else {
        AwardPoints(HoldsSpyRole);
        phase := Results;
      }
    }

    /** A player casts their one spy vote; the vote that completes the ballot reveals a suspect. */
    method VoteSpy(playerId: string, suspectId: string, pick: nat) returns (ok: bool)
      requires Valid()
      modifies this`spyVotes, this`revealedSpyIds, this`players, this`phase
      ensures Valid()
      ensures ok <==> old(phase) == SpyVoting && playerId !in SpyVoters(old(spyVotes))
      ensures spyVotes == if ok then old(spyVotes) + [SpyVote(playerId, suspectId)] else old(spyVotes)
      ensures ok && |spyVotes| == |old(players)| ==>
        var r := RevealSuspect(old(players), spyVotes, pick);
        revealedSpyIds == [r.revealedId] && players == r.players && phase == r.phase
      ensures !(ok && |spyVotes| == |old(players)|) ==> unchanged(this`revealedSpyIds, this`players, this`phase)
    {
      if phase != SpyVoting || playerId in SpyVoters(spyVotes) {
        return false;
      }
      ghost var before := spyVotes;
      spyVotes := spyVotes + [SpyVote(playerId, suspectId)];
      assert SpyVoters(spyVotes) == SpyVoters(before) + [playerId];
      if |spyVotes| == |players| {
        ProcessSpyVotes(pick);
      }
      return true;
    }

    /** The revealed spy submits a guess of the secret word; validation starts with an empty ballot. */
    method SubmitGuess(playerId: string, guess: string) returns (ok: bool)
      requires Valid()
      modifies this`spyGuess, this`phase, this`guessValidationVotes
      ensures Valid()
      ensures ok <==> old(phase) == SpyGuess && playerId in revealedSpyIds
      ensures ok ==> spyGuess == Some(guess) && phase == GuessValidation && guessValidationVotes == []
      ensures !ok ==> unchanged(this`spyGuess, this`phase, this`guessValidationVotes)
    {
      if phase != SpyGuess || playerId !in revealedSpyIds {
        return false;
      }
      spyGuess := Some(guess);
      phase := GuessValidation;
      guessValidationVotes := [];
      return true;
    }

    /**
     * Closing the validation ballot: when strictly more than half of the votes
     * say the guess is correct, each revealed spy still in the room gains one
     * point; the round moves to the results.
     */
    method ProcessGuessValidation()
      requires Valid()
      modifies this`players, this`phase
      ensures Valid()
      ensures players == if QuorumAwardsSpy(guessValidationVotes) then RewardRevealed(old(players), revealedSpyIds) else old(players)
      ensures phase == Results
    {
      var correctVotes := CorrectVotes(guessValidationVotes);
      var totalVotes := |guessValidationVotes|;
      if correctVotes as real > totalVotes as real / 2.0 {
        AwardRevealedSpies();
      }
      phase := Results;
    }

    /** Each revealed spy still in the room gains one point, looked up by id. */
    method AwardRevealedSpies()
      requires Valid()
      modifies this`players
      ensures Valid()
      ensures players == RewardRevealed(old(players), revealedSpyIds)
    {
      ghost var before := players;
      var k := 0;
      while k < |revealedSpyIds|
        invariant 0 <= k <= |revealedSpyIds|
        invariant Valid() && Ids(players) == Ids(before)
        invariant players == RewardRevealed(before, revealedSpyIds[..k])
      {
        var spyId := revealedSpyIds[k];
        var i := IndexOf(players, spyId);
        // At most one suspect is revealed, so this is the first and only pass.
        assert k == 0 && revealedSpyIds[..k + 1] == [spyId];
        assert players == before by {
          assert revealedSpyIds[..k] == [];
          forall j | 0 <= j < |players| ensures players[j] == before[j] {
          }
        }
        if i.Some? {
          AwardSpy(i.value);
        }
        forall j | 0 <= j < |players| ensures players[j] == RewardRevealed(before, [spyId])[j] {
          if i.Some? && j != i.value {
            assert Ids(before)[j] != Ids(before)[i.value];
          }
        }
        k := k + 1;
      }
      assert revealedSpyIds[..k] == revealedSpyIds;
    }

    /** The player at position `i` gains one point. */
    method AwardSpy(i: nat)
      requires Valid() && i < |players|
      modifies this`players
      ensures Valid()
      ensures players == old(players)[i := old(players)[i].(score := old(players)[i].score + 1)]
    {
      ghost var before := players;
      players := players[i := players[i].(score := players[i].score + 1)];
      SameSeatsKeep(before, players, hostId);
    }

    /**
     * A player other than the revealed suspect casts their one verdict on the
     * guess; the verdict that completes the ballot of the non-revealed players
     * closes it.
     */
    method ValidateGuess(playerId: string, isCorrect: bool) returns (ok: bool)
      requires Valid()
      modifies this`guessValidationVotes, this`players, this`phase
      ensures Valid()
      ensures ok <==> old(phase) == GuessValidation && playerId !in revealedSpyIds
                      && playerId !in GuessVoters(old(guessValidationVotes))
      ensures guessValidationVotes == if ok then old(guessValidationVotes) + [GuessValidationVote(playerId, isCorrect)]
                                      else old(guessValidationVotes)
      ensures ok && |guessValidationVotes| == NonRevealedCount(old(players), revealedSpyIds) ==>
        phase == Results
        && players == if QuorumAwardsSpy(guessValidationVotes) then RewardRevealed(old(players), revealedSpyIds) else old(players)
      ensures !(ok && |guessValidationVotes| == NonRevealedCount(old(players), revealedSpyIds)) ==>
        unchanged(this`players, this`phase)
    {
      if phase != GuessValidation || playerId in revealedSpyIds || playerId in GuessVoters(guessValidationVotes) {
        return false;
      }
      ghost var before := guessValidationVotes;
      guessValidationVotes := guessValidationVotes + [GuessValidationVote(playerId, isCorrect)];
      assert GuessVoters(guessValidationVotes) == GuessVoters(before) + [playerId];
      var revealed := revealedSpyIds;
      var nonSpyPlayers := Filter(players, (p: Player) => p.id !in revealed);
      if |guessValidationVotes| == |nonSpyPlayers| {
        ProcessGuessValidation();
      }
      return true;
    }

    /** Every player's role, word and vote markers are cleared. */
    method ResetPlayers()
      requires Valid()
      modifies this`players
      ensures Valid()
      ensures players == ClearRound(old(players))
    {
      ghost var before := players;
      var i := 0;
      while i < |players|
        invariant 0 <= i <= |players| == |before|
        invariant forall j :: 0 <= j < i ==> players[j] == ClearRound(before)[j]
        invariant forall j :: i <= j < |players| ==> players[j] == before[j]
      {
        players := players[i := players[i].(role := None, word := None, hasVoted := Some(false),
                                            votedFor := None, isEliminated := Some(false))];
        i := i + 1;
      }
      SameSeatsKeep(before, players, hostId);
    }

    /**
     * From the results the host starts the next round: the round number goes
     * up, the room returns to category voting with every ballot, word, guess
     * and turn cleared, and the players keep their scores.
     */
    method NextRound(playerId: string) returns (ok: bool)
      requires Valid()
      modifies this`roundNumber, this`phase, this`categoryVotes, this`spyVotes, this`questions,
               this`currentPlayerIndex, this`questionsAsked, this`currentWord, this`spyWord,
               this`selectedCategory, this`spyGuess, this`guessValidationVotes, this`revealedSpyIds, this`players
      ensures Valid()
      ensures ok <==> old(phase) == Results && IsHost(old(players), playerId)
      ensures ok ==> roundNumber == old(roundNumber) + 1 && InCategoryVoting()
      ensures ok ==> players == ClearRound(old(players))
      ensures !ok ==> unchanged(this)
    {
      if phase != Results || !IsHost(players, playerId) {
        return false;
      }
      ResetPlayers();
      roundNumber := roundNumber + 1;
      ResetForVoting();
      return true;
    }

    /** Everything but the roster, the scores and the round number returns to the start of category voting. */
    method ResetForVoting()
      modifies this`phase, this`categoryVotes, this`spyVotes, this`questions,
               this`currentPlayerIndex, this`questionsAsked, this`currentWord, this`spyWord,
               this`selectedCategory, this`spyGuess, this`guessValidationVotes, this`revealedSpyIds
      ensures InCategoryVoting()
    {
      phase := CategoryVoting;
      categoryVotes := [];
      ClearWords();
      ClearBallots();
      ClearTurns();
    }

    /** The secret word, the spy's word and the category are cleared. */
    method ClearWords()
      modifies this`currentWord, this`spyWord, this`selectedCategory
      ensures currentWord == None && spyWord == None && selectedCategory == None
    {
      currentWord := None;
      spyWord := None;
      selectedCategory := None;
    }

    /** A player of the room posts a chat message, stamped with their name. */
    method SendMessage(playerId: string, text: string, messageId: string, timestamp: int) returns (message: Option<Message>)
      requires Valid()
      modifies this`messages
      ensures Valid()
      ensures message.Some? <==> playerId in Ids(players)
      ensures message.Some? ==>
        var i := IndexOf(players, playerId).value;
        message.value == Message(messageId, playerId, players[i].name, text, timestamp)
        && messages == old(messages) + [message.value]
      ensures message.None? ==> messages == old(messages)
    {
      var i := IndexOf(players, playerId);
      if i.None? {
        assert playerId !in Ids(players);
        return None;
      }
      assert Ids(players)[i.value] == playerId;
      var m := Message(messageId, playerId, players[i.value].name, text, timestamp);
      messages := messages + [m];
      return Some(m);
    }

    /**
     * A player leaves: they are dropped from the roster and, when they were the
     * host and anyone is left, the first remaining player becomes the ready host.
     */
    method RemovePlayer(playerId: string)
      requires Valid()
      modifies this`players, this`hostId
      ensures players == RosterAfterLeave(old(players), old(hostId), playerId)
      ensures hostId == HostAfterLeave(old(players), old(hostId), playerId)
      ensures players != [] ==> Valid()
    {
      LeaveRoster(players, hostId, playerId);
      var leaving := playerId;
      var rest := Filter(players, (p: Player) => p.id != leaving);
      assert rest == Without(players, playerId);
      ghost var newHost := HostAfterLeave(players, hostId, playerId);
      players := rest;
      if players != [] && hostId == playerId {
        hostId := players[0].id;
        players := players[0 := players[0].(isHost := true, isReady := true)];
      }
      assert hostId == newHost;
    }
  }

  /** The latest question. */
  function Last(questions: seq<Question>): Question
    requires questions != []
  {
    questions[|questions| - 1]
  }

  /** A question counts as answered when it holds a non-empty answer. */
  predicate Answered(q: Question)
    ensures q.answer == None ==> !Answered(q)
    ensures q.answer == Some("") ==> !Answered(q)
    ensures Answered(q) ==> q.answer.Some?
  {
    q.answer.Some? && q.answer.value != ""
  }

  // ---------------------------------------------------------------- the store

  class RoomStore {
    var rooms: map<string, Room>
    var playerToRoom: map<string, string>

    /** Every room is filed under its own code. */
    ghost predicate Valid()
      reads this
    {
      forall code :: code in rooms ==> rooms[code].id == code
    }

    constructor ()
      ensures Valid() && rooms == map[] && playerToRoom == map[]
    {
      rooms := map[];
      playerToRoom := map[];
    }

    /** The room a player sits in: none for an unknown player, an empty code or a code with no room. */
    function RoomOf(playerId: string): (r: Option<Room>)
      reads this
      ensures r.Some? <==> playerId in playerToRoom && playerToRoom[playerId] != "" && playerToRoom[playerId] in rooms
      ensures r.Some? ==> r.value == rooms[playerToRoom[playerId]]
    {
      if playerId !in playerToRoom then None
      else
        var code := playerToRoom[playerId];
        if code == "" || code !in rooms then None else Some(rooms[code])
    }

    /** A new room under a fresh code, hosted by a new player with a fresh id. */
    method CreateRoom(playerName: string, gameMode: GameMode, roomId: string, playerId: string) returns (room: Room)
      requires Valid() && roomId !in rooms && roomId != "" && playerId !in playerToRoom
      modifies this
      ensures Valid() && fresh(room) && room.Valid()
      ensures rooms == old(rooms)[roomId := room] && playerToRoom == old(playerToRoom)[playerId := roomId]
      ensures room.id == roomId && room.hostId == playerId && room.gameMode == gameMode && room.phase == Lobby
      ensures room.players == [Player(playerId, playerName, true, true, 0, None, None, None, None, None)]
      ensures room.spyCount == 1 && room.roundNumber == 1
      ensures room.categoryVotes == [] && room.spyVotes == [] && room.guessValidationVotes == [] && room.revealedSpyIds == []
      ensures room.messages == [] && room.questions == [] && room.currentPlayerIndex == 0 && room.questionsAsked == 0
      ensures room.currentWord == None && room.spyWord == None && room.selectedCategory == None && room.spyGuess == None
      ensures RoomOf(playerId) == Some(room)
    {
      room := new Room(roomId, playerId, playerName, gameMode);
      rooms := rooms[roomId := room];
      playerToRoom := playerToRoom[playerId := roomId];
    }

    /** A new player with a fresh id joins the room with the given code, if it exists and accepts them. */
    method JoinRoom(playerName: string, roomCode: string, playerId: string) returns (room: Room?)
      requires Valid() && playerId !in playerToRoom
      requires roomCode in rooms ==> rooms[roomCode].Valid() && playerId !in Ids(rooms[roomCode].players)
      modifies this`playerToRoom, (if roomCode in rooms then {rooms[roomCode]} else {})`players
      ensures Valid() && rooms == old(rooms)
      ensures room != null <==> roomCode in rooms && rooms[roomCode].phase == Lobby && |old(rooms[roomCode].players)| < MaxPlayers()
      ensures room != null ==>
        && room == rooms[roomCode] && room.Valid()
        && room.players == old(room.players) + [Player(playerId, playerName, false, false, 0, None, None, None, None, None)]
        && playerToRoom == old(playerToRoom)[playerId := roomCode]
      ensures room == null ==> playerToRoom == old(playerToRoom)
      ensures roomCode in rooms && room == null ==> rooms[roomCode].players == old(rooms[roomCode].players)
    {
      if roomCode !in rooms {
        return null;
      }
      var r := rooms[roomCode];
      var ok := r.AddPlayer(playerId, playerName);
      if !ok {
        return null;
      }
      playerToRoom := playerToRoom[playerId := roomCode];
      return r;
    }

    /**
     * A player leaves their room: they are no longer filed under it, and a room
     * left without players is removed from the store.
     */
    method LeaveRoom(playerId: string) returns (room: Room?)
      requires Valid()
      requires RoomOf(playerId).Some? ==> RoomOf(playerId).value.Valid()
      modifies this, (if RoomOf(playerId).Some? then {RoomOf(playerId).value} else {})`players,
               (if RoomOf(playerId).Some? then {RoomOf(playerId).value} else {})`hostId
      ensures Valid()
      ensures old(RoomOf(playerId)).None? ==> room == null && rooms == old(rooms) && playerToRoom == old(playerToRoom)
      ensures old(RoomOf(playerId)).Some? ==>
        var r := old(RoomOf(playerId)).value;
        && playerToRoom == old(playerToRoom) - {playerId}
        && r.players == RosterAfterLeave(old(r.players), old(r.hostId), playerId)
        && r.hostId == HostAfterLeave(old(r.players), old(r.hostId), playerId)
        && (r.players == [] ==> room == null && rooms == old(rooms) - {r.id})
        && (r.players != [] ==> room == r && rooms == old(rooms) && r.Valid())
    {
      var found := RoomOf(playerId);
      if found.None? {
        return null;
      }
      var r := found.value;
      r.RemovePlayer(playerId);
      playerToRoom := playerToRoom - {playerId};
      if r.players == [] {
        rooms := rooms - {r.id};
        return null;
      }
      return r;
    }
  }
}
