/**
 * The shared data model: phases, roles, the records a room holds, the four
 * category ids, the default spy count and the player-count and name/code
 * length rules (shared/schema.ts).
 */
module Schema {
  import opened Wrappers

  datatype GameMode = Classic | Blind

  /** The eight phases of a room, in the order a round visits them. */
  datatype GamePhase =
    | Lobby
    | CategoryVoting
    | WordReveal
    | Questioning
    | SpyVoting
    | SpyGuess
    | GuessValidation
    | Results

  /** `Regular` is the source's role "player"; `Spy` is "spy". */
  datatype PlayerRole = Regular | Spy

  /** A participant; the optional fields are unset until a round assigns them. */
  datatype Player = Player(
    id: string,
    name: string,
    isHost: bool,
    isReady: bool,
    score: int,
    role: Option<PlayerRole>,
    word: Option<string>,
    hasVoted: Option<bool>,
    votedFor: Option<string>,
    isEliminated: Option<bool>)

  datatype CategoryVote = CategoryVote(playerId: string, category: string)

  datatype SpyVote = SpyVote(voterId: string, suspectId: string)

  datatype Message = Message(id: string, playerId: string, playerName: string, text: string, timestamp: int)

  /** An asker-to-target exchange; `answer` is None while it is pending. */
  datatype Question = Question(askerId: string, targetId: string, question: string, answer: Option<string>)

  datatype GuessValidationVote = GuessValidationVote(playerId: string, isCorrect: bool)

  const AllPhases: seq<GamePhase> :=
    [Lobby, CategoryVoting, WordReveal, Questioning, SpyVoting, SpyGuess, GuessValidation, Results]

  /** The ids of the `categories` table, in table order. */
  const CategoryIds: seq<string> := ["countries", "fruits_vegetables", "animals", "cars"]

  /** The category table has four distinct ids. */
  lemma CategoryIdsDistinct()
    ensures |CategoryIds| == 4
    ensures forall i, j :: 0 <= i < j < |CategoryIds| ==> CategoryIds[i] != CategoryIds[j]
  {
  }

  /** `GamePhase` has exactly eight distinct values. */
  lemma PhasesComplete()
    ensures |AllPhases| == 8 && forall p: GamePhase :: p in AllPhases
    ensures forall i, j :: 0 <= i < j < |AllPhases| ==> AllPhases[i] != AllPhases[j]
  {
    forall p: GamePhase ensures p in AllPhases {
      var k := match p
        case Lobby => 0 case CategoryVoting => 1 case WordReveal => 2 case Questioning => 3
        case SpyVoting => 4 case SpyGuess => 5 case GuessValidation => 6 case Results => 7;
      assert AllPhases[k] == p;
    }
  }

  /** The default number of spies for a room of `playerCount` players. */
  function SpyCountForPlayers(playerCount: int): (r: int)
    ensures 1 <= r <= 3
    ensures MinPlayersForStart() <= playerCount <= MaxPlayers() ==> r <= playerCount / 2
  {
    if playerCount <= 6 then 1
    else if playerCount <= 8 then 2
    else 3
  }

  /** A larger room never gets fewer default spies. */
  lemma SpyCountMonotone(m: int, n: int)
    requires m <= n
    ensures SpyCountForPlayers(m) <= SpyCountForPlayers(n)
  {
  }

  function MinPlayersForStart(): nat
  {
    4
  }

  function MaxPlayers(): nat
  {
    10
  }

  /** The start threshold is below the room capacity, and the capacity leaves room for the default spies. */
  lemma PlayerBounds()
    ensures MinPlayersForStart() == 4 && MaxPlayers() == 10
    ensures forall n :: MinPlayersForStart() <= n <= MaxPlayers() ==> 2 * SpyCountForPlayers(n) <= n
  {
  }

  /** The player-name rule of both room forms: 2 to 20 characters. */
  predicate ValidPlayerName(name: string)
  {
    2 <= |name| <= 20
  }

  /** The room-code rule of the join form: exactly 6 characters. */
  predicate ValidRoomCode(code: string)
  {
    |code| == 6
  }

  /** The boundaries of the two length rules. */
  lemma LengthRuleBoundaries()
    ensures !ValidPlayerName("a") && ValidPlayerName("ab")
    ensures ValidPlayerName("abcdefghijklmnopqrst") && !ValidPlayerName("abcdefghijklmnopqrstu")
    ensures ValidRoomCode("ABC234") && !ValidRoomCode("ABC23") && !ValidRoomCode("ABC2345")
  {
  }
}
