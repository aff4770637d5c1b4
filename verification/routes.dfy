/**
 * The two phase timers of the message server that change a room on their
 * own: when the spy's guessing time runs out, and when the guess-validation
 * time runs out. The clock is left out; each method is what the timer's
 * callback does once it fires.
 */
module Routes {
  import opened Schema
  import opened RoundRules
  import opened GameStorage

  /**
   * The guess-validation timer: a room still validating the guess moves to
   * the results, and its revealed spy gains a point when at least as many
   * votes say correct as say wrong and at least one vote was cast. A room
   * in any other phase, or a code with no room, is left alone.
   */
  method ForceProcessGuessValidation(store: RoomStore, roomId: string)
    requires roomId in store.rooms ==> store.rooms[roomId].Valid()
    modifies (if roomId in store.rooms then {store.rooms[roomId]} else {})`players,
             (if roomId in store.rooms then {store.rooms[roomId]} else {})`phase
    ensures roomId in store.rooms && old(store.rooms[roomId].phase) == GuessValidation ==>
      var room := store.rooms[roomId];
      && room.Valid()
      && room.phase == Results
      && room.players == (if TimeoutAwardsSpy(room.guessValidationVotes)
                          then RewardRevealed(old(room.players), room.revealedSpyIds)
                          else old(room.players))
    ensures roomId in store.rooms && old(store.rooms[roomId].phase) != GuessValidation ==>
      unchanged(store.rooms[roomId])
  {
    if roomId !in store.rooms {
      return;
    }
    var room := store.rooms[roomId];
    if room.phase != GuessValidation {
      return;
    }
    var votes := room.guessValidationVotes;
    if CorrectVotes(votes) >= IncorrectVotes(votes) && |votes| > 0 {
      room.AwardPoints(Among(room.revealedSpyIds));
    }
    room.phase := Results;
  }

  /**
   * The spy-guess timer: a room where the revealed spy has not guessed yet
   * moves to the results with no points awarded; any other room is left
   * alone.
   */
  method ExpireSpyGuess(store: RoomStore, roomId: string)
    modifies (if roomId in store.rooms then {store.rooms[roomId]} else {})`phase
    ensures roomId in store.rooms ==>
      store.rooms[roomId].phase == (if old(store.rooms[roomId].phase) == SpyGuess then Results
                                    else old(store.rooms[roomId].phase))
  {
    if roomId in store.rooms && store.rooms[roomId].phase == SpyGuess {
      store.rooms[roomId].phase := Results;
    }
  }
}
