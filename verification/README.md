# Find-the-spy room engine in Dafny

This project models the server core of a turn-based party game in which
players try to find the spy among them. The model covers four parts:

- The room engine (`server/game-storage.ts`). A store files rooms under fresh codes (randomly generated, six characters long, in the source) and records which room each player sits in. Each room is an object that every player action updates in place: joining, readying, setting the spy count, starting, voting for a category, dealing roles and words, asking and answering questions, ending turns, voting on a suspect, the spy's guess, the validation of that guess, the next round, chat and leaving.
- The word tables and the pairing rules used to draw words (`server/words.ts`).
- The shared data model, enumerations, spy-count table, player limits and form length rules (`shared/schema.ts`).
- The two timer expiries that change a room on their own (`server/routes.ts`): the spy-guess window closing, and the guess-validation window closing with its own tie-friendly scoring rule.

Layout:

- `wrappers.dfy`: the `Option` type used for the source's optional fields and absent results.
- `sequences.dfy`: filtering, random index draws and distinctness of sequences.
- `schema.dfy`: players, votes, messages, questions, phases, category ids and the numeric and length rules.
- `words.dfy`: word tables as abstract records, plus random and similar-word selection.
- `round_rules.dfy`: the pure rules of a round. These are vote tallies with plurality, scoring, the two guess-validation rules, dealing roles from a shuffle, clearing a round and the roster after a player leaves.
- `game_storage.dfy`: the `Room` class (one method per action) and the `RoomStore` class (room codes and player-to-room filing).
- `routes.dfy`: the two timer expiries.

Randomness appears in the model as input. A random index is a `pick: nat` reduced modulo the candidate count. A roster shuffle is a permutation of the roster indices (`IsShuffle`). Room codes, player ids, message ids and clock readings are also parameters. The store methods require room codes and player ids to be fresh; message ids are unconstrained.

Each room method that stands for a player action or a round step keeps the room invariant `Room.Valid`. The exception is `RemovePlayer`, which keeps it only while someone remains; a room left empty is removed from the store. The five clearing helpers they call (`ClearBallots`, `ClearTurns`, `ClearWords`, `EnterWordReveal`, `ResetForVoting`) state only the fields they reset. The invariant holds the following:

- The roster is non-empty and its ids are distinct.
- Exactly one player carries the host flag, that player is the room's `hostId`, and they are ready.
- The spy count is at least one.
- Each ballot holds at most one vote per player.
- At most one suspect is revealed.

Some behaviours of the code are worth noting; the model follows the code:

- In blind mode the spies' word is drawn by `getDifferentWord` (any other word of the category), not by the similar-word pairing. The pairing (`GetSimilarWord`) is modelled and proved on its own.
- Starting the game does not check the current phase. A host can restart from any phase once the roster is large enough and ready.
- Spy-vote scoring follows the single revealed suspect (a random pick among the most voted), not a per-spy tally.
- Category selection falls back to the roster-size spy count only when the room's spy count is 0, which the room invariant rules out.

## Model

| member | source | states |
|---|---|---|
| `Schema.PhasesComplete` | shared/schema.ts:5-13 | There are exactly eight distinct game phases and every phase is one of them. |
| `Schema.CategoryIdsDistinct` | shared/schema.ts:78-83 | The category table has four distinct ids. |
| `Schema.SpyCountForPlayers` | shared/schema.ts:128-132 | The default spy count is between 1 and 3, and at most half the roster for any startable roster size (4 to 10). |
| `Schema.SpyCountMonotone` | shared/schema.ts:128-132 | A larger roster never gets fewer default spies. |
| `Schema.PlayerBounds` | shared/schema.ts:134-140 | The start minimum is 4 and the capacity is 10; every roster size in between leaves at least as many regular players as default spies. |
| `Schema.LengthRuleBoundaries` | shared/schema.ts:87-95 | Player names of 2 and 20 characters pass and names of 1 and 21 fail; room codes of exactly 6 characters pass and 5 or 7 fail. |
| `Words.WordsFor` | server/words.ts:277 | The word list of a category; any category outside the table gets the countries list. |
| `Words.GetRandomWord` | server/words.ts:276-279 | A word is drawn exactly when the category list is non-empty, and it comes from that list; an unknown category draws from the countries list. |
| `Words.GetRandomWordReachesAll` | server/words.ts:276-279 | Every entry of the category list can be drawn. |
| `Words.GetDifferentWord` | server/words.ts:318-322 | The word is from the category list (countries for an unknown category) and never the excluded word; one is drawn exactly when such a word exists. |
| `Words.CountryRegion` | server/words.ts:309-316 | No region is found exactly when no region lists the country; otherwise the result is the first region in table order that lists it. |
| `Words.RegionLookup` | server/words.ts:396 | With distinct region names, looking a region up by its name gives that region's own country list. |
| `Words.FindByName` | server/words.ts:327 | The metadata lookup returns the first entry with the given name, and finds none exactly when no entry has that name. |
| `Words.Similarity` | server/words.ts:336-341 | The similarity score adds 2 for the matching first trait (colour or habitat) and 1 for the matching size; it is at most 3, which the reference word itself reaches. |
| `Words.BestScore` | server/words.ts:336-345 | The best similarity score bounds every candidate's score and is attained by one candidate. |
| `Words.TopCandidates` | server/words.ts:346 | The top candidates are exactly the candidates scoring within one point of the best, and there is one whenever there are candidates. |
| `Words.SimilarProduce` | server/words.ts:326-353 | The pairing of a fruit or vegetable is never the word itself and comes from the list. For a known word with another entry of its type, it has the same type and scores within one point of the best colour/size score. A pairing is found exactly when the list holds another word. |
| `Words.SimilarAnimal` | server/words.ts:356-390 | The pairing of an animal is never the word itself and comes from the list. It shares the class and scores within one of the best habitat/size score when possible; otherwise it shares the habitat when possible. A pairing is found exactly when the list holds another animal. |
| `Words.SimilarCountry` | server/words.ts:393-404 | The pairing of a country is never the word itself. It comes from the countries list or from the list of the first region that lists the word; for a country no region lists, it comes from the countries list. A pairing is always found when the countries list holds another country. |
| `Words.SimilarCountrySameRegion` | server/words.ts:394-399 | When the first region listing the country has another member, the pairing is one of that region's countries. |
| `Words.SimilarCountryMayLeaveList` | server/words.ts:396-398 | A region entry missing from the countries list can be returned as the pairing. |
| `Words.Brand` | server/words.ts:410-411 | A car's brand is its first space-separated token: a space-free prefix that is either the whole name or followed by a space. |
| `Words.BrandSpacePrefix` | server/words.ts:435 | A name starts with a brand and a space exactly when that is its brand and the name carries a model. |
| `Words.SimilarCar` | server/words.ts:407-444 | The pairing of a car is another car from the list. It has the same brand and model status when one exists; failing that it starts with the brand and a space when one exists. A pairing is found exactly when the list holds another car. |
| `Words.CarFallbackOnlyForBareBrand` | server/words.ts:433-440 | The brand-and-space fallback can only pick something for a brand-only word. |
| `Words.GetSimilarWord` | server/words.ts:324-447 | The pairing never returns the excluded word. For every category but countries it comes from the category's list, and it is found exactly when that list holds another word. For countries it is found whenever the countries list holds another country. |
| `RoundRules.IndexOf` | server/game-storage.ts:89 | The index found holds the id and no earlier player has it; none is found exactly when no player has the id. |
| `RoundRules.TopCategories` | server/game-storage.ts:143-151 | The most-voted categories are never empty. |
| `RoundRules.TopCategoriesMembers` | server/game-storage.ts:143-151 | A category is among the most voted exactly when it is a known category id and no known category has more votes. |
| `RoundRules.TrailingCategoryLoses` | server/game-storage.ts:148-153 | A category with fewer votes than some known category is never selected. |
| `RoundRules.TopSuspects` | server/game-storage.ts:256-264 | The most-accused players are never empty for a non-empty roster. |
| `RoundRules.TopSuspectsMembers` | server/game-storage.ts:256-266 | A player is among the most accused exactly when they are on the roster and nobody on the roster drew more votes. |
| `RoundRules.SpyVoteScores` | server/game-storage.ts:269-286 | The score change of the spy vote keeps the roster's length and ids; `SpyVoteScoring` states its effect on each player. |
| `RoundRules.RewardTotal` | server/game-storage.ts:273-284 | An award keeps the roster, ids and every field but the score. It adds exactly one point to each earning player and nothing to anyone else, so the score total grows by the number of earners. |
| `RoundRules.SpyVoteScoring` | server/game-storage.ts:269-286 | After the spy vote, a revealed spy gives one point to each of their accusers; a wrongly revealed player gives one point to every spy. No other score and no other field changes. |
| `RoundRules.QuorumAwardsSpy` | server/game-storage.ts:325 | The quorum rule (correct verdicts exceed half of all verdicts, halved without rounding) holds exactly when there are more correct than incorrect verdicts. |
| `RoundRules.TimeoutAwardsSpy` | server/routes.ts:359 | The timeout rule: at least one verdict, and no fewer correct than incorrect verdicts; an award under it needs at least one correct verdict. |
| `RoundRules.VotesSplit` | server/routes.ts:356-357 | Correct and incorrect verdicts add up to the number of verdicts. |
| `RoundRules.GuessRulesCompared` | server/routes.ts:359 | A strict majority of correct verdicts wins under both rules. A tie wins only under the timeout rule. No verdicts win under neither. |
| `RoundRules.TieFavoursSpyOnlyAtTimeout` | server/routes.ts:359 | One correct and one incorrect verdict award the spy at the timeout and not at the quorum. |
| `RoundRules.SliceEnd` | server/game-storage.ts:158 | A slice end never exceeds the list length. |
| `RoundRules.SpyTake` | server/game-storage.ts:156-158 | The number of spies dealt is the room's count capped at the roster size. When the count is 0 it is the roster-size default, also capped. |
| `RoundRules.SpyTakeBounds` | server/game-storage.ts:156-158 | A spy count the host can set deals at least one spy and leaves at least one regular player. |
| `RoundRules.ChosenSpyIds` | server/game-storage.ts:157-158 | The spies are the ids of the first players of the shuffled roster: as many as asked for, all from the roster. |
| `RoundRules.DealRoles` | server/game-storage.ts:164-176 | Each chosen player becomes a spy with the placeholder (classic) or spy word (blind); everyone else becomes a regular player with the secret word. The roster keeps its length and ids. |
| `RoundRules.Deal` | server/game-storage.ts:156-176 | Dealing from a shuffle keeps the roster's length and ids; `DealtRoles` states the roles. |
| `RoundRules.DealtSpyPositions` | server/game-storage.ts:157-165 | The spies dealt from a shuffle sit exactly at the first `SpyTake` shuffled positions. |
| `RoundRules.DealtRoles` | server/game-storage.ts:156-176 | The spies are exactly the first shuffled positions, and there are as many of them as the spy count taken. Every player gets a role. Spies hold the placeholder (classic) or the spy word (blind), regular players hold the secret word, and nothing else changes. |
| `RoundRules.RosterAfterLeave` | server/game-storage.ts:393-405 | The roster after a leave holds exactly the ids of the roster without the leaver; `LeaveRoster` states the host hand-over. |
| `RoundRules.HostAfterLeave` | server/game-storage.ts:401-402 | The host after a leave is the old host or a remaining player, and it changes only when the host is the one leaving. |
| `RoundRules.IdsWithout` | server/game-storage.ts:393 | The ids left after removing a player are exactly the other ids of the roster. |
| `RoundRules.WithoutOne` | server/game-storage.ts:393 | Removing one id from a roster of distinct ids keeps the ids distinct and shortens the roster by one exactly when the id was present. |
| `RoundRules.LeaveRoster` | server/game-storage.ts:393-405 | Leaving removes exactly the leaver and keeps everyone else, with ids still distinct. When anyone is left there is again exactly one host, who is ready and is the recorded host. |
| `RoundRules.LeaveHost` | server/game-storage.ts:401-405 | When anyone remains after a leave, exactly one player carries the host flag: the recorded host, or the first remaining player when the host left. That player is ready. |
| `RoundRules.ClearRound` | server/game-storage.ts:359-365 | The round reset keeps every player, with the same id, and leaves no one with a role or a word. `ClearRoundKeeps` states the rest. |
| `RoundRules.ClearRoundKeeps` | server/game-storage.ts:359-365 | The round reset clears role and word and keeps every player's id, name, flags and score. |
| `GameStorage.StartRound` | server/game-storage.ts:142-176 | The selected category is a known id among the most voted. The secret word exists exactly when the category list is non-empty, and it comes from that list. In blind mode a spy word comes from the same list and differs from the secret word, and one is chosen exactly when the list holds a word other than the secret word; in classic mode it is untouched. Roles are dealt from the shuffle. |
| `GameStorage.RevealSuspect` | server/game-storage.ts:255-287 | The revealed id is a roster player among the most accused. The next phase is the spy's guess exactly when that player is a spy, otherwise the results. A revealed spy gives one point to each of their accusers; a wrongly revealed player gives one point to every spy. No other score and no other field changes. |
| `GameStorage.Room.Valid` | shared/schema.ts:55-76 | The room invariant: a non-empty roster of distinct ids, exactly one ready host who is `hostId`, a spy count of at least one, at most one vote per player per ballot, and at most one revealed suspect. `HostOnRoster` derives that the host is on the roster. |
| `GameStorage.Room.HostOnRoster` | server/game-storage.ts:401-405 | The host of a valid room is one of its players. |
| `GameStorage.Answered` | server/game-storage.ts:213 | A question with no answer, or with the empty answer, does not count as answered (the source tests the answer's truthiness). |
| `GameStorage.Room.constructor` | server/game-storage.ts:22-46 | A new lobby room whose only player is its ready host, with spy count 1, round 1 and every ballot empty. |
| `GameStorage.Room.AddPlayer` | server/game-storage.ts:57-69 | A join succeeds exactly in the lobby with fewer than 10 players, and appends an unready, pointless, non-host player; otherwise the roster is unchanged. |
| `GameStorage.Room.TogglePlayerReady` | server/game-storage.ts:85-95 | Only a non-host player's own ready flag flips; a host or unknown id changes nothing. |
| `GameStorage.Room.UpdateSpyCount` | server/game-storage.ts:97-106 | Only the host may set it. The result is clamped to at least 1 and at most half the roster (for rosters of two or more), and a request in range is taken as is; a roster of fewer than two gets 1. A non-host changes nothing. |
| `GameStorage.Room.StartGame` | server/game-storage.ts:108-123 | The start succeeds exactly for the host with at least four players, all of them ready or host. It moves to category voting with an empty ballot; otherwise nothing changes. |
| `GameStorage.Room.AssignRoles` | server/game-storage.ts:164-176 | Each player takes the role and word the dealing rule gives them, and the room stays valid. |
| `GameStorage.Room.SelectCategoryAndStartWordReveal` | server/game-storage.ts:142-186 | The room takes the category, words and dealt roster of `StartRound`, moves to the word reveal, and clears the revealed suspect, spy ballot, questions, turn, guess and guess ballot. |
| `GameStorage.Room.EnterWordReveal` | server/game-storage.ts:178-185 | The phase becomes the word reveal and every per-round ballot, guess and turn is cleared. |
| `GameStorage.Room.VoteCategory` | server/game-storage.ts:125-140 | A vote is accepted exactly in category voting from someone who has not voted, and appends exactly that vote. The vote that completes the ballot performs the category selection; otherwise nothing else changes. |
| `GameStorage.Room.AskQuestion` | server/game-storage.ts:188-205 | Only the player whose turn it is may ask, and only while questioning. The question is appended unanswered and the count goes up by one; otherwise nothing changes. |
| `GameStorage.Room.AnswerQuestion` | server/game-storage.ts:207-217 | Only the target of the latest question may answer, only while questioning, and only if that question holds no non-empty answer. The answer is set on that question alone. |
| `GameStorage.Room.EndTurn` | server/game-storage.ts:219-236 | Only the player whose turn it is may end it. The turn index goes up by one and the count restarts. The room moves to spy voting with an empty ballot exactly when the index reaches the roster size. |
| `GameStorage.Room.AwardPoints` | server/game-storage.ts:273-284 | The roster becomes the award of one point to each earning player, and the room stays valid. |
| `GameStorage.Room.ProcessSpyVotes` | server/game-storage.ts:255-287 | The room records exactly one revealed suspect and takes the scored roster and next phase of `RevealSuspect`. |
| `GameStorage.Room.VoteSpy` | server/game-storage.ts:238-253 | A spy vote is accepted exactly in spy voting from someone who has not voted, and appends exactly that vote. The vote that completes the ballot tallies it. |
| `GameStorage.Room.SubmitGuess` | server/game-storage.ts:289-300 | Only a revealed suspect may guess, and only in the guess phase. The guess is stored and validation starts with an empty ballot; otherwise nothing changes. |
| `GameStorage.Room.AwardRevealedSpies` | server/game-storage.ts:326-331 | Going through the revealed suspects one by one and finding each by id, every revealed player gains exactly one point and nobody else changes; the room stays valid. |
| `GameStorage.Room.ProcessGuessValidation` | server/game-storage.ts:321-335 | Each revealed spy gains a point exactly when strictly more than half of the verdicts say correct; nobody else gains. The phase becomes the results. |
| `GameStorage.Room.AwardSpy` | server/game-storage.ts:327-330 | The one player at the given position gains a point, and the room stays valid. |
| `GameStorage.Room.ValidateGuess` | server/game-storage.ts:302-319 | A verdict is accepted exactly during validation, from a player who is not revealed and has not yet voted. The verdict that completes the ballot of the non-revealed players closes it under the quorum rule. |
| `GameStorage.Room.ResetPlayers` | server/game-storage.ts:359-365 | Every player's role, word and vote markers are cleared, and the room stays valid. |
| `GameStorage.Room.NextRound` | server/game-storage.ts:337-368 | Only the host may start the next round, and only from the results. The round number goes up by one, the room returns to category voting with every ballot, word, guess and turn cleared, and players keep their scores. Otherwise nothing changes. |
| `GameStorage.Room.ResetForVoting` | server/game-storage.ts:346-357 | The room is at the start of category voting, with all ballots, words, guesses and turns cleared. |
| `GameStorage.Room.SendMessage` | server/game-storage.ts:370-387 | A message is posted exactly by a roster player, stamped with their name and the given id and time, and appended to the chat. |
| `GameStorage.Room.RemovePlayer` | server/game-storage.ts:393-405 | The roster becomes the roster after the leave, with the host handed to the first remaining player when the host left. The room stays valid while anyone remains. |
| `GameStorage.RoomStore.constructor` | server/game-storage.ts:6-7 | The store starts with no rooms and no players. |
| `GameStorage.RoomStore.RoomOf` | server/game-storage.ts:79-83 | A player's room is found exactly when they are filed under a non-empty code that names a room. |
| `GameStorage.RoomStore.CreateRoom` | server/game-storage.ts:18-52 | A new valid lobby room is filed under its code, and its host is filed under that room. All its ballots, its revealed suspects, messages and questions are empty, its turn and question counters are zero, and it has no words, category or guess. |
| `GameStorage.RoomStore.JoinRoom` | server/game-storage.ts:54-73 | A join succeeds exactly for an existing lobby room with fewer than 10 players. The new player is appended and filed under the room; otherwise nothing changes. |
| `GameStorage.RoomStore.LeaveRoom` | server/game-storage.ts:389-408 | The leaver is unfiled and dropped from their room with the host hand-off. A room left empty is removed from the store. An unfiled player changes nothing. |
| `Routes.ForceProcessGuessValidation` | server/routes.ts:351-373 | Only a room still validating is touched. It moves to the results, and its revealed spy gains a point exactly when there is at least one verdict and correct verdicts are at least as many as incorrect ones. Nobody else gains. |
| `Routes.ExpireSpyGuess` | server/routes.ts:300-308 | A room still waiting for the spy's guess moves to the results with no score change; any other room keeps its phase. |

## Left out

- The WebSocket transport, message framing, broadcasting and the connection maps of `server/routes.ts` are I/O and are not modelled.
- Timer scheduling (`setTimeout`, the timer maps, the countdown broadcasts) is not modelled. Only the effect of the two expiry callbacks is.
- The functions `server/routes.ts:23-30` imports but `server/game-storage.ts` does not define (reconnection, "done with questions", the forced phase ends) are not part of this model.
- `generateRoomId`, `randomUUID` and `Date.now()` are not modelled. Room codes, player ids, message ids and timestamps are parameters. The store methods require room codes and player ids to be fresh, so code collisions are not modelled. Message ids are unconstrained, so `SendMessage` does not promise distinct message ids.
- The distribution of `Math.random` and of the comparator-based shuffle is not modelled. A draw is any index and a shuffle is any permutation of the roster.
- The room's `timerEndTime` field (shared/schema.ts:68) is not part of the `Room` class. None of the modelled operations reads or writes it.
- Region names are the keys of a record in the source, so no two regions share one. `Tables` does not enforce this. `SimilarCountry` matches the source only when `DistinctRegionNames` holds, and only `RegionLookup` and `SimilarCountrySameRegion` require it.
- The literal Arabic word, metadata and region tables are content. They are a `Tables` parameter, and one small concrete instance appears in `SimilarCountryMayLeaveList`.
- The client (pages, components, sounds, connection state) is not modelled. The zod machinery behind the form schemas is left out too; only their length rules are modelled.
- Scores and counts are unbounded integers. Non-integer, NaN or non-numeric spy counts, which the JSON transport could deliver, are not modelled.
- Lookups of plain-object keys that collide with built-in object properties (for example a category called `constructor`) are not modelled. A category outside the table falls back to the countries list.
- The order of the top-candidates list after the score sort is not modelled. The pick ranges over the same set of candidates, so the property proved does not depend on it.
- The source's tally keys suspects by player id in an object. The model keeps roster order, which agrees for non-numeric ids such as the generated UUIDs.
- No code moves a room from the word reveal to questioning. That transition belongs to the functions routes.ts imports but game-storage.ts does not define.
- `GameStorage.Room.AskQuestion`: a turn index past the end of the roster makes the source throw before it changes anything. The model treats that case as a refusal.
- `GameStorage.Room.EndTurn`: an out-of-range turn index is a refusal, as in `AskQuestion`.
- The per-player in-place updates inside `forEach` are modelled as replacing the roster sequence with the updated one. Player records are values, so no aliasing of player objects is modelled.
- `GameStorage.RoomStore.Valid` only states that every room is filed under its own code. A room's own invariant (`Room.Valid`) is a precondition of the store methods and the timer callbacks rather than part of the store invariant.
- `Routes.ForceProcessGuessValidation` requires the room invariant, which every room action maintains for as long as the room is in the store. The source relies on that implicitly.
- `Schema.ValidPlayerName` and `Schema.ValidRoomCode` measure length in Unicode scalar values (Dafny characters). The source's zod rules count UTF-16 code units. The two agree on names made of Basic Multilingual Plane characters, which include the Arabic letters. A name with characters outside that plane, such as emoji, counts two units per such character in the source and one in the model.
