# Scheduling layout, a reference-counted pointer, and the Mafia game rules

This project models four pieces of a C++ repository and proves properties about them.

1. **The schedule solution and its K2 objective.**
   - An `Instance` holds N jobs, M machines and the processing times `t`.
   - A `ScheduleSolution` keeps two things:
     - `H`, a row-major N×M byte matrix, sized with a 32-bit multiplication;
     - `G`, one job order per machine.
   - `evalK2` walks each machine order with a running completion time. It adds that time to a 64-bit sum after every job.
   - The model proves that the loop computes the sum over machines of the sum of prefix sums of `t` (`Schedule.K2`), reduced modulo 2^64. It also proves properties of that function.
2. **The reference-counted `SmartPtr`.**
   - There are two copies of this class. `Mafia/SmartPtr.hpp` is the same class as `Mafia/smart_ptr.cpp` without `use_count` and the ordering operators, so the same Dafny members model both.
   - The header copy maps onto the same members line for line: `release` at `Mafia/SmartPtr.hpp:10-18`, the constructors at 21-27, `operator=` at 29-37, `reset` at 47-56, `swap` at 58-61, and `==`/`!=` at 63-64. The table cites the `smart_ptr.cpp` lines.
   - A pointer is a class with `ptr` and `refCount` fields. The counter is a shared heap object (`Counter`).
   - Objects and counters are heap cells with a `deleted` flag.
   - A ghost set of owners, with `count == |owners|`, is the invariant the operations preserve:
     - the count is the number of pointers sharing the counter;
     - the object and the counter are deleted exactly when the count reaches 0.
   - The scenarios of `Mafia/test_smart_ptr.cpp` are methods whose postconditions are the counts that test asserts.
3. **The Mafia game (`Mafia/main.cpp`).**
   - Dealing roles (`add_random_roles`, `get_random_roles`) and seating players (`init_players`).
   - What every computer-controlled player votes for by day and does by night (`vote_ai`, `act_ai`, including the Journalist's and the Samurai's). As written these bodies never run: the coroutine `Task` that calls them starts suspended and is destroyed without being resumed (see Findings). `DayVoteAsWritten` and `NightActAsWritten` model what does run.
   - The `NightActions` table.
   - The day-vote tally and execution.
   - The resolution of the night: the Bull dodging the maniac, the Doctor's heal, the Samurai's guard, and then the deaths.
   - The boss re-election and the end-of-game status.
   - Players are values (`GameRoles.Player`); the game and the night table are classes whose fields the methods update.
   - Every `std::shuffle` is a Fisher–Yates shuffle driven by a `draws` argument (`Common.Shuffle`). The rules are therefore deterministic in their inputs.
4. **The pretty-printer (`Mafia/formatter.cpp`).**
   - A `Printer` class appends to its `str` field.
   - `Printer.F` dispatches over a `Value` datatype: integers, strings, vectors, sets, pairs and tuples.
   - Its contract ties the new text to the function `AppendTo`. The rendering lemmas are proved about that function.
   - The trimming quirk of `format_container` is kept. `str.substr(0, str.size() - 2)` keeps the whole string when it is shorter than two characters. So an empty container renders as `[]` on a fresh printer, and eats the previous character on a printer that already holds text.

Modules:
- `Common` (common.dfy) holds `Option` and `Shuffle`.
- `Schedule` (schedule.dfy).
- `SmartPointers` (smart_ptr.dfy).
- `PrettyPrint` (formatter.dfy).
- The game is split into three modules:
  - `GameRoles` (game_roles.dfy): roles, players and the day-time vote rules;
  - `NightRules` (night.dfy): the night table, the act_ai rules and the resolution steps;
  - `MafiaGame` (game.dfy): the `Game` class, dealing, seating, voting and the status.

Where the code and its description differ, the model follows the code. Two places:
- `init_players` gives ids by seat, and `bull_id`/`samurai_id` keep the last seat of that role.
- A pair whose second component is an empty container renders as `<a,]>`, because the container is printed after the text `", "` in the inner printer.

## Model

| member | source | states |
|---|---|---|
| Common.Shuffle | Mafia/main.cpp:50-53 | a shuffle keeps the length and the multiset of elements |
| Common.IdentityDraws | Mafia/main.cpp:50-53 | the draws that exchange each element with itself leave the order unchanged |
| Schedule.ScheduleSolution.constructor | Simulated_Annealing/src/schedule.hpp:11-14 | H has (N*M mod 2^32) entries, all 0, which is exactly N*M when that fits in 32 bits and none for 65536 jobs on 65536 machines; G has M orders, all empty |
| Schedule.CellIndex | Simulated_Annealing/src/schedule.hpp:16 | cell i*M+j decodes back to row i and column j |
| Schedule.CellIndexInRange | Simulated_Annealing/src/schedule.hpp:16 | for i < N and j < M the cell lies below N*M |
| Schedule.CellIndexInjective | Simulated_Annealing/src/schedule.hpp:16 | two different (job, machine) pairs never share a cell |
| Schedule.EvalK2 | Simulated_Annealing/src/schedule.hpp:36-43 | the result is K2 (sum over machines of the sums of prefix sums) modulo 2^64, and exactly K2 when K2 fits in 64 bits |
| Schedule.K2AllIdle | Simulated_Annealing/src/schedule.hpp:36-43 | K2 is 0 when every machine order is empty |
| Schedule.K2ReplaceMachine | Simulated_Annealing/src/schedule.hpp:38-41 | replacing machine j's order changes K2 by exactly the change of that machine's own term |
| Schedule.K2AppendJob | Simulated_Annealing/src/schedule.hpp:40 | appending a job to machine j raises K2 by machine j's new total load |
| Schedule.K2AtLeastTotalLoad | Simulated_Annealing/src/schedule.hpp:40 | K2 is at least the sum of the processing times of all scheduled jobs |
| Schedule.CompletionIsWeighted | Simulated_Annealing/src/schedule.hpp:38-41 | a machine's prefix-sum total equals the weighted sum of t[o[k]] * (|o| - k) |
| Schedule.TwoMachineExample | Simulated_Annealing/src/schedule.hpp:36-43 | times 3,1,4,2 on orders [1,3] and [0,2] give K2 = 14 |
| SmartPointers.SmartPtr.Empty | Mafia/smart_ptr.cpp:22 | null pointer, no counter, and the ownership invariant holds |
| SmartPointers.SmartPtr.FromRaw | Mafia/smart_ptr.cpp:24 | a fresh counter at 1 whose only owner is the new pointer, even for a null p |
| SmartPointers.SmartPtr.Copy | Mafia/smart_ptr.cpp:26-28 | shares the object and counter; a non-null counter gains 1 and the copy as owner |
| SmartPointers.SmartPtr.Release | Mafia/smart_ptr.cpp:10-18 | a non-null counter loses 1 and this owner; counter and object are deleted exactly when the count reaches 0; otherwise the counter stays valid |
| SmartPointers.SmartPtr.Destroy | Mafia/smart_ptr.cpp:40-42 | the destructor has the effect of one release |
| SmartPointers.SmartPtr.Assign | Mafia/smart_ptr.cpp:30-38 | self-assignment changes nothing (fields, count, owners, deleted flags); otherwise the old share is released (deleting at 0), then other's object and counter are shared with 1 added; the old object's value is kept either way |
| SmartPointers.SmartPtr.Reassign | Mafia/smart_ptr.cpp:31-37 | between different pointers: the old share is released, the old object is deleted exactly when its count reached 0 and keeps its value, and other's counter gains this pointer |
| SmartPointers.SmartPtr.Share | Mafia/smart_ptr.cpp:33-35 | takes other's fields and adds this pointer to the shared count |
| SmartPointers.SmartPtr.Reset | Mafia/smart_ptr.cpp:50-59 | releases the old share, keeping the old object's value; a non-null p gets a fresh counter at 1, and null leaves no counter |
| SmartPointers.SmartPtr.Get | Mafia/smart_ptr.cpp:45-47 | the raw pointer is the counter's object, and null when there is no counter |
| SmartPointers.SmartPtr.Swap | Mafia/smart_ptr.cpp:61-64 | exchanges both fields and leaves every count and deleted flag as it was; on one counter the owners are unchanged, on two each counter's owner this and other trade places, so every other sharer stays a sharer |
| SmartPointers.SmartPtr.SwapApart | Mafia/smart_ptr.cpp:61-64 | the swap of pointers on different counters: each counter's owners trade this for other, with its count and deleted flag unchanged |
| SmartPointers.SmartPtr.UseCount | Mafia/smart_ptr.cpp:66-68 | equals the number of pointers sharing the counter, and is 0 exactly when there is no counter |
| SmartPointers.SmartPtr.Eq | Mafia/smart_ptr.cpp:71 | equal exactly when neither address is below the other; equal whenever the stored pointers are the same |
| SmartPointers.SmartPtr.Ne | Mafia/smart_ptr.cpp:72 | the negation of Eq |
| SmartPointers.SmartPtr.Lt | Mafia/smart_ptr.cpp:73 | a pointer below another does not hold the same object |
| SmartPointers.SmartPtr.Gt | Mafia/smart_ptr.cpp:74 | the converse of Lt |
| SmartPointers.SmartPtr.Le | Mafia/smart_ptr.cpp:75 | Lt or Eq |
| SmartPointers.SmartPtr.Ge | Mafia/smart_ptr.cpp:76 | Gt or Eq |
| SmartPointers.MakeSmartPtr | Mafia/smart_ptr.cpp:80-83 | a fresh live object with the given value, held by a fresh pointer with use count 1 |
| SmartPointers.BasicCreation | Mafia/test_smart_ptr.cpp:12-18 | count 1, value 42, object deleted at the end of scope |
| SmartPointers.CopySemantics | Mafia/test_smart_ptr.cpp:20-28 | both counts 2, same object, deleted when both go |
| SmartPointers.AssignmentOperator | Mafia/test_smart_ptr.cpp:30-39 | both counts 2, same object; object 2 deleted by the assignment, object 1 kept until its last owner goes |
| SmartPointers.ResetScenario | Mafia/test_smart_ptr.cpp:41-51 | count 1 before and after reset(q), value 200, reset() gives null and count 0, both objects deleted |
| SmartPointers.SwapScenario | Mafia/test_smart_ptr.cpp:53-61 | after swap the values read 2 and 1 |
| SmartPointers.SwapWithThirdSharer | Mafia/smart_ptr.cpp:61-64 | a copy of the first pointer still holds the first object at count 2 after the swap, and compares equal to the second pointer |
| SmartPointers.UseCountAcrossCopies | Mafia/test_smart_ptr.cpp:63-73 | count 3 with two inner copies, 1 after they go, object kept |
| SmartPointers.ComparisonOperators | Mafia/test_smart_ptr.cpp:75-84 | a copy compares equal; distinct objects compare unequal and ordered |
| SmartPointers.MakeSmartPtrScenario | Mafia/test_smart_ptr.cpp:86-92 | value 777 and count 1 |
| PrettyPrint.Printer.constructor | Mafia/formatter.cpp:19 | a new printer holds the empty string |
| PrettyPrint.Printer.Str | Mafia/formatter.cpp:21-23 | the accumulated text |
| PrettyPrint.Printer.F | Mafia/formatter.cpp:25-66 | the text after f(v) is AppendTo(old text, v), for every kind of value |
| PrettyPrint.Printer.PutText | Mafia/formatter.cpp:31-34 | a string is appended verbatim |
| PrettyPrint.Printer.FormatTuple | Mafia/formatter.cpp:46-60 | appends "(", the components' fresh renderings joined by ", ", then ")" |
| PrettyPrint.Printer.FormatPair | Mafia/formatter.cpp:62-66 | appends "<", the inner printer's text for first, ", ", second, then ">" |
| PrettyPrint.Printer.FormatContainer | Mafia/formatter.cpp:71-84 | appends the bracket and each rendering followed by ", ", drops the last two characters (wrap included), then appends the close bracket |
| PrettyPrint.Format | Mafia/formatter.cpp:87-90 | the result is the text of a fresh printer after f(v) |
| PrettyPrint.Digits | Mafia/formatter.cpp:27 | at least one decimal digit, and a leading 0 only for 0 |
| PrettyPrint.DigitsRoundTrip | Mafia/formatter.cpp:27 | the digits read back as the number |
| PrettyPrint.DecimalRoundTrip | Mafia/formatter.cpp:25-29 | parsing the decimal rendering of any integer gives it back |
| PrettyPrint.DecimalInjective | Mafia/formatter.cpp:25-29 | different integers render differently |
| PrettyPrint.AppendIsConcat | Mafia/formatter.cpp:25-66 | f appends exactly the fresh rendering of v and keeps the earlier text, for every value except an empty container |
| PrettyPrint.RenderAllAt | Mafia/formatter.cpp:79 | element k is rendered on its own fresh printer |
| PrettyPrint.WithSeparatorsIsJoin | Mafia/formatter.cpp:77-83 | ", " after every part equals the join with ", " between parts, plus one trailing ", " |
| PrettyPrint.BracketedNonEmpty | Mafia/formatter.cpp:77-83 | with at least one element the trim removes exactly the trailing separator |
| PrettyPrint.BracketedEmpty | Mafia/formatter.cpp:81 | with no element the trim keeps a lone bracket, or eats the bracket and the character before it |
| PrettyPrint.VectorRendering | Mafia/formatter.cpp:36-44 | a non-empty vector or set renders as its elements joined by ", " in brackets, with no trailing separator |
| PrettyPrint.TupleMatchesVector | Mafia/formatter.cpp:46-60 | a tuple renders its components like a vector, inside parentheses |
| PrettyPrint.EmptyContainerOnFreshPrinter | Mafia/formatter.cpp:81 | on a fresh printer an empty vector renders "[]" and an empty set "{}" |
| PrettyPrint.EmptyContainerAfterText | Mafia/formatter.cpp:81 | on a printer holding text, an empty container replaces the last character with the close bracket |
| PrettyPrint.PairRendering | Mafia/formatter.cpp:62-66 | a pair renders "<" first ", " second ">" when second is not an empty container |
| PrettyPrint.PairWithEmptySecond | Mafia/formatter.cpp:64 | a pair whose second is an empty vector renders "<" first ",]>" |
| GameRoles.NewPlayer | Mafia/main.cpp:82-86 | alive, computer-controlled and not boss, knowing no mafia; a Doctor starts with last heal SIZE_MAX, a Commissar has checked and trusts itself |
| GameRoles.RoleName | Mafia/main.cpp:131-132 | a role's string equals its team's string exactly for the three base classes (civilian, mafia, maniac); the others are set at lines 162, 237, 285, 336 and 430 |
| GameRoles.TeamOf | Mafia/main.cpp:369 | the mafia team is exactly Mafia and Bull (which inherits it, line 430), the maniac team exactly Maniac (line 439) |
| GameRoles.RoleNamed | Mafia/main.cpp:556-594 | a recognised role string names the role whose name it is |
| GameRoles.RoleNameRoundTrip | Mafia/main.cpp:556-594 | every role is recognised from its own name, so no two roles share a name |
| GameRoles.FirstOther | Mafia/main.cpp:136-143 | the choice is an alive id other than x; there is none exactly when every alive id is x |
| GameRoles.FirstOutside | Mafia/main.cpp:374-383 | the choice is an alive id outside the known mafia; there is none exactly when every alive id is known |
| GameRoles.FirstKnownAlive | Mafia/main.cpp:168-173 | the first known mafioso that is still alive; there is none exactly when no known mafioso is alive |
| GameRoles.CivilianVote | Mafia/main.cpp:136-146 | an alive id, never the voter when someone else is alive; the voter's own id when no one is alive |
| GameRoles.CommissarVote | Mafia/main.cpp:166-176 | the first alive known mafioso; otherwise the Civilian rule over the already shuffled list |
| GameRoles.MafiaVote | Mafia/main.cpp:374-386 | an alive id, which is not a known mafioso whenever some alive player is not a known mafioso |
| GameRoles.ManiacVote | Mafia/main.cpp:444-456 | an alive id, which is not the maniac when anyone else is alive |
| GameRoles.Ballot | Mafia/main.cpp:88-92 | the vote_ai rule of each class, which always names an alive player; it is the intended ballot of `DayVoteIntended`, since as written the vote body never runs |
| NightRules.NightActions.constructor | Mafia/main.cpp:68-71 | players_num empty killer lists and no actions |
| NightRules.NightActions.Reset | Mafia/main.cpp:73-76 | every killer list is empty and the four action flags are false; the number of lists is kept |
| NightRules.NightActions.AddKiller | Mafia/main.cpp:182 | exactly the target's list gains the killer at its end |
| NightRules.DoctorActAi | Mafia/main.cpp:242-254 | heals and remembers the first shuffled alive id other than the last heal; changes nothing when there is none |
| NightRules.MaxId | Mafia/main.cpp:186 | an alive id that is at least every alive id |
| NightRules.CommissarCheck | Mafia/main.cpp:187-199 | the smallest id up to max_id not yet checked; none exactly when all of them are checked |
| NightRules.CommissarActAi | Mafia/main.cpp:177-201 | shoots the first alive known mafioso, or else checks the next unchecked id and files it by its team; what the Commissar knows stays true |
| NightRules.CommissarShoot | Mafia/main.cpp:180-185 | shoots exactly when a known mafioso is alive, adding itself to that mafioso's killers |
| NightRules.CommissarInspect | Mafia/main.cpp:186-200 | records the check and files the seat as mafia or civilian by its true team |
| NightRules.MafiaActAi | Mafia/main.cpp:387-401 | only the boss attacks: the first shuffled alive id outside the known mafia |
| NightRules.ManiacActAi | Mafia/main.cpp:457-469 | attacks the first shuffled alive id that is not its own |
| NightRules.SamuraiActAi | Mafia/main.cpp:340-348 | as written: the guard is on exactly when someone is alive, and guards position \|alive\| - 1, not an id |
| NightRules.SamuraiGuardsAPosition | Mafia/main.cpp:340-348 | with alive ids 3 and 7 the Samurai guards 1, who is not alive |
| NightRules.SamuraiActAiIntended | Mafia/main.cpp:340-348 | reading the id at the position: it guards an alive player, the last of the shuffled list |
| NightRules.JournalistActAi | Mafia/main.cpp:289-301 | as written: when a pair of positions i < j avoiding the journalist's id exists, the recorded pair is such a pair and the last one the loops visit; otherwise nothing changes (the empty list's wrapped bound included) |
| NightRules.JournalistChecksPositions | Mafia/main.cpp:289-301 | journalist 0 with alive ids 0, 4, 9 records (1, 2), neither of which is alive |
| NightRules.JournalistActAiIntended | Mafia/main.cpp:289-301 | comparing and recording the ids at the positions: it checks two alive players other than itself, different ones when the list has no repeats; nothing changes when there is no such pair |
| NightRules.DistinctAt | Mafia/main.cpp:731-733 | entries at two different positions of a repeat-free list differ |
| NightRules.BullStep | Mafia/main.cpp:810-817 | only the Bull's list changes: the first maniac attacker goes, every other attacker keeps its count, and nothing changes without a maniac |
| NightRules.DoctorStep | Mafia/main.cpp:822-825 | when the Doctor acted the healed list is empty; every other list is unchanged |
| NightRules.Healed | Mafia/main.cpp:810-825 | after the dodge and the heal every attacker is still a seat |
| NightRules.HealKeepsSeats | Mafia/main.cpp:810-825 | the dodge and the heal only strike attackers off |
| NightRules.SamuraiStep | Mafia/main.cpp:831-840 | no change when the Samurai did not act or the guarded player had no attackers |
| NightRules.SamuraiStepEffect | Mafia/main.cpp:831-840 | the first shuffled attacker and the Samurai each gain the Samurai, the guarded list ends empty, and every other list is unchanged |
| NightRules.QuietNight | Mafia/main.cpp:810-840 | with every list empty and no action, the dodge, heal and guard leave the table empty |
| NightRules.HealedSurvives | Mafia/main.cpp:822-840 | the healed player has no attackers after the guard, unless the guard turned on them |
| MafiaGame.AliveIdsDistinct | Mafia/main.cpp:731-733 | when every id is its seat (as init_players sets them), the alive ids are seats and no id occurs twice |
| MafiaGame.AliveIdsSpec | Mafia/main.cpp:731-733 | the alive ids are the ids of exactly the alive players |
| MafiaGame.AliveSeatsSpec | Mafia/main.cpp:613-615 | the filtered seats are exactly the alive players of the team |
| MafiaGame.MafiaIdsSpec | Mafia/main.cpp:555-601 | the mafia buffer is increasing and holds exactly the mafia-team seats |
| MafiaGame.LastIndexOfSpec | Mafia/main.cpp:571-594 | bull_id and samurai_id end as the last seat of that role, and unchanged when there is none |
| MafiaGame.InitialBossIsUniqueMafioso | Mafia/main.cpp:603-608 | after seating exactly one player is boss, and that player is a mafioso |
| MafiaGame.InitialKnowledge | Mafia/main.cpp:595-606 | a seated player has its seat as id; it is real exactly when chosen; a mafioso knows exactly the mafia |
| MafiaGame.Game.constructor | Mafia/main.cpp:510-513 | keeps both numbers, with no players yet |
| MafiaGame.Game.MafiaCount | Mafia/main.cpp:534 | players_num / mafia_modifier rounded down: at most players_num, and the largest r with r * mafia_modifier <= players_num |
| MafiaGame.Game.CivilianSlots | Mafia/main.cpp:540 | players_num - mafia_num - 1 in 32 bits: below 2^32, adding up to players_num when players_num > mafia_num, and 2^32 - 1 when they are equal |
| MafiaGame.Game.Standard | Mafia/main.cpp:510 | the mafia modifier defaults to 3 |
| MafiaGame.Game.AddRandomRoles | Mafia/main.cpp:515-531 | appends exactly limit entries, the shuffled roles while they last and then the default; result's old entries are kept |
| MafiaGame.Game.GetRandomRoles | Mafia/main.cpp:533-544 | a shuffle with mafia_num + 1 + (civilian slots in 32 bits) entries, which is players_num when players_num > mafia_num; one maniac; mafia_num bull-or-mafia, one of them the bull; each special civilian at most once, and exactly once when there are at least four civilian slots; the remaining slots plain civilians |
| MafiaGame.Game.DealMafia | Mafia/main.cpp:538 | mafia_num entries, the bull once when there is room, all on the mafia team |
| MafiaGame.Game.DealCivilians | Mafia/main.cpp:540 | players_num - mafia_num - 1 entries in 32-bit arithmetic, all civilian team; each special at most once and exactly once when there are at least four slots; every slot past the first four a plain civilian |
| MafiaGame.MafiaDeal | Mafia/main.cpp:538 | a deal from the bull list padded with mafia has the bull once and mafia otherwise |
| MafiaGame.CivilianDeal | Mafia/main.cpp:540 | a deal from the shuffled special civilians padded with civilians stays on the civilian team, holds each special at most once and exactly once when it has a slot for each, and holds plain civilians in every slot past the specials |
| MafiaGame.PlainCivilians | Mafia/main.cpp:540 | the number of plain civilians is the number of slots less the specials that fit |
| MafiaGame.SpecialOnce | Mafia/main.cpp:540 | with at least four slots each special civilian is dealt exactly once |
| MafiaGame.PrefixThenPad | Mafia/main.cpp:522-530 | a padded deal holds each role other than the padding as often as the used prefix of the shuffled roles does |
| MafiaGame.PaddingCount | Mafia/main.cpp:522-530 | the padding occurs once per slot past the used prefix, plus as often as that prefix holds it |
| MafiaGame.DealCounts | Mafia/main.cpp:538-542 | the shuffled whole deal has one maniac, the mafia part's bull and mafia counts, and the civilian part's count of every civilian-team role |
| MafiaGame.SlotsWithoutWrap | Mafia/main.cpp:534-540 | with players_num > mafia_num the civilian count does not wrap, and the deal has players_num entries |
| MafiaGame.Game.InitPlayers | Mafia/main.cpp:546-610 | every seat holds its initial player (role, id, real-player flag, mafia knowledge, boss flag); bull_id and samurai_id are set; the table is valid |
| MafiaGame.Game.SeatAll | Mafia/main.cpp:556-602 | one seated player per role, the mafia buffer, and the last Bull and Samurai seats |
| MafiaGame.Game.ShareMafiaList | Mafia/main.cpp:603-606 | each mafioso knows the whole buffer and everyone else knows no one |
| MafiaGame.CrownBoss | Mafia/main.cpp:607-608 | crowning the first of the shuffled buffer completes the initial seating |
| MafiaGame.Game.ReelectMafiaBoss | Mafia/main.cpp:612-622 | with mafiosi alive and none boss, the first of the shuffled alive mafiosi becomes boss, otherwise nothing changes; any alive mafia then includes an alive boss |
| MafiaGame.GameStatus | Mafia/main.cpp:624-664 | draw iff no one is alive; civilian iff only civilians are alive; maniac iff no mafia, a maniac, and fewer than 3 alive; mafia iff mafia, no maniac, and alive ≤ 2 × mafia; otherwise continue |
| MafiaGame.AliveSplit | Mafia/main.cpp:625-652 | the alive count is the sum of the alive counts of the three teams |
| MafiaGame.StatusMeaning | Mafia/main.cpp:624-664 | a winning team is alive and not outnumbered; a continuing game with at most one maniac has two teams alive |
| MafiaGame.Tally | Mafia/main.cpp:734-767 | each alive or voted-for id is mapped to the number of ballots naming it |
| MafiaGame.FirstMax | Mafia/main.cpp:770-773 | the smallest key with the largest count, as max_element over the ordered map |
| MafiaGame.FirstMaxUnique | Mafia/main.cpp:770-774 | exactly one id can be executed |
| MafiaGame.ExecutedWasVotedFor | Mafia/main.cpp:770-774 | with any ballot cast, the executed id got at least one vote and no fewer than any other id |
| MafiaGame.Game.DayVote | Mafia/main.cpp:730-777 | exactly the first id with the most votes is marked dead; every other player is unchanged |
| MafiaGame.Zeros | Mafia/main.cpp:745-746 | n ballots, each 0 |
| MafiaGame.ZerosCount | Mafia/main.cpp:745-747 | n zero ballots count n for id 0 and none for any other id |
| MafiaGame.SuspendedVotesExecuteSeatZero | Mafia/main.cpp:745-773 | with every ballot 0, id 0 holds all the votes and is the first maximum |
| MafiaGame.DeadSeatZeroExecuted | Mafia/main.cpp:745-774 | with alive ids 1 and 2, the suspended votes execute player 0, who is not alive |
| MafiaGame.Game.DayVoteAsWritten | Mafia/main.cpp:730-777 | day_vote as it runs, each vote coroutine suspended at its start (lines 26-39): seat 0 is executed every day, whether alive or not, and nothing else changes |
| MafiaGame.Ballots | Mafia/main.cpp:742-747 | one ballot per shuffled alive player, each an alive id or the real player's answer |
| MafiaGame.AliveIdIsSeat | Mafia/main.cpp:731-733 | an alive id is a seat whose player is alive |
| MafiaGame.VotersAreSeats | Mafia/main.cpp:731-733 | every shuffled alive id is a seat |
| MafiaGame.BallotsAreSeats | Mafia/main.cpp:774 | every ballot is a seat, so players[key] is in range |
| MafiaGame.Game.DayVoteIntended | Mafia/main.cpp:730-777 | with the vote bodies of lines 88-92 run: the first maximum of the tally of these ballots is executed; it is an alive player when every real player's answer names one |
| MafiaGame.Game.NightActAsWritten | Mafia/main.cpp:779-856 | night_act as it runs, each act coroutine suspended at its start (lines 26-39): the table stays as reset() left it and no one dies |
| MafiaGame.Game.BullDodge | Mafia/main.cpp:811-817 | the erase-and-break loop computes BullStep |
| MafiaGame.Game.DoctorHeal | Mafia/main.cpp:822-825 | the heal computes DoctorStep |
| MafiaGame.Game.SamuraiRedirect | Mafia/main.cpp:831-840 | the in-place guard computes SamuraiStep |
| MafiaGame.Game.Deaths | Mafia/main.cpp:844-854 | exactly the players below players_num with attackers left lose their alive flag; nothing else changes |
| MafiaGame.Game.ResolveNight | Mafia/main.cpp:810-854 | the killer lists end as the dodge, heal and guard make them, and exactly the attacked players die |

## Left out

- The simulated-annealing driver is left out: `sa.hpp`, `mutations.hpp`, `parallel.hpp` and `io.hpp` only declare interfaces. Of `schedule.hpp`, only the constructor, the layout and `evalK2` have bodies.
- `temps.hpp` is left out: it is floating-point cooling.
- All console and log output is left out, as are `print` and `logger.cpp`.
- The game's input prompts are parameters:
  - `act_player` and `vote_player` are left out; the real player's ballot is the `answers` argument of `Ballots` and `DayVoteIntended`;
  - the `init_players` prompt is the `choice` argument.
- `main_loop` is left out: it alternates `day_vote` and `night_act` until `GameStatus` reports a winner or a draw.
- The coroutine `Task` is not modelled as an object. Its one effect on the game, that the bodies of `Player::vote` and `Player::act` never run, is what `Game.DayVoteAsWritten` and `Game.NightActAsWritten` model (see Findings).
- The concurrent `std::async` branches of `day_vote` and `night_act` are left out, as is the acting loop of `night_act` at `Mafia/main.cpp:786-806`:
  - each actor's rule is a separate method over the same table, and `ResolveNight` starts from the table as the actors left it;
  - the ballots of `DayVote` are a parameter, in the order of the shuffled voters; `DayVoteIntended` computes them with `Ballots`.
- `rand()` and `std::mt19937` are not modelled: a shuffle is `Common.Shuffle` with caller-supplied draws. Which permutation a given generator state produces is not modelled.
- NightRules.SamuraiActAi and NightRules.JournalistActAi do not model the `simple_shuffle` of their own copy of the alive list: the loops as written read only positions, so the order has no effect. The Civilian `act_ai` does nothing.
- `PrettyPrint.Value.SetOf` takes the elements of a `std::set` as a sequence in the set's iteration order. Sorting the elements and removing repeats is the caller's job: the model accepts any sequence, repeats included, and renders it as given.
- `Roles.hpp`, `Player.hpp`, `Mafia/Game.cpp` and `Mafia/Game.hpp` are left out: they are print-only stubs.
- Players are values in a sequence rather than shared `SmartPtr<Player>` objects. The game only reads and writes them through the vector, so aliasing among players is not modelled.
- Role strings are `Role` values (`RoleName` and `RoleNamed` map between the two). The `init_players` case of an unknown role string, which pushes no player, cannot arise in the model.
- Cases the C++ code leaves undefined become preconditions:
  - `init_players` with no mafioso indexes an empty buffer;
  - `night_act` reads `bull_id` even when no Bull was dealt;
  - `day_vote` dereferences `max_element` of an empty map;
  - `Commissar::act_ai` takes the maximum of an empty alive list;
  - `get_random_roles` divides by `mafia_modifier` (`Mafia/main.cpp:534`), so `Game.MafiaCount` and the dealing methods require it to be positive;
  - `evalK2` reads `t[i]` for every job in every order (`Simulated_Annealing/src/schedule.hpp:40`), so `EvalK2` requires every job to be below N (`ValidOrders`);
  - `day_vote` writes `players[key]` for the executed key (`Mafia/main.cpp:774`), so `Game.DayVote` requires every ballot to be a seat.
- NightRules.BullStep: an attacker id at or beyond the player count is treated as not a maniac, rather than as the out-of-range read it is in the source.
- MafiaGame.Tally: the `unsigned int` vote counters are unbounded, because a vote count cannot reach 2^32 with fewer than 2^32 players.
- Ids are unbounded naturals. The `unsigned int` truncation of ids in `NightActions` (for `doctors_choice` and the others) is not modelled.
- `Game.Valid` ties ids to seats only. The `players_num` field of `NightActions` is kept but only `killers` is used.
- PrettyPrint.Printer.FormatContainer: strings are sequences of characters, and the trim `substr(0, size() - 2)` (the function `Bracketed`) drops two characters, where the C++ drops two bytes. A `Text` value stands for its bytes, one character per byte, and then the two agree. A multi-byte UTF-8 character given as one character is trimmed whole: after f of the text "é", an empty vector leaves the byte 0xC3 before "]" in the C++, and just "]" in the model.
- PrettyPrint.BracketedEmpty: counts characters, not bytes, for the same reason as FormatContainer; the lone bracket is kept, or the bracket and the one character before it go.
- PrettyPrint.EmptyContainerAfterText: counts characters, not bytes, for the same reason as FormatContainer; the C++ replaces the last byte of the earlier text, not the last character.

## Findings

| source | as written | input that shows it | evidently intended | confidence | as-written member | corrected member |
|---|---|---|---|---|---|---|
| Mafia/main.cpp:26-39 | `Task::promise_type::initial_suspend` returns `suspend_always` and `~Task` destroys the handle without resuming it, so the bodies of `Player::vote` and `Player::act` (lines 88-99) never run: every `day_vote` ballot is the 0 the caller's `value` starts at, and `night_act` resolves the table as `reset()` left it | any alive list, e.g. alive ids 1 and 2: seat 0, already dead, is executed again, and no one dies at night, so with 10 players `main_loop` never ends | each player's `vote_ai` or `act_ai` rule runs and decides the ballot or the night action | high, not executed | MafiaGame.Game.DayVoteAsWritten, MafiaGame.DeadSeatZeroExecuted, MafiaGame.Game.NightActAsWritten | MafiaGame.Game.DayVoteIntended, GameRoles.Ballot |
| Mafia/main.cpp:340-348 | `Samurai::act_ai` stores the loop position `i` in `samurai_choice`, which `night_act` uses as a player id | alive ids 3 and 7: the Samurai guards player 1, who is not alive | `samurai_choice = alive_ids[i]`, an alive player | high, not executed | NightRules.SamuraiActAi, NightRules.SamuraiGuardsAPosition | NightRules.SamuraiActAiIntended |
| Mafia/main.cpp:289-301 | `Journalist::act_ai` compares the loop positions `i` and `j` with its own id and stores them as the checked pair | journalist 0 with alive ids 0, 4 and 9: it checks players 1 and 2, neither alive | compare and store `alive_ids[i]` and `alive_ids[j]`, two alive players other than itself | high, not executed | NightRules.JournalistActAi, NightRules.JournalistChecksPositions | NightRules.JournalistActAiIntended |
