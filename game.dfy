// The Mafia game: dealing roles, seating players, the night's actions of the
// computer-controlled players and their resolution, the day vote, the boss
// re-election and the end-of-game classification.

module MafiaGame {

  import opened Common
  import opened GameRoles
  import opened NightRules

  const U32Modulus: int := 0x1_0000_0000

  /** unsigned int. */
  type U32 = x: nat | x < U32Modulus

  /** The special civilians, and the special mafioso, each dealt at most
      once. A dealt role string is represented by the Role it names
      (RoleName gives the string back). */
  const CivilianRoles: seq<Role> := [Commissar, Doctor, Journalist, Samurai]
  const MafiaRoles: seq<Role> := [Bull]

  /** The default divisor of the player count that gives the mafia count. */
  const DefaultMafiaModifier: nat := 3

  /** Ids of the players whose alive flag is set, in seating order. */
  function AliveIds(players: seq<Player>): seq<nat> {
    if players == [] then []
    else
      var last := players[|players| - 1];
      AliveIds(players[..|players| - 1]) + (if last.alive then [last.id] else [])
  }

  /** When every id is its seat, the alive ids are seats and none repeats. */
  lemma {:induction false} AliveIdsDistinct(players: seq<Player>)
    requires forall i :: 0 <= i < |players| ==> players[i].id == i
    ensures Distinct(AliveIds(players))
    ensures forall x :: x in AliveIds(players) ==> x < |players|
  {
    if players != [] {
      var n: nat := |players| - 1;
      var a := AliveIds(players[..n]);
      AliveIdsDistinct(players[..n]);
      if players[n].alive {
        assert AliveIds(players) == a + [n];
        assert n !in a;
        assert multiset(a + [n]) == multiset(a) + multiset{n};
        forall x ensures multiset(AliveIds(players))[x] <= 1 {
          assert multiset(a)[x] <= 1;
        }
      } else {
        assert AliveIds(players) == a;
      }
    }
  }

  /** The alive ids are the ids of exactly the alive players. */
  lemma {:induction false} AliveIdsSpec(players: seq<Player>)
    ensures forall x :: x in AliveIds(players) <==>
              exists i :: 0 <= i < |players| && players[i].alive && players[i].id == x
  {
    if players != [] {
      var n := |players| - 1;
      AliveIdsSpec(players[..n]);
      assert forall i :: 0 <= i < n ==> players[..n][i] == players[i];
    }
  }

  /** Seats of the alive players of team t, in seating order: the range
      filters of reelection_mafia_boss and game_status. */
  function AliveSeats(players: seq<Player>, t: Team): seq<nat> {
    if players == [] then []
    else
      var n := |players| - 1;
      AliveSeats(players[..n], t) + (if players[n].alive && TeamOf(players[n].role) == t then [n] else [])
  }

  /** The alive seats of a team are exactly the seats whose player is alive
      and on that team. */
  lemma {:induction false} AliveSeatsSpec(players: seq<Player>, t: Team)
    ensures forall k :: k in AliveSeats(players, t) <==>
              0 <= k < |players| && players[k].alive && TeamOf(players[k].role) == t
  {
    if players != [] {
      var n := |players| - 1;
      AliveSeatsSpec(players[..n], t);
      assert forall i :: 0 <= i < n ==> players[..n][i] == players[i];
      forall k | k in AliveSeats(players[..n], t) ensures k < n { }
    }
  }

  /** Seat positions of the mafia team, in seating order. */
  function MafiaIds(roles: seq<Role>): seq<nat> {
    if roles == [] then []
    else
      var n := |roles| - 1;
      MafiaIds(roles[..n]) + (if TeamOf(roles[n]) == MafiaTeam then [n] else [])
  }

  /** The mafia buffer is strictly increasing and holds exactly the seats of
      the mafia team. */
  lemma {:induction false} MafiaIdsSpec(roles: seq<Role>)
    ensures forall a, b :: 0 <= a < b < |MafiaIds(roles)| ==> MafiaIds(roles)[a] < MafiaIds(roles)[b]
    ensures forall k :: k in MafiaIds(roles) <==> 0 <= k < |roles| && TeamOf(roles[k]) == MafiaTeam
  {
    if roles != [] {
      var n := |roles| - 1;
      var prev := MafiaIds(roles[..n]);
      MafiaIdsSpec(roles[..n]);
      assert forall k :: 0 <= k < n ==> roles[..n][k] == roles[k];
      forall a | 0 <= a < |prev| ensures prev[a] < n {
        assert prev[a] in prev;
      }
    }
  }

  /** Entry k of a deal from the shuffled roles, padded with the default. */
  function DealtAt(shuffled: seq<Role>, defaultRole: Role, k: nat): Role {
    if k < |shuffled| then shuffled[k] else defaultRole
  }

  /** The seat a player takes in init_players before the mafia learn each
      other and the boss is chosen. */
  function Seat(role: Role, id: nat, choice: int): Player {
    NewPlayer(id, role).(isRealPlayer := choice == id)
  }

  /** The last seat holding role x, or dflt when no seat does: bull_id and
      samurai_id keep the last assignment of the seating loop. */
  function LastIndexOf(s: seq<Role>, x: Role, dflt: nat): nat {
    if s == [] then dflt
    else if s[|s| - 1] == x then |s| - 1
    else LastIndexOf(s[..|s| - 1], x, dflt)
  }

  /** LastIndexOf finds the last occurrence, and the default only when there
      is none. */
  lemma {:induction false} LastIndexOfSpec(s: seq<Role>, x: Role, dflt: nat)
    ensures var k := LastIndexOf(s, x, dflt);
            && (x in s ==> k < |s| && s[k] == x && forall j :: k < j < |s| ==> s[j] != x)
            && (x !in s ==> k == dflt)
  {
    if s != [] && s[|s| - 1] != x {
      var n := |s| - 1;
      LastIndexOfSpec(s[..n], x, dflt);
      assert s == s[..n] + [s[n]];
    }
  }

  lemma MafiaIdsStep(roles: seq<Role>, i: nat)
    requires i < |roles|
    ensures MafiaIds(roles[..i + 1]) == MafiaIds(roles[..i]) + if TeamOf(roles[i]) == MafiaTeam then [i] else []
  {
    assert roles[..i + 1][..i] == roles[..i];
  }

  lemma LastIndexOfStep(roles: seq<Role>, i: nat, x: Role, dflt: nat)
    requires i < |roles|
    ensures LastIndexOf(roles[..i + 1], x, dflt) == if roles[i] == x then i else LastIndexOf(roles[..i], x, dflt)
  {
    assert roles[..i + 1][..i] == roles[..i];
  }

  /** Player i after init_players: seated, the mafia knowing the whole mafia
      (in seating order), and the boss being the first of the shuffled mafia. */
  function InitialPlayer(roles: seq<Role>, choice: int, draws: seq<nat>, i: nat): Player
    requires i < |roles| && MafiaIds(roles) != [] && IsDraws(draws, |MafiaIds(roles)|)
  {
    Seat(roles[i], i, choice).(
      knownMafia := if TeamOf(roles[i]) == MafiaTeam then MafiaIds(roles) else [],
      isBoss := i == Shuffle(MafiaIds(roles), draws)[0])
  }

  /** Exactly one player is the boss after init_players, and that player is
      on the mafia team. */
  lemma InitialBossIsUniqueMafioso(roles: seq<Role>, choice: int, draws: seq<nat>)
    requires MafiaIds(roles) != [] && IsDraws(draws, |MafiaIds(roles)|)
    ensures exists b :: 0 <= b < |roles| && InitialPlayer(roles, choice, draws, b).isBoss
                        && TeamOf(roles[b]) == MafiaTeam
                        && forall i :: 0 <= i < |roles| && InitialPlayer(roles, choice, draws, i).isBoss ==> i == b
  {
    var ids := MafiaIds(roles);
    var b := Shuffle(ids, draws)[0];
    assert b in multiset(ids);
    assert b in ids;
    forall i | 0 <= i < |roles|
      ensures InitialPlayer(roles, choice, draws, i).isBoss <==> i == b
    {
      InitialBossFlag(roles, choice, draws, i);
    }
    MafiaIdsMember(roles, b);
  }

  lemma MafiaIdsMember(roles: seq<Role>, k: nat)
    requires k in MafiaIds(roles)
    ensures k < |roles| && TeamOf(roles[k]) == MafiaTeam
  {
    MafiaIdsSpec(roles);
  }

  lemma InitialBossFlag(roles: seq<Role>, choice: int, draws: seq<nat>, i: nat)
    requires i < |roles| && MafiaIds(roles) != [] && IsDraws(draws, |MafiaIds(roles)|)
    ensures InitialPlayer(roles, choice, draws, i).isBoss <==> i == Shuffle(MafiaIds(roles), draws)[0]
  {
  }

  /** After init_players every mafioso knows exactly the mafia, everyone else
      knows no one, and the chosen seat is the only real player. */
  lemma InitialKnowledge(roles: seq<Role>, choice: int, draws: seq<nat>, i: nat)
    requires i < |roles| && MafiaIds(roles) != [] && IsDraws(draws, |MafiaIds(roles)|)
    ensures var p := InitialPlayer(roles, choice, draws, i);
            && p.id == i && p.role == roles[i] && p.alive
            && (p.isRealPlayer <==> choice == i)
            && (forall k :: k in p.knownMafia <==> TeamOf(roles[i]) == MafiaTeam && 0 <= k < |roles| && TeamOf(roles[k]) == MafiaTeam)
  {
    MafiaIdsSpec(roles);
  }

  class Game {
    var players: seq<Player>
    const playersNum: U32
    const mafiaModifier: U32
    var samuraiId: nat
    var bullId: nat

    /** Game(players_num, mafia_modifier); the players are seated later. */
    constructor (playersNum: U32, mafiaModifier: U32)
      ensures this.playersNum == playersNum && this.mafiaModifier == mafiaModifier
      ensures players == []
    {
      this.playersNum := playersNum;
      this.mafiaModifier := mafiaModifier;
      players := [];
    }

    /** Game(players_num) with the default modifier 3. */
    constructor Standard(playersNum: U32)
      ensures this.playersNum == playersNum && mafiaModifier == DefaultMafiaModifier
      ensures players == []
    {
      this.playersNum := playersNum;
      mafiaModifier := DefaultMafiaModifier;
      players := [];
    }

    /** Every seat is taken, and each player's id is their seat. */
    ghost predicate Valid()
      reads this
    {
      |players| == playersNum && forall i :: 0 <= i < |players| ==> players[i].id == i
    }

    // -------------------------------------------------------------------------
    // Dealing roles

    /** add_random_roles: shuffles its own copy of roles and appends exactly
        limit entries to result: the shuffled roles while they last, then the
        default role. */
    method AddRandomRoles(roles: seq<Role>, limit: nat, defaultRole: Role,
                          result: seq<Role>, draws: seq<nat>) returns (r: seq<Role>)
      requires IsDraws(draws, |roles|)
      ensures |r| == |result| + limit && r[..|result|] == result
      ensures forall j :: |result| <= j < |r| ==>
                r[j] == DealtAt(Shuffle(roles, draws), defaultRole, j - |result|)
    {
      var shuffled := Shuffle(roles, draws);
      r := result;
      var i := 0;
      while i < limit
        invariant 0 <= i <= limit && |r| == |result| + i && r[..|result|] == result
        invariant forall j :: |result| <= j < |r| ==> r[j] == DealtAt(shuffled, defaultRole, j - |result|)
      {
        if i < |shuffled| {
          r := r + [shuffled[i]];
        } else {
          r := r + [defaultRole];
        }
        i := i + 1;
      }
    }

    /** players_num / mafia_modifier, in unsigned arithmetic. */
    function MafiaCount(): (r: nat)
      reads this
      requires mafiaModifier > 0
      ensures r <= playersNum
      ensures r * mafiaModifier <= playersNum < (r + 1) * mafiaModifier
    {
      playersNum / mafiaModifier
    }

    /** players_num - mafia_num - 1, computed in 32-bit unsigned arithmetic:
        it wraps when there are no seats left for civilians. */
    function CivilianSlots(): (r: nat)
      reads this
      requires mafiaModifier > 0
      ensures r < U32Modulus
      ensures playersNum > MafiaCount() ==> r + MafiaCount() + 1 == playersNum
      ensures playersNum == MafiaCount() ==> r == U32Modulus - 1
    {
      (playersNum - MafiaCount() - 1) % U32Modulus
    }

    /** get_random_roles: the mafia's roles (one bull, the rest plain mafia), one
        maniac and the civilians' roles (the special civilians first, the rest
        plain), all shuffled together. */
    method GetRandomRoles(mafiaDraws: seq<nat>, civilianDraws: seq<nat>, finalDraws: seq<nat>)
      returns (roles: seq<Role>)
      requires mafiaModifier > 0
      requires IsDraws(mafiaDraws, |MafiaRoles|) && IsDraws(civilianDraws, |CivilianRoles|)
      requires IsDraws(finalDraws, MafiaCount() + 1 + CivilianSlots())
      ensures |roles| == MafiaCount() + 1 + CivilianSlots()
      ensures playersNum > MafiaCount() ==> |roles| == playersNum
      ensures multiset(roles)[Maniac] == 1
      ensures multiset(roles)[Bull] + multiset(roles)[Mafia] == MafiaCount()
      ensures multiset(roles)[Bull] == if MafiaCount() > 0 then 1 else 0
      ensures forall r :: r in CivilianRoles ==> multiset(roles)[r] <= 1
      ensures CivilianSlots() >= |CivilianRoles| ==> forall r :: r in CivilianRoles ==> multiset(roles)[r] == 1
      ensures multiset(roles)[Civilian] ==
                CivilianSlots() - (if CivilianSlots() < |CivilianRoles| then CivilianSlots() else |CivilianRoles|)
    {
      var mafia := DealMafia(mafiaDraws);
      var civilians := DealCivilians(mafia + [Maniac], civilianDraws);
      var all := mafia + [Maniac] + civilians;
      roles := Shuffle(all, finalDraws);
      DealCounts(mafia, civilians, roles);
      SlotsWithoutWrap(playersNum, mafiaModifier);
    }

    /** The first add_random_roles call of get_random_roles: mafia_num mafia
        roles, the bull first. */
    method DealMafia(draws: seq<nat>) returns (mafia: seq<Role>)
      requires mafiaModifier > 0 && IsDraws(draws, |MafiaRoles|)
      ensures |mafia| == MafiaCount()
      ensures multiset(mafia)[Bull] == if |mafia| > 0 then 1 else 0
      ensures multiset(mafia)[Bull] + multiset(mafia)[Mafia] == |mafia|
      ensures forall r :: TeamOf(r) != MafiaTeam ==> multiset(mafia)[r] == 0
    {
      mafia := AddRandomRoles(MafiaRoles, MafiaCount(), Mafia, [], draws);
      MafiaDeal(mafia, draws);
    }

    /** The second add_random_roles call: the civilian slots appended after
        `dealt`; only the appended part is returned. */
    method DealCivilians(dealt: seq<Role>, draws: seq<nat>) returns (civilians: seq<Role>)
      requires mafiaModifier > 0 && IsDraws(draws, |CivilianRoles|)
      ensures |civilians| == CivilianSlots()
      ensures forall r :: TeamOf(r) != CivilianTeam ==> multiset(civilians)[r] == 0
      ensures forall r :: r in CivilianRoles ==> multiset(civilians)[r] <= 1
      ensures CivilianSlots() >= |CivilianRoles| ==> forall r :: r in CivilianRoles ==> multiset(civilians)[r] == 1
      ensures multiset(civilians)[Civilian] ==
                CivilianSlots() - (if CivilianSlots() < |CivilianRoles| then CivilianSlots() else |CivilianRoles|)
    {
      var all := AddRandomRoles(CivilianRoles, CivilianSlots(), Civilian, dealt, draws);
      civilians := all[|dealt|..];
      CivilianDeal(civilians, Shuffle(CivilianRoles, draws));
    }

    // -------------------------------------------------------------------------
    // Seating players

    /** init_players: seats one player per dealt role (the choice-th seat is
        the real player), records the bull's and samurai's seats, tells every
        mafioso the whole mafia and makes the first of the shuffled mafia the
        boss. The source indexes the shuffled mafia list at 0, so it needs at
        least one mafioso. */
    method InitPlayers(roles: seq<Role>, choice: int, draws: seq<nat>)
      requires MafiaIds(roles) != [] && IsDraws(draws, |MafiaIds(roles)|)
      modifies this`players, this`bullId, this`samuraiId
      ensures |players| == |roles|
      ensures forall i :: 0 <= i < |roles| ==> players[i] == InitialPlayer(roles, choice, draws, i)
      ensures bullId == LastIndexOf(roles, Bull, old(bullId))
      ensures samuraiId == LastIndexOf(roles, Samurai, old(samuraiId))
      ensures |roles| == playersNum ==> Valid()
    {
      var buffer := SeatAll(roles, choice);
      ShareMafiaList(roles, choice, buffer);
      var boss := Shuffle(buffer, draws)[0];
      CrownBoss(players, roles, choice, draws);
      players := players[boss := players[boss].(isBoss := true)];
    }

    /** The seating loop of init_players; returns the mafia buffer. */
    method SeatAll(roles: seq<Role>, choice: int) returns (buffer: seq<nat>)
      modifies this`players, this`bullId, this`samuraiId
      ensures buffer == MafiaIds(roles)
      ensures |players| == |roles| && forall i :: 0 <= i < |roles| ==> players[i] == Seat(roles[i], i, choice)
      ensures bullId == LastIndexOf(roles, Bull, old(bullId))
      ensures samuraiId == LastIndexOf(roles, Samurai, old(samuraiId))
    {
      var seated: seq<Player> := [];
      var bull0, samurai0 := bullId, samuraiId;
      var bull, samurai := bull0, samurai0;
      buffer := [];
      var i := 0;
      while i < |roles|
        invariant 0 <= i <= |roles|
        invariant |seated| == i && forall k :: 0 <= k < i ==> seated[k] == Seat(roles[k], k, choice)
        invariant buffer == MafiaIds(roles[..i])
        invariant bull == LastIndexOf(roles[..i], Bull, bull0)
        invariant samurai == LastIndexOf(roles[..i], Samurai, samurai0)
      {
        MafiaIdsStep(roles, i);
        LastIndexOfStep(roles, i, Bull, bull0);
        LastIndexOfStep(roles, i, Samurai, samurai0);
        seated := seated + [Seat(roles[i], i, choice)];
        if TeamOf(roles[i]) == MafiaTeam {
          buffer := buffer + [i];
        }
        if roles[i] == Bull {
          bull := i;
        }
        if roles[i] == Samurai {
          samurai := i;
        }
        i := i + 1;
      }
      assert roles[..i] == roles;
      players, bullId, samuraiId := seated, bull, samurai;
    }

    /** The second loop of init_players: each mafioso's known_mafia gets the
        whole buffer appended. */
    method ShareMafiaList(roles: seq<Role>, choice: int, buffer: seq<nat>)
      requires buffer == MafiaIds(roles)
      requires |players| == |roles| && forall i :: 0 <= i < |roles| ==> players[i] == Seat(roles[i], i, choice)
      modifies this`players
      ensures |players| == |roles|
      ensures forall i :: 0 <= i < |roles| ==>
                players[i] == Seat(roles[i], i, choice).(knownMafia := if TeamOf(roles[i]) == MafiaTeam then buffer else [])
    {
      MafiaIdsSpec(roles);
      var t := 0;
      while t < |buffer|
        invariant 0 <= t <= |buffer| && SharedUpTo(players, roles, choice, buffer, t)
      {
        ShareStep(players, roles, choice, buffer, t);
        var m := buffer[t];
        players := players[m := players[m].(knownMafia := players[m].knownMafia + buffer)];
        t := t + 1;
      }
      assert buffer[..t] == buffer;
    }

    // -------------------------------------------------------------------------
    // Between phases

    /** reelection_mafia_boss: when mafiosi are alive but none of them is the
        boss, the first of the shuffled alive mafiosi becomes boss. */
    method ReelectMafiaBoss(draws: seq<nat>)
      requires IsDraws(draws, |AliveSeats(players, MafiaTeam)|)
      modifies this`players
      ensures var seats := AliveSeats(old(players), MafiaTeam);
              if seats != [] && forall k :: 0 <= k < |old(players)| && k in seats ==> !old(players)[k].isBoss
              then var b := Shuffle(seats, draws)[0];
                   b < |old(players)| && players == old(players)[b := old(players)[b].(isBoss := true)]
              else players == old(players)
      ensures AliveSeats(old(players), MafiaTeam) != [] ==>
                exists k :: 0 <= k < |players| && players[k].alive && TeamOf(players[k].role) == MafiaTeam
                            && players[k].isBoss
    {
      var seats := AliveSeats(players, MafiaTeam);
      AliveSeatsSpec(players, MafiaTeam);
      if seats != [] && forall k :: 0 <= k < |players| && k in seats ==> !players[k].isBoss {
        var b := Shuffle(seats, draws)[0];
        assert b in multiset(seats);
        assert b in seats;
        players := players[b := players[b].(isBoss := true)];
        assert players[b].alive && TeamOf(players[b].role) == MafiaTeam && players[b].isBoss;
      } else if seats != [] {
        var k :| 0 <= k < |players| && k in seats && players[k].isBoss;
        assert players[k].alive && TeamOf(players[k].role) == MafiaTeam;
      }
    }

    // -------------------------------------------------------------------------
    // The day vote

    /** day_vote from the ballots on: the votes are tallied into a map keyed by
        player id (every alive id starting at 0), the id with the most votes
        (the smallest such id on a tie, as std::max_element over the ordered
        map) is executed. The ballots are the value each voter's vote left,
        in voting order. */
    method DayVote(ballots: seq<nat>) returns (executed: nat)
      requires Valid() && AliveIds(players) != []
      requires forall i :: 0 <= i < |ballots| ==> ballots[i] < |players|
      modifies this`players
      ensures executed < |old(players)| && IsFirstMax(VoteCounts(AliveIds(old(players)), ballots), executed)
      ensures players == old(players)[executed := old(players)[executed].(alive := false)]
    {
      var aliveIds := AliveIds(players);
      var votes := Tally(aliveIds, ballots);
      AliveIdsSpec(players);
      assert aliveIds[0] in votes;
      executed := FirstMax(votes, |players|);
      players := players[executed := players[executed].(alive := false)];
    }

    /** day_vote as the program runs it. Player::vote is a coroutine whose Task
        starts suspended and is destroyed without being resumed, so no vote
        body runs and every ballot is the 0 the caller's value starts at:
        seat 0 is executed, whether or not it is alive. */
    method DayVoteAsWritten() returns (executed: nat)
      requires Valid() && AliveIds(players) != []
      modifies this`players
      ensures executed == 0
      ensures players == old(players)[0 := old(players)[0].(alive := false)]
    {
      var ballots := Zeros(|AliveIds(players)|);
      SuspendedVotesExecuteSeatZero(AliveIds(players));
      ghost var before := players;
      executed := DayVote(ballots);
      FirstMaxUnique(VoteCounts(AliveIds(before), ballots), executed, 0);
    }

    /** day_vote with the votes run: the alive players are shuffled
        (voterDraws) and each casts its ballot, so the executed player is
        one of the alive players whenever every real player's answer names
        one. */
    method DayVoteIntended(voterDraws: seq<nat>, draws: seq<seq<nat>>, redraws: seq<seq<nat>>,
                           answers: seq<nat>) returns (executed: nat)
      requires Valid() && AliveIds(players) != [] && IsDraws(voterDraws, |AliveIds(players)|)
      requires |draws| == |redraws| == |answers| == |AliveIds(players)|
      requires forall k :: 0 <= k < |draws| ==>
                 IsDraws(draws[k], |AliveIds(players)|) && IsDraws(redraws[k], |AliveIds(players)|)
      requires forall k :: 0 <= k < |answers| ==> answers[k] < |players|
      modifies this`players
      ensures executed < |old(players)|
      ensures IsFirstMax(VoteCounts(AliveIds(old(players)),
                                    Ballots(old(players), voterDraws, draws, redraws, answers)), executed)
      ensures players == old(players)[executed := old(players)[executed].(alive := false)]
      ensures (forall k :: 0 <= k < |answers| ==> answers[k] in AliveIds(old(players))) ==>
                old(players)[executed].alive
    {
      var ballots := Ballots(players, voterDraws, draws, redraws, answers);
      AliveIdsSpec(players);
      ghost var before := players;
      BallotsAreSeats(players, ballots, answers);
      executed := DayVote(ballots);
      ExecutedWasVotedFor(AliveIds(before), ballots, executed);
      if forall k :: 0 <= k < |answers| ==> answers[k] in AliveIds(before) {
        assert executed in multiset(ballots);
        var k :| 0 <= k < |ballots| && ballots[k] == executed;
        assert executed in AliveIds(before);
      }
    }

    /** night_act as the program runs it: Player::act returns suspended like
        Player::vote, so the table stays as reset() left it and no one dies. */
    method NightActAsWritten(samuraiDraws: seq<nat>) returns (na: NightActions)
      requires playersNum <= |players| && bullId < playersNum
      modifies this`players
      ensures fresh(na)
      ensures players == old(players)
    {
      na := new NightActions(playersNum);
      na.Reset();
      QuietNight(na.killers, players, bullId, na.doctorsChoice, na.samuraiChoice, samuraiId, samuraiDraws);
      ResolveNight(na, samuraiDraws);
    }

    // -------------------------------------------------------------------------
    // Resolving the night

    /** night_act after everyone has acted: the Bull dodges the maniac, the
        Doctor's heal, the Samurai's guard, then every player with attackers
        left dies. The source reads killers[bull_id] and, when the Samurai
        acted, killers[samurai_id], so both seats must exist. */
    method ResolveNight(na: NightActions, samuraiDraws: seq<nat>)
      requires |na.killers| == playersNum <= |players|
      requires IdsBelow(na.killers, |na.killers|) && bullId < |na.killers|
      requires na.doctorsAction ==> na.doctorsChoice < |na.killers|
      requires na.samuraiAction ==> na.samuraiChoice < |na.killers| && samuraiId < |na.killers|
      requires na.samuraiAction ==>
                 IsDraws(samuraiDraws, |Healed(na.killers, players, bullId,
                                               na.doctorsAction, na.doctorsChoice)[na.samuraiChoice]|)
      modifies na`killers, this`players
      ensures na.killers == SamuraiStep(Healed(old(na.killers), old(players), bullId,
                                               na.doctorsAction, na.doctorsChoice),
                                        na.samuraiAction, na.samuraiChoice, samuraiId, samuraiDraws)
      ensures |players| == |old(players)|
      ensures forall i :: 0 <= i < |players| ==>
                players[i] == old(players[i]).(alive := old(players[i].alive) && (i >= playersNum || na.killers[i] == []))
    {
      BullDodge(na);
      DoctorHeal(na);
      SamuraiRedirect(na, samuraiDraws);
      Deaths(na);
    }

    /** The Bull's dodge loop: the first maniac among its attackers is erased
        and the loop stops. */
    method BullDodge(na: NightActions)
      requires bullId < |na.killers|
      modifies na`killers
      ensures na.killers == BullStep(old(na.killers), players, bullId)
    {
      var list := na.killers[bullId];
      var i := 0;
      while i < |list|
        invariant 0 <= i <= |list| && na.killers == old(na.killers)
        invariant forall j :: 0 <= j < i ==> !IsManiacSeat(players)(list[j])
      {
        var killer := list[i];
        if killer < |players| && players[killer].role == Maniac {
          FirstWhereAt(list, IsManiacSeat(players), i);
          na.killers := na.killers[bullId := list[..i] + list[i + 1..]];
          return;
        }
        i := i + 1;
      }
      FirstWhereAt(list, IsManiacSeat(players), i);
    }

    /** The Doctor's heal clears the healed player's attackers. */
    method DoctorHeal(na: NightActions)
      requires na.doctorsAction ==> na.doctorsChoice < |na.killers|
      modifies na`killers
      ensures na.killers == DoctorStep(old(na.killers), na.doctorsAction, na.doctorsChoice)
    {
      if na.doctorsAction {
        na.killers := na.killers[na.doctorsChoice := []];
      }
    }

    /** The Samurai's guard, on the killer lists in place. */
    method SamuraiRedirect(na: NightActions, draws: seq<nat>)
      requires na.samuraiAction ==> na.samuraiChoice < |na.killers| && samuraiId < |na.killers|
      requires na.samuraiAction ==> IsDraws(draws, |na.killers[na.samuraiChoice]|)
      requires na.samuraiAction ==> IdsBelow(na.killers, |na.killers|)
      modifies na`killers
      ensures na.killers == SamuraiStep(old(na.killers), na.samuraiAction, na.samuraiChoice, samuraiId, draws)
    {
      if na.samuraiAction {
        var choice := na.samuraiChoice;
        assert forall j :: 0 <= j < |na.killers[choice]| ==> na.killers[choice][j] < |na.killers|;
        var list := na.killers[choice];
        if list != [] {
          na.killers := na.killers[choice := Shuffle(list, draws)];
          var first := na.killers[choice][0];
          assert first in multiset(list);
          assert first in list;
          na.killers := na.killers[first := na.killers[first] + [samuraiId]];
          na.killers := na.killers[samuraiId := na.killers[samuraiId] + [samuraiId]];
          na.killers := na.killers[choice := []];
        }
      }
    }

    /** The last loop of night_act: each of the first players_num players with
        attackers left dies. */
    method Deaths(na: NightActions)
      requires playersNum <= |players| && playersNum <= |na.killers|
      modifies this`players
      ensures |players| == |old(players)|
      ensures forall i :: 0 <= i < |players| ==>
                players[i] == old(players[i]).(alive := old(players[i].alive) && (i >= playersNum || na.killers[i] == []))
    {
      var i := 0;
      while i < playersNum
        invariant 0 <= i <= playersNum && |players| == |old(players)|
        invariant forall k :: 0 <= k < |players| ==>
                    players[k] == old(players[k]).(alive := old(players[k].alive) && (k >= i || na.killers[k] == []))
      {
        if na.killers[i] != [] {
          players := players[i := players[i].(alive := false)];
        }
        i := i + 1;
      }
    }
  }

  /** The players after the first t mafiosi of the buffer have been told
      the buffer. */
  predicate SharedUpTo(ps: seq<Player>, roles: seq<Role>, choice: int, buffer: seq<nat>, t: nat)
    requires t <= |buffer|
  {
    |ps| == |roles| &&
    forall i :: 0 <= i < |roles| ==>
      ps[i] == Seat(roles[i], i, choice).(knownMafia := if i in buffer[..t] then buffer else [])
  }

  lemma ShareStep(ps: seq<Player>, roles: seq<Role>, choice: int, buffer: seq<nat>, t: nat)
    requires t < |buffer| && SharedUpTo(ps, roles, choice, buffer, t)
    requires forall a, b :: 0 <= a < b < |buffer| ==> buffer[a] < buffer[b]
    requires forall k :: k in buffer ==> k < |roles|
    ensures buffer[t] < |ps|
    ensures SharedUpTo(ps[buffer[t] := ps[buffer[t]].(knownMafia := ps[buffer[t]].knownMafia + buffer)],
                       roles, choice, buffer, t + 1)
  {
    var m := buffer[t];
    assert m in buffer;
    assert buffer[..t + 1] == buffer[..t] + [m];
    assert forall j :: 0 <= j < t ==> buffer[..t][j] == buffer[j] < m;
    assert m !in buffer[..t];
  }

  /** Making the first of the shuffled mafia the boss completes the seating. */
  lemma CrownBoss(ps: seq<Player>, roles: seq<Role>, choice: int, draws: seq<nat>)
    requires MafiaIds(roles) != [] && IsDraws(draws, |MafiaIds(roles)|)
    requires |ps| == |roles|
    requires forall i :: 0 <= i < |roles| ==>
               ps[i] == Seat(roles[i], i, choice).(knownMafia := if TeamOf(roles[i]) == MafiaTeam then MafiaIds(roles) else [])
    ensures var boss := Shuffle(MafiaIds(roles), draws)[0];
            && boss < |ps|
            && forall i :: 0 <= i < |roles| ==>
                 ps[boss := ps[boss].(isBoss := true)][i] == InitialPlayer(roles, choice, draws, i)
  {
    MafiaIdsSpec(roles);
    var boss := Shuffle(MafiaIds(roles), draws)[0];
    assert boss in multiset(MafiaIds(roles));
    assert boss in MafiaIds(roles);
    var crowned := ps[boss := ps[boss].(isBoss := true)];
    forall i | 0 <= i < |roles| ensures crowned[i] == InitialPlayer(roles, choice, draws, i) {
      assert !ps[i].isBoss;
      assert crowned[i] == ps[i].(isBoss := i == boss);
    }
  }

  /** When the mafia do not fill every seat, the civilian slot count does not
      wrap and the deal fills exactly the seats. */
  lemma SlotsWithoutWrap(n: U32, modifier: nat)
    requires modifier > 0
    ensures n / modifier <= n
    ensures n > n / modifier ==> n / modifier + 1 + (n - n / modifier - 1) % U32Modulus == n
  {
    var q := n / modifier;
    assert q * modifier + n % modifier == n;
    AtLeastOnce(q, modifier);
    if n > q {
      var x := n - q - 1;
      assert 0 <= x < U32Modulus;
      assert x % U32Modulus == x;
    }
  }

  lemma AtLeastOnce(q: nat, k: nat)
    requires k > 0
    ensures q <= q * k
  {
    var d: nat := k - 1;
    assert q * k == q + q * d;
  }

  /** The mafia's part of the deal: the bull first (when there is room for
      it), then plain mafia. */
  lemma MafiaDeal(mafia: seq<Role>, draws: seq<nat>)
    requires IsDraws(draws, |MafiaRoles|)
    requires forall i :: 0 <= i < |mafia| ==> mafia[i] == DealtAt(Shuffle(MafiaRoles, draws), Mafia, i)
    ensures multiset(mafia)[Bull] == if |mafia| > 0 then 1 else 0
    ensures multiset(mafia)[Bull] + multiset(mafia)[Mafia] == |mafia|
    ensures forall r :: TeamOf(r) != MafiaTeam ==> multiset(mafia)[r] == 0
  {
    var bull := Shuffle(MafiaRoles, draws);
    assert bull[0] in multiset(bull);
    assert bull == [Bull];
    LeadThenPad(mafia, Bull, Mafia);
  }

  /** A list that is one lead role followed by padding holds the lead once,
      and nothing but the two. */
  lemma {:induction false} LeadThenPad(q: seq<Role>, lead: Role, pad: Role)
    requires lead != pad
    requires forall i :: 0 <= i < |q| ==> q[i] == if i == 0 then lead else pad
    ensures multiset(q)[lead] == if |q| > 0 then 1 else 0
    ensures multiset(q)[lead] + multiset(q)[pad] == |q|
    ensures forall r :: r != lead && r != pad ==> multiset(q)[r] == 0
  {
    if q != [] {
      var n := |q| - 1;
      assert q == q[..n] + [q[n]];
      LeadThenPad(q[..n], lead, pad);
    }
  }

  /** The civilians' part of the deal: the first slots take the special
      civilians, each at most once and each exactly once when there are at
      least as many slots as specials; the rest are plain civilians, and no
      one is from another team. */
  lemma CivilianDeal(civilians: seq<Role>, specials: seq<Role>)
    requires multiset(specials) == multiset(CivilianRoles)
    requires forall i :: 0 <= i < |civilians| ==> civilians[i] == DealtAt(specials, Civilian, i)
    ensures forall r :: TeamOf(r) != CivilianTeam ==> multiset(civilians)[r] == 0
    ensures forall r :: r in CivilianRoles ==> multiset(civilians)[r] <= 1
    ensures |civilians| >= |CivilianRoles| ==> forall r :: r in CivilianRoles ==> multiset(civilians)[r] == 1
    ensures multiset(civilians)[Civilian] ==
              |civilians| - (if |civilians| < |CivilianRoles| then |civilians| else |CivilianRoles|)
  {
    PlainCivilians(civilians, specials);
    forall i | 0 <= i < |specials| ensures TeamOf(specials[i]) == CivilianTeam {
      assert specials[i] in multiset(CivilianRoles);
    }
    forall r | TeamOf(r) != CivilianTeam ensures multiset(civilians)[r] == 0 {
      assert r !in civilians;
    }
    forall r | r in CivilianRoles ensures multiset(civilians)[r] <= 1 {
      SpecialAtMostOnce(civilians, specials, r);
    }
    if |civilians| >= |CivilianRoles| {
      forall r | r in CivilianRoles ensures multiset(civilians)[r] == 1 {
        SpecialOnce(civilians, specials, r);
      }
    }
  }

  /** The slots past the specials are exactly the plain civilians. */
  lemma PlainCivilians(civilians: seq<Role>, specials: seq<Role>)
    requires multiset(specials) == multiset(CivilianRoles)
    requires forall i :: 0 <= i < |civilians| ==> civilians[i] == DealtAt(specials, Civilian, i)
    ensures multiset(civilians)[Civilian] ==
              |civilians| - (if |civilians| < |CivilianRoles| then |civilians| else |CivilianRoles|)
  {
    assert |specials| == |multiset(specials)| == |CivilianRoles|;
    PaddingCount(civilians, specials, Civilian);
    var m := if |civilians| < |specials| then |civilians| else |specials|;
    assert specials == specials[..m] + specials[m..];
    assert multiset(specials)[Civilian] == 0;
  }

  /** With a slot for every special, each special is dealt exactly once. */
  lemma SpecialOnce(civilians: seq<Role>, specials: seq<Role>, r: Role)
    requires multiset(specials) == multiset(CivilianRoles) && r in CivilianRoles
    requires forall i :: 0 <= i < |civilians| ==> civilians[i] == DealtAt(specials, Civilian, i)
    requires |civilians| >= |CivilianRoles|
    ensures multiset(civilians)[r] == 1
  {
    assert |specials| == |multiset(specials)| == |CivilianRoles|;
    PrefixThenPad(civilians, specials, Civilian, r);
    assert specials[..|specials|] == specials;
    assert multiset(CivilianRoles)[r] == 1;
  }

  lemma SpecialAtMostOnce(civilians: seq<Role>, specials: seq<Role>, r: Role)
    requires multiset(specials) == multiset(CivilianRoles) && r in CivilianRoles
    requires forall i :: 0 <= i < |civilians| ==> civilians[i] == DealtAt(specials, Civilian, i)
    ensures multiset(civilians)[r] <= 1
  {
    PrefixThenPad(civilians, specials, Civilian, r);
    var used := specials[..if |civilians| < |specials| then |civilians| else |specials|];
    assert specials == used + specials[|used|..];
    assert multiset(CivilianRoles)[r] == 1;
  }

  /** Counts of the whole deal, shuffled, from the counts of its parts. */
  lemma DealCounts(mafia: seq<Role>, civilians: seq<Role>, roles: seq<Role>)
    requires multiset(roles) == multiset(mafia + [Maniac] + civilians)
    requires multiset(mafia)[Bull] + multiset(mafia)[Mafia] == |mafia|
    requires forall r :: TeamOf(r) != MafiaTeam ==> multiset(mafia)[r] == 0
    requires forall r :: TeamOf(r) != CivilianTeam ==> multiset(civilians)[r] == 0
    requires forall r :: r in CivilianRoles ==> multiset(civilians)[r] <= 1
    ensures multiset(roles)[Maniac] == 1
    ensures multiset(roles)[Bull] == multiset(mafia)[Bull]
    ensures multiset(roles)[Mafia] == multiset(mafia)[Mafia]
    ensures forall r :: r in CivilianRoles ==> multiset(roles)[r] <= 1
    ensures forall r :: TeamOf(r) == CivilianTeam ==> multiset(roles)[r] == multiset(civilians)[r]
  {
    assert multiset(mafia + [Maniac] + civilians) == multiset(mafia) + multiset{Maniac} + multiset(civilians);
    assert TeamOf(Maniac) != MafiaTeam && TeamOf(Maniac) != CivilianTeam;
    assert TeamOf(Bull) != CivilianTeam && TeamOf(Mafia) != CivilianTeam;
    forall r | TeamOf(r) == CivilianTeam ensures multiset(roles)[r] == multiset(civilians)[r] {
      assert TeamOf(r) != MafiaTeam;
    }
  }

  /** A deal from `shuffled` padded with `pad` holds a role other than the
      padding exactly as often as the part of `shuffled` it used. */
  lemma {:induction false} PrefixThenPad(q: seq<Role>, shuffled: seq<Role>, pad: Role, r: Role)
    requires r != pad
    requires forall i :: 0 <= i < |q| ==> q[i] == DealtAt(shuffled, pad, i)
    ensures multiset(q)[r] == multiset(shuffled[..if |q| < |shuffled| then |q| else |shuffled|])[r]
  {
    if q != [] {
      var n := |q| - 1;
      assert q == q[..n] + [q[n]];
      PrefixThenPad(q[..n], shuffled, pad, r);
      if n < |shuffled| {
        assert shuffled[..n + 1] == shuffled[..n] + [shuffled[n]];
      }
    }
  }
  /** The padding occurs once per slot past the used part of `shuffled`,
      plus as often as that part holds it. */
  lemma {:induction false} PaddingCount(q: seq<Role>, shuffled: seq<Role>, pad: Role)
    requires forall i :: 0 <= i < |q| ==> q[i] == DealtAt(shuffled, pad, i)
    ensures var m := if |q| < |shuffled| then |q| else |shuffled|;
            multiset(q)[pad] == |q| - m + multiset(shuffled[..m])[pad]
  {
    if q != [] {
      var n := |q| - 1;
      assert q == q[..n] + [q[n]];
      PaddingCount(q[..n], shuffled, pad);
      if n < |shuffled| {
        assert shuffled[..n + 1] == shuffled[..n] + [shuffled[n]];
      }
    }
  }



  // ---------------------------------------------------------------------------
  // Tallying the day vote

  /** The votes map after the tally: every alive id and every id voted for,
      each with the number of ballots naming it. */
  function VoteCounts(aliveIds: seq<nat>, ballots: seq<nat>): map<nat, nat> {
    map k | k in (set x | x in aliveIds) + (set x | x in ballots) :: multiset(ballots)[k]
  }

  /** k has the most votes, and every smaller key has fewer. */
  predicate IsFirstMax(votes: map<nat, nat>, k: nat) {
    k in votes && (forall j :: j in votes ==> votes[j] <= votes[k])
               && (forall j :: j in votes && j < k ==> votes[j] < votes[k])
  }

  /** The execution is determined: at most one id is the first maximum. */
  lemma FirstMaxUnique(votes: map<nat, nat>, a: nat, b: nat)
    requires IsFirstMax(votes, a) && IsFirstMax(votes, b)
    ensures a == b
  {
  }

  /** When anyone voted, the executed player received at least one vote, and
      at least as many as anyone else. */
  lemma ExecutedWasVotedFor(aliveIds: seq<nat>, ballots: seq<nat>, k: nat)
    requires ballots != [] && IsFirstMax(VoteCounts(aliveIds, ballots), k)
    ensures multiset(ballots)[k] > 0
    ensures forall j :: multiset(ballots)[j] <= multiset(ballots)[k]
  {
    var votes := VoteCounts(aliveIds, ballots);
    assert ballots[0] in multiset(ballots);
    assert ballots[0] in votes;
    forall j ensures multiset(ballots)[j] <= multiset(ballots)[k] {
      if j in ballots {
        assert j in votes;
      }
    }
  }

  /** The two tally loops of day_vote: votes[id] = 0 for every alive id, then
      votes[value]++ for every ballot. */
  method Tally(aliveIds: seq<nat>, ballots: seq<nat>) returns (votes: map<nat, nat>)
    ensures votes == VoteCounts(aliveIds, ballots)
  {
    votes := map[];
    var i := 0;
    while i < |aliveIds|
      invariant 0 <= i <= |aliveIds|
      invariant forall k :: k in votes <==> k in aliveIds[..i]
      invariant forall k :: k in votes ==> votes[k] == 0
    {
      assert aliveIds[..i + 1] == aliveIds[..i] + [aliveIds[i]];
      votes := votes[aliveIds[i] := 0];
      i := i + 1;
    }
    assert aliveIds[..i] == aliveIds;
    var j := 0;
    while j < |ballots|
      invariant 0 <= j <= |ballots|
      invariant forall k :: k in votes <==> k in aliveIds || k in ballots[..j]
      invariant forall k :: k in votes ==> votes[k] == multiset(ballots[..j])[k]
    {
      var b := ballots[j];
      assert ballots[..j + 1] == ballots[..j] + [b];
      votes := votes[b := (if b in votes then votes[b] else 0) + 1];
      j := j + 1;
    }
    assert ballots[..j] == ballots;
    TallyIsVoteCounts(votes, aliveIds, ballots);
  }

  lemma TallyIsVoteCounts(votes: map<nat, nat>, aliveIds: seq<nat>, ballots: seq<nat>)
    requires forall k :: k in votes <==> k in aliveIds || k in ballots
    requires forall k :: k in votes ==> votes[k] == multiset(ballots)[k]
    ensures votes == VoteCounts(aliveIds, ballots)
  {
    var counts := VoteCounts(aliveIds, ballots);
    assert votes.Keys == counts.Keys;
  }

  /** The ballots of voters whose vote never ran: each the 0 its value
      starts at. */
  function Zeros(n: nat): (b: seq<nat>)
    ensures |b| == n && forall k :: 0 <= k < n ==> b[k] == 0
  {
    seq(n, _ => 0)
  }

  lemma {:induction false} ZerosCount(n: nat)
    ensures multiset(Zeros(n))[0] == n
    ensures forall j :: j != 0 ==> multiset(Zeros(n))[j] == 0
  {
    if n > 0 {
      ZerosCount(n - 1);
      assert Zeros(n) == Zeros(n - 1) + [0];
    }
  }

  /** With every ballot 0, seat 0 holds all the votes and is executed. */
  lemma SuspendedVotesExecuteSeatZero(aliveIds: seq<nat>)
    requires aliveIds != []
    ensures var votes := VoteCounts(aliveIds, Zeros(|aliveIds|));
            0 in votes && votes[0] == |aliveIds| && IsFirstMax(votes, 0)
  {
    ZerosCount(|aliveIds|);
    assert Zeros(|aliveIds|)[0] == 0;
  }

  /** With alive ids 1 and 2, the suspended votes execute player 0, who is not
      alive. */
  lemma DeadSeatZeroExecuted()
    ensures IsFirstMax(VoteCounts([1, 2], Zeros(2)), 0) && 0 !in [1, 2]
  {
    SuspendedVotesExecuteSeatZero([1, 2]);
  }

  /** The ballots day_vote collects when the votes run: the k-th of the
      shuffled alive players casts the ballot of its vote_ai, drawing draws[k]
      (and, a Commissar, redraws[k]) for its own copy of the alive list, or,
      a real player, answers[k]. */
  function Ballots(players: seq<Player>, voterDraws: seq<nat>, draws: seq<seq<nat>>,
                   redraws: seq<seq<nat>>, answers: seq<nat>): (b: seq<nat>)
    requires forall i :: 0 <= i < |players| ==> players[i].id == i
    requires AliveIds(players) != [] && IsDraws(voterDraws, |AliveIds(players)|)
    requires |draws| == |redraws| == |answers| == |AliveIds(players)|
    requires forall k :: 0 <= k < |draws| ==>
               IsDraws(draws[k], |AliveIds(players)|) && IsDraws(redraws[k], |AliveIds(players)|)
    ensures |b| == |AliveIds(players)|
    ensures forall k :: 0 <= k < |b| ==> b[k] in AliveIds(players) || b[k] == answers[k]
  {
    var alive := AliveIds(players);
    var voters := Shuffle(alive, voterDraws);
    VotersAreSeats(players, voters);
    seq(|voters|, k requires 0 <= k < |voters| =>
      var p := players[voters[k]];
      if p.isRealPlayer then answers[k] else Ballot(p, alive, draws[k], redraws[k]))
  }

  /** The shuffled alive ids are seats. */
  lemma VotersAreSeats(players: seq<Player>, voters: seq<nat>)
    requires forall i :: 0 <= i < |players| ==> players[i].id == i
    requires multiset(voters) == multiset(AliveIds(players))
    ensures forall k :: 0 <= k < |voters| ==> voters[k] < |players|
  {
    forall k | 0 <= k < |voters| ensures voters[k] < |players| {
      var x := voters[k];
      assert x in multiset(AliveIds(players));
      AliveIdIsSeat(players, x);
    }
  }

  lemma AliveIdIsSeat(players: seq<Player>, x: nat)
    requires forall i :: 0 <= i < |players| ==> players[i].id == i
    requires x in AliveIds(players)
    ensures x < |players| && players[x].alive
  {
    AliveIdsSpec(players);
    var i :| 0 <= i < |players| && players[i].alive && players[i].id == x;
  }

  /** Every ballot is an alive id or an answer, so a seat. */
  lemma BallotsAreSeats(players: seq<Player>, ballots: seq<nat>, answers: seq<nat>)
    requires forall i :: 0 <= i < |players| ==> players[i].id == i
    requires |ballots| == |answers| && forall k :: 0 <= k < |answers| ==> answers[k] < |players|
    requires forall k :: 0 <= k < |ballots| ==> ballots[k] in AliveIds(players) || ballots[k] == answers[k]
    ensures forall k :: 0 <= k < |ballots| ==> ballots[k] < |players|
  {
    AliveIdsSpec(players);
  }

  /** std::max_element over the ordered map with "fewer votes" as the order:
      the keys are visited in increasing order and only a strictly larger
      count replaces the current maximum. */
  method FirstMax(votes: map<nat, nat>, bound: nat) returns (best: nat)
    requires votes != map[] && forall k :: k in votes ==> k < bound
    ensures best < bound && IsFirstMax(votes, best)
  {
    var found := false;
    best := 0;
    var k := 0;
    while k < bound
      invariant 0 <= k <= bound
      invariant found <==> exists j :: 0 <= j < k && j in votes
      invariant found ==> best < k && best in votes
                          && (forall j :: j in votes && j < k ==> votes[j] <= votes[best])
                          && (forall j :: j in votes && j < best ==> votes[j] < votes[best])
    {
      if k in votes && (!found || votes[best] < votes[k]) {
        best, found := k, true;
      }
      k := k + 1;
    }
    var some :| some in votes;
    assert some < bound;
  }

  // ---------------------------------------------------------------------------
  // The end of the game

  datatype Status = Draw | CivilianWin | ManiacWin | MafiaWin | Continue

  /** The string game_status returns. */
  function StatusName(s: Status): string {
    match s
    case Draw => "draw"
    case CivilianWin => "civilian"
    case ManiacWin => "maniac"
    case MafiaWin => "mafia"
    case Continue => "continue"
  }

  /** Every alive player is on exactly one team. */
  lemma {:induction false} AliveSplit(players: seq<Player>)
    ensures |AliveIds(players)| == |AliveSeats(players, CivilianTeam)| + |AliveSeats(players, MafiaTeam)|
                                   + |AliveSeats(players, ManiacTeam)|
  {
    if players != [] {
      AliveSplit(players[..|players| - 1]);
    }
  }

  /** game_status. */
  function GameStatus(players: seq<Player>): (s: Status)
    ensures s == Draw <==> |AliveIds(players)| == 0
    ensures s == CivilianWin <==> |AliveIds(players)| > 0 && |AliveSeats(players, MafiaTeam)| == 0
                                  && |AliveSeats(players, ManiacTeam)| == 0
    ensures s == ManiacWin <==> |AliveSeats(players, MafiaTeam)| == 0 && |AliveSeats(players, ManiacTeam)| > 0
                                && |AliveIds(players)| < 3
    ensures s == MafiaWin <==> |AliveSeats(players, MafiaTeam)| > 0 && |AliveSeats(players, ManiacTeam)| == 0
                               && |AliveIds(players)| <= 2 * |AliveSeats(players, MafiaTeam)|
  {
    var alives := AliveIds(players);
    var mafia := AliveSeats(players, MafiaTeam);
    var maniac := AliveSeats(players, ManiacTeam);
    AliveSplit(players);
    if alives == [] then Draw
    else if mafia == [] then
      if maniac == [] then CivilianWin
      else if |alives| >= 3 then Continue
      else ManiacWin
    else if maniac == [] then
      if |alives| <= |mafia| * 2 then MafiaWin else Continue
    else Continue
  }

  /** What each outcome means for the teams: a civilian win leaves only
      civilians, the maniac wins alone or against one other, the mafia win
      once they are at least as many as the civilians, and, with at most one
      maniac (as dealt), a game that continues still has two teams in it. */
  lemma StatusMeaning(players: seq<Player>)
    ensures var civ := |AliveSeats(players, CivilianTeam)|;
            var maf := |AliveSeats(players, MafiaTeam)|;
            var man := |AliveSeats(players, ManiacTeam)|;
            && (GameStatus(players) == CivilianWin ==> civ > 0 && maf == 0 && man == 0)
            && (GameStatus(players) == ManiacWin ==> man > 0 && maf == 0 && civ + man < 3)
            && (GameStatus(players) == MafiaWin ==> maf > 0 && man == 0 && civ <= maf)
            && (GameStatus(players) == Continue && man <= 1 ==>
                  (civ > 0 && maf > 0) || (civ > 0 && man > 0) || (maf > 0 && man > 0))
  {
    AliveSplit(players);
  }
}
