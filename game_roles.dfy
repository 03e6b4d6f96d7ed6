// The roles of the Mafia game, the state each player carries, and the choice
// rules the computer-controlled players use when voting by day.

module GameRoles {

  import opened Common

  /** std::numeric_limits<size_t>::max(): the doctor's "has healed no one yet". */
  const SizeMax: nat := 0xFFFF_FFFF_FFFF_FFFF

  datatype Role = Civilian | Commissar | Doctor | Journalist | Samurai | Mafia | Bull | Maniac

  datatype Team = CivilianTeam | MafiaTeam | ManiacTeam

  /** The role string of each player class; only the three base classes
      share their string with their team. */
  function RoleName(r: Role): (name: string)
    ensures name == TeamName(TeamOf(r)) <==> r == Civilian || r == Mafia || r == Maniac
  {
    match r
    case Civilian => "civilian"
    case Commissar => "commissar"
    case Doctor => "doctor"
    case Journalist => "journalist"
    case Samurai => "samurai"
    case Mafia => "mafia"
    case Bull => "bull"
    case Maniac => "maniac"
  }

  /** The team string each class inherits: Commissar, Doctor, Journalist and
      Samurai derive from Civilian, Bull from Mafia. */
  function TeamOf(r: Role): (t: Team)
    ensures t == MafiaTeam <==> r == Mafia || r == Bull
    ensures t == ManiacTeam <==> r == Maniac
  {
    match r
    case Mafia | Bull => MafiaTeam
    case Maniac => ManiacTeam
    case _ => CivilianTeam
  }

  function TeamName(t: Team): string {
    match t
    case CivilianTeam => "civilian"
    case MafiaTeam => "mafia"
    case ManiacTeam => "maniac"
  }

  /** The role named by a dealt role string. */
  function RoleNamed(name: string): (r: Option<Role>)
    ensures r.Some? ==> RoleName(r.value) == name
  {
    match name
    case "civilian" => Some(Civilian)
    case "commissar" => Some(Commissar)
    case "doctor" => Some(Doctor)
    case "journalist" => Some(Journalist)
    case "samurai" => Some(Samurai)
    case "mafia" => Some(Mafia)
    case "bull" => Some(Bull)
    case "maniac" => Some(Maniac)
    case _ => None
  }

  /** Every role is recovered from its name, so no two roles share a name. */
  lemma RoleNameRoundTrip(r: Role)
    ensures RoleNamed(RoleName(r)) == Some(r)
  {
  }

  /** Everything a player object holds. lastHeal is the Doctor's and
      alreadyChecked/knownCivilian are the Commissar's own fields; they stay at
      their initial values for every other role. */
  datatype Player = Player(
    id: nat,
    role: Role,
    alive: bool,
    isRealPlayer: bool,
    isBoss: bool,
    knownMafia: seq<nat>,
    lastHeal: nat,
    alreadyChecked: seq<nat>,
    knownCivilian: seq<nat>)

  /** A freshly constructed player of the given class. */
  function NewPlayer(id: nat, role: Role): (p: Player)
    ensures p.id == id && p.role == role && p.alive && !p.isRealPlayer && !p.isBoss
    ensures p.knownMafia == []
    ensures role == Doctor ==> p.lastHeal == SizeMax
    ensures role == Commissar ==> p.alreadyChecked == [id] && p.knownCivilian == [id]
  {
    Player(id, role, true, false, false, [],
           if role == Doctor then SizeMax else 0,
           if role == Commissar then [id] else [],
           if role == Commissar then [id] else [])
  }

  // ---------------------------------------------------------------------------
  // Searching a list

  /** The tests the source's search loops apply to each candidate id. */
  function Other(x: nat): nat -> bool { y => y != x }
  function Outside(xs: seq<nat>): nat -> bool { y => y !in xs }
  function Inside(xs: seq<nat>): nat -> bool { y => y in xs }

  /** Position of the first element satisfying p, or |s| when there is none. */
  function FirstWhere(s: seq<nat>, p: nat -> bool): (k: nat)
    ensures k <= |s|
    ensures forall i :: 0 <= i < k ==> !p(s[i])
    ensures k < |s| ==> p(s[k])
  {
    if s == [] then 0 else if p(s[0]) then 0 else 1 + FirstWhere(s[1..], p)
  }

  /** A left-to-right scan that stops at i (or runs off the end) finds what
      FirstWhere finds. */
  lemma {:induction false} FirstWhereAt(s: seq<nat>, p: nat -> bool, i: nat)
    requires i <= |s| && forall j :: 0 <= j < i ==> !p(s[j])
    requires i < |s| ==> p(s[i])
    ensures FirstWhere(s, p) == i
  {
    if s != [] && i > 0 {
      assert forall j :: 0 <= j < i - 1 ==> s[1..][j] == s[j + 1];
      FirstWhereAt(s[1..], p, i - 1);
    }
  }

  /** A shuffle holds the same elements as the list shuffled. */
  lemma SameElements(a: seq<nat>, b: seq<nat>)
    requires multiset(a) == multiset(b)
    ensures forall x :: x in a <==> x in b
  {
    forall x ensures x in a <==> x in b {
      assert x in a <==> x in multiset(a);
      assert x in b <==> x in multiset(b);
    }
  }

  /** The search over a shuffle finds an element exactly when the list
      shuffled has one. */
  lemma FirstWhereOverShuffle(order: seq<nat>, from: seq<nat>, p: nat -> bool)
    requires multiset(order) == multiset(from)
    ensures FirstWhere(order, p) < |order| <==> exists i :: 0 <= i < |from| && p(from[i])
  {
    SameElements(order, from);
    var k := FirstWhere(order, p);
    if k < |order| {
      assert order[k] in from;
    }
    if exists i :: 0 <= i < |from| && p(from[i]) {
      var i :| 0 <= i < |from| && p(from[i]);
      assert from[i] in order;
      var j :| 0 <= j < |order| && order[j] == from[i];
      assert p(order[j]);
    }
  }

  /** The first shuffled alive id other than x: the choice of
      Civilian::vote_ai, Maniac::vote_ai and Maniac::act_ai (x their own id)
      and of Doctor::act_ai (x the last healed id). */
  function FirstOther(aliveIds: seq<nat>, x: nat, draws: seq<nat>): (c: Option<nat>)
    requires IsDraws(draws, |aliveIds|)
    ensures c.Some? ==> c.value in aliveIds && c.value != x
    ensures c.None? <==> forall i :: 0 <= i < |aliveIds| ==> aliveIds[i] == x
  {
    var order := Shuffle(aliveIds, draws);
    var k := FirstWhere(order, Other(x));
    FirstWhereOverShuffle(order, aliveIds, Other(x));
    SameElements(order, aliveIds);
    if k < |order| then Some(order[k]) else None
  }

  /** The first shuffled alive id outside `known`: the choice of
      Mafia::vote_ai and Mafia::act_ai. */
  function FirstOutside(aliveIds: seq<nat>, known: seq<nat>, draws: seq<nat>): (c: Option<nat>)
    requires IsDraws(draws, |aliveIds|)
    ensures c.Some? ==> c.value in aliveIds && c.value !in known
    ensures c.None? <==> forall i :: 0 <= i < |aliveIds| ==> aliveIds[i] in known
  {
    var order := Shuffle(aliveIds, draws);
    var k := FirstWhere(order, Outside(known));
    FirstWhereOverShuffle(order, aliveIds, Outside(known));
    SameElements(order, aliveIds);
    if k < |order| then Some(order[k]) else None
  }

  /** The first known mafioso that is still alive: what Commissar::vote_ai
      votes for and Commissar::act_ai shoots. */
  function FirstKnownAlive(knownMafia: seq<nat>, aliveIds: seq<nat>): (c: Option<nat>)
    ensures c.Some? ==> exists k :: 0 <= k < |knownMafia| && c.value == knownMafia[k] && c.value in aliveIds
                            && forall i :: 0 <= i < k ==> knownMafia[i] !in aliveIds
    ensures c.None? <==> forall i :: 0 <= i < |knownMafia| ==> knownMafia[i] !in aliveIds
  {
    var k := FirstWhere(knownMafia, Inside(aliveIds));
    if k < |knownMafia| then Some(knownMafia[k]) else None
  }

  // ---------------------------------------------------------------------------
  // Day-time votes of computer-controlled players. `draws` selects the
  // shuffle of the alive ids each rule starts with.

  /** Civilian::vote_ai: the first shuffled alive id other than its own;
      failing that the first shuffled alive id; with no one alive, its own id. */
  function CivilianVote(aliveIds: seq<nat>, self: nat, draws: seq<nat>): (v: nat)
    requires IsDraws(draws, |aliveIds|)
    ensures aliveIds == [] ==> v == self
    ensures aliveIds != [] ==> v in aliveIds
    ensures (exists i :: 0 <= i < |aliveIds| && aliveIds[i] != self) ==> v != self
  {
    match FirstOther(aliveIds, self, draws)
    case Some(c) => c
    case None =>
      if aliveIds != [] then assert Shuffle(aliveIds, draws)[0] in multiset(aliveIds); Shuffle(aliveIds, draws)[0]
      else self
  }

  /** Commissar::vote_ai: the first id of its known-mafia list that is still
      alive; otherwise the Civilian rule, applied to the already shuffled list
      (which that rule shuffles once more). */
  function CommissarVote(aliveIds: seq<nat>, knownMafia: seq<nat>, self: nat,
                         draws: seq<nat>, redraws: seq<nat>): (v: nat)
    requires IsDraws(draws, |aliveIds|) && IsDraws(redraws, |aliveIds|)
    ensures aliveIds != [] ==> v in aliveIds
    ensures (exists i :: 0 <= i < |knownMafia| && knownMafia[i] in aliveIds) ==>
              exists k :: 0 <= k < |knownMafia| && v == knownMafia[k] && v in aliveIds
                          && forall i :: 0 <= i < k ==> knownMafia[i] !in aliveIds
    ensures (forall i :: 0 <= i < |knownMafia| ==> knownMafia[i] !in aliveIds) ==>
              v == CivilianVote(Shuffle(aliveIds, draws), self, redraws)
  {
    var order := Shuffle(aliveIds, draws);
    SameElements(order, aliveIds);
    match FirstKnownAlive(knownMafia, aliveIds)
    case Some(c) => c
    case None => CivilianVote(order, self, redraws)
  }

  /** Mafia::vote_ai (also the Bull's): the first shuffled alive id that is not
      a known mafioso; failing that the first shuffled alive id. The voter is
      alive, so the list is never empty. */
  function MafiaVote(aliveIds: seq<nat>, knownMafia: seq<nat>, draws: seq<nat>): (v: nat)
    requires aliveIds != [] && IsDraws(draws, |aliveIds|)
    ensures v in aliveIds
    ensures (exists i :: 0 <= i < |aliveIds| && aliveIds[i] !in knownMafia) ==> v !in knownMafia
  {
    match FirstOutside(aliveIds, knownMafia, draws)
    case Some(c) => c
    case None => assert Shuffle(aliveIds, draws)[0] in multiset(aliveIds); Shuffle(aliveIds, draws)[0]
  }

  /** Maniac::vote_ai: the first shuffled alive id other than its own; failing
      that the first shuffled alive id. */
  function ManiacVote(aliveIds: seq<nat>, self: nat, draws: seq<nat>): (v: nat)
    requires aliveIds != [] && IsDraws(draws, |aliveIds|)
    ensures v in aliveIds
    ensures (exists i :: 0 <= i < |aliveIds| && aliveIds[i] != self) ==> v != self
  {
    match FirstOther(aliveIds, self, draws)
    case Some(c) => c
    case None => assert Shuffle(aliveIds, draws)[0] in multiset(aliveIds); Shuffle(aliveIds, draws)[0]
  }

  /** The vote_ai a player's class dispatches to; every such ballot names an
      alive player. */
  function Ballot(p: Player, aliveIds: seq<nat>, draws: seq<nat>, redraws: seq<nat>): (v: nat)
    requires aliveIds != [] && IsDraws(draws, |aliveIds|) && IsDraws(redraws, |aliveIds|)
    ensures v in aliveIds
  {
    match p.role
    case Commissar => CommissarVote(aliveIds, p.knownMafia, p.id, draws, redraws)
    case Mafia | Bull => MafiaVote(aliveIds, p.knownMafia, draws)
    case Maniac => ManiacVote(aliveIds, p.id, draws)
    case _ => CivilianVote(aliveIds, p.id, draws)
  }
}
