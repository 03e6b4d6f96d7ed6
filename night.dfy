// The night: what the computer-controlled players do (act_ai), recorded in
// a NightActions table, and the steps that resolve the table into deaths.

module NightRules {

  import opened Common
  import opened GameRoles

  /** What everyone did in one night: who attacks whom (killers[v] lists the
      attackers of v) and the actions of the special roles. */
  class NightActions {
    const playersNum: nat
    var doctorsAction: bool
    var doctorsChoice: nat
    var commissarAction: bool
    var commissarChoice: nat
    var journalistAction: bool
    var journalistChoice: (nat, nat)
    var samuraiAction: bool
    var samuraiChoice: nat
    var killers: seq<seq<nat>>

    /** One empty attacker list per player and no actions; the choices are
        left unset, as in the source. */
    constructor (playersNum: nat)
      ensures this.playersNum == playersNum && |killers| == playersNum
      ensures forall v :: 0 <= v < |killers| ==> killers[v] == []
      ensures !doctorsAction && !commissarAction && !journalistAction && !samuraiAction
    {
      this.playersNum := playersNum;
      killers := seq(playersNum, _ => []);
      new;
      Reset();
    }

    /** Empties every attacker list and clears the four action flags. */
    method Reset()
      modifies this`killers, this`doctorsAction, this`commissarAction,
               this`journalistAction, this`samuraiAction
      ensures |killers| == old(|killers|)
      ensures forall v :: 0 <= v < |killers| ==> killers[v] == []
      ensures !doctorsAction && !commissarAction && !journalistAction && !samuraiAction
    {
      var i := 0;
      while i < |killers|
        invariant 0 <= i <= |killers| == old(|killers|)
        invariant forall v :: 0 <= v < i ==> killers[v] == []
      {
        killers := killers[i := []];
        i := i + 1;
      }
      commissarAction, doctorsAction, journalistAction, samuraiAction := false, false, false, false;
    }

    /** killers[target].push_back(killer). */
    method AddKiller(target: nat, killer: nat)
      requires target < |killers|
      modifies this`killers
      ensures killers == old(killers)[target := old(killers[target]) + [killer]]
    {
      killers := killers[target := killers[target] + [killer]];
    }
  }

  // ---------------------------------------------------------------------------
  // Night actions of computer-controlled players. Each act_ai takes the
  // acting player's state and returns it as the action leaves it; aliveIds is
  // the alive list night_act builds (every actor shuffles its own copy).

  /** Doctor::act_ai: heals the first shuffled alive id other than the one
      healed last time, and remembers it; if every alive id is the last one
      healed, does nothing. */
  method DoctorActAi(p: Player, aliveIds: seq<nat>, draws: seq<nat>, na: NightActions)
    returns (q: Player)
    requires IsDraws(draws, |aliveIds|)
    modifies na`doctorsAction, na`doctorsChoice
    ensures match FirstOther(aliveIds, p.lastHeal, draws)
            case Some(c) => na.doctorsAction && na.doctorsChoice == c && q == p.(lastHeal := c)
            case None => q == p && na.doctorsAction == old(na.doctorsAction)
                         && na.doctorsChoice == old(na.doctorsChoice)
  {
    var order := Shuffle(aliveIds, draws);
    var i := 0;
    while i < |order|
      invariant 0 <= i <= |order| && forall j :: 0 <= j < i ==> order[j] == p.lastHeal
      invariant na.doctorsAction == old(na.doctorsAction) && na.doctorsChoice == old(na.doctorsChoice)
    {
      if order[i] != p.lastHeal {
        FirstWhereAt(order, Other(p.lastHeal), i);
        na.doctorsAction := true;
        na.doctorsChoice := order[i];
        q := p.(lastHeal := order[i]);
        return;
      }
      i := i + 1;
    }
    FirstWhereAt(order, Other(p.lastHeal), i);
    q := p;
  }

  /** The largest alive id (std::max_element). */
  function MaxId(s: seq<nat>): (m: nat)
    requires s != []
    ensures m in s && forall i :: 0 <= i < |s| ==> s[i] <= m
  {
    if |s| == 1 then s[0]
    else
      var rest := MaxId(s[1..]);
      if s[0] < rest then rest else s[0]
  }

  function Range(n: nat): (r: seq<nat>)
    ensures |r| == n && forall i :: 0 <= i < n ==> r[i] == i
  {
    seq(n, i => i)
  }

  /** The id the Commissar checks: the smallest id up to maxId it has not
      checked yet. */
  function CommissarCheck(alreadyChecked: seq<nat>, maxId: nat): (c: Option<nat>)
    ensures c.Some? ==> c.value <= maxId && c.value !in alreadyChecked
                        && forall j :: 0 <= j < c.value ==> j in alreadyChecked
    ensures c.None? <==> forall j :: 0 <= j <= maxId ==> j in alreadyChecked
  {
    var ids := Range(maxId + 1);
    var k := FirstWhere(ids, Outside(alreadyChecked));
    RangeSearch(alreadyChecked, maxId);
    if k < |ids| then Some(k) else None
  }

  lemma RangeSearch(alreadyChecked: seq<nat>, maxId: nat)
    ensures var k := FirstWhere(Range(maxId + 1), Outside(alreadyChecked));
            && (forall j :: 0 <= j < k ==> j in alreadyChecked)
            && (k <= maxId ==> k !in alreadyChecked)
  {
    var ids := Range(maxId + 1);
    var k := FirstWhere(ids, Outside(alreadyChecked));
    forall j | 0 <= j < k ensures j in alreadyChecked {
      assert ids[j] == j;
    }
    if k <= maxId {
      assert ids[k] == k;
    }
  }

  /** What a check of seat c whose team is t teaches the Commissar. */
  function Learn(p: Player, c: nat, t: Team): Player {
    p.(alreadyChecked := p.alreadyChecked + [c],
       knownMafia := if t == MafiaTeam then p.knownMafia + [c] else p.knownMafia,
       knownCivilian := if t == MafiaTeam then p.knownCivilian else p.knownCivilian + [c])
  }

  /** Everything the Commissar believes about the seating is true. */
  predicate KnowledgeSound(p: Player, players: seq<Player>) {
    (forall k :: k in p.knownMafia ==> k < |players| && TeamOf(players[k].role) == MafiaTeam) &&
    (forall k :: k in p.knownCivilian ==> k < |players| && TeamOf(players[k].role) != MafiaTeam)
  }

  /** Commissar::act_ai: shoots the first known mafioso still alive;
      otherwise checks the smallest id up to the largest alive id that it has
      not checked yet, and files it by the team of that seat. Without a known
      mafioso alive the source reads the largest element of the alive list,
      so that list must not be empty. */
  method CommissarActAi(p: Player, aliveIds: seq<nat>, players: seq<Player>, na: NightActions)
    returns (q: Player)
    requires forall i :: 0 <= i < |aliveIds| ==> aliveIds[i] < |na.killers|
    requires FirstKnownAlive(p.knownMafia, aliveIds).None? ==> aliveIds != [] && MaxId(aliveIds) < |players|
    modifies na`killers, na`commissarAction, na`commissarChoice
    ensures match FirstKnownAlive(p.knownMafia, aliveIds)
            case Some(c) =>
              && c < |old(na.killers)|
              && na.killers == old(na.killers)[c := old(na.killers)[c] + [p.id]] && q == p
              && na.commissarAction == old(na.commissarAction) && na.commissarChoice == old(na.commissarChoice)
            case None =>
              && na.killers == old(na.killers)
              && match CommissarCheck(p.alreadyChecked, MaxId(aliveIds))
                 case Some(c) =>
                   na.commissarAction && na.commissarChoice == c && q == Learn(p, c, TeamOf(players[c].role))
                 case None =>
                   q == p && na.commissarAction == old(na.commissarAction)
                   && na.commissarChoice == old(na.commissarChoice)
    ensures KnowledgeSound(p, players) ==> KnowledgeSound(q, players)
  {
    var shot := CommissarShoot(p, aliveIds, na);
    if shot {
      q := p;
    } else {
      q := CommissarInspect(p, aliveIds, players, na);
    }
  }

  /** The first loop of Commissar::act_ai: shoot the first known mafioso
      still alive, if any. */
  method CommissarShoot(p: Player, aliveIds: seq<nat>, na: NightActions) returns (shot: bool)
    requires forall i :: 0 <= i < |aliveIds| ==> aliveIds[i] < |na.killers|
    modifies na`killers
    ensures shot <==> FirstKnownAlive(p.knownMafia, aliveIds).Some?
    ensures shot ==> var c := FirstKnownAlive(p.knownMafia, aliveIds).value;
                     c < |old(na.killers)| && na.killers == old(na.killers)[c := old(na.killers)[c] + [p.id]]
    ensures !shot ==> na.killers == old(na.killers)
  {
    var i := 0;
    while i < |p.knownMafia|
      invariant 0 <= i <= |p.knownMafia| && forall j :: 0 <= j < i ==> p.knownMafia[j] !in aliveIds
    {
      if p.knownMafia[i] in aliveIds {
        FirstWhereAt(p.knownMafia, Inside(aliveIds), i);
        var c := p.knownMafia[i];
        na.AddKiller(c, p.id);
        return true;
      }
      i := i + 1;
    }
    FirstWhereAt(p.knownMafia, Inside(aliveIds), i);
    return false;
  }

  /** The second loop of Commissar::act_ai: check the smallest unchecked id
      up to the largest alive id. */
  method CommissarInspect(p: Player, aliveIds: seq<nat>, players: seq<Player>, na: NightActions)
    returns (q: Player)
    requires aliveIds != [] && MaxId(aliveIds) < |players|
    modifies na`commissarAction, na`commissarChoice
    ensures match CommissarCheck(p.alreadyChecked, MaxId(aliveIds))
            case Some(c) =>
              na.commissarAction && na.commissarChoice == c && q == Learn(p, c, TeamOf(players[c].role))
            case None =>
              q == p && na.commissarAction == old(na.commissarAction)
              && na.commissarChoice == old(na.commissarChoice)
    ensures KnowledgeSound(p, players) ==> KnowledgeSound(q, players)
  {
    var maxId := MaxId(aliveIds);
    var ids := Range(maxId + 1);
    var c := 0;
    while c <= maxId
      invariant 0 <= c <= maxId + 1 && forall j :: 0 <= j < c ==> ids[j] in p.alreadyChecked
    {
      if c !in p.alreadyChecked {
        FirstWhereAt(ids, Outside(p.alreadyChecked), c);
        q := Learn(p, c, TeamOf(players[c].role));
        na.commissarAction := true;
        na.commissarChoice := c;
        return;
      }
      c := c + 1;
    }
    FirstWhereAt(ids, Outside(p.alreadyChecked), c);
    q := p;
  }

  /** Mafia::act_ai (also the Bull's): the boss attacks the first shuffled
      alive id that is not a known mafioso; everyone else does nothing. */
  method MafiaActAi(p: Player, aliveIds: seq<nat>, draws: seq<nat>, na: NightActions)
    requires IsDraws(draws, |aliveIds|)
    requires forall i :: 0 <= i < |aliveIds| ==> aliveIds[i] < |na.killers|
    modifies na`killers
    ensures if p.isBoss && FirstOutside(aliveIds, p.knownMafia, draws).Some?
            then var c := FirstOutside(aliveIds, p.knownMafia, draws).value;
                 c < |old(na.killers)| && na.killers == old(na.killers)[c := old(na.killers)[c] + [p.id]]
            else na.killers == old(na.killers)
  {
    if p.isBoss {
      var order := Shuffle(aliveIds, draws);
      SameElements(order, aliveIds);
      var i := 0;
      while i < |order|
        invariant 0 <= i <= |order| && forall j :: 0 <= j < i ==> order[j] in p.knownMafia
      {
        if order[i] !in p.knownMafia {
          FirstWhereAt(order, Outside(p.knownMafia), i);
          var c := order[i];
          assert c in aliveIds;
          na.AddKiller(c, p.id);
          return;
        }
        i := i + 1;
      }
      FirstWhereAt(order, Outside(p.knownMafia), i);
    }
  }

  /** Maniac::act_ai: attacks the first shuffled alive id other than its
      own. */
  method ManiacActAi(p: Player, aliveIds: seq<nat>, draws: seq<nat>, na: NightActions)
    requires IsDraws(draws, |aliveIds|)
    requires forall i :: 0 <= i < |aliveIds| ==> aliveIds[i] < |na.killers|
    modifies na`killers
    ensures match FirstOther(aliveIds, p.id, draws)
            case Some(c) => c < |old(na.killers)| && na.killers == old(na.killers)[c := old(na.killers)[c] + [p.id]]
            case None => na.killers == old(na.killers)
  {
    var order := Shuffle(aliveIds, draws);
    SameElements(order, aliveIds);
    var i := 0;
    while i < |order|
      invariant 0 <= i <= |order| && forall j :: 0 <= j < i ==> order[j] == p.id
    {
      if order[i] != p.id {
        FirstWhereAt(order, Other(p.id), i);
        var c := order[i];
        assert c in aliveIds;
        na.AddKiller(c, p.id);
        return;
      }
      i := i + 1;
    }
    FirstWhereAt(order, Other(p.id), i);
  }

  /** Samurai::act_ai as written: the loop over the shuffled alive list sets
      the guard once per position and stores the position, so the guard is
      on exactly when someone is alive, and it guards position |aliveIds| - 1
      whatever the shuffle (the shuffle is of a copy and so not modelled). */
  method SamuraiActAi(aliveIds: seq<nat>, na: NightActions)
    modifies na`samuraiAction, na`samuraiChoice
    ensures aliveIds != [] ==> na.samuraiAction && na.samuraiChoice == |aliveIds| - 1
    ensures aliveIds == [] ==> na.samuraiAction == old(na.samuraiAction)
                               && na.samuraiChoice == old(na.samuraiChoice)
  {
    var i := 0;
    while i < |aliveIds|
      invariant 0 <= i <= |aliveIds|
      invariant i == 0 ==> na.samuraiAction == old(na.samuraiAction)
                           && na.samuraiChoice == old(na.samuraiChoice)
      invariant i > 0 ==> na.samuraiAction && na.samuraiChoice == i - 1
    {
      na.samuraiAction := true;
      na.samuraiChoice := i;
      i := i + 1;
    }
  }

  /** With alive ids 3 and 7 the Samurai guards player 1, who is not alive. */
  method SamuraiGuardsAPosition(na: NightActions)
    modifies na`samuraiAction, na`samuraiChoice
    ensures na.samuraiAction && na.samuraiChoice == 1 && na.samuraiChoice !in [3, 7]
  {
    SamuraiActAi([3, 7], na);
  }

  /** Samurai::act_ai with the position read through the list
      (samurai_choice = alive_ids[i]): the guard is on exactly when someone
      is alive, and it guards an alive player, the last of the shuffled
      list. */
  method SamuraiActAiIntended(aliveIds: seq<nat>, draws: seq<nat>, na: NightActions)
    requires IsDraws(draws, |aliveIds|)
    modifies na`samuraiAction, na`samuraiChoice
    ensures aliveIds != [] ==> na.samuraiAction && na.samuraiChoice in aliveIds
                               && na.samuraiChoice == Shuffle(aliveIds, draws)[|aliveIds| - 1]
    ensures aliveIds == [] ==> na.samuraiAction == old(na.samuraiAction)
                               && na.samuraiChoice == old(na.samuraiChoice)
  {
    var order := Shuffle(aliveIds, draws);
    SameElements(order, aliveIds);
    var i := 0;
    while i < |order|
      invariant 0 <= i <= |order|
      invariant i == 0 ==> na.samuraiAction == old(na.samuraiAction)
                           && na.samuraiChoice == old(na.samuraiChoice)
      invariant i > 0 ==> na.samuraiAction && na.samuraiChoice == order[i - 1]
    {
      na.samuraiAction := true;
      na.samuraiChoice := order[i];
      i := i + 1;
    }
  }

  /** The pairs Journalist::act_ai as written accepts: positions i < j of
      an n-element list, neither equal to the journalist's id. */
  predicate JournalistPair(n: nat, self: nat, i: nat, j: nat) {
    i < j < n && i != self && j != self
  }

  /** The order of the two nested loops: (i, j) is visited no later than c. */
  predicate VisitedBy(i: nat, j: nat, c: (nat, nat)) {
    i < c.0 || (i == c.0 && j <= c.1)
  }

  /** Journalist::act_ai as written: the loops run over positions and
      compare the positions, not the ids at them, with the journalist's id,
      so the pair recorded is the last pair of positions the loops accept
      (the shuffle, of a copy, does not matter). The outer bound size() - 1
      is unsigned: on an empty list it wraps to SIZE_MAX, and the loop runs
      with no effect. */
  method JournalistActAi(aliveIds: seq<nat>, self: nat, na: NightActions)
    modifies na`journalistAction, na`journalistChoice
    ensures (exists i: nat, j: nat :: JournalistPair(|aliveIds|, self, i, j)) ==>
              && na.journalistAction
              && JournalistPair(|aliveIds|, self, na.journalistChoice.0, na.journalistChoice.1)
              && forall i: nat, j: nat :: JournalistPair(|aliveIds|, self, i, j) ==> VisitedBy(i, j, na.journalistChoice)
    ensures (forall i: nat, j: nat :: !JournalistPair(|aliveIds|, self, i, j)) ==>
              na.journalistAction == old(na.journalistAction) && na.journalistChoice == old(na.journalistChoice)
  {
    var n := |aliveIds|;
    var bound := if n == 0 then SizeMax else n - 1;
    ghost var found := false;
    var i := 0;
    while i < bound
      invariant 0 <= i <= bound
      invariant !found ==> na.journalistAction == old(na.journalistAction)
                           && na.journalistChoice == old(na.journalistChoice)
      invariant !found ==> forall a: nat, b: nat :: JournalistPair(n, self, a, b) ==> a >= i
      invariant found ==> na.journalistAction && JournalistPair(n, self, na.journalistChoice.0, na.journalistChoice.1)
      invariant found ==> forall a: nat, b: nat :: JournalistPair(n, self, a, b) && a < i ==> VisitedBy(a, b, na.journalistChoice)
    {
      var j := i + 1;
      while j < n
        invariant i + 1 <= j && (j <= n || j == i + 1)
        invariant !found ==> na.journalistAction == old(na.journalistAction)
                             && na.journalistChoice == old(na.journalistChoice)
        invariant !found ==> forall a: nat, b: nat :: JournalistPair(n, self, a, b) ==> a > i || (a == i && b >= j)
        invariant found ==> na.journalistAction && JournalistPair(n, self, na.journalistChoice.0, na.journalistChoice.1)
        invariant found ==> forall a: nat, b: nat :: JournalistPair(n, self, a, b) && (a < i || (a == i && b < j)) ==>
                              VisitedBy(a, b, na.journalistChoice)
      {
        if i != self && j != self {
          na.journalistAction := true;
          na.journalistChoice := (i, j);
          found := true;
        }
        j := j + 1;
      }
      i := i + 1;
    }
  }

  /** Journalist 0 with alive ids 0, 4 and 9 checks the pair (1, 2): two
      positions, neither of them an alive id. */
  method JournalistChecksPositions(na: NightActions)
    modifies na`journalistAction, na`journalistChoice
    ensures na.journalistAction && na.journalistChoice == (1, 2)
    ensures na.journalistChoice.0 !in [0, 4, 9] && na.journalistChoice.1 !in [0, 4, 9]
  {
    assert JournalistPair(3, 0, 1, 2);
    JournalistActAi([0, 4, 9], 0, na);
  }

  /** Every entry occurs at most once. */
  ghost predicate Distinct(s: seq<nat>) {
    forall x :: multiset(s)[x] <= 1
  }

  lemma DistinctAt(s: seq<nat>, i: nat, j: nat)
    requires Distinct(s) && i < j < |s|
    ensures s[i] != s[j]
  {
    assert s == s[..j] + [s[j]] + s[j + 1..];
    assert s[..j][i] == s[i];
    assert s[i] in multiset(s[..j]);
    assert multiset(s) == multiset(s[..j]) + multiset{s[j]} + multiset(s[j + 1..]);
    assert multiset(s)[s[j]] >= multiset(s[..j])[s[j]] + 1;
    assert multiset(s[..j])[s[j]] == 0;
  }

  /** The pairs of positions whose ids are not the journalist's. */
  predicate JournalistIdPair(order: seq<nat>, self: nat, i: nat, j: nat) {
    i < j < |order| && order[i] != self && order[j] != self
  }

  /** Journalist::act_ai with the ids at the positions compared and recorded
      (alive_ids[i], alive_ids[j]): when two alive players other than the
      journalist exist, it checks two of them, and two different ones when
      the alive list has no repeats. */
  method JournalistActAiIntended(aliveIds: seq<nat>, self: nat, draws: seq<nat>, na: NightActions)
    requires IsDraws(draws, |aliveIds|)
    modifies na`journalistAction, na`journalistChoice
    ensures (exists i: nat, j: nat :: JournalistIdPair(Shuffle(aliveIds, draws), self, i, j)) ==>
              && na.journalistAction
              && na.journalistChoice.0 in aliveIds && na.journalistChoice.1 in aliveIds
              && na.journalistChoice.0 != self && na.journalistChoice.1 != self
              && (Distinct(aliveIds) ==> na.journalistChoice.0 != na.journalistChoice.1)
    ensures (forall i: nat, j: nat :: !JournalistIdPair(Shuffle(aliveIds, draws), self, i, j)) ==>
              na.journalistAction == old(na.journalistAction) && na.journalistChoice == old(na.journalistChoice)
  {
    var order := Shuffle(aliveIds, draws);
    SameElements(order, aliveIds);
    ghost var distinct := Distinct(aliveIds);
    assert distinct ==> Distinct(order);
    var n := |order|;
    ghost var found, fa, fb := false, 0, 0;
    var i := 0;
    while i + 1 < n
      invariant 0 <= i && (i + 1 <= n || i == 0)
      invariant !found ==> na.journalistAction == old(na.journalistAction)
                           && na.journalistChoice == old(na.journalistChoice)
      invariant !found ==> forall a: nat, b: nat :: JournalistIdPair(order, self, a, b) ==> a >= i
      invariant found ==> na.journalistAction && na.journalistChoice.0 in order && na.journalistChoice.1 in order
                          && na.journalistChoice.0 != self && na.journalistChoice.1 != self
                          && (distinct ==> na.journalistChoice.0 != na.journalistChoice.1)
      invariant found ==> JournalistIdPair(order, self, fa, fb)
    {
      var j := i + 1;
      while j < n
        invariant i + 1 <= j <= n
        invariant !found ==> na.journalistAction == old(na.journalistAction)
                             && na.journalistChoice == old(na.journalistChoice)
        invariant !found ==> forall a: nat, b: nat :: JournalistIdPair(order, self, a, b) ==> a > i || (a == i && b >= j)
        invariant found ==> na.journalistAction && na.journalistChoice.0 in order && na.journalistChoice.1 in order
                            && na.journalistChoice.0 != self && na.journalistChoice.1 != self
                            && (distinct ==> na.journalistChoice.0 != na.journalistChoice.1)
        invariant found ==> JournalistIdPair(order, self, fa, fb)
      {
        if order[i] != self && order[j] != self {
          if distinct {
            DistinctAt(order, i, j);
          }
          na.journalistAction := true;
          na.journalistChoice := (order[i], order[j]);
          found, fa, fb := true, i, j;
        }
        j := j + 1;
      }
      i := i + 1;
    }
  }

  // ---------------------------------------------------------------------------
  // Resolving the night (night_act after everyone has acted), step by step,
  // on the killer lists.

  /** Every attacker named in the killer lists is a seat below n. */
  predicate IdsBelow(killers: seq<seq<nat>>, n: nat) {
    forall v, j :: 0 <= v < |killers| && 0 <= j < |killers[v]| ==> killers[v][j] < n
  }

  /** The test of the Bull's dodge loop: the attacker's seat holds a maniac. */
  function IsManiacSeat(players: seq<Player>): nat -> bool {
    (x: nat) => x < |players| && players[x].role == Maniac
  }

  /** The Bull dodges the maniac: the first maniac among the Bull's attackers
      is struck off its list; every other attacker stays. */
  function BullStep(killers: seq<seq<nat>>, players: seq<Player>, bullId: nat): (r: seq<seq<nat>>)
    requires bullId < |killers|
    ensures |r| == |killers| && forall v :: 0 <= v < |r| && v != bullId ==> r[v] == killers[v]
    ensures forall x :: !IsManiacSeat(players)(x) ==> multiset(r[bullId])[x] == multiset(killers[bullId])[x]
    ensures (exists j :: 0 <= j < |killers[bullId]| && IsManiacSeat(players)(killers[bullId][j]))
            ==> |r[bullId]| + 1 == |killers[bullId]|
    ensures (forall j :: 0 <= j < |killers[bullId]| ==> !IsManiacSeat(players)(killers[bullId][j]))
            ==> r == killers
    ensures forall x :: x in r[bullId] ==> x in killers[bullId]
  {
    var list := killers[bullId];
    var k := FirstWhere(list, IsManiacSeat(players));
    FirstWhereOverShuffle(list, list, IsManiacSeat(players));
    if k < |list| then
      var rest := list[..k] + list[k + 1..];
      assert list == list[..k] + [list[k]] + list[k + 1..];
      assert multiset(list) == multiset(rest) + multiset{list[k]};
      killers[bullId := rest]
    else
      killers
  }

  /** The Doctor's heal: when the Doctor acted, the healed player's
      attackers are forgotten. */
  function DoctorStep(killers: seq<seq<nat>>, action: bool, choice: nat): (r: seq<seq<nat>>)
    requires action ==> choice < |killers|
    ensures |r| == |killers|
    ensures action ==> r[choice] == []
    ensures forall v :: 0 <= v < |r| && !(action && v == choice) ==> r[v] == killers[v]
  {
    if action then killers[choice := []] else killers
  }

  /** The killer lists after the dodge and the heal. Both only strike
      attackers off, so every attacker left is still a seat. */
  function Healed(killers: seq<seq<nat>>, players: seq<Player>, bullId: nat, action: bool, choice: nat)
    : (r: seq<seq<nat>>)
    requires bullId < |killers| && (action ==> choice < |killers|)
    ensures |r| == |killers|
    ensures IdsBelow(killers, |killers|) ==> IdsBelow(r, |killers|)
  {
    HealKeepsSeats(killers, players, bullId, action, choice);
    DoctorStep(BullStep(killers, players, bullId), action, choice)
  }

  lemma HealKeepsSeats(killers: seq<seq<nat>>, players: seq<Player>, bullId: nat, action: bool, choice: nat)
    requires bullId < |killers| && (action ==> choice < |killers|)
    ensures IdsBelow(killers, |killers|) ==> IdsBelow(DoctorStep(BullStep(killers, players, bullId), action, choice), |killers|)
  {
    var dodged := BullStep(killers, players, bullId);
    if IdsBelow(killers, |killers|) {
      forall v, j | 0 <= v < |dodged| && 0 <= j < |dodged[v]| ensures dodged[v][j] < |killers| {
        if v == bullId {
          assert dodged[v][j] in killers[bullId];
        }
      }
    }
  }

  /** A night with no attacker and no action resolves to the empty table. */
  lemma QuietNight(killers: seq<seq<nat>>, players: seq<Player>, bullId: nat, heal: nat,
                   guard: nat, samuraiId: nat, draws: seq<nat>)
    requires bullId < |killers| && forall v :: 0 <= v < |killers| ==> killers[v] == []
    ensures SamuraiStep(Healed(killers, players, bullId, false, heal), false, guard, samuraiId, draws) == killers
  {
  }

  /** The Samurai's guard: when the Samurai acted and the guarded player was
      attacked, the first of the shuffled attackers and the Samurai itself
      each get the Samurai as attacker, and the guarded player's attackers are
      forgotten (the list is shuffled in place, so an entry appended to it is
      forgotten too). */
  function SamuraiStep(killers: seq<seq<nat>>, action: bool, choice: nat, samuraiId: nat,
                       draws: seq<nat>): (r: seq<seq<nat>>)
    requires action ==> choice < |killers| && samuraiId < |killers|
    requires action ==> IsDraws(draws, |killers[choice]|)
    requires action ==> forall j :: 0 <= j < |killers[choice]| ==> killers[choice][j] < |killers|
    ensures |r| == |killers|
    ensures !action || killers[choice] == [] ==> r == killers
  {
    if !action || killers[choice] == [] then killers
    else
      var shuffled := Shuffle(killers[choice], draws);
      var a := shuffled[0];
      assert a in multiset(killers[choice]);
      var k1 := killers[choice := shuffled];
      var k2 := k1[a := k1[a] + [samuraiId]];
      var k3 := k2[samuraiId := k2[samuraiId] + [samuraiId]];
      k3[choice := []]
  }

  /** What the guard does when the guarded player was attacked: the first
      shuffled attacker a is one of the guarded player's attackers and gets
      the Samurai (twice when a is the Samurai), the Samurai gets itself, the
      guarded player ends with no attackers and everyone else keeps theirs. */
  lemma SamuraiStepEffect(killers: seq<seq<nat>>, choice: nat, samuraiId: nat, draws: seq<nat>)
    requires choice < |killers| && samuraiId < |killers| && killers[choice] != []
    requires IsDraws(draws, |killers[choice]|)
    requires forall j :: 0 <= j < |killers[choice]| ==> killers[choice][j] < |killers|
    ensures var r := SamuraiStep(killers, true, choice, samuraiId, draws);
            var a := Shuffle(killers[choice], draws)[0];
            && a in killers[choice]
            && r[choice] == []
            && (a != choice ==> r[a] == killers[a] + [samuraiId] + (if a == samuraiId then [samuraiId] else []))
            && (samuraiId != choice && samuraiId != a ==> r[samuraiId] == killers[samuraiId] + [samuraiId])
            && forall v :: 0 <= v < |r| && v != choice && v != a && v != samuraiId ==> r[v] == killers[v]
  {
    var a := Shuffle(killers[choice], draws)[0];
    assert a in multiset(killers[choice]);
  }

  /** A player the Doctor healed survives the night unless the Samurai's guard
      turned the Samurai's blade on them: the guard only adds attackers to
      the first attacker of the guarded player and to the Samurai. */
  lemma HealedSurvives(killers: seq<seq<nat>>, players: seq<Player>, bullId: nat,
                       heal: nat, guard: bool, choice: nat, samuraiId: nat, draws: seq<nat>)
    requires bullId < |killers| && heal < |killers|
    requires var healed := Healed(killers, players, bullId, true, heal);
             && (guard ==> choice < |killers| && samuraiId < |killers| && IsDraws(draws, |healed[choice]|))
             && (guard ==> forall j :: 0 <= j < |healed[choice]| ==> healed[choice][j] < |killers|)
             && (guard && healed[choice] != [] ==> heal != samuraiId && heal != Shuffle(healed[choice], draws)[0])
    ensures SamuraiStep(Healed(killers, players, bullId, true, heal), guard, choice, samuraiId, draws)[heal] == []
  {
    var healed := Healed(killers, players, bullId, true, heal);
    if guard && healed[choice] != [] {
      SamuraiStepEffect(healed, choice, samuraiId, draws);
    }
  }
}
