/** Recruitment by role and the loop that asks every participant for a hand
    by direct message. The Discord calls are replaced by what they report:
    whether the prompt could be delivered, and which `reaction_add` events
    arrived while the bot waited for that player. */
module Collection {
  import opened Wrappers
  import opened Hands
  import opened Choices

  type RoleId = nat

  /** A guild member: id, the roles they hold, and whether the account is a bot. */
  datatype Member = Member(id: UserId, roles: seq<RoleId>, bot: bool)

  /** One `reaction_add` event: who reacted, with which emoji. */
  datatype Reaction = Reaction(user: UserId, emoji: string)

  /** What happened when the bot turned to one player: sending the prompt was
      refused (`discord.Forbidden`), or the prompt went out and these events
      were observed before the wait's deadline. */
  datatype Response = Forbidden | Window(events: seq<Reaction>)

  /** A participant holds the role and is not a bot. */
  predicate Eligible(m: Member, role: RoleId) {
    role in m.roles && !m.bot
  }

  /** The role filter: eligible guild members, in guild member order. */
  function Recruit(members: seq<Member>, role: RoleId): (ps: seq<Member>)
    ensures forall p :: p in ps <==> p in members && Eligible(p, role)
    ensures |ps| <= |members|
  {
    if |members| == 0 then []
    else
      var rest := Recruit(members[1..], role);
      assert forall p :: p in members <==> p == members[0] || p in members[1..];
      if Eligible(members[0], role) then [members[0]] + rest else rest
  }

  /** The filter keeps the order of the guild's member list: recruiting from
      two consecutive stretches of members and joining the results is the
      same as recruiting from the whole list. */
  lemma {:induction false} RecruitAppend(a: seq<Member>, b: seq<Member>, role: RoleId)
    ensures Recruit(a + b, role) == Recruit(a, role) + Recruit(b, role)
    decreases |a|
  {
    if |a| == 0 {
      assert a + b == b;
    } else {
      assert (a + b)[1..] == a[1..] + b;
      RecruitAppend(a[1..], b, role);
    }
  }

  /** The check of the wait: the event comes from the prompted player and
      carries one of the three reactions (the bot's own reactions on the
      prompt do not qualify). */
  predicate Qualifies(player: UserId, e: Reaction) {
    e.user == player && e.emoji in Reactions
  }

  /** The wait for the player's reaction: it ends at the first qualifying
      event, whose emoji is the hand; with none, it times out. */
  function FirstChoice(player: UserId, events: seq<Reaction>): Option<Hand>
    decreases |events|
  {
    if |events| == 0 then None
    else if Qualifies(player, events[0]) then Parse(events[0].emoji)
    else FirstChoice(player, events[1..])
  }

  /** The first qualifying event decides the hand; with none, the wait times
      out. */
  lemma {:induction false} FirstChoiceIsFirstQualifying(player: UserId, events: seq<Reaction>)
    ensures FirstChoice(player, events).None? <==>
      forall i :: 0 <= i < |events| ==> !Qualifies(player, events[i])
    ensures FirstChoice(player, events).Some? ==>
      exists i :: (0 <= i < |events| && Qualifies(player, events[i])
                   && events[i].emoji == Emoji(FirstChoice(player, events).value)
                   && forall j :: 0 <= j < i ==> !Qualifies(player, events[j]))
    decreases |events|
  {
    if |events| > 0 && !Qualifies(player, events[0]) {
      var r := FirstChoice(player, events[1..]);
      FirstChoiceIsFirstQualifying(player, events[1..]);
      assert forall i :: 0 <= i < |events| - 1 ==> events[1..][i] == events[i + 1];
      if r.Some? {
        var i :| 0 <= i < |events[1..]| && Qualifies(player, events[1..][i])
          && events[1..][i].emoji == Emoji(r.value)
          && forall j :: 0 <= j < i ==> !Qualifies(player, events[1..][j]);
        assert Qualifies(player, events[i + 1]);
      }
    } else if |events| > 0 {
      assert Qualifies(player, events[0]);
    }
  }

  /** The hand a player's turn yields; `None` for a refused DM or a timeout. */
  function Answer(player: UserId, resp: Response): Option<Hand> {
    match resp
    case Forbidden => None
    case Window(events) => FirstChoice(player, events)
  }

  /** Position `i` of the loop produced a hand. */
  predicate Answered(ps: seq<Member>, rs: seq<Response>, i: int)
    requires |ps| == |rs|
  {
    0 <= i < |ps| && Answer(ps[i].id, rs[i]).Some?
  }

  /** The ids of the players whose turn produced a hand. */
  function AnsweredIds(ps: seq<Member>, rs: seq<Response>): set<UserId>
    requires |ps| == |rs|
  {
    set i | 0 <= i < |ps| && Answered(ps, rs, i) :: ps[i].id
  }

  /** Turn `i` answered, and no later turn of the same player answered. */
  predicate LastAnswerOf(ps: seq<Member>, rs: seq<Response>, i: int)
    requires |ps| == |rs|
  {
    Answered(ps, rs, i)
    && forall j :: i < j < |ps| && ps[j].id == ps[i].id ==> !Answered(ps, rs, j)
  }

  /** The ids of the answering turns, in turn order. */
  function AnsweredTurnIds(ps: seq<Member>, rs: seq<Response>): seq<UserId>
    requires |ps| == |rs|
    decreases |ps|
  {
    if |ps| == 0 then []
    else
      var n := |ps| - 1;
      AnsweredTurnIds(ps[..n], rs[..n]) + (if Answer(ps[n].id, rs[n]).Some? then [ps[n].id] else [])
  }

  /** No two participants share an id (guild members never do). */
  predicate DistinctIds(ps: seq<Member>) {
    forall i, j :: 0 <= i < j < |ps| ==> ps[i].id != ps[j].id
  }

  /** The ids of a choice map, in entry order. */
  function Ids(m: ChoiceMap): (ids: seq<UserId>)
    ensures |ids| == |m| && forall i :: 0 <= i < |m| ==> ids[i] == m[i].0
  {
    seq(|m|, i requires 0 <= i < |m| => m[i].0)
  }

  /** One pass of the loop body: an answer is assigned to the player's id; a
      refused DM or a timeout leaves the map as it was. */
  function Turn(m: ChoiceMap, p: Member, r: Response): (m': ChoiceMap)
    requires DistinctKeys(m)
    ensures DistinctKeys(m')
    ensures |m'| <= |m| + 1
  {
    match Answer(p.id, r)
    case None => m
    case Some(h) => Put(m, p.id, h)
  }

  /** The collection loop over the participants, in order, starting from an
      empty `player_choices`; a refused DM or a timeout does not stop it. */
  function Collect(ps: seq<Member>, rs: seq<Response>): (m: ChoiceMap)
    requires |ps| == |rs|
    ensures DistinctKeys(m)
    ensures |m| <= |ps|
    decreases |ps|
  {
    if |ps| == 0 then []
    else
      var n := |ps| - 1;
      Turn(Collect(ps[..n], rs[..n]), ps[n], rs[n])
  }

  /** Running the loop over one more turn is one more pass of its body. */
  lemma CollectSnoc(ps: seq<Member>, rs: seq<Response>, i: int)
    requires |ps| == |rs| && 0 <= i < |ps|
    ensures Collect(ps[..i + 1], rs[..i + 1]) == Turn(Collect(ps[..i], rs[..i]), ps[i], rs[i])
  {
    assert ps[..i + 1][..i] == ps[..i] && rs[..i + 1][..i] == rs[..i];
  }

  /** The last turn of the loop changes at most the entry of its own player,
      and an answering last turn leaves its answer in the map. */
  lemma CollectLastTurn(ps: seq<Member>, rs: seq<Response>)
    requires |ps| == |rs| && |ps| > 0
    ensures var n := |ps| - 1;
      forall k :: k != ps[n].id ==> Lookup(Collect(ps, rs), k) == Lookup(Collect(ps[..n], rs[..n]), k)
    ensures var n := |ps| - 1;
      Answer(ps[n].id, rs[n]).Some? ==> Lookup(Collect(ps, rs), ps[n].id) == Answer(ps[n].id, rs[n])
    ensures var n := |ps| - 1;
      Answer(ps[n].id, rs[n]).None? ==> Collect(ps, rs) == Collect(ps[..n], rs[..n])
  {
  }

  /** The answering ids of a prefix grow by the last turn's id when that
      turn answered. */
  lemma AnsweredIdsSnoc(ps: seq<Member>, rs: seq<Response>)
    requires |ps| == |rs| && |ps| > 0
    ensures var n := |ps| - 1;
      AnsweredIds(ps, rs) == AnsweredIds(ps[..n], rs[..n])
        + (if Answer(ps[n].id, rs[n]).Some? then {ps[n].id} else {})
  {
    var n := |ps| - 1;
    assert forall i :: 0 <= i < n ==> ps[..n][i] == ps[i] && rs[..n][i] == rs[i];
    assert forall i :: Answered(ps[..n], rs[..n], i) <==> 0 <= i < n && Answered(ps, rs, i);
  }

  /** The ids recorded by the loop are exactly those of the players who
      answered: refused DMs and timeouts add nothing, and an abstention does
      not stop later players from being recorded. */
  lemma {:induction false} CollectKeys(ps: seq<Member>, rs: seq<Response>)
    requires |ps| == |rs|
    ensures Keys(Collect(ps, rs)) == AnsweredIds(ps, rs)
    decreases |ps|
  {
    if |ps| > 0 {
      var n := |ps| - 1;
      CollectKeys(ps[..n], rs[..n]);
      AnsweredIdsSnoc(ps, rs);
    }
  }

  /** One step of the provenance argument. The last turn, if it answered,
      wrote its own answer; any other entry was already there before it, with
      the same hand, so the claim for the prefix (taken as given) carries
      over. */
  lemma ProvenanceStep(ps: seq<Member>, rs: seq<Response>, k: UserId)
    requires |ps| == |rs| && |ps| > 0
    requires k in Keys(Collect(ps, rs))
    requires var n := |ps| - 1; k in Keys(Collect(ps[..n], rs[..n])) ==>
      exists i :: Answered(ps[..n], rs[..n], i) && ps[..n][i].id == k
        && Answer(ps[..n][i].id, rs[..n][i]) == Lookup(Collect(ps[..n], rs[..n]), k)
    ensures exists i :: Answered(ps, rs, i) && ps[i].id == k && Answer(ps[i].id, rs[i]) == Lookup(Collect(ps, rs), k)
  {
    var n := |ps| - 1;
    CollectLastTurn(ps, rs);
    if Answer(ps[n].id, rs[n]).Some? && ps[n].id == k {
      assert Answered(ps, rs, n);
    } else {
      var ps', rs' := ps[..n], rs[..n];
      assert k in Keys(Collect(ps', rs'));
      var i :| Answered(ps', rs', i) && ps'[i].id == k
        && Answer(ps'[i].id, rs'[i]) == Lookup(Collect(ps', rs'), k);
      assert ps'[i] == ps[i] && rs'[i] == rs[i];
      assert Answered(ps, rs, i);
    }
  }

  /** Every recorded hand is the answer of some turn of that same player. */
  lemma {:induction false} CollectProvenance(ps: seq<Member>, rs: seq<Response>)
    requires |ps| == |rs|
    ensures forall k :: k in Keys(Collect(ps, rs)) ==>
      exists i :: Answered(ps, rs, i) && ps[i].id == k && Answer(ps[i].id, rs[i]) == Lookup(Collect(ps, rs), k)
    decreases |ps|
  {
    if |ps| > 0 {
      var n := |ps| - 1;
      CollectProvenance(ps[..n], rs[..n]);
      forall k | k in Keys(Collect(ps, rs))
        ensures exists i :: Answered(ps, rs, i) && ps[i].id == k && Answer(ps[i].id, rs[i]) == Lookup(Collect(ps, rs), k)
      {
        ProvenanceStep(ps, rs, k);
      }
    }
  }

  /** A turn before the last that is its player's last answer is so in the
      prefix without the last turn too. */
  lemma LastAnswerInPrefix(ps: seq<Member>, rs: seq<Response>, i: int)
    requires |ps| == |rs| && |ps| > 0
    requires LastAnswerOf(ps, rs, i) && i < |ps| - 1
    ensures var n := |ps| - 1;
      LastAnswerOf(ps[..n], rs[..n], i) && ps[..n][i] == ps[i] && rs[..n][i] == rs[i]
  {
    var n := |ps| - 1;
    var ps', rs' := ps[..n], rs[..n];
    assert ps'[i] == ps[i] && rs'[i] == rs[i];
    forall j | i < j < n && ps'[j].id == ps'[i].id ensures !Answered(ps', rs', j) {
      assert ps'[j] == ps[j] && rs'[j] == rs[j];
      assert !Answered(ps, rs, j);
    }
  }

  /** One step of the last-answer argument. If the named turn is the last
      one, it wrote its own answer. Otherwise the last turn is not an answer
      of the same player, so it left that player's entry alone. */
  lemma LastAnswerStep(ps: seq<Member>, rs: seq<Response>, i: int)
    requires |ps| == |rs| && |ps| > 0
    requires LastAnswerOf(ps, rs, i)
    ensures i == |ps| - 1 ==> Lookup(Collect(ps, rs), ps[i].id) == Answer(ps[i].id, rs[i])
    ensures var n := |ps| - 1; i < n ==>
      Lookup(Collect(ps, rs), ps[i].id) == Lookup(Collect(ps[..n], rs[..n]), ps[i].id)
  {
    var n := |ps| - 1;
    CollectLastTurn(ps, rs);
    if i == n {
      assert Answer(ps[n].id, rs[n]).Some?;
    } else if ps[n].id == ps[i].id {
      assert !Answered(ps, rs, n);
    }
  }

  /** The hand recorded for a player is the answer of their last answering
      turn, whatever turns of theirs came after it (refused or timed out). */
  lemma {:induction false} CollectLastAnswer(ps: seq<Member>, rs: seq<Response>)
    requires |ps| == |rs|
    ensures forall i :: LastAnswerOf(ps, rs, i) ==>
      Lookup(Collect(ps, rs), ps[i].id) == Answer(ps[i].id, rs[i])
    decreases |ps|
  {
    if |ps| > 0 {
      var n := |ps| - 1;
      CollectLastAnswer(ps[..n], rs[..n]);
      forall i | LastAnswerOf(ps, rs, i)
        ensures Lookup(Collect(ps, rs), ps[i].id) == Answer(ps[i].id, rs[i])
      {
        LastAnswerStep(ps, rs, i);
        if i < n {
          LastAnswerInPrefix(ps, rs, i);
          assert Lookup(Collect(ps[..n], rs[..n]), ps[..n][i].id) == Answer(ps[..n][i].id, rs[..n][i]);
        }
      }
    }
  }

  /** Appending an entry appends its id. */
  lemma IdsSnoc(m: ChoiceMap, e: Entry)
    ensures Ids(m + [e]) == Ids(m) + [e.0]
  {
    assert forall i :: 0 <= i < |m| ==> (m + [e])[i] == m[i];
  }

  /** With distinct participants, the map's entries appear in the order in
      which their players answered: the ids of `Collect` are the ids of the
      answering turns, in turn order. This is the order the winners loop
      later walks. */
  lemma {:induction false} CollectOrder(ps: seq<Member>, rs: seq<Response>)
    requires |ps| == |rs|
    requires DistinctIds(ps)
    ensures Ids(Collect(ps, rs)) == AnsweredTurnIds(ps, rs)
    decreases |ps|
  {
    if |ps| > 0 {
      var n := |ps| - 1;
      var ps', rs' := ps[..n], rs[..n];
      assert forall i :: 0 <= i < n ==> ps'[i] == ps[i];
      CollectOrder(ps', rs');
      var prev := Collect(ps', rs');
      var k := ps[n].id;
      if Answer(k, rs[n]).Some? {
        CollectKeys(ps', rs');
        assert k !in Keys(prev);
        IdsSnoc(prev, (k, Answer(k, rs[n]).value));
      }
    }
  }


  /** A recorded hand is one the prompted player chose: some event of that
      player's own wait carried the hand's emoji, which is one of the three
      reactions. */
  lemma RecordedChoiceIsPlayersReaction(ps: seq<Member>, rs: seq<Response>)
    requires |ps| == |rs|
    ensures forall k :: k in Keys(Collect(ps, rs)) ==>
      exists i :: (0 <= i < |ps| && ps[i].id == k && rs[i].Window?
                   && exists e :: (e in rs[i].events && e.user == k && e.emoji in Reactions
                                   && e.emoji == Emoji(Lookup(Collect(ps, rs), k).value)))
  {
    CollectProvenance(ps, rs);
    forall k | k in Keys(Collect(ps, rs))
      ensures exists i :: (0 <= i < |ps| && ps[i].id == k && rs[i].Window?
                           && exists e :: (e in rs[i].events && e.user == k && e.emoji in Reactions
                                           && e.emoji == Emoji(Lookup(Collect(ps, rs), k).value)))
    {
      var h := Lookup(Collect(ps, rs), k).value;
      var i :| Answered(ps, rs, i) && ps[i].id == k && Answer(ps[i].id, rs[i]) == Some(h);
      var evs := rs[i].events;
      FirstChoiceIsFirstQualifying(k, evs);
      var j :| 0 <= j < |evs| && Qualifies(k, evs[j]) && evs[j].emoji == Emoji(h)
        && forall j' :: 0 <= j' < j ==> !Qualifies(k, evs[j']);
      assert evs[j] in evs;
    }
  }

  /** The loop itself: one turn per participant, in order. A refused DM and
      a wait that ends without a qualifying reaction both fall through to
      the next participant. */
  method CollectChoices(ps: seq<Member>, rs: seq<Response>) returns (choices: ChoiceMap)
    requires |ps| == |rs|
    ensures choices == Collect(ps, rs)
    ensures DistinctKeys(choices) && Keys(choices) == AnsweredIds(ps, rs)
  {
    CollectKeys(ps, rs);
    choices := [];
    var i := 0;
    while i < |ps|
      invariant 0 <= i <= |ps|
      invariant choices == Collect(ps[..i], rs[..i])
    {
      var player := ps[i];
      CollectSnoc(ps, rs, i);
      if rs[i].Window? {
        var reaction := FirstChoice(player.id, rs[i].events);
        if reaction.Some? {
          choices := Put(choices, player.id, reaction.value);
        }
      }
      i := i + 1;
    }
    assert ps[..i] == ps && rs[..i] == rs;
  }
}
