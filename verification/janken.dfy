/** The `janken` command with a role argument, end to end: recruit the
    role's human members, collect their hands, add the bot's hand under the
    bot's own id, and compute the winners or a draw. */
module Janken {
  import opened Wrappers
  import opened Hands
  import opened Choices
  import opened Collection
  import opened Judging

  /** The closing message: the list of winners, or a draw. */
  datatype Verdict = Draw | Won(winners: seq<UserId>)

  /** How a command run ends: it stops early because nobody holds the role
      (before any DM is sent), or it reports the choices and the verdict. */
  datatype Game = NoParticipants | Played(choices: ChoiceMap, verdict: Verdict)

  /** All recorded hands are the same hand. */
  predicate AllSame(m: ChoiceMap) {
    forall i, j :: 0 <= i < |m| && 0 <= j < |m| ==> m[i].1 == m[j].1
  }

  /** The verdict is a draw exactly when all recorded hands are equal;
      otherwise it lists the (non-empty) winners of the nested loop. */
  function Judge(m: ChoiceMap): (v: Verdict)
    requires DistinctKeys(m)
    ensures v.Draw? <==> AllSame(m)
    ensures v.Won? ==> v.winners == Winners(m) && |v.winners| > 0
  {
    DrawIffAllSame(m);
    var w := Winners(m);
    if |w| > 0 then Won(w) else Draw
  }

  /** One run of `janken` with a role. `responses` holds, per recruited
      participant in order, what their turn produced; `botHand` is the
      bot's random pick. */
  function Play(members: seq<Member>, role: RoleId, responses: seq<Response>,
                botId: UserId, botHand: Hand): (g: Game)
    requires |responses| == |Recruit(members, role)|
    ensures g.NoParticipants? <==> forall p :: p in members ==> !Eligible(p, role)
    ensures g.Played? ==> DistinctKeys(g.choices)
    ensures g.Played? ==> Keys(g.choices) == AnsweredIds(Recruit(members, role), responses) + {botId}
    ensures g.Played? ==> Lookup(g.choices, botId) == Some(botHand)
    ensures g.Played? ==> forall k :: k != botId ==>
      Lookup(g.choices, k) == Lookup(Collect(Recruit(members, role), responses), k)
    ensures g.Played? && g.verdict.Won? ==> g.verdict.winners == Winners(g.choices) && |g.verdict.winners| > 0
    ensures g.Played? ==> (g.verdict.Draw? <==> AllSame(g.choices))
  {
    var participants := Recruit(members, role);
    if |participants| == 0 then NoParticipants
    else
      assert participants[0] in participants;
      CollectKeys(participants, responses);
      var choices := Put(Collect(participants, responses), botId, botHand);
      Played(choices, Judge(choices))
  }
}
