# jankenes `janken` command — Dafny model

`bot.py` is a Discord bot whose `!janken <role>` command plays
rock-paper-scissors (じゃんけん). It recruits every human guild member who
holds the role and sends each one a direct message with three reaction
emojis (👊 グー, ✌️ チョキ, ✋ パー). It then waits up to ten seconds for
that player's reaction and records the hand in `player_choices`. A player
who cannot be DMed (`discord.Forbidden`) or who does not react in time
gets no entry. After that the bot adds its own random hand under its own
user id. Finally a nested loop appends a player's id to `winners` once
for every *other* entry whose hand that player's hand beats. An empty
`winners` list is announced as a draw.

This project models that deterministic core as pure Dafny functions and
proves what the code guarantees:

- `hands.dfy` (`Hands`): the hand type, the `reactions` list, and the
  `hand_map` and `win_table` dictionaries as string-keyed maps. It proves
  that the win table is a 3-cycle ("beats" is irreflexive and
  asymmetric, and any two different hands are ordered one way or the
  other). It also proves that every lookup the bot makes on a recorded
  hand finds a key.
- `choices.dfy` (`Choices`): `player_choices` as an insertion-ordered
  sequence of `(id, hand)` entries with distinct ids. `Put` is Python's
  dictionary assignment: an existing key keeps its place and gets the new
  hand, and a new key goes at the end.
- `collection.dfy` (`Collection`): the role filter and the DM loop. Each
  turn's outcome is either `Forbidden` or the `reaction_add` events seen
  while waiting. The wait's check (same user, emoji in `reactions`)
  chooses the first qualifying event, and no qualifying event means a
  timeout.
- `judging.dfy` (`Judging`): the nested winners loop, both as a function
  and as the literal loop, with lemmas giving each id's exact count, the
  draw condition, and the two-hand and three-hand cases.
- `janken.dfy` (`Janken`): one command run from recruitment to verdict.

The model follows the code, including where it departs from what a
reader might expect of a multiplayer rock-paper-scissors game:

- With all three hands present, the code does not declare a tie: every
  entry is a winner (`Judging.AllThreeHands`).
- The code has no "fewer than two entries" abort. The bot's entry is
  always added, so a run in which no human answered has one entry and is
  a draw.
- `winners` is a list with repetitions, not a set, and the code computes
  no losers.
- Players are asked one after another, not concurrently.
- The bot's own entry is written by dictionary assignment, which would
  overwrite an existing entry under the same id. It is not write-once.

## Model

| member | source | states |
|---|---|---|
| Hands.Emoji | bot.py:52-53 | each hand is recorded as one of the three `reactions` emojis, and that emoji is a key of both `hand_map` and `win_table`, so the lookups at lines 74, 83, 90 and 97 cannot fail |
| Hands.Parse | bot.py:53 | a reaction is read as a hand exactly when it is one of the three `reactions`, and that hand's emoji is the reaction itself |
| Hands.ParseEmoji | bot.py:52-53 | reading a hand's emoji back gives the same hand |
| Hands.TablesCoverReactions | bot.py:52-53 | `hand_map` has exactly the three reactions as keys, and `win_table` has them as keys and as values |
| Hands.WinTableAgrees | bot.py:86 | `win_table[e(x)] == e(y)` holds exactly when x beats y (👊 beats ✌️, ✌️ beats ✋, ✋ beats 👊) |
| Hands.Nemesis | bot.py:86 | every hand is beaten by exactly one hand, which is neither the hand itself nor the hand it beats |
| Hands.WinTableIsThreeCycle | bot.py:86 | following the table from any hand returns to it after three steps and not after two |
| Hands.BeatsTrichotomy | bot.py:86 | "beats" is irreflexive and asymmetric, and two hands differ exactly when one beats the other |
| Choices.Put | bot.py:81-82 | dictionary assignment, as for the bot's hand here and for each player's hand at line 73: ids stay distinct, the key now maps to the new hand, every other key keeps its hand, an existing key keeps its position and the map does not grow, and a new key is appended |
| Collection.Recruit | bot.py:46-47 | a member is a participant exactly when they hold the role and are not a bot |
| Collection.RecruitAppend | bot.py:46 | the filter keeps guild member order: filtering two consecutive stretches and joining the results equals filtering the whole list |
| Collection.FirstChoiceIsFirstQualifying | bot.py:69-73 | the wait ends with the first event from the prompted player that carries one of the three reactions, and that event's emoji is the recorded hand; with no such event it times out |
| Collection.Collect | bot.py:56-78 | the loop runs over every participant whatever their turn produced, and leaves `player_choices` with distinct ids and at most one entry per participant |
| Collection.CollectKeys | bot.py:56-78 | the ids after the loop are exactly the ids of players whose turn produced a hand; refused DMs and timeouts add nothing |
| Collection.CollectProvenance | bot.py:69-73 | every recorded hand is the answer of some turn of that same player |
| Collection.CollectLastTurn | bot.py:58-73 | a turn of the loop changes at most its own player's entry, and an answering turn leaves that player's answer in the map |
| Collection.CollectLastAnswer | bot.py:58-73 | the hand recorded for a player is the answer of their last answering turn, whatever refused or timed-out turns of theirs follow it (each answer overwrites the entry, and non-answers leave it alone) |
| Collection.CollectOrder | bot.py:56-73 | with distinct participants, the entries of `player_choices` are in the order in which their players answered; this is the order the winners loop walks |
| Collection.RecordedChoiceIsPlayersReaction | bot.py:69-73 | a recorded hand comes from a reaction event of the prompted player, during that player's own wait, with an emoji from `reactions` |
| Collection.CollectChoices | bot.py:56-78 | the imperative loop over participants computes `Collect` |
| Judging.RowCount | bot.py:95-98 | the inner loop appends the player's id once per opponent with a different id whose hand it beats, and appends nothing else |
| Judging.WinnersCount | bot.py:93-98 | each id appears in `winners` exactly as many times as there are other entries whose hand its hand beats; ids without an entry never appear |
| Judging.BeaterWins | bot.py:94-98 | an entry whose hand beats some other entry's hand is among the winners |
| Judging.DrawIffAllSame | bot.py:93-106 | `winners` is empty exactly when no recorded hand beats another, which is exactly when all recorded hands are equal |
| Judging.TwoHandsScore | bot.py:94-98 | with only hands a and b present and a beating b, a holder of a defeats every holder of b and a holder of b defeats no one |
| Judging.TwoHandsWinner | bot.py:94-98 | with only hands a and b present and a beating b, every id in `winners` belongs to a holder of a |
| Judging.TwoHands | bot.py:94-98 | with only hands a and b present and a beating b, the ids in `winners` are exactly the holders of a, each repeated once per holder of b |
| Judging.AllThreeHands | bot.py:94-98 | with all three hands present, every entry is among the winners, so there is no three-way tie |
| Judging.ComputeWinners | bot.py:93-98 | the nested loop, comparing ids and looking up `win_table`, builds exactly `Winners` |
| Janken.Judge | bot.py:100-106 | the draw message is produced exactly when all recorded hands are equal; otherwise the non-empty winners list is reported |
| Janken.Play | bot.py:46-106 | a run stops with no participants exactly when no member is eligible; otherwise the final map has distinct ids, and its ids are the answering players plus the bot's id, which holds the bot's hand; every other id keeps the hand the loop recorded for it; the verdict is a draw exactly when all hands are equal, and otherwise carries the non-empty `winners` of that map |

## Left out

- The opt-in path with no role (bot.py:25-43). Its membership test at
  line 39 does not depend on the member, so it would enlist every member
  or nobody. It also `await`s a plain list, which fails at run time. The
  model covers only the role path.
- Discord I/O is replaced by abstract values. This covers sending
  messages and DMs, `add_reaction`, the result listing built with
  `fetch_user` and display names (lines 87-91, 101-104), and `bot.run`.
  Each turn's outcome is a `Response` given as input.
- The ten-second deadline of `wait_for` (line 72). Only its outcome is
  modelled: the events seen before the deadline, with no qualifying event
  meaning `TimeoutError`.
- `random.choice` for the bot's hand (line 81). The hand and the bot's
  user id are parameters.
- Environment loading, the token and intents (lines 8-18). They are
  configuration.
- Collection.Collect: a `Forbidden` raised while sending the confirmation
  (line 74) comes after the hand is recorded and would leave the entry in
  place. A `Forbidden` raised inside the timeout handler (line 76) is not
  caught and ends the command. The model treats `Forbidden` only as a
  refused prompt (lines 60-67).
- Collection.Collect: other Discord exceptions (for example
  `HTTPException`) are not caught by the loop and end the command. They
  are not modelled.
- Collection.Recruit: its contract states membership. Order is stated
  separately by `Collection.RecruitAppend`. A member's roles are a list of
  role ids, because discord.py compares roles by id.
