/** The hand domain of the `janken` command: the three reaction emojis a player
    may answer with, their display names, and the table saying which hand
    beats which. The tables are kept as the string-keyed dictionaries the bot
    uses; `Hand` is the typed view of an emoji that the rest of the model
    works with. */
module Hands {
  import opened Wrappers

  /** Rock (グー), scissors (チョキ) and paper (パー). */
  datatype Hand = Rock | Scissors | Paper

  const RockEmoji: string := "\U{1F44A}"              // 👊
  const ScissorsEmoji: string := "\U{270C}\U{FE0F}"   // ✌️
  const PaperEmoji: string := "\U{270B}"              // ✋

  /** The reactions the bot adds to each prompt, in that order. */
  const Reactions: seq<string> := [RockEmoji, ScissorsEmoji, PaperEmoji]

  /** Emoji to the Japanese name shown in every message. */
  const HandMap: map<string, string> :=
    map[RockEmoji := "グー", ScissorsEmoji := "チョキ", PaperEmoji := "パー"]

  /** Emoji to the emoji it beats. */
  const WinTable: map<string, string> :=
    map[RockEmoji := ScissorsEmoji, ScissorsEmoji := PaperEmoji, PaperEmoji := RockEmoji]

  /** The emoji a hand is recorded as. Every such emoji is a key of both
      dictionaries, so the lookups the bot makes on a recorded hand never
      fail. */
  function Emoji(h: Hand): (e: string)
    ensures e in Reactions
    ensures e in HandMap && e in WinTable
  {
    match h
    case Rock => RockEmoji
    case Scissors => ScissorsEmoji
    case Paper => PaperEmoji
  }

  /** Reads a reaction emoji back as a hand; anything outside `Reactions` is
      not a hand. */
  function Parse(e: string): (r: Option<Hand>)
    ensures r.Some? <==> e in Reactions
    ensures r.Some? ==> Emoji(r.value) == e
  {
    if e == RockEmoji then Some(Rock)
    else if e == ScissorsEmoji then Some(Scissors)
    else if e == PaperEmoji then Some(Paper)
    else None
  }

  /** Emoji and Parse are inverse to each other on the three hands. */
  lemma ParseEmoji(h: Hand)
    ensures Parse(Emoji(h)) == Some(h)
  {
  }

  /** The dictionaries are keyed by exactly the three reactions. */
  lemma TablesCoverReactions()
    ensures HandMap.Keys == set e | e in Reactions
    ensures WinTable.Keys == set e | e in Reactions
    ensures WinTable.Values == set e | e in Reactions
  {
    assert WinTable[PaperEmoji] == RockEmoji;
    assert WinTable[RockEmoji] == ScissorsEmoji;
    assert WinTable[ScissorsEmoji] == PaperEmoji;
  }

  /** The one hand that `h` beats. */
  function Victim(h: Hand): Hand {
    match h
    case Rock => Scissors
    case Scissors => Paper
    case Paper => Rock
  }

  /** `x` beats `y`: rock beats scissors, scissors beat paper, paper beats rock. */
  predicate Beats(x: Hand, y: Hand) {
    y == Victim(x)
  }

  /** `Beats` is what the bot's table says: the entry of x's emoji is y's
      emoji exactly when x beats y. */
  lemma WinTableAgrees(x: Hand, y: Hand)
    ensures WinTable[Emoji(x)] == Emoji(y) <==> Beats(x, y)
  {
    assert WinTable[RockEmoji] == ScissorsEmoji;
    assert WinTable[ScissorsEmoji] == PaperEmoji;
    assert WinTable[PaperEmoji] == RockEmoji;
  }

  /** The one hand that beats `h`. */
  function Nemesis(h: Hand): (n: Hand)
    ensures Beats(n, h)
    ensures forall x :: Beats(x, h) <==> x == n
    ensures n != h && n != Victim(h)
  {
    match h
    case Rock => Paper
    case Scissors => Rock
    case Paper => Scissors
  }

  /** The table is a 3-cycle: going round it three times from any hand comes
      back to that hand, and never sooner. */
  lemma WinTableIsThreeCycle(h: Hand)
    ensures Victim(Victim(Victim(h))) == h
    ensures Victim(Victim(h)) != h
    ensures Victim(Victim(h)) == Nemesis(h)
  {
  }

  /** "Beats" is irreflexive and asymmetric, and any two different hands are
      related one way or the other: exactly one of `x == y`, `Beats(x, y)`,
      `Beats(y, x)` holds. */
  lemma BeatsTrichotomy(x: Hand, y: Hand)
    ensures !Beats(x, x)
    ensures Beats(x, y) ==> !Beats(y, x)
    ensures x != y <==> (Beats(x, y) || Beats(y, x))
  {
  }
}
