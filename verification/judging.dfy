/** The winner computation of `janken`: every ordered pair of distinct
    entries is examined, and the first entry's id is appended to `winners`
    once for each opponent whose hand its hand beats. Ids therefore repeat,
    and there is no special rule for the case where all three hands appear.
    An empty `winners` is reported as a draw. */
module Judging {
  import opened Wrappers
  import opened Hands
  import opened Choices

  /** The inner loop for one player: one copy of `pid` per opponent entry
      with a different id whose hand `ph` beats, in opponent order. */
  function Row(pid: UserId, ph: Hand, opps: ChoiceMap): seq<UserId>
    decreases |opps|
  {
    if |opps| == 0 then []
    else
      var n := |opps| - 1;
      Row(pid, ph, opps[..n]) + (if pid != opps[n].0 && Beats(ph, opps[n].1) then [pid] else [])
  }

  /** The outer loop over the entries of `outer`, each played against all of `m`. */
  function Rows(outer: ChoiceMap, m: ChoiceMap): seq<UserId>
    decreases |outer|
  {
    if |outer| == 0 then []
    else
      var n := |outer| - 1;
      Rows(outer[..n], m) + Row(outer[n].0, outer[n].1, m)
  }

  /** `winners` as the nested loop leaves it. */
  function Winners(m: ChoiceMap): seq<UserId> {
    Rows(m, m)
  }

  /** The positions of the entries that a player `pid` holding `ph` defeats. */
  ghost function Victims(m: ChoiceMap, pid: UserId, ph: Hand): set<int> {
    set j | 0 <= j < |m| && m[j].0 != pid && Beats(ph, m[j].1)
  }

  /** How often `k` should appear among the winners: the number of other
      entries its recorded hand beats, and zero when it has no entry. */
  ghost function Score(m: ChoiceMap, k: UserId): nat {
    match Lookup(m, k)
    case None => 0
    case Some(h) => |Victims(m, k, h)|
  }

  /** Every hand that was recorded. */
  function HandsPresent(m: ChoiceMap): set<Hand> {
    set i | 0 <= i < |m| :: m[i].1
  }

  /** Extending the opponents by one entry adds that entry's position to the
      victims exactly when the player defeats it. */
  lemma VictimsSnoc(pid: UserId, ph: Hand, opps: ChoiceMap)
    requires |opps| > 0
    ensures var n := |opps| - 1;
      Victims(opps, pid, ph) == Victims(opps[..n], pid, ph)
        + (if pid != opps[n].0 && Beats(ph, opps[n].1) then {n} else {})
  {
    var n := |opps| - 1;
    var prefix := opps[..n];
    forall j | j in Victims(opps, pid, ph) && j != n ensures j in Victims(prefix, pid, ph) {
      assert prefix[j] == opps[j];
    }
    forall j | j in Victims(prefix, pid, ph) ensures j in Victims(opps, pid, ph) {
      assert prefix[j] == opps[j];
    }
  }

  /** The inner loop appends `pid` once per defeated opponent and nothing else. */
  lemma {:induction false} RowCount(pid: UserId, ph: Hand, opps: ChoiceMap, x: UserId)
    ensures multiset(Row(pid, ph, opps))[x] == if x == pid then |Victims(opps, pid, ph)| else 0
    decreases |opps|
  {
    if |opps| == 0 {
      assert Victims(opps, pid, ph) == {};
    } else {
      var n := |opps| - 1;
      var prefix := opps[..n];
      RowCount(pid, ph, prefix, x);
      VictimsSnoc(pid, ph, opps);
      assert n !in Victims(prefix, pid, ph);
    }
  }

  /** After the outer loop has covered the first `n` entries, each id of
      those entries appears as often as its score, and no other id appears. */
  lemma {:induction false} RowsCount(m: ChoiceMap, n: nat, k: UserId)
    requires DistinctKeys(m)
    requires n <= |m|
    ensures multiset(Rows(m[..n], m))[k] == if k in Keys(m[..n]) then Score(m, k) else 0
    decreases n
  {
    if n > 0 {
      var e := m[n - 1];
      assert m[..n][..n - 1] == m[..n - 1];
      assert m[..n][n - 1] == e;
      RowsCount(m, n - 1, k);
      RowCount(e.0, e.1, m, k);
      KeysSnoc(m, n);
      LookupAt(m, n - 1);
    }
  }

  /** Each id appears in `winners` exactly as many times as there are other
      entries whose hand its own hand beats; ids without an entry never
      appear. */
  lemma WinnersCount(m: ChoiceMap, k: UserId)
    requires DistinctKeys(m)
    ensures multiset(Winners(m))[k] == Score(m, k)
    ensures k !in Keys(m) ==> k !in Winners(m)
  {
    assert m[..|m|] == m;
    RowsCount(m, |m|, k);
  }

  /** An entry whose hand beats another entry's hand is among the winners. */
  lemma BeaterWins(m: ChoiceMap, i: int, j: int)
    requires DistinctKeys(m)
    requires 0 <= i < |m| && 0 <= j < |m|
    requires Beats(m[i].1, m[j].1)
    ensures m[i].0 in Winners(m)
  {
    BeatsTrichotomy(m[i].1, m[j].1);
    assert i != j;
    LookupAt(m, i);
    assert j in Victims(m, m[i].0, m[i].1);
    WinnersCount(m, m[i].0);
  }

  /** `winners` is empty exactly when no recorded hand beats another
      recorded hand, which is exactly when all recorded hands are equal
      (a single entry included). */
  lemma DrawIffAllSame(m: ChoiceMap)
    requires DistinctKeys(m)
    ensures |Winners(m)| == 0 <==> forall i, j :: 0 <= i < |m| && 0 <= j < |m| ==> !Beats(m[i].1, m[j].1)
    ensures |Winners(m)| == 0 <==> forall i, j :: 0 <= i < |m| && 0 <= j < |m| ==> m[i].1 == m[j].1
  {
    var w := Winners(m);
    if |w| > 0 {
      WinnersCount(m, w[0]);
      assert w[0] in multiset(w);
      var h := Lookup(m, w[0]).value;
      var j :| j in Victims(m, w[0], h);
      var i :| 0 <= i < |m| && m[i] == (w[0], h);
      assert Beats(m[i].1, m[j].1);
    }
    if exists i, j :: 0 <= i < |m| && 0 <= j < |m| && Beats(m[i].1, m[j].1) {
      var i, j :| 0 <= i < |m| && 0 <= j < |m| && Beats(m[i].1, m[j].1);
      BeaterWins(m, i, j);
    }
    forall i, j | 0 <= i < |m| && 0 <= j < |m|
      ensures m[i].1 == m[j].1 <==> !Beats(m[i].1, m[j].1) && !Beats(m[j].1, m[i].1)
    {
      BeatsTrichotomy(m[i].1, m[j].1);
    }
  }

  /** In a two-hand game, the score of each entry: a holder of the winning
      hand `a` defeats every holder of `b`, a holder of `b` defeats no one. */
  lemma TwoHandsScore(m: ChoiceMap, a: Hand, b: Hand, i: int)
    requires DistinctKeys(m)
    requires HandsPresent(m) == {a, b} && Beats(a, b)
    requires 0 <= i < |m|
    ensures m[i].1 == a ==> Score(m, m[i].0) == |set j | 0 <= j < |m| && m[j].1 == b|
    ensures m[i].1 == b ==> Score(m, m[i].0) == 0
  {
    LookupAt(m, i);
    BeatsTrichotomy(a, b);
    var k := m[i].0;
    var holdersB := set j | 0 <= j < |m| && m[j].1 == b;
    assert m[i].1 in HandsPresent(m);
    if m[i].1 == a {
      forall j | j in Victims(m, k, a) ensures j in holdersB {
        assert m[j].1 in HandsPresent(m);
      }
      forall j | j in holdersB ensures j in Victims(m, k, a) {
        assert i != j;
      }
      assert Victims(m, k, a) == holdersB;
    } else {
      forall j | 0 <= j < |m| ensures j !in Victims(m, k, b) {
        assert m[j].1 in HandsPresent(m);
      }
      assert Victims(m, k, b) == {};
    }
  }

  /** In a two-hand game only holders of the winning hand `a` win. */
  lemma TwoHandsWinner(m: ChoiceMap, a: Hand, b: Hand, k: UserId)
    requires DistinctKeys(m)
    requires HandsPresent(m) == {a, b} && Beats(a, b)
    requires k in Winners(m)
    ensures exists i :: 0 <= i < |m| && m[i].0 == k && m[i].1 == a
  {
    WinnersCount(m, k);
    var i :| 0 <= i < |m| && m[i].0 == k;
    assert m[i].1 in HandsPresent(m);
    TwoHandsScore(m, a, b, i);
    LookupAt(m, i);
  }

  /** With exactly two different hands recorded, `a` beating `b`, the ids
      in `winners` are exactly the holders of `a`, each appearing once per
      holder of `b`. */
  lemma TwoHands(m: ChoiceMap, a: Hand, b: Hand)
    requires DistinctKeys(m)
    requires HandsPresent(m) == {a, b} && Beats(a, b)
    ensures (set k | k in Winners(m)) == set i | 0 <= i < |m| && m[i].1 == a :: m[i].0
    ensures forall i :: 0 <= i < |m| && m[i].1 == a ==>
      multiset(Winners(m))[m[i].0] == |set j | 0 <= j < |m| && m[j].1 == b|
  {
    var holdersA := set i | 0 <= i < |m| && m[i].1 == a :: m[i].0;
    var holdersB := set j | 0 <= j < |m| && m[j].1 == b;
    assert b in HandsPresent(m);
    var jb :| 0 <= jb < |m| && m[jb].1 == b;
    forall i | 0 <= i < |m| && m[i].1 == a
      ensures multiset(Winners(m))[m[i].0] == |holdersB|
      ensures m[i].0 in Winners(m)
    {
      TwoHandsScore(m, a, b, i);
      WinnersCount(m, m[i].0);
      BeaterWins(m, i, jb);
    }
    forall k | k in Winners(m)
      ensures k in holdersA
    {
      TwoHandsWinner(m, a, b, k);
    }
    assert (set k | k in Winners(m)) == holdersA;
  }

  /** With all three hands recorded, every entry is among the winners: each
      hand has some holder of the hand it beats. */
  lemma AllThreeHands(m: ChoiceMap)
    requires DistinctKeys(m)
    requires HandsPresent(m) == {Rock, Scissors, Paper}
    ensures forall i :: 0 <= i < |m| ==> m[i].0 in Winners(m)
  {
    forall i | 0 <= i < |m|
      ensures m[i].0 in Winners(m)
    {
      var v := Victim(m[i].1);
      assert v in HandsPresent(m);
      var j :| 0 <= j < |m| && m[j].1 == v;
      BeaterWins(m, i, j);
    }
  }

  /** The inner loop over one more opponent appends at most that opponent's
      contribution. */
  lemma RowSnoc(pid: UserId, ph: Hand, opps: ChoiceMap, j: int)
    requires 0 <= j < |opps|
    ensures Row(pid, ph, opps[..j + 1]) ==
      Row(pid, ph, opps[..j]) + (if pid != opps[j].0 && Beats(ph, opps[j].1) then [pid] else [])
  {
    assert opps[..j + 1][..j] == opps[..j];
  }

  /** The nested loop itself, appending to `winners` in place. */
  method ComputeWinners(m: ChoiceMap) returns (winners: seq<UserId>)
    ensures winners == Winners(m)
  {
    winners := [];
    var i := 0;
    while i < |m|
      invariant 0 <= i <= |m|
      invariant winners == Rows(m[..i], m)
    {
      var (pid, ph) := m[i];
      var j := 0;
      while j < |m|
        invariant 0 <= j <= |m|
        invariant winners == Rows(m[..i], m) + Row(pid, ph, m[..j])
      {
        var (oid, oh) := m[j];
        WinTableAgrees(ph, oh);
        RowSnoc(pid, ph, m, j);
        if pid != oid {
          if WinTable[Emoji(ph)] == Emoji(oh) {
            assert winners + [pid] == Rows(m[..i], m) + (Row(pid, ph, m[..j]) + [pid]);
            winners := winners + [pid];
          }
        }
        j := j + 1;
      }
      assert m[..j] == m;
      assert m[..i + 1][..i] == m[..i];
      i := i + 1;
    }
    assert m[..i] == m;
  }
}
