/** `player_choices`: a dictionary from user id to recorded hand. A Python
    dictionary iterates in insertion order, and assigning to a key it already
    holds keeps that key where it was; the model is therefore a sequence of
    (id, hand) entries whose ids are pairwise distinct. */
module Choices {
  import opened Wrappers
  import opened Hands

  /** A Discord user id (a snowflake). */
  type UserId = nat

  type Entry = (UserId, Hand)

  type ChoiceMap = seq<Entry>

  /** No id is recorded twice. */
  predicate DistinctKeys(m: ChoiceMap) {
    forall i, j :: 0 <= i < j < |m| ==> m[i].0 != m[j].0
  }

  function Keys(m: ChoiceMap): set<UserId> {
    set i | 0 <= i < |m| :: m[i].0
  }

  /** The hand recorded under `k`, if any. */
  function Lookup(m: ChoiceMap, k: UserId): (r: Option<Hand>)
    ensures r.Some? <==> k in Keys(m)
    ensures r.Some? ==> exists i :: 0 <= i < |m| && m[i] == (k, r.value)
    decreases |m|
  {
    if |m| == 0 then None
    else if m[0].0 == k then Some(m[0].1)
    else
      var r := Lookup(m[1..], k);
      assert forall i :: 0 <= i < |m| - 1 ==> m[1..][i] == m[i + 1];
      assert Keys(m) == {m[0].0} + Keys(m[1..]);
      r
  }

  /** In a map with distinct ids, the entry at position `i` is what a lookup
      of its id finds. */
  lemma LookupAt(m: ChoiceMap, i: int)
    requires DistinctKeys(m)
    requires 0 <= i < |m|
    ensures Lookup(m, m[i].0) == Some(m[i].1)
  {
  }

  /** The ids of a prefix grow by one id per entry; with distinct ids, the
      new id is not among the earlier ones. */
  lemma KeysSnoc(m: ChoiceMap, n: nat)
    requires 0 < n <= |m|
    ensures Keys(m[..n]) == Keys(m[..n - 1]) + {m[n - 1].0}
    ensures DistinctKeys(m) ==> m[n - 1].0 !in Keys(m[..n - 1])
  {
    assert forall i :: 0 <= i < n ==> m[..n][i] == m[i];
    assert forall i :: 0 <= i < n - 1 ==> m[..n - 1][i] == m[i];
    assert m[..n][n - 1] == m[n - 1];
  }

  /** Position of the entry for `k`, which must be present. */
  function IndexOf(m: ChoiceMap, k: UserId): (i: nat)
    requires k in Keys(m)
    ensures i < |m| && m[i].0 == k
    ensures forall j :: 0 <= j < i ==> m[j].0 != k
    decreases |m|
  {
    if m[0].0 == k then 0
    else
      assert k in Keys(m[1..]) by {
        var j :| 0 <= j < |m| && m[j].0 == k;
        assert m[1..][j - 1] == m[j];
      }
      var i := IndexOf(m[1..], k);
      assert m[1..][i] == m[i + 1];
      assert forall j :: 0 < j <= i ==> m[j] == m[1..][j - 1];
      i + 1
  }

  /** `player_choices[k] = h`: an id already present keeps its position and
      gets the new hand; a new id goes at the end. Nothing else changes. */
  function Put(m: ChoiceMap, k: UserId, h: Hand): (r: ChoiceMap)
    requires DistinctKeys(m)
    ensures DistinctKeys(r)
    ensures Keys(r) == Keys(m) + {k}
    ensures Lookup(r, k) == Some(h)
    ensures forall k' :: k' != k ==> Lookup(r, k') == Lookup(m, k')
    ensures |r| == if k in Keys(m) then |m| else |m| + 1
    ensures forall i :: 0 <= i < |m| ==> r[i].0 == m[i].0
    ensures forall i :: 0 <= i < |m| && m[i].0 != k ==> r[i] == m[i]
  {
    var r := if k in Keys(m) then m[IndexOf(m, k) := (k, h)] else m + [(k, h)];
    assert Keys(r) == Keys(m) + {k} by {
      if k in Keys(m) {
        var i := IndexOf(m, k);
        forall x | x in Keys(m) ensures x in Keys(r) {
          var j :| 0 <= j < |m| && m[j].0 == x;
          assert r[j].0 == x;
        }
      } else {
        assert r[|m|].0 == k;
        forall x | x in Keys(m) ensures x in Keys(r) {
          var j :| 0 <= j < |m| && m[j].0 == x;
          assert r[j].0 == x;
        }
      }
    }
    assert DistinctKeys(r);
    assert r[if k in Keys(m) then IndexOf(m, k) else |m|] == (k, h);
    LookupAt(r, if k in Keys(m) then IndexOf(m, k) else |m|);
    forall k' | k' != k
      ensures Lookup(r, k') == Lookup(m, k')
    {
      if k' in Keys(m) {
        var j :| 0 <= j < |m| && m[j].0 == k';
        LookupAt(m, j);
        LookupAt(r, j);
      }
    }
    r
  }
}
