/** Counting how often an identity came before, as both inventories do to tell equals apart. */
module Occurrences {

  /** How often an identity occurs in a list. */
  function Earlier(ids: seq<seq<string>>, id: seq<string>): nat {
    if ids == [] then 0 else Earlier(ids[..|ids| - 1], id) + if ids[|ids| - 1] == id then 1 else 0
  }

  lemma {:induction false} EarlierGrows(ids: seq<seq<string>>, id: seq<string>, i: nat, j: nat)
    requires i <= j <= |ids|
    ensures Earlier(ids[..i], id) <= Earlier(ids[..j], id)
    decreases j
  {
    if i < j {
      assert ids[..j][..j - 1] == ids[..j - 1];
      EarlierGrows(ids, id, i, j - 1);
    }
  }

  lemma EarlierStep(ids: seq<seq<string>>, id: seq<string>, i: nat)
    requires i < |ids|
    ensures Earlier(ids[..i + 1], id) == Earlier(ids[..i], id) + if ids[i] == id then 1 else 0
  {
    assert ids[..i + 1][..i] == ids[..i];
  }

  lemma {:induction false} Reach(ids: seq<seq<string>>, id: seq<string>, i: nat, n: nat) returns (j: nat)
    requires i <= |ids| && n < Earlier(ids[..i], id)
    ensures j < i && ids[j] == id && Earlier(ids[..j], id) == n
    decreases i
  {
    EarlierStep(ids, id, i - 1);
    if Earlier(ids[..i - 1], id) == n { j := i - 1; } else { j := Reach(ids, id, i - 1, n); }
  }

  /** A dictionary of counts for the identities seen so far. */
  ghost predicate CountsAre(counts: map<seq<string>, nat>, ids: seq<seq<string>>) {
    forall id :: Earlier(ids, id) == if id in counts then counts[id] else 0
  }

  lemma CountOneMore(counts: map<seq<string>, nat>, ids: seq<seq<string>>, i: nat)
    requires i < |ids| && CountsAre(counts, ids[..i])
    ensures var n := if ids[i] in counts then counts[ids[i]] else 0;
      n == Earlier(ids[..i], ids[i]) && CountsAre(counts[ids[i] := n + 1], ids[..i + 1])
  {
    hide Earlier;
    forall id ensures Earlier(ids[..i + 1], id) == Earlier(ids[..i], id) + if ids[i] == id then 1 else 0 {
      EarlierStep(ids, id, i);
    }
  }
}
