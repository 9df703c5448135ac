/** `shuffleAssignments` (src/lib/utils/shuffle.ts): shuffle a copy of the participant ids,
    pair participant `i` with `shuffled[(i + 1) % n]`, repair a self-assignment with
    `shuffled[(i - 1 + n) % n]`, then swap targets to clear any fixed point that is left.

    A participant is known here only by its `id`. The JavaScript `Map` is a `map<Id, Id>`;
    with distinct ids its insertion order is the participants' order, so iterating
    `assignments.entries()` is an index loop over `participants` that reads the current value. */
module Assignments {
  import opened Wrappers
  import opened Shuffling

  type Id = string

  datatype Result<T> = Ok(value: T) | Err(message: string)

  const TooFewMessage: string := "Need at least 2 participants"

  predicate Distinct(s: seq<Id>) {
    forall i, j :: 0 <= i < j < |s| ==> s[i] != s[j]
  }

  predicate NoFixedPoint(m: map<Id, Id>) {
    forall p :: p in m ==> m[p] != p
  }

  predicate Injective(m: map<Id, Id>) {
    forall p, q :: p in m && q in m && p != q ==> m[p] != m[q]
  }

  /** Every participant is a key. */
  predicate CoversKeys(ps: seq<Id>, m: map<Id, Id>) {
    forall i :: 0 <= i < |ps| ==> ps[i] in m
  }

  /** Every value is a participant. */
  predicate ValuesIn(ps: seq<Id>, m: map<Id, Id>) {
    forall p :: p in m ==> m[p] in ps
  }

  // ---------------------------------------------------------------------------
  // First pass: rotation pairing with the previous-index repair (lines 18-30)
  // ---------------------------------------------------------------------------

  /** `(i + 1) % n`: the position after `i`, wrapping round. */
  function Next(i: nat, n: nat): (r: nat)
    requires i < n
    ensures r == if i + 1 == n then 0 else i + 1
  {
    if i + 1 == n then
      ModWrap(i + 1, n);
      (i + 1) % n
    else
      ModBelow(i + 1, n);
      (i + 1) % n
  }

  /** `(i - 1 + n) % n`: the position before `i`, wrapping round. */
  function Prev(i: nat, n: nat): (r: nat)
    requires i < n
    ensures r == if i == 0 then n - 1 else i - 1
  {
    if i == 0 then
      ModBelow(i - 1 + n, n);
      (i - 1 + n) % n
    else
      ModWrap(i - 1 + n, n);
      (i - 1 + n) % n
  }

  /** The target the first pass gives participant `i`: the next entry of the shuffled copy,
      or the previous one when the next is the participant itself. */
  function FirstTarget(ps: seq<Id>, shuffled: seq<Id>, i: nat): (r: Id)
    requires i < |ps| == |shuffled|
    ensures ps[i] != shuffled[Next(i, |ps|)] ==> r == shuffled[Next(i, |ps|)]
    ensures ps[i] == shuffled[Next(i, |ps|)] ==> r == shuffled[Prev(i, |ps|)]
    ensures r in shuffled
  {
    var assignedTo := shuffled[Next(i, |shuffled|)];
    if ps[i] == assignedTo then shuffled[Prev(i, |ps|)] else assignedTo
  }

  /** The map after the first `k` iterations of the first loop. */
  function FirstPass(ps: seq<Id>, shuffled: seq<Id>, k: nat): (r: map<Id, Id>)
    requires k <= |ps| == |shuffled|
  {
    if k == 0 then map[] else FirstPass(ps, shuffled, k - 1)[ps[k - 1] := FirstTarget(ps, shuffled, k - 1)]
  }

  lemma {:induction false} FirstPassShape(ps: seq<Id>, shuffled: seq<Id>, k: nat)
    requires k <= |ps| == |shuffled| && Distinct(ps)
    ensures forall p :: p in FirstPass(ps, shuffled, k) <==> p in ps[..k]
    ensures forall i :: 0 <= i < k ==> FirstPass(ps, shuffled, k)[ps[i]] == FirstTarget(ps, shuffled, i)
  {
    if k > 0 {
      FirstPassShape(ps, shuffled, k - 1);
      var m := FirstPass(ps, shuffled, k);
      assert ps[..k] == ps[..k - 1] + [ps[k - 1]];
      forall i | 0 <= i < k
        ensures m[ps[i]] == FirstTarget(ps, shuffled, i)
      {
        if i < k - 1 {
          assert ps[i] != ps[k - 1];
        }
      }
    }
  }

  /** The first pass sets each participant exactly once, to its first-pass target. */
  lemma FirstPassComplete(ps: seq<Id>, shuffled: seq<Id>)
    requires |ps| == |shuffled| && Distinct(ps)
    ensures forall p :: p in FirstPass(ps, shuffled, |ps|) <==> p in ps
    ensures forall i :: 0 <= i < |ps| ==> FirstPass(ps, shuffled, |ps|)[ps[i]] == FirstTarget(ps, shuffled, i)
  {
    FirstPassShape(ps, shuffled, |ps|);
    assert ps[..|ps|] == ps;
  }

  // ---------------------------------------------------------------------------
  // Multiset facts relating the shuffled copy to the participants
  // ---------------------------------------------------------------------------

  lemma {:induction false} DistinctCountsAtMostOne(s: seq<Id>, x: Id)
    requires Distinct(s)
    ensures multiset(s)[x] <= 1
  {
    if s != [] {
      assert s == [s[0]] + s[1..];
      assert Distinct(s[1..]);
      DistinctCountsAtMostOne(s[1..], x);
      if x == s[0] {
        assert x !in s[1..];
      }
    }
  }

  /** A rearrangement of distinct ids is distinct. */
  lemma PermutationDistinct(ps: seq<Id>, shuffled: seq<Id>)
    requires Distinct(ps) && multiset(shuffled) == multiset(ps)
    ensures Distinct(shuffled)
  {
    forall i, j | 0 <= i < j < |shuffled|
      ensures shuffled[i] != shuffled[j]
    {
      if shuffled[i] == shuffled[j] {
        RepeatCounts(shuffled, i, j);
        DistinctCountsAtMostOne(ps, shuffled[i]);
        assert false;
      }
    }
  }

  // ---------------------------------------------------------------------------
  // Second pass: swap targets to clear a fixed point (lines 33-44)
  // ---------------------------------------------------------------------------

  /** The inner search from position `j`: the first entry `(otherId, otherAssigned)` with
      `otherId != p` and `otherAssigned != p`. */
  function PartnerFrom(ps: seq<Id>, m: map<Id, Id>, p: Id, j: nat): (r: Option<nat>)
    requires j <= |ps| && CoversKeys(ps, m)
    ensures r.Some? ==> j <= r.value < |ps| && ps[r.value] != p && m[ps[r.value]] != p
    ensures r.Some? ==> forall k :: j <= k < r.value ==> ps[k] == p || m[ps[k]] == p
    ensures r.None? ==> forall k :: j <= k < |ps| ==> ps[k] == p || m[ps[k]] == p
    decreases |ps| - j
  {
    if j == |ps| then None
    else if ps[j] != p && m[ps[j]] != p then Some(j)
    else PartnerFrom(ps, m, p, j + 1)
  }

  /** `assignments.set(participantId, otherAssigned); assignments.set(otherId, assignedToId)`. */
  function SwapTargets(m: map<Id, Id>, p: Id, o: Id): (r: map<Id, Id>)
    requires p in m && o in m
    ensures r.Keys == m.Keys
    ensures r[p] == m[o] && r[o] == m[p]
    ensures forall q :: q in m && q != p && q != o ==> r[q] == m[q]
  {
    m[p := m[o]][o := m[p]]
  }

  /** A swap with a valid partner clears the fixed point `p`, creates none, changes only `p`
      and `o`, and keeps the set of values. */
  lemma SwapClearsFixedPoint(m: map<Id, Id>, p: Id, o: Id)
    requires p in m && o in m && m[p] == p
    requires o != p && m[o] != p
    ensures SwapTargets(m, p, o)[p] != p && SwapTargets(m, p, o)[o] != o
    ensures SwapTargets(m, p, o)[p] == m[o] && SwapTargets(m, p, o)[o] == m[p]
    ensures forall q :: q in m && q != p && q != o ==> SwapTargets(m, p, o)[q] == m[q]
    ensures forall q :: q in m && SwapTargets(m, p, o)[q] == q ==> m[q] == q
  {
  }

  /** The targets in the participants' order. */
  function Targets(ps: seq<Id>, m: map<Id, Id>): (r: seq<Id>)
    requires CoversKeys(ps, m)
    ensures |r| == |ps| && forall i :: 0 <= i < |ps| ==> r[i] == m[ps[i]]
  {
    seq(|ps|, i requires 0 <= i < |ps| => m[ps[i]])
  }

  /** The swap keeps the multiset of targets. */
  lemma SwapKeepsTargets(ps: seq<Id>, m: map<Id, Id>, ip: nat, io: nat)
    requires Distinct(ps) && CoversKeys(ps, m) && ip < |ps| && io < |ps|
    ensures multiset(Targets(ps, SwapTargets(m, ps[ip], ps[io]))) == multiset(Targets(ps, m))
  {
    var t := Targets(ps, m);
    var t' := Targets(ps, SwapTargets(m, ps[ip], ps[io]));
    assert t' == SwapAt(t, ip, io);
    SwapAtPermutes(t, ip, io);
  }

  /** The outer loop of the second pass from position `k` on. */
  function SecondPassFrom(ps: seq<Id>, m: map<Id, Id>, k: nat): (r: map<Id, Id>)
    requires k <= |ps| && CoversKeys(ps, m)
    ensures r.Keys == m.Keys
    decreases |ps| - k
  {
    if k == |ps| then m
    else
      var p := ps[k];
      if m[p] == p then
        match PartnerFrom(ps, m, p, 0)
        case Some(j) => SecondPassFrom(ps, SwapTargets(m, p, ps[j]), k + 1)
        case None => SecondPassFrom(ps, m, k + 1)
      else SecondPassFrom(ps, m, k + 1)
  }

  /** The second pass never creates a fixed point, keeps values among the participants,
      and keeps the multiset of targets. */
  lemma {:induction false} SecondPassPreserves(ps: seq<Id>, m: map<Id, Id>, k: nat)
    requires k <= |ps| && CoversKeys(ps, m) && Distinct(ps)
    ensures forall q :: q in m && SecondPassFrom(ps, m, k)[q] == q ==> m[q] == q
    ensures ValuesIn(ps, m) ==> ValuesIn(ps, SecondPassFrom(ps, m, k))
    ensures multiset(Targets(ps, SecondPassFrom(ps, m, k))) == multiset(Targets(ps, m))
    decreases |ps| - k
  {
    if k < |ps| {
      var p := ps[k];
      if m[p] == p {
        match PartnerFrom(ps, m, p, 0)
        case Some(j) =>
          var m' := SwapTargets(m, p, ps[j]);
          SwapClearsFixedPoint(m, p, ps[j]);
          SwapKeepsTargets(ps, m, k, j);
          SecondPassPreserves(ps, m', k + 1);
        case None =>
          SecondPassPreserves(ps, m, k + 1);
      } else {
        SecondPassPreserves(ps, m, k + 1);
      }
    }
  }

  /** Without fixed points the second pass changes nothing. */
  lemma {:induction false} SecondPassIdle(ps: seq<Id>, m: map<Id, Id>, k: nat)
    requires k <= |ps| && CoversKeys(ps, m) && NoFixedPoint(m)
    ensures SecondPassFrom(ps, m, k) == m
    decreases |ps| - k
  {
    if k < |ps| {
      SecondPassIdle(ps, m, k + 1);
    }
  }

  // ---------------------------------------------------------------------------
  // The whole generator
  // ---------------------------------------------------------------------------

  /** The mapping built from the participants and a shuffled copy of them. */
  function Assign(ps: seq<Id>, shuffled: seq<Id>): map<Id, Id>
    requires |ps| == |shuffled| && Distinct(ps)
  {
    FirstPassComplete(ps, shuffled);
    SecondPassFrom(ps, FirstPass(ps, shuffled, |ps|), 0)
  }

  /** `shuffleAssignments` as a function of the participants and the random draws. */
  function Generate(ps: seq<Id>, picks: seq<nat>): (r: Result<map<Id, Id>>)
    requires Distinct(ps) && ValidPicks(picks, |ps|)
    ensures r.Err? <==> |ps| < 2
    ensures r.Err? ==> r.message == TooFewMessage
    ensures r.Ok? ==> forall p :: p in r.value <==> p in ps
  {
    if |ps| < 2 then Err(TooFewMessage)
    else
      FisherYatesPermutes(ps, picks);
      AssignKeysAndValues(ps, FisherYates(ps, picks));
      Ok(Assign(ps, FisherYates(ps, picks)))
  }

  /** With at least three distinct entries, `shuffled[i - 1]` and `shuffled[i + 1]` are different,
      so the repair never picks the participant itself. */
  lemma FirstTargetNotSelf(ps: seq<Id>, shuffled: seq<Id>, i: nat)
    requires Distinct(shuffled) && |ps| == |shuffled| >= 3 && i < |ps|
    ensures FirstTarget(ps, shuffled, i) != ps[i]
  {
    var n := |ps|;
    if ps[i] == shuffled[Next(i, n)] {
      assert Prev(i, n) != Next(i, n);
    }
  }

  /** With at least three distinct participants the first pass leaves no one on themselves. */
  lemma FirstPassNoFixedPoint(ps: seq<Id>, shuffled: seq<Id>)
    requires Distinct(ps) && |ps| == |shuffled| && multiset(shuffled) == multiset(ps) && |ps| >= 3
    ensures NoFixedPoint(FirstPass(ps, shuffled, |ps|))
  {
    PermutationDistinct(ps, shuffled);
    FirstPassComplete(ps, shuffled);
    var m := FirstPass(ps, shuffled, |ps|);
    forall p | p in m ensures m[p] != p {
      var i :| 0 <= i < |ps| && ps[i] == p;
      FirstTargetNotSelf(ps, shuffled, i);
    }
  }

  /** The first pass only uses entries of the shuffled copy, which are participants. */
  lemma FirstPassValues(ps: seq<Id>, shuffled: seq<Id>)
    requires Distinct(ps) && |ps| == |shuffled| && multiset(shuffled) == multiset(ps)
    ensures ValuesIn(ps, FirstPass(ps, shuffled, |ps|))
  {
    FirstPassComplete(ps, shuffled);
    var m := FirstPass(ps, shuffled, |ps|);
    forall p | p in m ensures m[p] in ps {
      var i :| 0 <= i < |ps| && ps[i] == p;
      var v := FirstTarget(ps, shuffled, i);
      assert v in shuffled;
      assert v in multiset(shuffled);
    }
  }

  /** A map whose keys are `a` and `b` is given by its two values. */
  lemma TwoKeyMap(m: map<Id, Id>, a: Id, b: Id)
    requires forall p :: p in m <==> p in [a, b]
    ensures m == map[a := m[a], b := m[b]]
  {
  }

  /** [a, b] shuffled to itself: the rotation pairs a with b and b with a. */
  lemma TwoInOrder(a: Id, b: Id)
    requires a != b
    ensures Assign([a, b], [a, b]) == map[a := b, b := a]
  {
    var ps := [a, b];
    FirstPassComplete(ps, ps);
    var first := FirstPass(ps, ps, 2);
    assert first[a] == FirstTarget(ps, ps, 0) == b;
    assert first[b] == FirstTarget(ps, ps, 1) == a;
    TwoKeyMap(first, a, b);
    SecondPassIdle(ps, first, 0);
  }

  /** [a, b] shuffled to [b, a]: the first pass leaves both on themselves, and the second pass
      swaps a's target with b's. */
  lemma TwoReversed(a: Id, b: Id)
    requires a != b
    ensures Assign([a, b], [b, a]) == map[a := b, b := a]
  {
    var ps := [a, b];
    var sh := [b, a];
    FirstPassComplete(ps, sh);
    var first := FirstPass(ps, sh, 2);
    assert first[a] == FirstTarget(ps, sh, 0) == a;
    assert first[b] == FirstTarget(ps, sh, 1) == b;
    TwoKeyMap(first, a, b);
    assert PartnerFrom(ps, first, a, 0) == Some(1);
    var swapped := SwapTargets(first, a, b);
    TwoKeyMap(swapped, a, b);
    assert SecondPassFrom(ps, first, 0) == SecondPassFrom(ps, swapped, 1);
    SecondPassIdle(ps, swapped, 1);
  }

  /** Two distinct participants are always paired with each other, whatever the shuffle. */
  lemma TwoParticipantsSwap(a: Id, b: Id, shuffled: seq<Id>)
    requires a != b && |shuffled| == 2 && multiset(shuffled) == multiset([a, b])
    ensures Assign([a, b], shuffled) == map[a := b, b := a]
  {
    PermutationDistinct([a, b], shuffled);
    assert shuffled[0] in multiset(shuffled) && shuffled[1] in multiset(shuffled);
    if shuffled[0] == a {
      assert shuffled == [a, b];
      TwoInOrder(a, b);
    } else {
      assert shuffled == [b, a];
      TwoReversed(a, b);
    }
  }

  /** No participant is left assigned to itself. */
  lemma AssignNoFixedPoint(ps: seq<Id>, shuffled: seq<Id>)
    requires Distinct(ps) && |ps| == |shuffled| && multiset(shuffled) == multiset(ps) && |ps| >= 2
    ensures NoFixedPoint(Assign(ps, shuffled))
  {
    if |ps| == 2 {
      assert ps == [ps[0], ps[1]];
      TwoParticipantsSwap(ps[0], ps[1], shuffled);
    } else {
      FirstPassNoFixedPoint(ps, shuffled);
      FirstPassComplete(ps, shuffled);
      SecondPassIdle(ps, FirstPass(ps, shuffled, |ps|), 0);
    }
  }

  /** The result's keys are exactly the participants and every value is a participant. */
  lemma AssignKeysAndValues(ps: seq<Id>, shuffled: seq<Id>)
    requires Distinct(ps) && |ps| == |shuffled| && multiset(shuffled) == multiset(ps)
    ensures forall p :: p in Assign(ps, shuffled) <==> p in ps
    ensures ValuesIn(ps, Assign(ps, shuffled))
  {
    FirstPassValues(ps, shuffled);
    FirstPassComplete(ps, shuffled);
    SecondPassPreserves(ps, FirstPass(ps, shuffled, |ps|), 0);
  }

  /** Without a participant meeting itself at the next position, the first pass is the rotation. */
  lemma RotationFirstPass(ps: seq<Id>, shuffled: seq<Id>)
    requires Distinct(ps) && |ps| == |shuffled| >= 1
    requires forall i :: 0 <= i < |ps| ==> ps[i] != shuffled[Next(i, |ps|)]
    ensures forall i :: 0 <= i < |ps| ==>
      ps[i] in FirstPass(ps, shuffled, |ps|) && FirstPass(ps, shuffled, |ps|)[ps[i]] == shuffled[Next(i, |ps|)]
  {
    FirstPassComplete(ps, shuffled);
  }

  /** ... and so it leaves no one on themselves. */
  lemma RotationNoFixedPoint(ps: seq<Id>, shuffled: seq<Id>)
    requires Distinct(ps) && |ps| == |shuffled| >= 1
    requires forall i :: 0 <= i < |ps| ==> ps[i] != shuffled[Next(i, |ps|)]
    ensures NoFixedPoint(FirstPass(ps, shuffled, |ps|))
  {
    FirstPassComplete(ps, shuffled);
    RotationFirstPass(ps, shuffled);
    var m := FirstPass(ps, shuffled, |ps|);
    forall p | p in m
      ensures m[p] != p
    {
      var i :| 0 <= i < |ps| && ps[i] == p;
    }
  }

  /** Distinct positions have distinct successors. */
  lemma NextInjective(i: nat, j: nat, n: nat)
    requires i < n && j < n && i != j
    ensures Next(i, n) != Next(j, n)
  {
  }

  /** When no participant meets itself at `shuffled[(i + 1) % n]`, no repair fires and the
      result is the rotation of the shuffled copy: a bijection without fixed points. */
  lemma RotationIsBijection(ps: seq<Id>, shuffled: seq<Id>)
    requires Distinct(ps) && |ps| == |shuffled| && multiset(shuffled) == multiset(ps) && |ps| >= 2
    requires forall i :: 0 <= i < |ps| ==> ps[i] != shuffled[Next(i, |ps|)]
    ensures forall i :: 0 <= i < |ps| ==> ps[i] in Assign(ps, shuffled) && Assign(ps, shuffled)[ps[i]] == shuffled[Next(i, |ps|)]
    ensures Injective(Assign(ps, shuffled))
  {
    var n := |ps|;
    PermutationDistinct(ps, shuffled);
    FirstPassComplete(ps, shuffled);
    RotationFirstPass(ps, shuffled);
    RotationNoFixedPoint(ps, shuffled);
    var m := FirstPass(ps, shuffled, n);
    SecondPassIdle(ps, m, 0);
    forall p, q | p in m && q in m && p != q
      ensures m[p] != m[q]
    {
      var i :| 0 <= i < n && ps[i] == p;
      var j :| 0 <= j < n && ps[j] == q;
      NextInjective(i, j, n);
    }
  }

  /** The draws 2 at step 2 and 0 at step 1 shuffle [a, b, c] into [b, a, c]. */
  lemma ExampleShuffle(a: Id, b: Id, c: Id)
    ensures FisherYates([a, b, c], [0, 0, 2]) == [b, a, c]
  {
    var ps := [a, b, c];
    var picks: seq<nat> := [0, 0, 2];
    assert ValidPicks(picks, 3);
    assert SwapAt(ps, 2, 2) == ps;
    var s := SwapAt(ps, 1, 0);
    assert s == [b, a, c];
    assert ShuffledFrom(s, picks, 1) == s;
    assert ShuffledFrom(ps, picks, 2) == s;
    assert ShuffledFrom(ps, picks, 3) == ShuffledFrom(ps, picks, 2);
  }

  /** A map whose keys are `a`, `b` and `c` is given by its three values. */
  lemma ThreeKeyMap(m: map<Id, Id>, a: Id, b: Id, c: Id)
    requires forall p :: p in m <==> p in [a, b, c]
    ensures m == map[a := m[a], b := m[b], c := m[c]]
  {
  }

  /** The first-pass targets for [a, b, c] shuffled to [b, a, c]: a meets itself at position 1
      and is repaired to position 2. */
  lemma ExampleTargets(a: Id, b: Id, c: Id)
    requires Distinct([a, b, c])
    ensures FirstTarget([a, b, c], [b, a, c], 0) == c
    ensures FirstTarget([a, b, c], [b, a, c], 1) == c
    ensures FirstTarget([a, b, c], [b, a, c], 2) == b
  {
    var ps := [a, b, c];
    assert ps[0] == a && ps[1] == b && ps[2] == c;
  }

  /** So the first pass gives a -> c, b -> c, c -> b, which has no fixed point. */
  lemma ExampleFirstPass(a: Id, b: Id, c: Id)
    requires Distinct([a, b, c])
    ensures FirstPass([a, b, c], [b, a, c], 3) == map[a := c, b := c, c := b]
  {
    var ps := [a, b, c];
    var sh := [b, a, c];
    FirstPassComplete(ps, sh);
    ExampleTargets(a, b, c);
    assert ps[0] == a && ps[1] == b && ps[2] == c;
    ThreeKeyMap(FirstPass(ps, sh, 3), a, b, c);
  }

  /** The code does not guarantee a bijection: any three participants [a, b, c] shuffled to
      [b, a, c] give a -> c (first-pass repair), b -> c and c -> b. */
  lemma NotInjectiveExample(a: Id, b: Id, c: Id)
    requires Distinct([a, b, c])
    ensures Generate([a, b, c], [0, 0, 2]) == Ok(map[a := c, b := c, c := b])
    ensures !Injective(map[a := c, b := c, c := b])
  {
    var ps := [a, b, c];
    var first := map[a := c, b := c, c := b];
    ExampleShuffle(a, b, c);
    ExampleFirstPass(a, b, c);
    assert ps[0] == a && ps[1] == b && ps[2] == c;
    SecondPassIdle(ps, first, 0);
  }

  // ---------------------------------------------------------------------------
  // Corrected pairing: follow the shuffled cycle
  // ---------------------------------------------------------------------------

  /** Each person gives to the next one in the shuffled copy, wrapping round: the single cycle
      `shuffled[0] -> shuffled[1] -> ... -> shuffled[n - 1] -> shuffled[0]`. */
  function CycleAssign(shuffled: seq<Id>): (r: map<Id, Id>)
    requires Distinct(shuffled)
    ensures forall p :: p in r <==> p in shuffled
  {
    map i | 0 <= i < |shuffled| :: shuffled[i] := shuffled[Next(i, |shuffled|)]
  }

  lemma CycleLookup(shuffled: seq<Id>, i: nat)
    requires Distinct(shuffled) && i < |shuffled|
    ensures CycleAssign(shuffled)[shuffled[i]] == shuffled[Next(i, |shuffled|)]
  {
    var m := CycleAssign(shuffled);
    var k :| 0 <= k < |shuffled| && shuffled[k] == shuffled[i] && m[shuffled[i]] == shuffled[Next(k, |shuffled|)];
    assert k == i;
  }

  lemma CycleReceives(shuffled: seq<Id>, i: nat)
    requires Distinct(shuffled) && i < |shuffled|
    ensures CycleAssign(shuffled)[shuffled[Prev(i, |shuffled|)]] == shuffled[i]
  {
    var j := Prev(i, |shuffled|);
    CycleLookup(shuffled, j);
    assert Next(j, |shuffled|) == i;
  }

  lemma CycleKeysAndValues(ps: seq<Id>, shuffled: seq<Id>)
    requires Distinct(shuffled) && |shuffled| >= 2 && multiset(shuffled) == multiset(ps)
    ensures forall p :: p in CycleAssign(shuffled) <==> p in ps
    ensures ValuesIn(ps, CycleAssign(shuffled))
    ensures NoFixedPoint(CycleAssign(shuffled))
  {
    var n := |shuffled|;
    var m := CycleAssign(shuffled);
    forall p | p in m
      ensures m[p] in ps && m[p] != p
    {
      var i :| 0 <= i < n && shuffled[i] == p;
      CycleLookup(shuffled, i);
      assert shuffled[Next(i, n)] in multiset(ps);
    }
    forall p
      ensures p in m <==> p in ps
    {
      assert p in shuffled <==> p in multiset(ps);
    }
  }

  lemma CycleInjective(shuffled: seq<Id>)
    requires Distinct(shuffled)
    ensures Injective(CycleAssign(shuffled))
  {
    var n := |shuffled|;
    var m := CycleAssign(shuffled);
    forall p, q | p in m && q in m && p != q
      ensures m[p] != m[q]
    {
      var i :| 0 <= i < n && shuffled[i] == p;
      var j :| 0 <= j < n && shuffled[j] == q;
      CycleLookup(shuffled, i);
      CycleLookup(shuffled, j);
      NextInjective(i, j, n);
    }
  }

  /** The cycle is a permutation of the participants without fixed points: every participant
      gives to exactly one other and receives from exactly one other. */
  lemma CycleIsDerangement(ps: seq<Id>, shuffled: seq<Id>)
    requires Distinct(shuffled) && |shuffled| >= 2 && multiset(shuffled) == multiset(ps)
    ensures forall p :: p in CycleAssign(shuffled) <==> p in ps
    ensures ValuesIn(ps, CycleAssign(shuffled))
    ensures NoFixedPoint(CycleAssign(shuffled))
    ensures Injective(CycleAssign(shuffled))
    ensures forall i :: 0 <= i < |shuffled| ==> CycleAssign(shuffled)[shuffled[Prev(i, |shuffled|)]] == shuffled[i]
  {
    CycleKeysAndValues(ps, shuffled);
    CycleInjective(shuffled);
    forall i | 0 <= i < |shuffled|
      ensures CycleAssign(shuffled)[shuffled[Prev(i, |shuffled|)]] == shuffled[i]
    {
      CycleReceives(shuffled, i);
    }
  }

  // ---------------------------------------------------------------------------
  // The imperative routine
  // ---------------------------------------------------------------------------

  /** The first loop (lines 18-30): pair participant `i` with `shuffled[(i + 1) % n]`,
      or with `shuffled[(i - 1 + n) % n]` when that would be the participant itself. */
  method PairWithNext(participants: seq<Id>, shuffled: seq<Id>) returns (assignments: map<Id, Id>)
    requires Distinct(participants) && |participants| == |shuffled| >= 1
    ensures assignments == FirstPass(participants, shuffled, |participants|)
    ensures forall p :: p in assignments <==> p in participants
  {
    var n := |participants|;
    assignments := map[];
    for i := 0 to n
      invariant assignments == FirstPass(participants, shuffled, i)
    {
      var participant := participants[i];
      var assignedTo := shuffled[(i + 1) % |shuffled|];
      assert (i + 1) % |shuffled| == Next(i, n);
      if participant == assignedTo {
        var prevIndex := (i - 1 + n) % n;
        assert prevIndex == Prev(i, n);
        assignments := assignments[participant := shuffled[prevIndex]];
      } else {
        assignments := assignments[participant := assignedTo];
      }
    }
    FirstPassComplete(participants, shuffled);
  }

  /** The second loop (lines 33-44): for each entry that maps a participant to itself, swap
      targets with the first other entry whose key and value both differ from it. */
  method ClearFixedPoints(participants: seq<Id>, first: map<Id, Id>) returns (assignments: map<Id, Id>)
    requires CoversKeys(participants, first)
    ensures assignments == SecondPassFrom(participants, first, 0)
    ensures assignments.Keys == first.Keys
  {
    var n := |participants|;
    assignments := first;
    for k := 0 to n
      invariant CoversKeys(participants, assignments)
      invariant SecondPassFrom(participants, assignments, k) == SecondPassFrom(participants, first, 0)
    {
      var participantId := participants[k];
      var assignedToId := assignments[participantId];
      if participantId == assignedToId {
        ghost var before := assignments;
        var j := 0;
        while j < n
          invariant j <= n && assignments == before
          invariant PartnerFrom(participants, before, participantId, j) == PartnerFrom(participants, before, participantId, 0)
        {
          var otherId := participants[j];
          var otherAssigned := assignments[otherId];
          if otherId != participantId && otherAssigned != participantId {
            assignments := assignments[participantId := otherAssigned];
            assignments := assignments[otherId := assignedToId];
            break;
          }
          j := j + 1;
        }
      }
    }
  }

  /** `shuffleAssignments(participants)` with the random draws injected as `picks`. */
  method ShuffleAssignments(participants: seq<Id>, picks: seq<nat>) returns (r: Result<map<Id, Id>>)
    requires Distinct(participants) && ValidPicks(picks, |participants|)
    ensures r == Generate(participants, picks)
    ensures r.Err? <==> |participants| < 2
    ensures r.Err? ==> r.message == TooFewMessage
    ensures r.Ok? ==> forall p :: p in r.value <==> p in participants
    ensures r.Ok? ==> ValuesIn(participants, r.value)
    ensures r.Ok? ==> NoFixedPoint(r.value)
  {
    if |participants| < 2 {
      return Err(TooFewMessage);
    }
    var shuffled := ShuffleCopy(participants, picks);
    var first := PairWithNext(participants, shuffled);
    var assignments := ClearFixedPoints(participants, first);
    r := Ok(assignments);
    AssignKeysAndValues(participants, shuffled);
    AssignNoFixedPoint(participants, shuffled);
  }
}
