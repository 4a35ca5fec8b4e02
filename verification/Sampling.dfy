/** The two sampling schemes of the priority queue's random subset, as functions of the sequence of
    random draws. `None` means that the draws ran out before the scheme finished. */
module Sampling {
  import opened Common

  /** Rejection sampling: a draw that hits an already chosen value is thrown away. */
  function Reject<V(==)>(values: seq<V>, n: nat, draws: seq<nat>, chosen: seq<V>): (r: Option<seq<V>>)
    requires values != []
    decreases |draws|
  {
    if |chosen| >= n then Some(chosen)
    else if draws == [] then None
    else
      var v := values[draws[0] % |values|];
      Reject(values, n, draws[1..], if v in chosen then chosen else chosen + [v])
  }

  /** Element `i` replaces slot `j` if that slot exists. */
  function Replaced<V>(values: seq<V>, kept: seq<V>, i: nat, j: nat): (r: seq<V>)
    requires i < |values|
    ensures |r| == |kept|
  {
    if j < |kept| then kept[j := values[i]] else kept
  }

  /** Reservoir sampling: element `i` replaces slot `draw % (i + 1)` if that slot exists. */
  function Reservoir<V>(values: seq<V>, kept: seq<V>, i: nat, draws: seq<nat>): (r: Option<seq<V>>)
    requires |kept| <= i <= |values|
    decreases |values| - i
  {
    if i == |values| then Some(kept)
    else if draws == [] then None
    else
      var j := draws[0] % (i + 1);
      Reservoir(values, Replaced(values, kept, i, j), i + 1, draws[1..])
  }

  function Sample<V(==)>(values: seq<V>, n: int, draws: seq<nat>): (r: Option<seq<V>>) {
    if n <= 0 || values == [] then Some([])
    else if n >= |values| then Some(values)
    else if n <= |values| / 2 then Reject(values, n, draws, [])
    else Reservoir(values, values[..n], n, draws)
  }

  lemma SmallMod(i: nat, n: nat)
    requires i < n
    ensures i % n == i
  {}

  /** A selection of `n` different members. */
  ghost predicate IsSelection<V(!new)>(values: seq<V>, n: nat, r: seq<V>) {
    |r| == n && Distinct(r) && forall i :: 0 <= i < |r| ==> r[i] in values
  }

  lemma {:induction false} RejectSelects<V(!new)>(values: seq<V>, n: nat, draws: seq<nat>, chosen: seq<V>)
    requires values != [] && |chosen| <= n && IsSelection(values, |chosen|, chosen)
    ensures var r := Reject(values, n, draws, chosen); r.Some? ==> IsSelection(values, n, r.value)
    decreases |draws|
  {
    if |chosen| < n && draws != [] {
      var v := values[draws[0] % |values|];
      RejectSelects(values, n, draws[1..], if v in chosen then chosen else chosen + [v]);
    }
  }

  /** Replacing one kept element by the next one leaves a selection. */
  lemma ReplaceSelects<V(!new)>(values: seq<V>, kept: seq<V>, i: nat, j: nat)
    requires |kept| <= i < |values| && Distinct(values) && IsSelection(values[..i], |kept|, kept)
    ensures IsSelection(values[..i + 1], |kept|, Replaced(values, kept, i, j))
  {
    assert values[..i + 1] == values[..i] + [values[i]];
    assert forall k :: 0 <= k < |kept| ==> kept[k] in values[..i] && kept[k] != values[i];
  }

  lemma {:induction false} ReservoirSelects<V(!new)>(values: seq<V>, kept: seq<V>, i: nat, draws: seq<nat>)
    requires |kept| <= i <= |values| && Distinct(values)
    requires IsSelection(values[..i], |kept|, kept)
    ensures var r := Reservoir(values, kept, i, draws);
      && (r.Some? ==> IsSelection(values, |kept|, r.value))
      && (r.Some? <==> |draws| >= |values| - i)
    decreases |values| - i
  {
    hide IsSelection, Distinct;
    if i == |values| {
      assert values[..i] == values;
    } else if draws != [] {
      var j := draws[0] % (i + 1);
      ReplaceSelects(values, kept, i, j);
      ReservoirSelects(values, Replaced(values, kept, i, j), i + 1, draws[1..]);
    }
  }

  /** Whatever is drawn, what comes back is a selection of the requested size, cut to what is there. */
  lemma SampleSelects<V(!new)>(values: seq<V>, n: int, draws: seq<nat>)
    requires Distinct(values)
    ensures var r := Sample(values, n, draws);
      && (r.Some? ==> IsSelection(values, Min(Max(n, 0), |values|), r.value))
      && (n <= 0 || n >= |values| ==> r.Some?)
      && (|values| / 2 < n < |values| ==> (r.Some? <==> |draws| >= |values| - n))
  {
    if 0 < n < |values| {
      if n <= |values| / 2 {
        RejectSelects(values, n, draws, []);
      } else {
        ReservoirSelects(values, values[..n], n, draws);
      }
    }
  }

  /** Pigeonhole: fewer values chosen than there are leaves an index that is not a duplicate. */
  lemma FreshIndex<V(!new)>(values: seq<V>, chosen: seq<V>) returns (i: nat)
    requires Distinct(values) && |chosen| < |values|
    ensures i < |values| && values[i] !in chosen
  {
    if forall i :: 0 <= i < |values| ==> values[i] in chosen {
      var present, used := (set v | v in values), (set v | v in chosen);
      DistinctCardinality(values);
      ToSetShrinks(chosen);
      SubsetCardinality(present, used);
      assert false;
    }
    i :| 0 <= i < |values| && values[i] !in chosen;
  }

  lemma ToSetShrinks<V(!new)>(s: seq<V>)
    ensures |set v | v in s| <= |s|
  {
    if s != [] {
      var n := |s| - 1;
      ToSetShrinks(s[..n]);
      assert (set v | v in s) == (set v | v in s[..n]) + {s[n]};
    }
  }

  /** One useful draw of the rejection branch. */
  lemma RejectKeeps<V(!new)>(values: seq<V>, n: nat, i: nat, rest: seq<nat>, chosen: seq<V>)
    requires i < |values| && values[i] !in chosen && |chosen| < n
    ensures Reject(values, n, [i] + rest, chosen) == Reject(values, n, rest, chosen + [values[i]])
  {
    SmallMod(i, |values|);
    assert ([i] + rest)[1..] == rest;
  }

  /** The rejection branch can always finish: no run of unlucky draws leads to a dead end. */
  lemma {:induction false} RejectNeverStuck<V(!new)>(values: seq<V>, n: nat, draws: seq<nat>, chosen: seq<V>)
    returns (more: seq<nat>)
    requires Distinct(values) && values != [] && n <= |values|
    ensures Reject(values, n, draws + more, chosen).Some?
    decreases |draws|, n - |chosen|
  {
    if |chosen| >= n {
      more := [];
    } else if draws != [] {
      var v := values[draws[0] % |values|];
      more := RejectNeverStuck(values, n, draws[1..], if v in chosen then chosen else chosen + [v]);
      assert (draws + more)[1..] == draws[1..] + more;
    } else {
      var i := FreshIndex(values, chosen);
      var rest := RejectNeverStuck(values, n, [], chosen + [values[i]]);
      more := [i] + rest;
      RejectKeeps(values, n, i, rest, chosen);
      assert [] + rest == rest && draws + more == more;
    }
  }

  /** Every ordered selection is the outcome of some draws of the rejection branch. */
  lemma {:induction false} RejectReachesAll<V(!new)>(values: seq<V>, target: seq<V>, k: nat) returns (draws: seq<nat>)
    requires values != [] && IsSelection(values, |target|, target) && k <= |target|
    ensures Reject(values, |target|, draws, target[..k]) == Some(target)
    decreases |target| - k
  {
    if k == |target| {
      draws := [];
      assert target[..k] == target;
    } else {
      var i: nat :| i < |values| && values[i] == target[k];
      var rest := RejectReachesAll(values, target, k + 1);
      draws := [i] + rest;
      assert target[..k + 1] == target[..k] + [target[k]];
      assert target[k] !in target[..k];
      RejectKeeps(values, |target|, i, rest, target[..k]);
    }
  }

  /** One draw of the reservoir branch. */
  lemma ReservoirDraw<V(!new)>(values: seq<V>, kept: seq<V>, i: nat, j: nat, rest: seq<nat>)
    requires |kept| <= i < |values| && j <= i
    ensures Reservoir(values, kept, i, [j] + rest)
      == Reservoir(values, Replaced(values, kept, i, j), i + 1, rest)
  {
    SmallMod(j, i + 1);
    assert ([j] + rest)[1..] == rest;
  }

  /** Some slot can be given up: if the next element is wanted, one of the kept ones is not. */
  lemma SpareSlot<V(!new)>(values: seq<V>, kept: seq<V>, i: nat, target: set<V>) returns (j: nat)
    requires |kept| <= i < |values| && Distinct(values)
    requires IsSelection(values[..i], |kept|, kept) && |target| == |kept|
    ensures j <= i
    ensures values[i] in target ==> j < |kept| && kept[j] !in target
    ensures values[i] !in target ==> j == i
  {
    j := i;
    if values[i] in target {
      var held := set v | v in kept;
      DistinctCardinality(kept);
      assert values[i] !in values[..i];
      if held <= target {
        SubsetCardinality(held, target);
        assert false;
      }
      var y :| y in held && y !in target;
      j :| 0 <= j < |kept| && kept[j] == y;
    }
  }

  lemma StillThere<V(!new)>(values: seq<V>, kept: seq<V>, i: nat, j: nat, target: set<V>, v: V)
    requires |kept| <= i < |values| && v in target && (v in kept || v in values[i..])
    requires values[i] in target ==> j < |kept| && kept[j] !in target
    requires values[i] !in target ==> j == i
    ensures v in Replaced(values, kept, i, j) || v in values[i + 1..]
  {
    if v in kept {
      var k :| 0 <= k < |kept| && kept[k] == v;
      assert Replaced(values, kept, i, j)[k] == v;
    } else if v == values[i] {
      assert Replaced(values, kept, i, j)[j] == v;
    } else {
      assert values[i..] == [values[i]] + values[i + 1..];
    }
  }

  lemma NothingMissing<V(!new)>(values: seq<V>, kept: seq<V>, target: set<V>)
    requires IsSelection(values, |kept|, kept) && |target| == |kept|
    requires forall v :: v in target ==> v in kept
    ensures (set v | v in kept) == target
  {
    DistinctCardinality(kept);
    SubsetCardinality(target, set v | v in kept);
  }

  /** Every set of the right size is the outcome of some draws of the reservoir branch. */
  lemma {:induction false} ReservoirReachesAll<V(!new)>(values: seq<V>, kept: seq<V>, i: nat, target: set<V>)
    returns (draws: seq<nat>)
    requires |kept| <= i <= |values| && Distinct(values)
    requires IsSelection(values[..i], |kept|, kept) && |target| == |kept|
    requires forall v :: v in target ==> v in kept || v in values[i..]
    ensures var r := Reservoir(values, kept, i, draws); r.Some? && (set v | v in r.value) == target
    decreases |values| - i
  {
    hide IsSelection, Distinct, Replaced;
    if i == |values| {
      draws := [];
      assert values[..i] == values && values[i..] == [];
      NothingMissing(values, kept, target);
    } else {
      var j := SpareSlot(values, kept, i, target);
      ReplaceSelects(values, kept, i, j);
      forall v | v in target ensures v in Replaced(values, kept, i, j) || v in values[i + 1..] {
        StillThere(values, kept, i, j, target, v);
      }
      var rest := ReservoirReachesAll(values, Replaced(values, kept, i, j), i + 1, target);
      ReservoirDraw(values, kept, i, j, rest);
      draws := [j] + rest;
    }
  }

  lemma SetAsSequence<V(!new)>(t: set<V>) returns (s: seq<V>)
    ensures Distinct(s) && |s| == |t| && forall v :: v in s <==> v in t
  {
    s := [];
    if t != {} {
      var v :| v in t;
      var rest := SetAsSequence(t - {v});
      s := rest + [v];
    }
  }

  /** No subset is out of reach: each one of the requested size comes back for some draws. */
  lemma SampleReachesAll<V(!new)>(values: seq<V>, target: set<V>) returns (draws: seq<nat>)
    requires Distinct(values) && forall v :: v in target ==> v in values
    ensures var r := Sample(values, |target|, draws); r.Some? && (set v | v in r.value) == target
  {
    draws := [];
    var n := |target|;
    var all := set v | v in values;
    DistinctCardinality(values);
    SubsetCardinality(target, all);
    if 0 < n < |values| {
      if n <= |values| / 2 {
        var s := SetAsSequence(target);
        draws := RejectReachesAll(values, s, 0);
        assert s[..0] == [];
      } else {
        draws := ReservoirReachesAll(values, values[..n], n, target);
      }
    }
  }
}
