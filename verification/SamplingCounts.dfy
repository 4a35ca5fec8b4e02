/** How often the reservoir branch picks each subset: of all ways to draw, each subset of the requested
    size comes from the same number of them. */
module SamplingCounts {
  import opened Common
  import opened Sampling

  // ----- Only remainders matter -----

  function Remainders(draws: seq<nat>, i: nat): (r: seq<nat>)
    ensures |r| == |draws| && forall a :: 0 <= a < |r| ==> r[a] <= i + a && r[a] == draws[a] % (i + a + 1)
  {
    seq(|draws|, a requires 0 <= a < |draws| => draws[a] % (i + a + 1))
  }

  lemma {:induction false} OnlyRemaindersMatter<V(!new)>(values: seq<V>, kept: seq<V>, i: nat, draws: seq<nat>)
    requires |kept| <= i <= |values|
    ensures Reservoir(values, kept, i, draws) == Reservoir(values, kept, i, Remainders(draws, i))
    decreases |draws|
  {
    if i < |values| && draws != [] {
      var r := Remainders(draws, i);
      SmallMod(r[0], i + 1);
      OnlyRemaindersMatter(values, Replaced(values, kept, i, r[0]), i + 1, draws[1..]);
      assert r[1..] == Remainders(draws[1..], i + 1);
    }
  }

  // ----- What a list of slots leads to -----

  function Held<V>(s: seq<V>): (r: set<V>) {
    set x | x in s
  }

  /** What is kept after the elements from `n` on were offered the slots `v`, one after another. */
  function Kept<V>(values: seq<V>, n: nat, v: seq<nat>): (kept: seq<V>)
    requires n + |v| <= |values|
    ensures |kept| == n
  {
    if v == [] then values[..n]
    else
      var last := |v| - 1;
      Replaced(values, Kept(values, n, v[..last]), n + last, v[last])
  }

  lemma {:induction false} ReservoirGoesOn<V(!new)>(values: seq<V>, n: nat, v: seq<nat>, done: nat)
    requires n + |v| <= |values| && done <= |v| && forall a :: 0 <= a < |v| ==> v[a] <= n + a
    ensures Reservoir(values, Kept(values, n, v[..done]), n + done, v[done..]) == Reservoir(values, values[..n], n, v)
  {
    if done == 0 {
      assert v[..0] == [] && v[0..] == v;
    } else {
      var before := done - 1;
      ReservoirGoesOn(values, n, v, before);
      assert v[..done][..before] == v[..before] && v[before..][1..] == v[done..];
      SmallMod(v[before], n + before + 1);
    }
  }

  /** The reservoir branch, given one slot for each remaining element, returns what those slots lead to. */
  lemma ReservoirKeeps<V(!new)>(values: seq<V>, n: nat, v: seq<nat>)
    requires n + |v| == |values| && forall a :: 0 <= a < |v| ==> v[a] <= n + a
    ensures Reservoir(values, values[..n], n, v) == Some(Kept(values, n, v))
  {
    ReservoirGoesOn(values, n, v, |v|);
    assert v[..|v|] == v;
  }

  lemma FirstSelect<V(!new)>(values: seq<V>, n: nat)
    requires n <= |values| && Distinct(values)
    ensures IsSelection(values[..n], n, values[..n])
  {
    assert forall i :: 0 <= i < n ==> values[..n][i] in values[..n];
  }

  lemma {:induction false} KeptSelects<V(!new)>(values: seq<V>, n: nat, v: seq<nat>)
    requires n + |v| <= |values| && Distinct(values)
    ensures IsSelection(values[..n + |v|], n, Kept(values, n, v))
  {
    hide IsSelection, Distinct, Replaced;
    if v == [] {
      FirstSelect(values, n);
    } else {
      var last := |v| - 1;
      KeptSelects(values, n, v[..last]);
      ReplaceSelects(values, Kept(values, n, v[..last]), n + last, v[last]);
    }
  }

  // ----- Counting -----

  function Factorial(k: nat): (r: nat)
    ensures r > 0
  {
    if k == 0 then 1 else k * Factorial(k - 1)
  }

  /** All ways to draw for the elements from `n` up to `i`: element `k` draws a slot up to `k`. */
  ghost function Vectors(n: nat, i: nat): (r: set<seq<nat>>)
    requires n <= i
    ensures forall v :: v in r ==> |v| == i - n
    decreases i
  {
    if i == n then {[]} else set v, j: nat | v in Vectors(n, i - 1) && j < i :: v + [j]
  }

  lemma {:induction false} VectorsMeans(n: nat, i: nat, v: seq<nat>)
    requires n <= i
    ensures v in Vectors(n, i) <==> |v| == i - n && forall a :: 0 <= a < |v| ==> v[a] <= n + a
    decreases i
  {
    if i > n && |v| == i - n {
      var last := |v| - 1;
      VectorsMeans(n, i - 1, v[..last]);
      assert v == v[..last] + [v[last]];
      if v in Vectors(n, i) {
        var w, j: nat :| w in Vectors(n, i - 1) && j < i && v == w + [j];
        assert v[..last] == w && v[last] == j;
        assert forall a :: 0 <= a < last ==> v[..last][a] == v[a];
      }
    }
  }

  /** The ways to draw that lead to keeping exactly `target` of the first `i` values. */
  ghost function Leading<V>(values: seq<V>, n: nat, i: nat, target: set<V>): (r: set<seq<nat>>)
    requires n <= i <= |values|
  {
    set v | v in Vectors(n, i) && Held(Kept(values, n, v)) == target
  }

  /** Appending the same slot to each list. */
  ghost function AppendedOne(vs: set<seq<nat>>, j: nat): (r: set<seq<nat>>) {
    set v | v in vs :: v + [j]
  }

  lemma {:induction false} AppendedOneCount(vs: set<seq<nat>>, j: nat)
    ensures |AppendedOne(vs, j)| == |vs|
  {
    if vs != {} {
      var w :| w in vs;
      AppendedOneCount(vs - {w}, j);
      var fewer := AppendedOne(vs - {w}, j);
      assert AppendedOne(vs, j) == fewer + {w + [j]};
      forall v | v in vs - {w} ensures v + [j] != w + [j] {
        assert (v + [j])[..|v|] == v && (w + [j])[..|w|] == w;
      }
    }
  }

  /** Appending to each list every slot from `lo` up to, not including, `hi`. */
  ghost function Appended(vs: set<seq<nat>>, lo: nat, hi: nat): (r: set<seq<nat>>) {
    set v, j: nat | v in vs && lo <= j < hi :: v + [j]
  }

  lemma AppendedSplits(vs: set<seq<nat>>, lo: nat, hi: nat)
    requires lo < hi
    ensures Appended(vs, lo, hi) == Appended(vs, lo, hi - 1) + AppendedOne(vs, hi - 1)
    ensures Appended(vs, lo, hi - 1) !! AppendedOne(vs, hi - 1)
  {
    var all, fewer, last := Appended(vs, lo, hi), Appended(vs, lo, hi - 1), AppendedOne(vs, hi - 1);
    forall u | u in fewer ensures u !in last {
      assert u[|u| - 1] != hi - 1;
    }
    forall u | u in all ensures u in fewer + last {
      var v, j: nat :| v in vs && lo <= j < hi && u == v + [j];
      if j < hi - 1 {
        assert v + [j] in fewer;
      }
    }
  }

  lemma {:induction false} AppendedCount(vs: set<seq<nat>>, lo: nat, hi: nat)
    requires lo <= hi
    ensures |Appended(vs, lo, hi)| == |vs| * (hi - lo)
    decreases hi
  {
    hide Appended, AppendedOne;
    if lo == hi {
      NothingAppended(vs, lo);
    } else {
      AppendedCount(vs, lo, hi - 1);
      AppendedOneCount(vs, hi - 1);
      AppendedSplits(vs, lo, hi);
      OneMore(|vs|, hi - 1 - lo, hi - lo);
    }
  }

  lemma NothingAppended(vs: set<seq<nat>>, lo: nat)
    ensures Appended(vs, lo, lo) == {}
  {}

  lemma OneMore(a: nat, b: nat, c: nat)
    requires c == b + 1
    ensures a * c == a * b + a
  {}

  /** Appending to each list one slot of its own. */
  ghost function Continued(vs: set<seq<nat>>, slot: seq<nat> -> nat): (r: set<seq<nat>>) {
    set v | v in vs :: v + [slot(v)]
  }

  lemma {:induction false} ContinuedCount(vs: set<seq<nat>>, slot: seq<nat> -> nat)
    ensures |Continued(vs, slot)| == |vs|
  {
    if vs != {} {
      var w :| w in vs;
      ContinuedCount(vs - {w}, slot);
      var fewer := Continued(vs - {w}, slot);
      assert Continued(vs, slot) == fewer + {w + [slot(w)]};
      forall v | v in vs - {w} ensures v + [slot(v)] != w + [slot(w)] {
        assert (v + [slot(v)])[..|v|] == v && (w + [slot(w)])[..|w|] == w;
      }
    }
  }

  // ----- The last element is not kept -----

  lemma HeldReplaced<V(!new)>(values: seq<V>, kept: seq<V>, i: nat, j: nat)
    requires i < |values| && Distinct(kept) && values[i] !in kept
    ensures Held(Replaced(values, kept, i, j))
      == if j < |kept| then Held(kept) - {kept[j]} + {values[i]} else Held(kept)
  {
    if j < |kept| {
      var r := Replaced(values, kept, i, j);
      forall x | x in Held(kept) - {kept[j]} + {values[i]} ensures x in r {
        if x == values[i] {
          assert r[j] == x;
        } else {
          var k :| 0 <= k < |kept| && kept[k] == x;
          assert r[k] == x;
        }
      }
      forall x | x in r ensures x in Held(kept) - {kept[j]} + {values[i]} {
        var k :| 0 <= k < |r| && r[k] == x;
        if k != j {
          assert kept[k] == x && kept[k] != kept[j];
        }
      }
    }
  }

  /** What one more draw does to what is kept. */
  lemma OneMoreDraw<V(!new)>(values: seq<V>, n: nat, i: nat, v: seq<nat>, j: nat)
    requires n <= i < |values| && Distinct(values) && v in Vectors(n, i)
    ensures var kept := Kept(values, n, v);
      && Kept(values, n, v + [j]) == Replaced(values, kept, i, j)
      && |kept| == n && Distinct(kept) && values[i] !in kept && (forall x :: x in kept ==> x in values[..i])
      && Held(Replaced(values, kept, i, j))
        == (if j < n then Held(kept) - {kept[j]} + {values[i]} else Held(kept))
  {
    var kept := Kept(values, n, v);
    assert (v + [j])[..|v + [j]| - 1] == v;
    KeptSelects(values, n, v);
    assert forall k :: 0 <= k < |kept| ==> kept[k] in values[..i];
    HeldReplaced(values, kept, i, j);
  }

  lemma VectorSplits(n: nat, i: nat, u: seq<nat>)
    requires n <= i && u in Vectors(n, i + 1)
    ensures u != [] && u[..|u| - 1] in Vectors(n, i) && u[|u| - 1] <= i
    ensures u == u[..|u| - 1] + [u[|u| - 1]]
  {
    var v, j: nat :| v in Vectors(n, i) && j < i + 1 && u == v + [j];
    assert u[..|u| - 1] == v;
  }

  lemma LeadingStep<V(!new)>(values: seq<V>, n: nat, i: nat, target: set<V>, v: seq<nat>, j: nat)
    requires n <= i < |values| && Distinct(values) && v in Vectors(n, i) && j <= i
    ensures v + [j] in Leading(values, n, i + 1, target)
      <==> Held(Replaced(values, Kept(values, n, v), i, j)) == target
  {
    OneMoreDraw(values, n, i, v, j);
    assert v + [j] in Vectors(n, i + 1);
  }

  /** If the last element is not kept, it drew no slot that there is, and the others lead to the target. */
  lemma LeadingWithoutLast<V(!new)>(values: seq<V>, n: nat, i: nat, target: set<V>)
    requires n <= i < |values| && Distinct(values) && values[i] !in target
    ensures Leading(values, n, i + 1, target) == Appended(Leading(values, n, i, target), n, i + 1)
  {
    var all, before := Leading(values, n, i + 1, target), Leading(values, n, i, target);
    var appended := Appended(before, n, i + 1);
    forall u | u in all ensures u in appended {
      VectorSplits(n, i, u);
      var v, j := u[..|u| - 1], u[|u| - 1];
      LeadingStep(values, n, i, target, v, j);
      OneMoreDraw(values, n, i, v, j);
      assert v in before;
    }
    forall u | u in appended ensures u in all {
      var v, j: nat :| v in before && n <= j < i + 1 && u == v + [j];
      LeadingStep(values, n, i, target, v, j);
      OneMoreDraw(values, n, i, v, j);
    }
  }

  // ----- The last element is kept -----

  /** The slot of a kept value that is not among `others`. */
  ghost function SpareOf<V>(kept: seq<V>, others: set<V>): (j: nat) {
    if k: nat :| k < |kept| && kept[k] !in others then k else 0
  }

  lemma SpareIsOnly<V(!new)>(kept: seq<V>, others: set<V>, j: nat)
    requires Distinct(kept) && j < |kept| && kept[j] !in others && Held(kept) == others + {kept[j]}
    ensures SpareOf(kept, others) == j
  {
    forall k: nat | k < |kept| && kept[k] !in others ensures k == j {
      assert kept[k] in Held(kept);
    }
  }

  /** The ways to draw that keep `others` and one of `spare`. */
  ghost function Donors<V>(values: seq<V>, n: nat, i: nat, others: set<V>, spare: set<V>): (r: set<seq<nat>>)
    requires n <= i <= |values|
  {
    set v | v in Vectors(n, i) && exists y :: y in spare && Held(Kept(values, n, v)) == others + {y}
  }

  lemma {:induction false} DonorsCount<V(!new)>(
        values: seq<V>, n: nat, i: nat, others: set<V>, spare: set<V>, each: nat)
    requires n <= i <= |values| && spare !! others
    requires forall y :: y in spare ==> |Leading(values, n, i, others + {y})| == each
    ensures |Donors(values, n, i, others, spare)| == |spare| * each
  {
    if spare == {} {
      assert Donors(values, n, i, others, spare) == {};
    } else {
      var y :| y in spare;
      var fewer := spare - {y};
      DonorsCount(values, n, i, others, fewer, each);
      DonorsSplit(values, n, i, others, spare, y);
      OneMore(each, |fewer|, |spare|);
    }
  }

  lemma DonorsSplit<V(!new)>(values: seq<V>, n: nat, i: nat, others: set<V>, spare: set<V>, y: V)
    requires n <= i <= |values| && spare !! others && y in spare
    ensures Donors(values, n, i, others, spare)
      == Donors(values, n, i, others, spare - {y}) + Leading(values, n, i, others + {y})
    ensures Donors(values, n, i, others, spare - {y}) !! Leading(values, n, i, others + {y})
  {
    var fewer, with := Donors(values, n, i, others, spare - {y}), Leading(values, n, i, others + {y});
    forall v | v in fewer ensures v !in with {
      var z :| z in spare - {y} && Held(Kept(values, n, v)) == others + {z};
      assert z in others + {z} && z !in others + {y};
    }
  }

  ghost function SlotFor<V>(values: seq<V>, n: nat, others: set<V>): (slot: seq<nat> -> nat) {
    v => if n + |v| <= |values| then SpareOf(Kept(values, n, v), others) else 0
  }

  /** If the last element is kept, it drew exactly the slot of a value that the target does not have. */
  lemma LastIsKept<V(!new)>(values: seq<V>, n: nat, i: nat, target: set<V>, v: seq<nat>, j: nat)
    requires n <= i < |values| && Distinct(values) && values[i] in target && |target| == n
    requires forall x :: x in target - {values[i]} ==> x in values[..i]
    requires v in Vectors(n, i) && j <= i
    ensures var others := target - {values[i]};
      var donors := Donors(values, n, i, others, Held(values[..i]) - others);
      v + [j] in Leading(values, n, i + 1, target) <==> v in donors && j == SlotFor(values, n, others)(v)
  {
    OneMoreDraw(values, n, i, v, j);
    LeadingStep(values, n, i, target, v, j);
    assert values[i] !in values[..i];
    var kept := Kept(values, n, v);
    LastTakesSpare(kept, n, values[i], target, Held(values[..i]), j);
  }

  /** Replacing one kept value by a new one gives the target exactly if the replaced value was the only one
      that the target does not have. */
  lemma LastTakesSpare<V(!new)>(kept: seq<V>, n: nat, x: V, target: set<V>, all: set<V>, j: nat)
    requires Distinct(kept) && |kept| == n && x !in kept && x in target && Held(kept) <= all && x !in all
    ensures var others := target - {x};
      var after := if j < n then Held(kept) - {kept[j]} + {x} else Held(kept);
      var donor := exists y :: y in all - others && Held(kept) == others + {y};
      after == target <==> donor && j == SpareOf(kept, others)
  {
    var others := target - {x};
    var after := if j < n then Held(kept) - {kept[j]} + {x} else Held(kept);
    if after == target {
      assert j < n && Held(kept) - {kept[j]} == others;
      assert kept[j] in Held(kept) && Held(kept) == others + {kept[j]} && kept[j] in all - others;
      SpareIsOnly(kept, others, j);
    }
    if y :| y in all - others && Held(kept) == others + {y} {
      assert y in Held(kept);
      var k: nat :| k < |kept| && kept[k] == y;
      SpareIsOnly(kept, others, k);
      assert Held(kept) - {y} + {x} == target;
    }
  }

  lemma LeadingWithLast<V(!new)>(values: seq<V>, n: nat, i: nat, target: set<V>)
    requires n <= i < |values| && Distinct(values) && values[i] in target && |target| == n
    requires forall x :: x in target - {values[i]} ==> x in values[..i]
    ensures var others := target - {values[i]};
      Leading(values, n, i + 1, target)
        == Continued(Donors(values, n, i, others, Held(values[..i]) - others), SlotFor(values, n, others))
  {
    var others := target - {values[i]};
    var donors := Donors(values, n, i, others, Held(values[..i]) - others);
    var slot := SlotFor(values, n, others);
    var all, continued := Leading(values, n, i + 1, target), Continued(donors, slot);
    forall u | u in all ensures u in continued {
      VectorSplits(n, i, u);
      LastIsKept(values, n, i, target, u[..|u| - 1], u[|u| - 1]);
    }
    forall u | u in continued ensures u in all {
      var v :| v in donors && u == v + [slot(v)];
      SlotInRange(values, n, i, others, v);
      LastIsKept(values, n, i, target, v, slot(v));
    }
  }

  lemma SlotInRange<V(!new)>(values: seq<V>, n: nat, i: nat, others: set<V>, v: seq<nat>)
    requires n <= i <= |values| && v in Vectors(n, i)
    ensures SlotFor(values, n, others)(v) <= i
  {}

  lemma HeldCount<V(!new)>(values: seq<V>, i: nat)
    requires Distinct(values) && i <= |values|
    ensures |Held(values[..i])| == i
  {
    DistinctCardinality(values[..i]);
  }

  /** Each subset of the right size is kept for the same number of ways to draw. */
  lemma {:induction false} LeadingCount<V(!new)>(values: seq<V>, n: nat, i: nat, target: set<V>)
    requires n <= i <= |values| && Distinct(values) && |target| == n && target <= Held(values[..i])
    ensures |Leading(values, n, i, target)| == Factorial(i - n)
    decreases i
  {
    if i == n {
      HeldCount(values, n);
      SubsetCardinality(target, Held(values[..n]));
      assert Leading(values, n, n, target) == {[]};
    } else {
      var k := i - 1;
      var x := values[k];
      assert values[..i] == values[..k] + [x];
      if x in target {
        CountWithLast(values, n, k, target);
      } else {
        LeadingCount(values, n, k, target);
        LeadingWithoutLast(values, n, k, target);
        AppendedCount(Leading(values, n, k, target), n, i);
      }
      FactorialStep(i - n);
    }
  }

  lemma FactorialStep(k: nat)
    requires k > 0
    ensures Factorial(k) == Factorial(k - 1) * k && Factorial(k) == k * Factorial(k - 1)
  {}

  lemma CountWithLast<V(!new)>(values: seq<V>, n: nat, k: nat, target: set<V>)
    requires n <= k < |values| && Distinct(values) && |target| == n && values[k] in target
    requires target <= Held(values[..k + 1])
    ensures |Leading(values, n, k + 1, target)| == (k + 1 - n) * Factorial(k - n)
    decreases k + 1, 0
  {
    hide Held, Leading, Donors, Continued, Factorial, Distinct;
    var others := target - {values[k]};
    var spare := Held(values[..k]) - others;
    SpareValues(values, n, k, target);
    forall y | y in spare ensures |Leading(values, n, k, others + {y})| == Factorial(k - n) {
      LeadingCount(values, n, k, others + {y});
    }
    DonorsCount(values, n, k, others, spare, Factorial(k - n));
    LeadingWithLast(values, n, k, target);
    ContinuedCount(Donors(values, n, k, others, spare), SlotFor(values, n, others));
  }

  lemma SpareValues<V(!new)>(values: seq<V>, n: nat, k: nat, target: set<V>)
    requires n <= k < |values| && Distinct(values) && |target| == n && values[k] in target
    requires target <= Held(values[..k + 1])
    ensures var others := target - {values[k]};
      var spare := Held(values[..k]) - others;
      && |spare| == k + 1 - n && spare !! others
      && (forall y :: y in spare ==> |others + {y}| == n && others + {y} <= Held(values[..k]))
      && (forall x :: x in others ==> x in values[..k])
  {
    var others := target - {values[k]};
    assert values[..k + 1] == values[..k] + [values[k]];
    HeldCount(values, k);
    assert others <= Held(values[..k]);
    assert |target| == |others| + 1;
  }

  /** All ways to draw a slot up to `k` for each element `k` from `n` on for which the reservoir branch returns
      exactly the values of `target`. */
  ghost function Ways<V>(values: seq<V>, n: nat, target: set<V>): (r: set<seq<nat>>)
    requires n <= |values|
  {
    set v | v in Vectors(n, |values|) && Returns(values, n, v, target)
  }

  ghost predicate Returns<V>(values: seq<V>, n: nat, draws: seq<nat>, target: set<V>)
    requires n <= |values|
  {
    var r := Reservoir(values, values[..n], n, draws);
    r.Some? && Held(r.value) == target
  }

  /** Fairness of the reservoir branch: each subset of `n` values is returned for exactly `(size - n)!` of all
      ways to draw. */
  lemma EachSubsetEquallyOften<V(!new)>(values: seq<V>, n: nat, target: set<V>)
    requires n <= |values| && Distinct(values) && |target| == n && forall x :: x in target ==> x in values
    ensures |Ways(values, n, target)| == Factorial(|values| - n)
  {
    hide Vectors, Factorial, Kept, Distinct;
    assert values[..|values|] == values;
    LeadingCount(values, n, |values|, target);
    forall v | v in Vectors(n, |values|)
      ensures v in Ways(values, n, target) <==> v in Leading(values, n, |values|, target)
    {
      VectorsMeans(n, |values|, v);
      ReservoirKeeps(values, n, v);
    }
    assert Ways(values, n, target) == Leading(values, n, |values|, target);
  }

  /** So for more than half of the values, where the queue's random subset takes this branch. */
  lemma SampledEquallyOften<V(!new)>(values: seq<V>, n: nat, target: set<V>)
    requires |values| / 2 < n < |values| && Distinct(values) && |target| == n && forall x :: x in target ==> x in values
    ensures var sampled := set v | v in Vectors(n, |values|)
        && Sample(values, n, v).Some? && Held(Sample(values, n, v).value) == target;
      |sampled| == Factorial(|values| - n)
  {
    var sampled := set v | v in Vectors(n, |values|)
      && Sample(values, n, v).Some? && Held(Sample(values, n, v).value) == target;
    EachSubsetEquallyOften(values, n, target);
    assert sampled == Ways(values, n, target);
  }
}
