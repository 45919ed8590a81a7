/** What the removal pass of the transaction execution leaves in the block and
    hands back to the pool, given which transactions failed to execute.

    The pass visits the failing indices from the highest to the lowest. Each
    visited transaction is put back into the pool. It is then taken out of the
    list, except in one case: a failing transaction at index 0 stays in the
    list when the list holds more than one transaction, because the branch for
    index 0 keeps the list as it is. */
module Pruning {
  import opened Primitives

  /** Whether the pass takes transaction i out of a list of n transactions
      (`fails` holds one execution outcome per transaction). */
  predicate Removed(n: nat, fails: seq<bool>, i: nat)
    requires i < |fails|
  {
    fails[i] && (i != 0 || n == 1)
  }

  /** The transactions at index k and above that stay in the block, in list order. */
  function SurvivorsFrom(txs: seq<Transaction>, fails: seq<bool>, k: nat): seq<Transaction>
    requires |fails| == |txs| && k <= |txs|
    decreases |txs| - k
  {
    if k == |txs| then []
    else (if Removed(|txs|, fails, k) then [] else [txs[k]]) + SurvivorsFrom(txs, fails, k + 1)
  }

  /** The transaction list after the removal pass. */
  function Survivors(txs: seq<Transaction>, fails: seq<bool>): seq<Transaction>
    requires |fails| == |txs|
  {
    SurvivorsFrom(txs, fails, 0)
  }

  /** The indices at k and above whose transactions stay, ascending. */
  function KeptFrom(txs: seq<Transaction>, fails: seq<bool>, k: nat): seq<nat>
    requires |fails| == |txs| && k <= |txs|
    decreases |txs| - k
  {
    if k == |txs| then []
    else (if Removed(|txs|, fails, k) then [] else [k]) + KeptFrom(txs, fails, k + 1)
  }

  /** The failing transactions below index hi, from the highest index down:
      the order in which the pass puts them back into the pool. */
  function ReturnedBelow(txs: seq<Transaction>, fails: seq<bool>, hi: nat): seq<Transaction>
    requires |fails| == |txs| && hi <= |txs|
  {
    if hi == 0 then []
    else (if fails[hi - 1] then [txs[hi - 1]] else []) + ReturnedBelow(txs, fails, hi - 1)
  }

  /** Everything the pass puts back into the pool, in the order of the calls. */
  function Returned(txs: seq<Transaction>, fails: seq<bool>): seq<Transaction>
    requires |fails| == |txs|
  {
    ReturnedBelow(txs, fails, |txs|)
  }

  /** The failing indices below hi, descending. */
  function FailingBelow(fails: seq<bool>, hi: nat): seq<nat>
    requires hi <= |fails|
  {
    if hi == 0 then []
    else (if fails[hi - 1] then [hi - 1] else []) + FailingBelow(fails, hi - 1)
  }

  /** `inv` lists, in strictly ascending order, exactly the failing indices
      among the first n outcomes. */
  predicate ListsFailures(inv: seq<nat>, fails: seq<bool>, n: nat)
    requires n <= |fails|
  {
    && (forall p, q :: 0 <= p < q < |inv| ==> inv[p] < inv[q])
    && (forall j :: 0 <= j < |inv| ==> inv[j] < n && fails[inv[j]])
    && (forall i :: 0 <= i < n && fails[i] ==> i in inv)
  }

  /** Recording one more outcome, and its index when it is a failure, keeps
      the list exact. */
  lemma ListsFailuresStep(inv: seq<nat>, fails: seq<bool>, failed: bool)
    requires ListsFailures(inv, fails, |fails|)
    ensures ListsFailures(if failed then inv + [|fails|] else inv, fails + [failed], |fails| + 1)
  {
    var inv', fails' := if failed then inv + [|fails|] else inv, fails + [failed];
    forall i | 0 <= i < |fails'| && fails'[i]
      ensures i in inv'
    {
      if i < |fails| {
        assert fails[i];
        assert i in inv;
      } else {
        assert inv'[|inv'| - 1] == i;
      }
    }
  }

  /** Over a stretch without failures, the survivors are that stretch unchanged. */
  lemma {:induction false} SurvivorsSkip(txs: seq<Transaction>, fails: seq<bool>, a: nat, b: nat)
    requires |fails| == |txs| && a <= b <= |txs|
    requires forall i :: a <= i < b ==> !fails[i]
    ensures SurvivorsFrom(txs, fails, a) == txs[a..b] + SurvivorsFrom(txs, fails, b)
    decreases b - a
  {
    if a < b {
      assert !Removed(|txs|, fails, a);
      SurvivorsSkip(txs, fails, a + 1, b);
      calc {
        SurvivorsFrom(txs, fails, a);
        [txs[a]] + SurvivorsFrom(txs, fails, a + 1);
        [txs[a]] + (txs[a + 1..b] + SurvivorsFrom(txs, fails, b));
        { assert txs[a..b] == [txs[a]] + txs[a + 1..b]; }
        txs[a..b] + SurvivorsFrom(txs, fails, b);
      }
    } else {
      assert txs[a..b] == [];
    }
  }

  /** A stretch without failures returns nothing to the pool. */
  lemma {:induction false} ReturnedSkip(txs: seq<Transaction>, fails: seq<bool>, a: nat, b: nat)
    requires |fails| == |txs| && a <= b <= |txs|
    requires forall i :: a <= i < b ==> !fails[i]
    ensures ReturnedBelow(txs, fails, b) == ReturnedBelow(txs, fails, a)
    decreases b - a
  {
    if a < b {
      ReturnedSkip(txs, fails, a, b - 1);
    }
  }

  /** One step of the pass, which visits the failing indices in descending
      order: `cur` is the list while idx is visited, with everything from
      `bound` (the previous visited index) on already pruned. Whichever
      branch applies, the list afterwards is the prefix below idx followed by
      the survivors from idx on, and the transaction at idx is the next one
      returned to the pool. */
  lemma RemovalStep(txs: seq<Transaction>, fails: seq<bool>, idx: nat, bound: nat, cur: seq<Transaction>)
    requires |fails| == |txs| && idx < bound <= |txs| && fails[idx]
    requires forall i :: idx < i < bound ==> !fails[i]
    requires cur == txs[..bound] + SurvivorsFrom(txs, fails, bound)
    ensures idx < |cur| && cur[idx] == txs[idx]
    ensures ReturnedBelow(txs, fails, bound) == [txs[idx]] + ReturnedBelow(txs, fails, idx)
    ensures idx == |txs| - 1 ==> cur[..idx] == txs[..idx] + SurvivorsFrom(txs, fails, idx)
    ensures idx == 0 < |txs| - 1 ==> cur[0..] == txs[..idx] + SurvivorsFrom(txs, fails, idx)
    ensures 0 < idx < |txs| - 1 ==> cur[..idx] + cur[idx + 1..] == txs[..idx] + SurvivorsFrom(txs, fails, idx)
  {
    ReturnedSkip(txs, fails, idx + 1, bound);
    var pre, rest := txs[..idx], SurvivorsFrom(txs, fails, idx + 1);
    ListBeforeStep(txs, fails, idx, bound, cur);
    if idx == 0 && |txs| > 1 {
      assert SurvivorsFrom(txs, fails, idx) == [txs[idx]] + rest;
    } else {
      assert SurvivorsFrom(txs, fails, idx) == rest;
      SplitAround(pre, txs[idx], rest);
    }
  }

  /** The list while idx is visited: the prefix below idx, the transaction at
      idx, then the survivors above idx. */
  lemma ListBeforeStep(txs: seq<Transaction>, fails: seq<bool>, idx: nat, bound: nat, cur: seq<Transaction>)
    requires |fails| == |txs| && idx < bound <= |txs|
    requires forall i :: idx < i < bound ==> !fails[i]
    requires cur == txs[..bound] + SurvivorsFrom(txs, fails, bound)
    ensures cur == txs[..idx] + ([txs[idx]] + SurvivorsFrom(txs, fails, idx + 1))
  {
    SurvivorsSkip(txs, fails, idx + 1, bound);
    assert txs[..bound] == txs[..idx] + ([txs[idx]] + txs[idx + 1..bound]);
  }

  /** Cutting the element after a prefix out of a list. */
  lemma SplitAround(pre: seq<Transaction>, x: Transaction, rest: seq<Transaction>)
    ensures (pre + ([x] + rest))[..|pre|] == pre
    ensures (pre + ([x] + rest))[|pre| + 1..] == rest
  {
    assert |pre + ([x] + rest)| == |pre| + 1 + |rest|;
  }

  /** While the pass walks `inv` down from entry k: every entry before k is
      below `bound`, and every failure below `bound` is among them. */
  predicate FailuresAhead(inv: seq<nat>, fails: seq<bool>, k: nat, bound: nat)
    requires k <= |inv| && bound <= |fails|
  {
    && (forall j :: 0 <= j < k ==> inv[j] < bound)
    && (forall i :: 0 <= i < bound && fails[i] ==> i in inv[..k])
  }

  /** The next entry the pass visits is a failure with no failure between it
      and `bound`, and the walk can go on from it. */
  lemma NextFailureGap(fails: seq<bool>, inv: seq<nat>, k: nat, bound: nat)
    requires ListsFailures(inv, fails, |fails|)
    requires 0 < k <= |inv| && bound <= |fails| && FailuresAhead(inv, fails, k, bound)
    ensures inv[k - 1] < bound && fails[inv[k - 1]]
    ensures forall i :: inv[k - 1] < i < bound ==> !fails[i]
    ensures FailuresAhead(inv, fails, k - 1, inv[k - 1])
  {
    forall i | 0 <= i < bound && fails[i] && i != inv[k - 1]
      ensures i < inv[k - 1] && i in inv[..k - 1]
    {
      var m :| 0 <= m < k && inv[m] == i;
      assert m < k - 1;
      assert inv[..k - 1][m] == i;
    }
  }

  /** At the start of the walk, every failure lies ahead. */
  lemma FailuresAheadStart(inv: seq<nat>, fails: seq<bool>)
    requires ListsFailures(inv, fails, |fails|)
    ensures FailuresAhead(inv, fails, |inv|, |fails|)
  {
    assert inv[..|inv|] == inv;
  }

  /** The kept indices are exactly those at k and above that the pass does not
      remove, in strictly ascending order. */
  lemma {:induction false} KeptFromExact(txs: seq<Transaction>, fails: seq<bool>, k: nat)
    requires |fails| == |txs| && k <= |txs|
    ensures forall p, q :: 0 <= p < q < |KeptFrom(txs, fails, k)| ==> KeptFrom(txs, fails, k)[p] < KeptFrom(txs, fails, k)[q]
    ensures forall i :: i in KeptFrom(txs, fails, k) <==> k <= i < |txs| && !Removed(|txs|, fails, i)
    decreases |txs| - k
  {
    if k < |txs| {
      KeptFromExact(txs, fails, k + 1);
      var rest := KeptFrom(txs, fails, k + 1);
      var head: seq<nat> := if Removed(|txs|, fails, k) then [] else [k];
      assert KeptFrom(txs, fails, k) == head + rest;
      forall p, q | 0 <= p < q < |head + rest|
        ensures (head + rest)[p] < (head + rest)[q]
      {
        if head != [] && p == 0 {
          assert rest[q - 1] in rest;
        }
      }
    }
  }

  /** Position j of the survivors holds the transaction at the j-th kept index:
      surviving transactions keep their relative order. */
  lemma {:induction false} SurvivorsPickKept(txs: seq<Transaction>, fails: seq<bool>, k: nat)
    requires |fails| == |txs| && k <= |txs|
    ensures |SurvivorsFrom(txs, fails, k)| == |KeptFrom(txs, fails, k)|
    ensures forall j :: 0 <= j < |KeptFrom(txs, fails, k)| ==>
              KeptFrom(txs, fails, k)[j] < |txs| && SurvivorsFrom(txs, fails, k)[j] == txs[KeptFrom(txs, fails, k)[j]]
    decreases |txs| - k
  {
    if k < |txs| {
      SurvivorsPickKept(txs, fails, k + 1);
      var s, ks := SurvivorsFrom(txs, fails, k + 1), KeptFrom(txs, fails, k + 1);
      if Removed(|txs|, fails, k) {
        assert SurvivorsFrom(txs, fails, k) == s && KeptFrom(txs, fails, k) == ks;
      } else {
        var s', ks' := [txs[k]] + s, [k] + ks;
        assert SurvivorsFrom(txs, fails, k) == s' && KeptFrom(txs, fails, k) == ks';
        forall j | 0 <= j < |ks'|
          ensures ks'[j] < |txs| && s'[j] == txs[ks'[j]]
        {
          if j > 0 {
            assert ks'[j] == ks[j - 1] && s'[j] == s[j - 1];
          }
        }
      }
    }
  }

  /** The failing indices below hi, each exactly once, in strictly descending order. */
  lemma {:induction false} FailingBelowExact(fails: seq<bool>, hi: nat)
    requires hi <= |fails|
    ensures forall p, q :: 0 <= p < q < |FailingBelow(fails, hi)| ==> FailingBelow(fails, hi)[p] > FailingBelow(fails, hi)[q]
    ensures forall i :: i in FailingBelow(fails, hi) <==> 0 <= i < hi && fails[i]
  {
    if hi > 0 {
      FailingBelowExact(fails, hi - 1);
      var rest := FailingBelow(fails, hi - 1);
      var head: seq<nat> := if fails[hi - 1] then [hi - 1] else [];
      assert FailingBelow(fails, hi) == head + rest;
      forall p, q | 0 <= p < q < |head + rest|
        ensures (head + rest)[p] > (head + rest)[q]
      {
        if head != [] && p == 0 {
          assert rest[q - 1] in rest;
        }
      }
    }
  }

  /** Call j to the pool returns the transaction at the j-th failing index
      counted from the top. */
  lemma {:induction false} ReturnedPickFailing(txs: seq<Transaction>, fails: seq<bool>, hi: nat)
    requires |fails| == |txs| && hi <= |txs|
    ensures |ReturnedBelow(txs, fails, hi)| == |FailingBelow(fails, hi)|
    ensures forall j :: 0 <= j < |FailingBelow(fails, hi)| ==>
              FailingBelow(fails, hi)[j] < |txs| && ReturnedBelow(txs, fails, hi)[j] == txs[FailingBelow(fails, hi)[j]]
  {
    if hi > 0 {
      ReturnedPickFailing(txs, fails, hi - 1);
    }
  }

  /** Every failing transaction goes back to the pool exactly once, highest index first. */
  lemma ReturnedEachFailureOnceDescending(txs: seq<Transaction>, fails: seq<bool>)
    requires |fails| == |txs|
    ensures var order := FailingBelow(fails, |txs|);
      && |Returned(txs, fails)| == |order|
      && (forall j :: 0 <= j < |order| ==> order[j] < |txs| && Returned(txs, fails)[j] == txs[order[j]])
      && (forall p, q :: 0 <= p < q < |order| ==> order[p] > order[q])
      && (forall i :: i in order <==> 0 <= i < |txs| && fails[i])
  {
    FailingBelowExact(fails, |txs|);
    ReturnedPickFailing(txs, fails, |txs|);
  }

  /** The survivors are the transactions at exactly the indices the pass keeps, in list order. */
  lemma SurvivorsKeepOrder(txs: seq<Transaction>, fails: seq<bool>)
    requires |fails| == |txs|
    ensures var kept := KeptFrom(txs, fails, 0);
      && |Survivors(txs, fails)| == |kept|
      && (forall j :: 0 <= j < |kept| ==> kept[j] < |txs| && Survivors(txs, fails)[j] == txs[kept[j]])
      && (forall p, q :: 0 <= p < q < |kept| ==> kept[p] < kept[q])
      && (forall i :: i in kept <==> 0 <= i < |txs| && !Removed(|txs|, fails, i))
  {
    KeptFromExact(txs, fails, 0);
    SurvivorsPickKept(txs, fails, 0);
  }

  /** When every transaction executes, the list is untouched and the pool receives nothing. */
  lemma CleanRun(txs: seq<Transaction>, fails: seq<bool>)
    requires |fails| == |txs|
    requires forall i :: 0 <= i < |fails| ==> !fails[i]
    ensures Survivors(txs, fails) == txs
    ensures Returned(txs, fails) == []
  {
    SurvivorsSkip(txs, fails, 0, |txs|);
    ReturnedSkip(txs, fails, 0, |txs|);
  }

  /** A single failing transaction at k (not the head of a longer list) is
      removed, the others stay in order, and the pool receives exactly it. */
  lemma SingleFailure(txs: seq<Transaction>, fails: seq<bool>, k: nat)
    requires |fails| == |txs| && k < |txs|
    requires fails[k] && forall i :: 0 <= i < |fails| && i != k ==> !fails[i]
    requires k != 0 || |txs| == 1
    ensures Survivors(txs, fails) == txs[..k] + txs[k + 1..]
    ensures Returned(txs, fails) == [txs[k]]
  {
    SurvivorsSkip(txs, fails, 0, k);
    SurvivorsSkip(txs, fails, k + 1, |txs|);
    ReturnedSkip(txs, fails, k + 1, |txs|);
    ReturnedSkip(txs, fails, 0, k);
    assert txs[k + 1..|txs|] == txs[k + 1..];
  }

  /** The quirk at index 0: in a list of more than one transaction, a failing
      head is put back into the pool and also stays first in the block. */
  lemma FailingHeadStays(txs: seq<Transaction>, fails: seq<bool>)
    requires |fails| == |txs| && |txs| > 1 && fails[0]
    ensures |Survivors(txs, fails)| > 0 && Survivors(txs, fails)[0] == txs[0]
    ensures |Returned(txs, fails)| > 0 && Returned(txs, fails)[|Returned(txs, fails)| - 1] == txs[0]
  {
    ReturnedEachFailureOnceDescending(txs, fails);
    var order := FailingBelow(fails, |txs|);
    assert 0 in order;
    var m :| 0 <= m < |order| && order[m] == 0;
    assert m == |order| - 1;
  }

  /** A sole failing transaction is removed: the block is left empty. */
  lemma FailingSoleRemoved(txs: seq<Transaction>, fails: seq<bool>)
    requires |fails| == |txs| == 1 && fails[0]
    ensures Survivors(txs, fails) == []
    ensures Returned(txs, fails) == txs
  {
    SingleFailure(txs, fails, 0);
  }

  /** The pass never adds transactions, and when it removes one the list gets shorter. */
  lemma {:induction false} SurvivorsShrink(txs: seq<Transaction>, fails: seq<bool>, k: nat)
    requires |fails| == |txs| && k <= |txs|
    ensures |SurvivorsFrom(txs, fails, k)| <= |txs| - k
    ensures (exists i :: k <= i < |txs| && Removed(|txs|, fails, i)) ==> |SurvivorsFrom(txs, fails, k)| < |txs| - k
    decreases |txs| - k
  {
    if k < |txs| {
      SurvivorsShrink(txs, fails, k + 1);
      if exists i :: k <= i < |txs| && Removed(|txs|, fails, i) {
        var i :| k <= i < |txs| && Removed(|txs|, fails, i);
        if i != k {
          assert k + 1 <= i;
        }
      }
    }
  }
}
