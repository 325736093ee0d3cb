/**
 * The budget validator of check_budget.py: an "attack" transaction table is
 * compared row by row with the "source" table it was derived from. Every
 * differing row costs its source user one unit of a fixed budget, must keep
 * the sign of the source amount, and its (attack) amount must lie inside the
 * [min, max] range recorded for the attack row's merchant category.
 *
 * The model has three layers:
 *   - the data (transactions, the quantile table) and the row-level tests;
 *   - a pure specification of the scan, `Scan`, defined over prefixes, and a
 *     declarative statement of what an accepted attack is, `WithinBudget`,
 *     with lemmas connecting the two;
 *   - the imperative method `CheckBudget`, which mirrors the Python loop with
 *     a mutable counter map and early returns, proved equal to the spec.
 */
module BudgetCheck {

  /** Maximum number of rows that may differ per source user. */
  const BUDGET: nat := 10

  /** Amounts are whole minor units: AMOUNT_SCALE of them make one unit of money. */
  const AMOUNT_SCALE: nat := 100

  /** One row of either table; the timestamp is an integer (e.g. seconds). */
  datatype Transaction = Transaction(
    userId: int,
    mccCode: int,
    currencyRk: int,
    amount: int,
    dttm: int)

  /** The {max, min} maps of one sign bucket, keyed by merchant category code. */
  datatype Ruler = Ruler(max: map<int, int>, min: map<int, int>)

  /** The quantile reference table: one ruler per sign bucket. */
  datatype Quantiles = Quantiles(negative: Ruler, positive: Ruler)

  datatype Bucket = Negative | Positive

  datatype Bound = Max | Min

  /**
   * What a call of check_budget yields: it either returns a boolean, or a
   * dictionary lookup in the quantile table raises a KeyError, naming the
   * bucket, the bound map and the missing category code.
   */
  datatype Outcome =
    | Returned(verdict: bool)
    | KeyError(bucket: Bucket, bound: Bound, key: int)

  /** The scan after some prefix of row pairs: still going, or stopped with an outcome. */
  datatype ScanState =
    | Running(counts: map<int, nat>)
    | Halted(result: Outcome)

  /* ---------------------------------------------------------------------- */
  /* Row-level tests                                                        */
  /* ---------------------------------------------------------------------- */

  function Abs(x: int): nat
  {
    if x < 0 then -x else x
  }

  /**
   * numpy.isclose(x, y) with its default tolerances rtol = 1e-5, atol = 1e-8,
   * i.e. |x - y| <= atol + rtol * |y| in units of money. With x and y in minor
   * units this is |x - y| / S <= 1e-8 + 1e-5 * |y| / S, or, multiplied by
   * 10^8 * S, the integer test below. Like numpy's, it is not symmetric.
   */
  predicate Close(x: int, y: int)
  {
    100_000_000 * Abs(x - y) <= AMOUNT_SCALE + 1000 * Abs(y)
  }

  /** The difference test: any of the five compared fields disagrees. */
  predicate IsDifferent(a: Transaction, b: Transaction)
  {
    !(&& a.userId == b.userId
      && a.mccCode == b.mccCode
      && a.currencyRk == b.currencyRk
      && Close(a.amount, b.amount)
      && a.dttm == b.dttm)
  }

  /** numpy.sign on an amount. */
  function Sign(x: int): (r: int)
    ensures r == -1 <==> x < 0
    ensures r == 0 <==> x == 0
    ensures r == 1 <==> x > 0
  {
    if x < 0 then -1 else if x == 0 then 0 else 1
  }

  /** The bucket is chosen by the sign of the SOURCE amount. */
  function BucketOf(sourceAmount: int): Bucket
  {
    if sourceAmount < 0 then Negative else Positive
  }

  function RulerOf(q: Quantiles, bucket: Bucket): Ruler
  {
    match bucket
    case Negative => q.negative
    case Positive => q.positive
  }

  function BoundMap(r: Ruler, bound: Bound): map<int, int>
  {
    match bound
    case Max => r.max
    case Min => r.min
  }

  /**
   * Declarative acceptability of one edited row: the sign is kept, and the
   * attack amount lies in the inclusive range recorded, in the bucket of the
   * source amount's sign, for the ATTACK row's category code.
   */
  predicate EditAcceptable(a: Transaction, b: Transaction, q: Quantiles)
  {
    var ruler := RulerOf(q, BucketOf(a.amount));
    && Sign(a.amount) == Sign(b.amount)
    && b.mccCode in ruler.max
    && b.mccCode in ruler.min
    && ruler.min[b.mccCode] <= b.amount <= ruler.max[b.mccCode]
  }

  /** The counter of a user, with the zero default of a defaultdict(int). */
  function CountOf(counts: map<int, nat>, u: int): nat
  {
    if u in counts then counts[u] else 0
  }

  /* ---------------------------------------------------------------------- */
  /* The scan, as a specification                                           */
  /* ---------------------------------------------------------------------- */

  /**
   * One iteration of the loop on the pair (a, b), given the counters so far:
   * count the edit against the source user, then stop on an exceeded budget,
   * a sign change, a missing quantile key (max first, then min) or an attack
   * amount outside [min, max].
   */
  function Step(counts: map<int, nat>, a: Transaction, b: Transaction, q: Quantiles): (r: ScanState)
    ensures r.Running? <==>
              !IsDifferent(a, b) || (CountOf(counts, a.userId) < BUDGET && EditAcceptable(a, b, q))
    ensures r.Running? ==>
              forall u :: CountOf(r.counts, u) ==
                          CountOf(counts, u) + (if IsDifferent(a, b) && u == a.userId then 1 else 0)
    ensures r.Running? ==> r.counts.Keys == counts.Keys + (if IsDifferent(a, b) then {a.userId} else {})
    ensures r.Halted? ==>
              || r.result == Returned(false)
              || (&& r.result.KeyError?
                  && r.result.bucket == BucketOf(a.amount)
                  && r.result.key == b.mccCode
                  && b.mccCode !in BoundMap(RulerOf(q, r.result.bucket), r.result.bound))
    ensures var ruler := RulerOf(q, BucketOf(a.amount));
            IsDifferent(a, b) && CountOf(counts, a.userId) < BUDGET && Sign(a.amount) == Sign(b.amount) ==>
              && (b.mccCode !in ruler.max ==> r == Halted(KeyError(BucketOf(a.amount), Max, b.mccCode)))
              && (b.mccCode in ruler.max && b.mccCode !in ruler.min ==>
                    r == Halted(KeyError(BucketOf(a.amount), Min, b.mccCode)))
    ensures IsDifferent(a, b) && (CountOf(counts, a.userId) >= BUDGET || Sign(a.amount) != Sign(b.amount)) ==>
              r == Halted(Returned(false))
  {
    if !IsDifferent(a, b) then
      Running(counts)
    else
      var n := CountOf(counts, a.userId) + 1;
      if n > BUDGET then
        Halted(Returned(false))
      else if Sign(a.amount) != Sign(b.amount) then
        Halted(Returned(false))
      else
        var bucket := BucketOf(a.amount);
        var ruler := RulerOf(q, bucket);
        if b.mccCode !in ruler.max then
          Halted(KeyError(bucket, Max, b.mccCode))
        else if b.mccCode !in ruler.min then
          Halted(KeyError(bucket, Min, b.mccCode))
        else if ruler.max[b.mccCode] < b.amount || ruler.min[b.mccCode] > b.amount then
          Halted(Returned(false))
        else
          Running(counts[a.userId := n])
  }

  /**
   * The state of the scan after the pairs (src[i], atk[i]) for all i < |src|,
   * defined over the prefix: once halted, further pairs are not looked at.
   * While it runs, every counter that exists is between 1 and BUDGET.
   */
  function Scan(src: seq<Transaction>, atk: seq<Transaction>, q: Quantiles): (st: ScanState)
    requires |src| == |atk|
    ensures st.Running? ==> forall u :: u in st.counts ==> 1 <= st.counts[u] <= BUDGET
    ensures st.Halted? ==> st.result != Returned(true)
    decreases |src|
  {
    if |src| == 0 then
      Running(map[])
    else
      match Scan(src[..|src| - 1], atk[..|atk| - 1], q)
      case Halted(o) => Halted(o)
      case Running(counts) => Step(counts, src[|src| - 1], atk[|atk| - 1], q)
  }

  /** The outcome of check_budget on already sorted, equally long tables. */
  function Verdict(src: seq<Transaction>, atk: seq<Transaction>, q: Quantiles): Outcome
    requires |src| == |atk|
  {
    match Scan(src, atk, q)
    case Running(_) => Returned(true)
    case Halted(o) => o
  }

  /* ---------------------------------------------------------------------- */
  /* The declarative verdict                                                */
  /* ---------------------------------------------------------------------- */

  /** Number of positions where the pair differs and the source row belongs to user u. */
  function DiffCount(src: seq<Transaction>, atk: seq<Transaction>, u: int): nat
    requires |src| == |atk|
    decreases |src|
  {
    if |src| == 0 then 0
    else
      DiffCount(src[..|src| - 1], atk[..|atk| - 1], u)
      + (if IsDifferent(src[|src| - 1], atk[|atk| - 1]) && src[|src| - 1].userId == u then 1 else 0)
  }

  ghost predicate BudgetRespected(src: seq<Transaction>, atk: seq<Transaction>)
    requires |src| == |atk|
  {
    forall u :: DiffCount(src, atk, u) <= BUDGET
  }

  ghost predicate EditsAcceptable(src: seq<Transaction>, atk: seq<Transaction>, q: Quantiles)
    requires |src| == |atk|
  {
    forall i :: 0 <= i < |src| && IsDifferent(src[i], atk[i]) ==> EditAcceptable(src[i], atk[i], q)
  }

  /** Every user has at most BUDGET differing rows and every differing row is acceptable. */
  ghost predicate WithinBudget(src: seq<Transaction>, atk: seq<Transaction>, q: Quantiles)
    requires |src| == |atk|
  {
    BudgetRespected(src, atk) && EditsAcceptable(src, atk, q)
  }

  /**
   * Every differing row that keeps its sign finds its attack code in both
   * bound maps of its source-sign bucket: that is, no lookup can miss.
   */
  ghost predicate KeysCovered(src: seq<Transaction>, atk: seq<Transaction>, q: Quantiles)
    requires |src| == |atk|
  {
    forall i :: 0 <= i < |src| && IsDifferent(src[i], atk[i]) && Sign(src[i].amount) == Sign(atk[i].amount) ==>
      var ruler := RulerOf(q, BucketOf(src[i].amount));
      atk[i].mccCode in ruler.max && atk[i].mccCode in ruler.min
  }

  /** Both tables are ordered by (user_id, transaction_dttm), as pandas sorts them. */
  ghost predicate SortedByUserTime(t: seq<Transaction>)
  {
    forall i, j :: 0 <= i < j < |t| ==>
      t[i].userId < t[j].userId || (t[i].userId == t[j].userId && t[i].dttm <= t[j].dttm)
  }

  /* ---------------------------------------------------------------------- */
  /* Lemmas                                                                 */
  /* ---------------------------------------------------------------------- */

  /** The amount tolerance: below 1000 units of money, "close" means equal. */
  lemma CloseIsEqualityForSmallAmounts(x: int, y: int)
    requires Abs(y) < 100_000
    ensures Close(x, y) <==> x == y
  {
  }

  /** A row never differs from itself. */
  lemma NotDifferentFromItself(a: Transaction)
    ensures !IsDifferent(a, a)
  {
  }

  /**
   * For amounts below 1000 units of money, two rows are different exactly
   * when they are unequal as records.
   */
  lemma IsDifferentIffUnequal(a: Transaction, b: Transaction)
    requires Abs(b.amount) < 100_000
    ensures IsDifferent(a, b) <==> a != b
  {
  }

  /** Once the sign check has passed, the source-chosen bucket is the attack amount's bucket. */
  lemma BucketBySourceIsBucketByAttack(a: Transaction, b: Transaction)
    requires Sign(a.amount) == Sign(b.amount)
    ensures BucketOf(a.amount) == BucketOf(b.amount)
  {
  }

  /**
   * The range is looked up by the attack row's category code: replacing the
   * source row's code (while the pair still differs) changes nothing.
   */
  lemma RangeUsesAttackCode(counts: map<int, nat>, a: Transaction, b: Transaction, q: Quantiles, code: int)
    requires IsDifferent(a, b) && IsDifferent(a.(mccCode := code), b)
    ensures Step(counts, a, b, q) == Step(counts, a.(mccCode := code), b, q)
  {
  }

  /** A prefix of a pair of sequences, taken at the last pair. */
  lemma AppendPrefix(p: seq<Transaction>, s: seq<Transaction>)
    requires |s| > 0
    ensures (p + s)[..|p + s| - 1] == p + s[..|s| - 1]
    ensures (p + s)[|p + s| - 1] == s[|s| - 1]
  {
  }

  /** Early exit: a halted scan is not affected by any further pairs. */
  lemma {:induction false} HaltedScanIgnoresRest(
      p: seq<Transaction>, pa: seq<Transaction>, s: seq<Transaction>, sa: seq<Transaction>, q: Quantiles)
    requires |p| == |pa| && |s| == |sa|
    requires Scan(p, pa, q).Halted?
    ensures Scan(p + s, pa + sa, q) == Scan(p, pa, q)
    decreases |s|
  {
    if |s| == 0 {
      assert p + s == p;
      assert pa + sa == pa;
    } else {
      HaltedScanIgnoresRest(p, pa, s[..|s| - 1], sa[..|sa| - 1], q);
      AppendPrefix(p, s);
      AppendPrefix(pa, sa);
    }
  }

  /** Early exit, stated on outcomes: once a prefix is rejected, the rest does not matter. */
  lemma RejectedPrefixDecides(
      p: seq<Transaction>, pa: seq<Transaction>, s: seq<Transaction>, sa: seq<Transaction>, q: Quantiles)
    requires |p| == |pa| && |s| == |sa|
    requires Verdict(p, pa, q) != Returned(true)
    ensures Verdict(p + s, pa + sa, q) == Verdict(p, pa, q)
  {
    HaltedScanIgnoresRest(p, pa, s, sa, q);
  }

  /** A pair that does not differ leaves the counters exactly as they were. */
  lemma EqualPairKeepsCounters(
      src: seq<Transaction>, atk: seq<Transaction>, a: Transaction, b: Transaction, q: Quantiles)
    requires |src| == |atk|
    requires Scan(src, atk, q).Running?
    requires !IsDifferent(a, b)
    ensures Scan(src + [a], atk + [b], q) == Scan(src, atk, q)
  {
  }

  /**
   * When no pair differs, no counter is ever created and the scan accepts.
   */
  lemma {:induction false} NoDifferencesAccepted(src: seq<Transaction>, atk: seq<Transaction>, q: Quantiles)
    requires |src| == |atk|
    requires forall i :: 0 <= i < |src| ==> !IsDifferent(src[i], atk[i])
    ensures Scan(src, atk, q) == Running(map[])
    ensures Verdict(src, atk, q) == Returned(true)
    decreases |src|
  {
    if |src| > 0 {
      var n := |src|;
      assert forall i :: 0 <= i < n - 1 ==> src[..n - 1][i] == src[i] && atk[..n - 1][i] == atk[i];
      NoDifferencesAccepted(src[..n - 1], atk[..n - 1], q);
      assert !IsDifferent(src[n - 1], atk[n - 1]);
    }
  }

  /** Identity: a table compared with itself is accepted. */
  lemma SelfComparisonAccepted(t: seq<Transaction>, q: Quantiles)
    ensures Verdict(t, t, q) == Returned(true)
  {
    forall i | 0 <= i < |t|
      ensures !IsDifferent(t[i], t[i])
    {
      NotDifferentFromItself(t[i]);
    }
    NoDifferencesAccepted(t, t, q);
  }

  /**
   * The scan runs to the end exactly when the tables are within budget, and
   * then its counters are the per-user numbers of differing rows.
   */
  lemma {:induction false} ScanRunsIffWithinBudget(src: seq<Transaction>, atk: seq<Transaction>, q: Quantiles)
    requires |src| == |atk|
    ensures Scan(src, atk, q).Running? <==> WithinBudget(src, atk, q)
    ensures Scan(src, atk, q).Running? ==>
              forall u :: CountOf(Scan(src, atk, q).counts, u) == DiffCount(src, atk, u)
    decreases |src|
  {
    if |src| > 0 {
      var n := |src|;
      var p, pa := src[..n - 1], atk[..n - 1];
      var a, b := src[n - 1], atk[n - 1];
      ScanRunsIffWithinBudget(p, pa, q);
      assert forall i :: 0 <= i < n - 1 ==> p[i] == src[i] && pa[i] == atk[i];
      assert forall u :: DiffCount(src, atk, u) ==
                                DiffCount(p, pa, u) + (if IsDifferent(a, b) && a.userId == u then 1 else 0);
      match Scan(p, pa, q)
      case Halted(_) =>
        assert !WithinBudget(p, pa, q);
        if !BudgetRespected(p, pa) {
          var u :| DiffCount(p, pa, u) > BUDGET;
          assert DiffCount(src, atk, u) > BUDGET;
        } else {
          var i :| 0 <= i < n - 1 && IsDifferent(p[i], pa[i]) && !EditAcceptable(p[i], pa[i], q);
          assert IsDifferent(src[i], atk[i]) && !EditAcceptable(src[i], atk[i], q);
        }
      case Running(counts) =>
        if IsDifferent(a, b) {
          if CountOf(counts, a.userId) >= BUDGET {
            assert DiffCount(src, atk, a.userId) > BUDGET;
          } else if !EditAcceptable(a, b, q) {
            assert !EditsAcceptable(src, atk, q);
          } else {
            assert BudgetRespected(src, atk) <==> BudgetRespected(p, pa) by {
              if BudgetRespected(p, pa) {
                forall u ensures DiffCount(src, atk, u) <= BUDGET {
                  if u == a.userId {
                  }
                }
              }
            }
            assert EditsAcceptable(src, atk, q) <==> EditsAcceptable(p, pa, q);
          }
        } else {
          assert BudgetRespected(src, atk) <==> BudgetRespected(p, pa);
          assert EditsAcceptable(src, atk, q) <==> EditsAcceptable(p, pa, q);
        }
    }
  }

  /** Characterisation: check_budget returns true exactly when the tables are within budget. */
  lemma AcceptedIffWithinBudget(src: seq<Transaction>, atk: seq<Transaction>, q: Quantiles)
    requires |src| == |atk|
    ensures Verdict(src, atk, q) == Returned(true) <==> WithinBudget(src, atk, q)
  {
    ScanRunsIffWithinBudget(src, atk, q);
  }

  /**
   * A KeyError is raised by a differing row that kept its sign: the error
   * names that row's attack code, its source-sign bucket, and a bound map of
   * that bucket which lacks the code.
   */
  lemma {:induction false} KeyErrorOnlyOnMissingKey(src: seq<Transaction>, atk: seq<Transaction>, q: Quantiles)
    requires |src| == |atk|
    requires Verdict(src, atk, q).KeyError?
    ensures var o := Verdict(src, atk, q);
            exists i :: && 0 <= i < |atk|
                        && IsDifferent(src[i], atk[i])
                        && Sign(src[i].amount) == Sign(atk[i].amount)
                        && o.bucket == BucketOf(src[i].amount)
                        && atk[i].mccCode == o.key
                        && o.key !in BoundMap(RulerOf(q, o.bucket), o.bound)
    decreases |src|
  {
    var n := |src|;
    var p, pa := src[..n - 1], atk[..n - 1];
    var o := Verdict(src, atk, q);
    match Scan(p, pa, q)
    case Halted(_) =>
      KeyErrorOnlyOnMissingKey(p, pa, q);
      var i :| && 0 <= i < |pa|
               && IsDifferent(p[i], pa[i])
               && Sign(p[i].amount) == Sign(pa[i].amount)
               && o.bucket == BucketOf(p[i].amount)
               && pa[i].mccCode == o.key
               && o.key !in BoundMap(RulerOf(q, o.bucket), o.bound);
      assert src[i] == p[i] && atk[i] == pa[i];
    case Running(_) =>
      assert atk[n - 1].mccCode == o.key;
  }

  /**
   * A missing key raises: when the scan reaches a differing row within budget
   * that kept its sign, a code missing from max raises KeyError on max, and a
   * code present in max but missing from min raises KeyError on min.
   */
  lemma MissingKeyRaises(src: seq<Transaction>, atk: seq<Transaction>, q: Quantiles, i: nat)
    requires |src| == |atk| && i < |src|
    requires Scan(src[..i], atk[..i], q).Running?
    requires IsDifferent(src[i], atk[i])
    requires CountOf(Scan(src[..i], atk[..i], q).counts, src[i].userId) < BUDGET
    requires Sign(src[i].amount) == Sign(atk[i].amount)
    ensures var bucket := BucketOf(src[i].amount);
            var ruler := RulerOf(q, bucket);
            && (atk[i].mccCode !in ruler.max ==>
                  Verdict(src, atk, q) == KeyError(bucket, Max, atk[i].mccCode))
            && (atk[i].mccCode in ruler.max && atk[i].mccCode !in ruler.min ==>
                  Verdict(src, atk, q) == KeyError(bucket, Min, atk[i].mccCode))
  {
    ScanOneMore(src, atk, q, i);
    var ruler := RulerOf(q, BucketOf(src[i].amount));
    if atk[i].mccCode !in ruler.max || atk[i].mccCode !in ruler.min {
      HaltedAt(src, atk, q, i);
    }
  }

  /**
   * When every edited, sign-keeping row finds its attack code in its
   * bucket, no KeyError can occur and the result is the boolean WithinBudget.
   */
  lemma VerdictWhenKeysCovered(src: seq<Transaction>, atk: seq<Transaction>, q: Quantiles)
    requires |src| == |atk|
    requires KeysCovered(src, atk, q)
    ensures Verdict(src, atk, q) == Returned(WithinBudget(src, atk, q))
  {
    AcceptedIffWithinBudget(src, atk, q);
    if Verdict(src, atk, q).KeyError? {
      KeyErrorOnlyOnMissingKey(src, atk, q);
    }
  }

  /** Budget: a user with more than BUDGET differing rows makes the check fail. */
  lemma OverBudgetRejected(src: seq<Transaction>, atk: seq<Transaction>, q: Quantiles, u: int)
    requires |src| == |atk|
    requires DiffCount(src, atk, u) > BUDGET
    ensures Verdict(src, atk, q) != Returned(true)
    ensures KeysCovered(src, atk, q) ==> Verdict(src, atk, q) == Returned(false)
  {
    AcceptedIffWithinBudget(src, atk, q);
    if KeysCovered(src, atk, q) {
      VerdictWhenKeysCovered(src, atk, q);
    }
  }

  /** Sign preservation: a differing row whose amount changed sign makes the check fail. */
  lemma SignFlipRejected(src: seq<Transaction>, atk: seq<Transaction>, q: Quantiles, i: int)
    requires |src| == |atk| && 0 <= i < |src|
    requires IsDifferent(src[i], atk[i])
    requires Sign(src[i].amount) != Sign(atk[i].amount)
    ensures Verdict(src, atk, q) != Returned(true)
    ensures KeysCovered(src, atk, q) ==> Verdict(src, atk, q) == Returned(false)
  {
    AcceptedIffWithinBudget(src, atk, q);
    if KeysCovered(src, atk, q) {
      VerdictWhenKeysCovered(src, atk, q);
    }
  }

  /**
   * Range: a differing row whose attack amount lies above max or below min of
   * its attack category (in the source amount's bucket) makes the check fail.
   */
  lemma OutOfRangeRejected(src: seq<Transaction>, atk: seq<Transaction>, q: Quantiles, i: int)
    requires |src| == |atk| && 0 <= i < |src|
    requires IsDifferent(src[i], atk[i])
    requires var ruler := RulerOf(q, BucketOf(src[i].amount));
             && atk[i].mccCode in ruler.max && atk[i].mccCode in ruler.min
             && (atk[i].amount > ruler.max[atk[i].mccCode] || atk[i].amount < ruler.min[atk[i].mccCode])
    ensures Verdict(src, atk, q) != Returned(true)
    ensures KeysCovered(src, atk, q) ==> Verdict(src, atk, q) == Returned(false)
  {
    AcceptedIffWithinBudget(src, atk, q);
    if KeysCovered(src, atk, q) {
      VerdictWhenKeysCovered(src, atk, q);
    }
  }

  /**
   * Range, inclusive ends: an edit that keeps the sign and lands exactly on
   * max or on min of a non-empty range is acceptable.
   */
  lemma BoundsAreInclusive(a: Transaction, b: Transaction, q: Quantiles)
    requires Sign(a.amount) == Sign(b.amount)
    requires var ruler := RulerOf(q, BucketOf(a.amount));
             && b.mccCode in ruler.max && b.mccCode in ruler.min
             && ruler.min[b.mccCode] <= ruler.max[b.mccCode]
             && (b.amount == ruler.max[b.mccCode] || b.amount == ruler.min[b.mccCode])
    ensures EditAcceptable(a, b, q)
  {
  }

  /**
   * Budget boundary: after a scan that is still running with exactly BUDGET
   * differing rows for user u, one more differing row of u makes the check fail.
   */
  lemma ExtraEditOverBudgetRejected(
      src: seq<Transaction>, atk: seq<Transaction>, q: Quantiles, a: Transaction, b: Transaction)
    requires |src| == |atk|
    requires Verdict(src, atk, q) == Returned(true)
    requires DiffCount(src, atk, a.userId) == BUDGET
    requires IsDifferent(a, b)
    ensures Verdict(src + [a], atk + [b], q) == Returned(false)
  {
    ScanRunsIffWithinBudget(src, atk, q);
    AppendPrefix(src, [a]);
    AppendPrefix(atk, [b]);
  }

  /* ---------------------------------------------------------------------- */
  /* The scan, as the program runs it                                       */
  /* ---------------------------------------------------------------------- */

  /** The scan over one more pair is one more Step. */
  lemma ScanOneMore(src: seq<Transaction>, atk: seq<Transaction>, q: Quantiles, i: nat)
    requires |src| == |atk| && i < |src|
    requires Scan(src[..i], atk[..i], q).Running?
    ensures Scan(src[..i + 1], atk[..i + 1], q) == Step(Scan(src[..i], atk[..i], q).counts, src[i], atk[i], q)
  {
    assert src[..i + 1][..i] == src[..i];
    assert atk[..i + 1][..i] == atk[..i];
  }

  /** A scan halted after pair i has the whole table's outcome. */
  lemma HaltedAt(src: seq<Transaction>, atk: seq<Transaction>, q: Quantiles, i: nat)
    requires |src| == |atk| && i < |src|
    requires Scan(src[..i + 1], atk[..i + 1], q).Halted?
    ensures Verdict(src, atk, q) == Scan(src[..i + 1], atk[..i + 1], q).result
  {
    HaltedScanIgnoresRest(src[..i + 1], atk[..i + 1], src[i + 1..], atk[i + 1..], q);
    assert src[..i + 1] + src[i + 1..] == src;
    assert atk[..i + 1] + atk[i + 1..] == atk;
  }

  /**
   * check_budget after reading and sorting: walk the pairs in lockstep with a
   * per-user counter map, returning as soon as a violation (or a missing
   * quantile key) is met.
   */
  method CheckBudget(src: seq<Transaction>, atk: seq<Transaction>, q: Quantiles) returns (r: Outcome)
    requires |src| == |atk|
    requires SortedByUserTime(src) && SortedByUserTime(atk)
    ensures r == Verdict(src, atk, q)
    ensures r == Returned(true) <==> WithinBudget(src, atk, q)
  {
    AcceptedIffWithinBudget(src, atk, q);
    var diffCount: map<int, nat> := map[];
    var i := 0;
    while i < |src|
      invariant 0 <= i <= |src|
      invariant Scan(src[..i], atk[..i], q) == Running(diffCount)
      invariant forall u :: u in diffCount ==> diffCount[u] <= BUDGET
    {
      var a, b := src[i], atk[i];
      ScanOneMore(src, atk, q, i);
      if IsDifferent(a, b) {
        var n := CountOf(diffCount, a.userId) + 1;
        diffCount := diffCount[a.userId := n];
        if n > BUDGET {
          HaltedAt(src, atk, q, i);
          return Returned(false);
        }
        if Sign(a.amount) != Sign(b.amount) {
          HaltedAt(src, atk, q, i);
          return Returned(false);
        }
        var bucket := BucketOf(a.amount);
        var ruler := RulerOf(q, bucket);
        if b.mccCode !in ruler.max {
          HaltedAt(src, atk, q, i);
          return KeyError(bucket, Max, b.mccCode);
        }
        var upperBound := ruler.max[b.mccCode];
        if b.mccCode !in ruler.min {
          HaltedAt(src, atk, q, i);
          return KeyError(bucket, Min, b.mccCode);
        }
        var lowerBound := ruler.min[b.mccCode];
        if upperBound < b.amount || lowerBound > b.amount {
          HaltedAt(src, atk, q, i);
          return Returned(false);
        }
      }
      i := i + 1;
    }
    assert src[..i] == src && atk[..i] == atk;
    return Returned(true);
  }

  /* ---------------------------------------------------------------------- */
  /* A worked example: the range boundary                                   */
  /* ---------------------------------------------------------------------- */

  /**
   * With max = 100.00 and min = 1.00 for category 5411 in the positive
   * bucket, an edit of a 50.00 payment to exactly 100.00 passes and an edit
   * to 100.01 fails; so does an edit to 0.99, while 1.00 passes.
   */
  lemma RangeBoundaryExample()
    ensures var q := Quantiles(Ruler(map[], map[]), Ruler(map[5411 := 10000], map[5411 := 100]));
            var row := Transaction(1, 5411, 810, 5000, 0);
            && Verdict([row], [row.(amount := 10000)], q) == Returned(true)
            && Verdict([row], [row.(amount := 10001)], q) == Returned(false)
            && Verdict([row], [row.(amount := 100)], q) == Returned(true)
            && Verdict([row], [row.(amount := 99)], q) == Returned(false)
  {
  }
}
