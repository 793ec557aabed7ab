/**
 The entropy engine of `entropy.py`. A change map (file path to lines
 changed) becomes a per-file Shannon term `-p * log2(p)`, where `p` is the
 file's share of all changed lines, and the aggregate score is the sum of
 those terms divided by the number of file names the caller asked about.

 Numbers are exact reals, not floats. The base-2 logarithm is a parameter
 `lg`; the facts the proofs use about it are collected in `IsLog2`.
 */
module Entropy {
  import opened Sums
  import opened Diff
  import GitOperations

  /** The properties of `math.log2` that the engine depends on: the logarithm
      of 1 is 0, and it is negative strictly between 0 and 1. */
  ghost predicate IsLog2(lg: real -> real)
  {
    lg(1.0) == 0.0 && forall x :: 0.0 < x < 1.0 ==> lg(x) < 0.0
  }

  /** `get_edited_files` of `entropy.py`, a line-for-line copy of the one in
      `git_operations.py`; it runs that loop. */
  method GetEditedFiles(diff: seq<Patch>) returns (names: seq<string>)
    ensures forall q :: q in names <==>
      q != "" && exists i :: 0 <= i < |diff| && (diff[i].oldPath == q || diff[i].newPath == q)
    ensures forall i, j :: 0 <= i < j < |names| ==> names[i] != names[j]
  {
    names := GitOperations.GetEditedFiles(diff);
  }

  /** One file's entry: 0.0 when the file or the whole map has no changes
      (no division by zero, no log of zero), otherwise `-p * log2(p)` with
      `p = c / total` in true (real) division. */
  function FileEntropy(c: int, total: int, lg: real -> real): real
  {
    if c != 0 && total != 0 then
      var p := c as real / total as real;
      -(p * lg(p))
    else 0.0
  }

  /** `calculate_normalized_entropy`, with the change map given: one entry
      per key of `changes`, relative to the sum of all its counts. On a map
      where `RaisesValueError` holds the program raises instead, and the
      entry of the offending file is not meaningful. */
  ghost function NormalizedEntropy(changes: map<string, int>, lg: real -> real): (r: map<string, real>)
    ensures r.Keys == changes.Keys
    ensures forall f :: f in changes && (changes[f] == 0 || SumInt(changes) == 0) ==> r[f] == 0.0
  {
    var total := SumInt(changes);
    map f | f in changes :: FileEntropy(changes[f], total, lg)
  }

  /** `aggregate_entropy_calculation`, with the change map given: the sum of
      the per-file entries divided by the LENGTH of the requested list, or
      0.0 for an empty request whatever the changes. */
  ghost function AggregateEntropy(changes: map<string, int>, fileNames: seq<string>, lg: real -> real): (r: real)
    ensures fileNames == [] ==> r == 0.0
    ensures fileNames != [] ==> r * (|fileNames| as real) == SumReal(NormalizedEntropy(changes, lg))
  {
    var totalEntropy := SumReal(NormalizedEntropy(changes, lg));
    var numFiles := |fileNames|;
    if numFiles > 0 then totalEntropy / numFiles as real else 0.0
  }

  /** `math.log2` raises `ValueError` on a negative argument. The guard skips
      only a zero count and a zero total, so the call raises exactly when
      some file's share `c / total` is negative. */
  ghost predicate RaisesValueError(changes: map<string, int>)
  {
    exists f :: f in changes && changes[f] != 0 && SumInt(changes) != 0 &&
      changes[f] as real / SumInt(changes) as real < 0.0
  }

  /** Non-negative counts, the only kind `get_loc_changed` produces, never
      make the entropy calculation raise. */
  lemma NonNegativeCountsNeverRaise(changes: map<string, int>)
    requires NonNegativeInts(changes)
    ensures !RaisesValueError(changes)
  {
    SumIntBounds(changes);
    forall f | f in changes && changes[f] != 0 && SumInt(changes) != 0
      ensures changes[f] as real / SumInt(changes) as real >= 0.0
    {
      ShareBounds(changes[f], SumInt(changes));
    }
  }

  lemma LocChangedNeverRaises(diff: seq<Patch>, fileNames: seq<string>)
    ensures !RaisesValueError(GitOperations.LocChanged(diff, fileNames))
  {
    GitOperations.LocChangedNonNegative(diff, fileNames);
    NonNegativeCountsNeverRaise(GitOperations.LocChanged(diff, fileNames));
  }

  /** A negative count can make a share negative: for {A: 3, B: -1} the total
      is 2 and B's share is -0.5, so the program raises. */
  lemma NegativeCountRaises()
    ensures RaisesValueError(map["A" := 3, "B" := -1])
  {
    var changes := map["A" := 3, "B" := -1];
    SumIntPair("A", 3, "B", -1);
    assert changes["B"] as real / SumInt(changes) as real == -0.5;
  }

  // ---------------------------------------------------------------------
  // The reference definition: Shannon's term over the distribution of shares

  /** Each file's share of all changed lines. */
  ghost function Shares(changes: map<string, int>): (p: map<string, real>)
    requires SumInt(changes) != 0
    ensures p.Keys == changes.Keys
  {
    Quotients(changes, SumInt(changes) as real)
  }

  /** Shannon's contribution of one outcome with probability `p`, with the
      usual convention `0 * log 0 = 0`. */
  function ShannonTerm(p: real, lg: real -> real): real
  {
    if p == 0.0 then 0.0 else -(p * lg(p))
  }

  /** With non-negative counts and some change, the shares are probabilities
      that add up to 1. */
  lemma SharesFormDistribution(changes: map<string, int>)
    requires NonNegativeInts(changes) && SumInt(changes) != 0
    ensures SumReal(Shares(changes)) == 1.0
    ensures forall f :: f in changes ==> 0.0 <= Shares(changes)[f] <= 1.0
  {
    var t := SumInt(changes);
    SumRealOfQuotients(changes, t as real);
    SelfQuotient(t as real);
    forall f | f in changes
      ensures 0.0 <= Shares(changes)[f] <= 1.0
    {
      ShareOfFile(changes, f);
    }
  }

  lemma ShareOfFile(changes: map<string, int>, f: string)
    requires NonNegativeInts(changes) && SumInt(changes) != 0 && f in changes
    ensures 0.0 <= Shares(changes)[f] <= 1.0
  {
    var t := SumInt(changes);
    SumIntBounds(changes);
    assert Shares(changes)[f] == changes[f] as real / t as real;
    ShareBounds(changes[f], t);
  }

  lemma SelfQuotient(x: real)
    requires x != 0.0
    ensures x / x == 1.0
  {
  }

  lemma ShareBounds(c: int, t: int)
    requires 0 <= c <= t && t != 0
    ensures 0.0 <= c as real / t as real <= 1.0
    ensures c != 0 ==> 0.0 < c as real / t as real
    ensures c < t ==> c as real / t as real < 1.0
    ensures c == t ==> c as real / t as real == 1.0
  {
    var p := c as real / t as real;
    assert p * t as real == c as real;
  }

  /** Every per-file entry is Shannon's term of that file's share. */
  lemma EntropyIsShannonTerm(changes: map<string, int>, lg: real -> real, f: string)
    requires f in changes && SumInt(changes) != 0
    ensures NormalizedEntropy(changes, lg)[f] == ShannonTerm(Shares(changes)[f], lg)
  {
    var c, t := changes[f], SumInt(changes);
    var p := c as real / t as real;
    assert p * t as real == c as real;
  }

  /** Shannon's entropy of the distribution of shares. */
  ghost function ShannonEntropy(changes: map<string, int>, lg: real -> real): real
    requires SumInt(changes) != 0
  {
    SumReal(map f | f in changes :: ShannonTerm(Shares(changes)[f], lg))
  }

  /** The entries add up to the Shannon entropy of the distribution of shares. */
  lemma EntropySumIsShannonEntropy(changes: map<string, int>, lg: real -> real)
    requires SumInt(changes) != 0
    ensures SumReal(NormalizedEntropy(changes, lg)) == ShannonEntropy(changes, lg)
  {
    var terms := map f | f in changes :: ShannonTerm(Shares(changes)[f], lg);
    forall f | f in changes
      ensures NormalizedEntropy(changes, lg)[f] == terms[f]
    {
      EntropyIsShannonTerm(changes, lg, f);
    }
    assert NormalizedEntropy(changes, lg) == terms;
  }

  // ---------------------------------------------------------------------
  // Per-file entries

  /** Shannon's term of a probability is non-negative, zero for certainty and
      positive strictly between 0 and 1. */
  lemma TermSign(p: real, lg: real -> real)
    requires IsLog2(lg) && 0.0 < p <= 1.0
    ensures -(p * lg(p)) >= 0.0
    ensures p == 1.0 ==> -(p * lg(p)) == 0.0
    ensures p < 1.0 ==> -(p * lg(p)) > 0.0
  {
    if p < 1.0 {
      assert lg(p) < 0.0;
      assert p * lg(p) < 0.0;
    }
  }

  /** With non-negative counts every entry is non-negative; the file holding
      all the changes gets 0, and a file holding some but not all gets a
      positive value. */
  lemma FileEntropySign(changes: map<string, int>, lg: real -> real, f: string)
    requires NonNegativeInts(changes) && IsLog2(lg) && f in changes
    ensures NormalizedEntropy(changes, lg)[f] >= 0.0
    ensures changes[f] == SumInt(changes) ==> NormalizedEntropy(changes, lg)[f] == 0.0
    ensures 0 < changes[f] < SumInt(changes) ==> NormalizedEntropy(changes, lg)[f] > 0.0
  {
    SumIntBounds(changes);
    FileEntropySignAt(changes[f], SumInt(changes), lg);
  }

  lemma FileEntropySignAt(c: int, t: int, lg: real -> real)
    requires IsLog2(lg) && 0 <= c <= t
    ensures FileEntropy(c, t, lg) >= 0.0
    ensures c == t ==> FileEntropy(c, t, lg) == 0.0
    ensures 0 < c < t ==> FileEntropy(c, t, lg) > 0.0
  {
    if c != 0 && t != 0 {
      ShareBounds(c, t);
      TermSign(c as real / t as real, lg);
    }
  }

  lemma NormalizedEntropyNonNegative(changes: map<string, int>, lg: real -> real)
    requires NonNegativeInts(changes) && IsLog2(lg)
    ensures NonNegativeReals(NormalizedEntropy(changes, lg))
    ensures SumReal(NormalizedEntropy(changes, lg)) >= 0.0
  {
    forall f | f in changes
      ensures NormalizedEntropy(changes, lg)[f] >= 0.0
    {
      FileEntropySign(changes, lg, f);
    }
    SumRealBounds(NormalizedEntropy(changes, lg));
  }

  /** When nothing changed (the empty map included) every entry is 0.0 and
      so is the aggregate, whatever was requested. */
  lemma NoChangesNoEntropy(changes: map<string, int>, fileNames: seq<string>, lg: real -> real)
    requires SumInt(changes) == 0
    ensures forall f :: f in changes ==> NormalizedEntropy(changes, lg)[f] == 0.0
    ensures AggregateEntropy(changes, fileNames, lg) == 0.0
  {
    SumRealZero(NormalizedEntropy(changes, lg));
  }

  /** When a single file holds every change, its entry, the total entropy and
      the aggregate are all 0. */
  lemma SoleContributorNoEntropy(changes: map<string, int>, fileNames: seq<string>, lg: real -> real, f: string)
    requires IsLog2(lg) && f in changes
    requires forall g :: g in changes && g != f ==> changes[g] == 0
    ensures NormalizedEntropy(changes, lg)[f] == 0.0
    ensures SumReal(NormalizedEntropy(changes, lg)) == 0.0
    ensures AggregateEntropy(changes, fileNames, lg) == 0.0
  {
    var c, t := changes[f], SumInt(changes);
    SumIntOnly(changes, f);
    if c != 0 {
      assert c as real / t as real == 1.0;
    }
    SumRealZero(NormalizedEntropy(changes, lg));
  }

  /** Two distinct files that both changed make the total entropy positive. */
  lemma SpreadChangesPositiveEntropy(changes: map<string, int>, lg: real -> real, a: string, b: string)
    requires NonNegativeInts(changes) && IsLog2(lg)
    requires a in changes && b in changes && a != b && changes[a] > 0 && changes[b] > 0
    ensures SumReal(NormalizedEntropy(changes, lg)) > 0.0
  {
    SumIntAtLeastPair(changes, a, b);
    FileEntropySign(changes, lg, a);
    NormalizedEntropyNonNegative(changes, lg);
    SumRealBounds(NormalizedEntropy(changes, lg));
  }

  /** A requested file that is absent from the change map weighs exactly as a
      file present with count 0: adding it changes no other entry and neither
      the total entropy nor the aggregate. */
  lemma ZeroEntryChangesNothing(changes: map<string, int>, fileNames: seq<string>, lg: real -> real, f: string)
    requires f !in changes
    ensures NormalizedEntropy(changes[f := 0], lg) == NormalizedEntropy(changes, lg)[f := 0.0]
    ensures AggregateEntropy(changes[f := 0], fileNames, lg) == AggregateEntropy(changes, fileNames, lg)
  {
    var padded := changes[f := 0];
    SumIntRemove(padded, f);
    assert padded - {f} == changes;
    var e, e' := NormalizedEntropy(changes, lg), NormalizedEntropy(padded, lg);
    assert e' == e[f := 0.0];
    SumRealRemove(e', f);
    assert e' - {f} == e;
  }

  // ---------------------------------------------------------------------
  // The aggregate

  lemma AggregateNonNegative(changes: map<string, int>, fileNames: seq<string>, lg: real -> real)
    requires NonNegativeInts(changes) && IsLog2(lg)
    ensures AggregateEntropy(changes, fileNames, lg) >= 0.0
  {
    NormalizedEntropyNonNegative(changes, lg);
  }

  /** For a fixed change map, only the length of the request matters, not
      which names it holds: a name repeated or never changed still counts in
      the denominator. When the map is built from the request itself, two
      requests of equal length can score differently (see
      `SameLengthDifferentNames` among the worked cases). */
  lemma AggregateDependsOnLengthOnly(changes: map<string, int>, a: seq<string>, b: seq<string>, lg: real -> real)
    requires |a| == |b|
    ensures AggregateEntropy(changes, a, lg) == AggregateEntropy(changes, b, lg)
  {
  }

  /** For a fixed change map, lengthening a non-empty request keeps the
      numerator and never raises the aggregate; it strictly lowers it when the
      total entropy is positive. */
  lemma PaddingRequestLowersAggregate(changes: map<string, int>, fileNames: seq<string>, extra: seq<string>, lg: real -> real)
    requires NonNegativeInts(changes) && IsLog2(lg) && fileNames != []
    ensures AggregateEntropy(changes, fileNames + extra, lg) * (|fileNames + extra| as real)
         == AggregateEntropy(changes, fileNames, lg) * (|fileNames| as real)
    ensures AggregateEntropy(changes, fileNames + extra, lg) <= AggregateEntropy(changes, fileNames, lg)
    ensures extra != [] && SumReal(NormalizedEntropy(changes, lg)) > 0.0 ==>
      AggregateEntropy(changes, fileNames + extra, lg) < AggregateEntropy(changes, fileNames, lg)
  {
    var s := SumReal(NormalizedEntropy(changes, lg));
    NormalizedEntropyNonNegative(changes, lg);
    var n, m := |fileNames| as real, |fileNames + extra| as real;
    DivideByLarger(s, n, m);
  }

  lemma DivideByLarger(s: real, n: real, m: real)
    requires s >= 0.0 && 0.0 < n <= m
    ensures s / m <= s / n
    ensures s > 0.0 && n < m ==> s / m < s / n
  {
    assert (s / m) * m == s;
    assert (s / n) * n == s;
    assert (s / m) * n <= (s / m) * m;
  }

  /** The program builds the change map from the same request it divides by.
      Padding a non-empty request with names that no patch has as its new path
      leaves that map unchanged, so the composed score never rises, and it
      drops when the total entropy is positive. */
  lemma PaddingUntouchedNamesLowersScore(diff: seq<Patch>, fileNames: seq<string>, extra: seq<string>, lg: real -> real)
    requires IsLog2(lg) && fileNames != []
    requires forall i :: 0 <= i < |diff| ==> diff[i].newPath !in extra
    ensures
      var changes := GitOperations.LocChanged(diff, fileNames);
      AggregateEntropy(GitOperations.LocChanged(diff, fileNames + extra), fileNames + extra, lg)
        <= AggregateEntropy(changes, fileNames, lg)
    ensures
      var changes := GitOperations.LocChanged(diff, fileNames);
      extra != [] && SumReal(NormalizedEntropy(changes, lg)) > 0.0 ==>
        AggregateEntropy(GitOperations.LocChanged(diff, fileNames + extra), fileNames + extra, lg)
          < AggregateEntropy(changes, fileNames, lg)
  {
    GitOperations.LocChangedIgnoresUntouchedNames(diff, fileNames, extra);
    GitOperations.LocChangedNonNegative(diff, fileNames);
    PaddingRequestLowersAggregate(GitOperations.LocChanged(diff, fileNames), fileNames, extra, lg);
  }
}
