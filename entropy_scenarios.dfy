/**
 Worked cases of the metric, stated for every `lg` that behaves like the
 base-2 logarithm and has `lg(0.5) == -1.0`.
 */
module EntropyScenarios {
  import opened Sums
  import opened Diff
  import opened GitOperations
  import opened Entropy

  /** Two files with equal counts each contribute 0.5; asked about both, the aggregate is 0.5. */
  lemma EqualSplit(lg: real -> real)
    requires IsLog2(lg) && lg(0.5) == -1.0
    ensures NormalizedEntropy(map["A" := 10, "B" := 10], lg) == map["A" := 0.5, "B" := 0.5]
    ensures AggregateEntropy(map["A" := 10, "B" := 10], ["A", "B"], lg) == 0.5
  {
    var changes := map["A" := 10, "B" := 10];
    SumIntPair("A", 10, "B", 10);
    assert FileEntropy(10, 20, lg) == 0.5 by {
      assert 10 as real / 20 as real == 0.5;
    }
    var e := NormalizedEntropy(changes, lg);
    assert e == map["A" := 0.5, "B" := 0.5];
    SumRealPair("A", 0.5, "B", 0.5);
  }

  /** The diff of the end-to-end case: `x.py` gains three lines and loses
      two; `y.py` gains five, with one context line between them. */
  function TwoFileDiff(): seq<Patch>
  {
    [ Patch("x.py", "x.py", [Hunk("+++--")]),
      Patch("y.py", "y.py", [Hunk("+ ++++")]) ]
  }

  lemma TwoFileCounts()
    ensures LocChanged(TwoFileDiff(), ["x.py", "y.py"]) == map["x.py" := 5, "y.py" := 5]
    ensures LocChanged(TwoFileDiff(), ["x.py", "y.py", "z.py"]) == map["x.py" := 5, "y.py" := 5]
  {
    var d := TwoFileDiff();
    assert d[..1] == [d[0]];
    assert AllLines(d[0].hunks) == "+++--" by {
      assert d[0].hunks[..0] == [];
    }
    assert AllLines(d[1].hunks) == "+ ++++" by {
      assert d[1].hunks[..0] == [];
    }
    assert multiset("+++--")['+'] == 3 && multiset("+++--")['-'] == 2;
    assert multiset("+ ++++")['+'] == 5 && multiset("+ ++++")['-'] == 0;
  }

  /** Two files with the same positive count each get 0.5. */
  lemma EvenPair(a: string, b: string, n: int, lg: real -> real)
    requires a != b && n > 0 && IsLog2(lg) && lg(0.5) == -1.0
    ensures NormalizedEntropy(map[a := n, b := n], lg) == map[a := 0.5, b := 0.5]
  {
    SumIntPair(a, n, b, n);
    assert n as real / (n + n) as real == 0.5 by {
      assert 0.5 * (n + n) as real == n as real;
    }
    assert FileEntropy(n, n + n, lg) == 0.5;
  }

  /** From the diff to the score: counts 5 and 5, entries 0.5 and 0.5,
      aggregate 0.5. */
  lemma EndToEnd(lg: real -> real)
    requires IsLog2(lg) && lg(0.5) == -1.0
    ensures NormalizedEntropy(LocChanged(TwoFileDiff(), ["x.py", "y.py"]), lg) == map["x.py" := 0.5, "y.py" := 0.5]
    ensures AggregateEntropy(LocChanged(TwoFileDiff(), ["x.py", "y.py"]), ["x.py", "y.py"], lg) == 0.5
  {
    TwoFileCounts();
    EvenPair("x.py", "y.py", 5, lg);
    SumRealPair("x.py", 0.5, "y.py", 0.5);
  }

  /** A requested path the diff never touches gets no key at all (the change
      map holds only paths that occur in the diff), yet it still counts in the
      denominator: the score drops from 1/2 to 1/3. */
  lemma UntouchedRequestedFile(lg: real -> real)
    requires IsLog2(lg) && lg(0.5) == -1.0
    ensures "z.py" !in LocChanged(TwoFileDiff(), ["x.py", "y.py", "z.py"])
    ensures AggregateEntropy(LocChanged(TwoFileDiff(), ["x.py", "y.py", "z.py"]), ["x.py", "y.py", "z.py"], lg) == 1.0 / 3.0
  {
    TwoFileCounts();
    EndToEnd(lg);
  }

  /** Padding with a name the diff DOES touch can raise the score, because the
      longer request also lets more files into the change map: asking about
      x.py alone scores 0, asking about x.py and y.py scores 0.5. */
  lemma PaddingWithTouchedFileRaisesScore(lg: real -> real)
    requires IsLog2(lg) && lg(0.5) == -1.0
    ensures AggregateEntropy(LocChanged(TwoFileDiff(), ["x.py"]), ["x.py"], lg) == 0.0
    ensures AggregateEntropy(LocChanged(TwoFileDiff(), ["x.py", "y.py"]), ["x.py", "y.py"], lg) == 0.5
  {
    var d := TwoFileDiff();
    TwoFileCounts();
    assert d[..1] == [d[0]];
    assert AllLines(d[0].hunks) == "+++--" by {
      assert d[0].hunks[..0] == [];
    }
    assert multiset("+++--")['+'] == 3 && multiset("+++--")['-'] == 2;
    assert LocChanged(d, ["x.py"]) == map["x.py" := 5];
    SoleContributorNoEntropy(map["x.py" := 5], ["x.py"], lg, "x.py");
    EndToEnd(lg);
  }

  /** With the map built from the request, only a fixed map makes the score
      depend on the request's length alone: [x.py, y.py] scores 0.5, while
      [x.py, z.py], of the same length, lets only x.py into the map and
      scores 0. */
  lemma SameLengthDifferentNames(lg: real -> real)
    requires IsLog2(lg) && lg(0.5) == -1.0
    ensures LocChanged(TwoFileDiff(), ["x.py", "z.py"]) == map["x.py" := 5]
    ensures AggregateEntropy(LocChanged(TwoFileDiff(), ["x.py", "y.py"]), ["x.py", "y.py"], lg) == 0.5
    ensures AggregateEntropy(LocChanged(TwoFileDiff(), ["x.py", "z.py"]), ["x.py", "z.py"], lg) == 0.0
  {
    var d := TwoFileDiff();
    assert d[..1] == [d[0]];
    assert AllLines(d[0].hunks) == "+++--" by {
      assert d[0].hunks[..0] == [];
    }
    assert multiset("+++--")['+'] == 3 && multiset("+++--")['-'] == 2;
    assert LocChanged(d, ["x.py", "z.py"]) == map["x.py" := 5];
    SoleContributorNoEntropy(map["x.py" := 5], ["x.py", "z.py"], lg, "x.py");
    EndToEnd(lg);
  }
}
