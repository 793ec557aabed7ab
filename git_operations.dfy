/**
 The diff summaries of `git_operations.py`: the set of paths a diff touches
 (`get_edited_files`) and the per-file count of added plus removed lines
 (`get_loc_changed`). The methods keep the source's loops and accumulators;
 each is proved equal to a specification function, and the lemmas below say
 what those functions mean.
 */
module GitOperations {
  import opened Diff

  /** The non-empty paths on the two sides of one patch. */
  function PathsOf(p: Patch): set<string>
  {
    (if p.oldPath != "" then {p.oldPath} else {}) + (if p.newPath != "" then {p.newPath} else {})
  }

  /** The paths touched by `diff`, accumulated patch after patch. */
  function EditedPaths(diff: seq<Patch>): set<string>
  {
    if diff == [] then {} else EditedPaths(diff[..|diff| - 1]) + PathsOf(diff[|diff| - 1])
  }

  /** A path is edited exactly when it is non-empty and is the old or the new path of some patch. */
  lemma {:induction false} EditedPathsExactly(diff: seq<Patch>, q: string)
    ensures q in EditedPaths(diff) <==>
      q != "" && exists i :: 0 <= i < |diff| && (diff[i].oldPath == q || diff[i].newPath == q)
  {
    if diff != [] {
      var init, last := diff[..|diff| - 1], diff[|diff| - 1];
      EditedPathsExactly(init, q);
      forall i | 0 <= i < |init|
        ensures init[i] == diff[i]
      {
      }
    }
  }

  /** Number of '+' lines plus number of '-' lines over all hunks of `p`;
      lines with any other origin count for nothing. */
  function LinesChanged(p: Patch): nat
  {
    var all := multiset(AllLines(p.hunks));
    all['+'] + all['-']
  }

  /** Among the lines `s`, the '+' and '-' ones number at most `|s|`. */
  lemma {:induction false} ChangedAtMostAll(s: seq<Origin>)
    ensures multiset(s)['+'] + multiset(s)['-'] <= |s|
  {
    if s != [] {
      ChangedAtMostAll(s[..|s| - 1]);
      assert s == s[..|s| - 1] + [s[|s| - 1]];
    }
  }

  /** A patch never counts more changed lines than it has lines, and a patch
      without hunks (a mode-only change) counts none. */
  lemma LinesChangedBounds(p: Patch)
    ensures LinesChanged(p) <= |AllLines(p.hunks)|
    ensures p.hunks == [] ==> LinesChanged(p) == 0
  {
    ChangedAtMostAll(AllLines(p.hunks));
  }

  /** Inserting a line whose origin is neither '+' nor '-' anywhere in a hunk leaves the count unchanged. */
  lemma ContextLinesCountNothing(p: Patch, h: nat, k: nat, o: Origin)
    requires h < |p.hunks| && k <= |p.hunks[h].lines|
    requires o != '+' && o != '-'
    ensures
      var lines := p.hunks[h].lines;
      LinesChanged(p.(hunks := p.hunks[h := Hunk(lines[..k] + [o] + lines[k..])])) == LinesChanged(p)
  {
    AllLinesInsert(p.hunks, h, k, o);
  }

  lemma {:induction false} AllLinesInsert(hunks: seq<Hunk>, h: nat, k: nat, o: Origin)
    requires h < |hunks| && k <= |hunks[h].lines|
    ensures
      var lines := hunks[h].lines;
      multiset(AllLines(hunks[h := Hunk(lines[..k] + [o] + lines[k..])])) == multiset(AllLines(hunks)) + multiset{o}
  {
    var lines := hunks[h].lines;
    var hunks' := hunks[h := Hunk(lines[..k] + [o] + lines[k..])];
    var n := |hunks|;
    if h == n - 1 {
      assert hunks'[..n - 1] == hunks[..n - 1];
      assert lines == lines[..k] + lines[k..];
    } else {
      assert hunks'[..n - 1] == hunks[..n - 1][h := Hunk(lines[..k] + [o] + lines[k..])];
      AllLinesInsert(hunks[..n - 1], h, k, o);
      assert hunks'[n - 1] == hunks[n - 1];
    }
  }

  /** The change map of `get_loc_changed`: every patch whose new path is
      requested writes its count under that path, a later patch overwriting an
      earlier one with the same new path. */
  function LocChanged(diff: seq<Patch>, fileNames: seq<string>): map<string, int>
  {
    if diff == [] then map[]
    else
      var changes := LocChanged(diff[..|diff| - 1], fileNames);
      var p := diff[|diff| - 1];
      if p.newPath in fileNames then changes[p.newPath := LinesChanged(p)] else changes
  }

  /** The keys are exactly the requested paths that are the new path of some
      patch; old paths are never looked at, and nothing else gets in. */
  lemma {:induction false} LocChangedKeys(diff: seq<Patch>, fileNames: seq<string>, q: string)
    ensures q in LocChanged(diff, fileNames) <==>
      q in fileNames && exists i :: 0 <= i < |diff| && diff[i].newPath == q
  {
    if diff != [] {
      var init := diff[..|diff| - 1];
      LocChangedKeys(init, fileNames, q);
      if exists i :: 0 <= i < |init| && init[i].newPath == q {
        var i :| 0 <= i < |init| && init[i].newPath == q;
        assert diff[i] == init[i];
      }
      if exists i :: 0 <= i < |diff| && diff[i].newPath == q {
        var i :| 0 <= i < |diff| && diff[i].newPath == q;
        if i < |init| {
          assert init[i] == diff[i];
        }
      }
    }
  }

  /** The value stored for a path is the count of the LAST patch whose new path it is. */
  lemma {:induction false} LocChangedLastWins(diff: seq<Patch>, fileNames: seq<string>, i: nat)
    requires i < |diff| && diff[i].newPath in fileNames
    requires forall j :: i < j < |diff| ==> diff[j].newPath != diff[i].newPath
    ensures diff[i].newPath in LocChanged(diff, fileNames)
    ensures LocChanged(diff, fileNames)[diff[i].newPath] == LinesChanged(diff[i])
  {
    var init := diff[..|diff| - 1];
    if i < |diff| - 1 {
      assert init[i] == diff[i];
      LocChangedLastWins(init, fileNames, i);
    }
  }

  /** A requested patch without hunks, not overwritten later, is stored with count 0. */
  lemma ModeOnlyChangeStoresZero(diff: seq<Patch>, fileNames: seq<string>, i: nat)
    requires i < |diff| && diff[i].newPath in fileNames && diff[i].hunks == []
    requires forall j :: i < j < |diff| ==> diff[j].newPath != diff[i].newPath
    ensures diff[i].newPath in LocChanged(diff, fileNames)
    ensures LocChanged(diff, fileNames)[diff[i].newPath] == 0
  {
    LocChangedLastWins(diff, fileNames, i);
    LinesChangedBounds(diff[i]);
  }

  /** Every stored count is non-negative, and an empty request gives an empty map. */
  lemma {:induction false} LocChangedNonNegative(diff: seq<Patch>, fileNames: seq<string>)
    ensures forall q :: q in LocChanged(diff, fileNames) ==> LocChanged(diff, fileNames)[q] >= 0
    ensures fileNames == [] ==> LocChanged(diff, fileNames) == map[]
  {
    if diff != [] {
      LocChangedNonNegative(diff[..|diff| - 1], fileNames);
    }
  }

  /** Requesting extra names that no patch has as its new path leaves the change map as it was. */
  lemma {:induction false} LocChangedIgnoresUntouchedNames(diff: seq<Patch>, fileNames: seq<string>, extra: seq<string>)
    requires forall i :: 0 <= i < |diff| ==> diff[i].newPath !in extra
    ensures LocChanged(diff, fileNames + extra) == LocChanged(diff, fileNames)
  {
    if diff != [] {
      var init := diff[..|diff| - 1];
      forall i | 0 <= i < |init|
        ensures init[i].newPath !in extra
      {
        assert init[i] == diff[i];
      }
      LocChangedIgnoresUntouchedNames(init, fileNames, extra);
      assert diff[|diff| - 1].newPath !in extra;
    }
  }

  /** `get_edited_files`: collect the non-empty old and new paths of every
      patch into a set, then list that set. */
  method GetEditedFiles(diff: seq<Patch>) returns (names: seq<string>)
    ensures forall q :: q in names <==> q in EditedPaths(diff)
    ensures forall q :: q in names <==>
      q != "" && exists i :: 0 <= i < |diff| && (diff[i].oldPath == q || diff[i].newPath == q)
    ensures forall i, j :: 0 <= i < j < |names| ==> names[i] != names[j]
    ensures |names| == |EditedPaths(diff)|
  {
    var fileNames: set<string> := {};
    for i := 0 to |diff|
      invariant fileNames == EditedPaths(diff[..i])
    {
      assert diff[..i + 1][..i] == diff[..i];
      if diff[i].oldPath != "" {
        fileNames := fileNames + {diff[i].oldPath};
      }
      if diff[i].newPath != "" {
        fileNames := fileNames + {diff[i].newPath};
      }
    }
    assert diff[..|diff|] == diff;
    names := ListOf(fileNames);
    forall q {
      EditedPathsExactly(diff, q);
    }
  }

  /** Python's `list(s)`: the elements of `s`, each once, in some order. */
  method ListOf(s: set<string>) returns (xs: seq<string>)
    ensures forall q :: q in xs <==> q in s
    ensures forall i, j :: 0 <= i < j < |xs| ==> xs[i] != xs[j]
    ensures |xs| == |s|
  {
    xs := [];
    var rest := s;
    while rest != {}
      invariant rest <= s
      invariant forall q :: q in xs <==> q in s - rest
      invariant forall i, j :: 0 <= i < j < |xs| ==> xs[i] != xs[j]
      invariant |xs| == |s - rest|
      decreases rest
    {
      var q :| q in rest;
      assert s - (rest - {q}) == (s - rest) + {q};
      xs := xs + [q];
      rest := rest - {q};
    }
  }

  /** `get_loc_changed`: for each patch whose new path is requested, count
      the '+' and '-' lines of all its hunks and store the sum under that path. */
  method GetLocChanged(diff: seq<Patch>, fileNames: seq<string>) returns (changes: map<string, int>)
    ensures changes == LocChanged(diff, fileNames)
    ensures forall q :: q in changes ==> q in fileNames && changes[q] >= 0
  {
    changes := map[];
    for i := 0 to |diff|
      invariant changes == LocChanged(diff[..i], fileNames)
    {
      var patch := diff[i];
      assert diff[..i + 1][..i] == diff[..i];
      if patch.newPath in fileNames {
        var additions, deletions := CountOrigins(patch.hunks);
        var linesChanged := additions + deletions;
        changes := changes[patch.newPath := linesChanged];
      }
    }
    assert diff[..|diff|] == diff;
    LocChangedNonNegative(diff, fileNames);
    forall q | q in changes
      ensures q in fileNames
    {
      LocChangedKeys(diff, fileNames, q);
    }
  }

  /** The nested hunk and line loops of `get_loc_changed`: count the '+' lines
      and the '-' lines over all hunks; other lines are skipped. */
  method CountOrigins(hunks: seq<Hunk>) returns (additions: nat, deletions: nat)
    ensures additions == multiset(AllLines(hunks))['+']
    ensures deletions == multiset(AllLines(hunks))['-']
  {
    additions, deletions := 0, 0;
    for h := 0 to |hunks|
      invariant additions == multiset(AllLines(hunks[..h]))['+']
      invariant deletions == multiset(AllLines(hunks[..h]))['-']
    {
      assert hunks[..h + 1][..h] == hunks[..h];
      additions, deletions := CountHunkLines(hunks[h].lines, additions, deletions);
    }
    assert hunks[..|hunks|] == hunks;
  }

  /** The innermost loop: bump `additions` for each '+' line and `deletions`
      for each '-' line of one hunk. */
  method CountHunkLines(lines: seq<Origin>, additions0: nat, deletions0: nat) returns (additions: nat, deletions: nat)
    ensures additions == additions0 + multiset(lines)['+']
    ensures deletions == deletions0 + multiset(lines)['-']
  {
    additions, deletions := additions0, deletions0;
    for k := 0 to |lines|
      invariant additions == additions0 + multiset(lines[..k])['+']
      invariant deletions == deletions0 + multiset(lines[..k])['-']
    {
      assert lines[..k + 1] == lines[..k] + [lines[k]];
      if lines[k] == '+' {
        additions := additions + 1;
      } else if lines[k] == '-' {
        deletions := deletions + 1;
      }
    }
    assert lines[..|lines|] == lines;
  }
}
