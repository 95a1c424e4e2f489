/** The release-string classifiers of spkg.py: z-stream branch builds, module builds
    and rebuilds. */
module Release {
  import opened PyStr
  import opened Package

  /** `_is_branch_el8(pkg)`: the release contains "el8_". */
  predicate IsBranchEl8(p: Pkg)
    ensures IsBranchEl8(p) <==> exists i :: OccursAt(p.release, "el8_", i)
  {
    Contains(p.release, "el8_")
  }

  /** `_is_module(pkg)`: the release contains ".module+". */
  predicate IsModule(p: Pkg)
    ensures IsModule(p) <==> exists i :: OccursAt(p.release, ".module+", i)
  {
    Contains(p.release, ".module+")
  }

  /** The release ends in `+` followed by one or more digits. */
  ghost predicate EndsWithPlusDigits(rel: string)
  {
    exists i :: 0 < i < |rel| && rel[i - 1] == '+' && AllDigits(rel[i..])
  }

  /** `_is_rebuild(pkg)`: strips the trailing digits and looks for a `+` before them.
      An empty release makes `rel[-1]` raise IndexError. */
  method IsRebuild(p: Pkg) returns (r: Result<bool>)
    ensures |p.release| == 0 <==> r == Err(IndexError)
    ensures |p.release| > 0 ==> r == Ok(EndsWithPlusDigits(p.release))
  {
    var rel := p.release;
    if |rel| == 0 {
      return Err(IndexError);
    }
    if !IsDigit(rel[|rel| - 1]) {
      forall i | 0 < i < |rel| ensures !AllDigits(rel[i..]) {
        assert rel[i..][|rel| - 1 - i] == rel[|rel| - 1];
      }
      return Ok(false);
    }
    while |rel| > 0 && IsDigit(rel[|rel| - 1])
      invariant |rel| <= |p.release| && rel == p.release[..|rel|]
      invariant AllDigits(p.release[|rel|..])
    {
      rel := rel[..|rel| - 1];
    }
    var release := p.release;
    var n := |rel|;
    assert n < |release|;
    if n > 0 && rel[n - 1] == '+' {
      assert release[n - 1] == '+';
      return Ok(true);
    }
    assert forall j :: n <= j < |release| ==> IsDigit(release[j]) by {
      forall j | n <= j < |release| ensures IsDigit(release[j]) {
        assert release[j] == release[n..][j - n];
      }
    }
    assert n > 0 ==> release[n - 1] == rel[n - 1];
    forall i | 0 < i < n && release[i - 1] == '+' ensures !AllDigits(release[i..]) {
      assert !IsDigit(release[i..][n - 1 - i]);
    }
    return Ok(false);
  }

  // ---------------------------------------------------------------------------
  // The examples of the doc strings

  /** foo-1-2.el8_3.noarch is a branch build. */
  lemma BranchExample()
    ensures IsBranchEl8(Pkg("foo", "1", "2.el8_3", "noarch", Absent))
  {
    assert OccursAt("2.el8_3", "el8_", 2);
  }

  /** foo-1-2.module+el8.1.0+2940+f62455ee.noarch is a module build, and not a rebuild. */
  lemma ModuleExample()
    ensures IsModule(Pkg("foo", "1", "2.module+el8.1.0+2940+f62455ee", "noarch", Absent))
    ensures !EndsWithPlusDigits("2.module+el8.1.0+2940+f62455ee")
  {
    var rel := "2.module+el8.1.0+2940+f62455ee";
    assert rel[..9] == "2.module+";
    assert rel[1..9] == ".module+";
    assert OccursAt(rel, ".module+", 1);
    forall i | 0 < i < |rel| ensures !AllDigits(rel[i..]) {
      assert rel[i..][|rel| - 1 - i] == 'e';
    }
  }

  /** foo-1-2.el8+4.noarch is a rebuild, and neither a branch nor a module build. */
  lemma RebuildExample()
    ensures EndsWithPlusDigits("2.el8+4")
    ensures !IsBranchEl8(Pkg("foo", "1", "2.el8+4", "noarch", Absent))
    ensures !IsModule(Pkg("foo", "1", "2.el8+4", "noarch", Absent))
  {
    var rel := "2.el8+4";
    assert rel[5] == '+' && rel[6..] == "4";
    forall i ensures !OccursAt(rel, "el8_", i) {
      if 0 <= i <= |rel| - 4 {
        assert rel[i..i + 4][3] == rel[i + 3];
      }
    }
  }
}
