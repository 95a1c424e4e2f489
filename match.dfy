/** `match_pkgs` of spkg.py: the packages, in sorted order, that some argument names
    exactly or as a shell-style pattern. */
module Match {
  import opened Package

  /** The external `fnmatch.fnmatch(name, pattern)`. Its pattern language is not part of
      this model. */
  type Matcher = (string, string) -> bool

  // ---------------------------------------------------------------------------
  // `sorted(bpkgs)`: a stable sort by the package `<`

  /** Inserts `x` before the first element it is `<`, so after every element it is not. */
  function InsertPkg(rpmvercmp: Comparator, x: Pkg, s: seq<Pkg>): (r: seq<Pkg>)
    ensures multiset(r) == multiset(s) + multiset{x}
  {
    if s == [] then [x]
    else if Lt(rpmvercmp, x, s[0]) then [x] + s
    else
      assert s == [s[0]] + s[1..];
      [s[0]] + InsertPkg(rpmvercmp, x, s[1..])
  }

  /** `sorted(bpkgs)`, as an insertion sort: a permutation of the input. */
  function SortPkgs(rpmvercmp: Comparator, s: seq<Pkg>): (r: seq<Pkg>)
    ensures multiset(r) == multiset(s)
  {
    if s == [] then []
    else
      assert s == s[..|s| - 1] + [s[|s| - 1]];
      InsertPkg(rpmvercmp, s[|s| - 1], SortPkgs(rpmvercmp, s[..|s| - 1]))
  }

  /** No element is `<` an element before it. */
  ghost predicate Sorted(rpmvercmp: Comparator, s: seq<Pkg>)
  {
    forall i, j :: 0 <= i < j < |s| ==> !Lt(rpmvercmp, s[j], s[i])
  }

  lemma {:induction false} InsertPkgSorted(rpmvercmp: Comparator, x: Pkg, s: seq<Pkg>)
    requires TotalPreorderCmp(rpmvercmp) && UniformEpochs(s + [x]) && Sorted(rpmvercmp, s)
    ensures Sorted(rpmvercmp, InsertPkg(rpmvercmp, x, s))
  {
    if s != [] {
      if Lt(rpmvercmp, x, s[0]) {
        InsertBeforeHead(rpmvercmp, x, s);
      } else {
        var t := s[1..];
        assert forall y | y in t + [x] :: y in s + [x] by {
          forall y | y in t + [x] ensures y in s + [x] {
            if y in t {
              var k :| 0 <= k < |t| && t[k] == y;
              assert s[k + 1] == y;
            }
          }
        }
        InsertPkgSorted(rpmvercmp, x, t);
        InsertAfterHead(rpmvercmp, x, s, InsertPkg(rpmvercmp, x, t));
      }
    }
  }

  /** `x < s[0]`, so `x` goes first, and nothing in `s` is `<` it. */
  lemma InsertBeforeHead(rpmvercmp: Comparator, x: Pkg, s: seq<Pkg>)
    requires TotalPreorderCmp(rpmvercmp) && UniformEpochs(s + [x]) && Sorted(rpmvercmp, s)
    requires s != [] && Lt(rpmvercmp, x, s[0])
    ensures Sorted(rpmvercmp, [x] + s)
  {
    var r := [x] + s;
    assert x in s + [x];
    forall j | 0 < j < |r| ensures !Lt(rpmvercmp, r[j], x) {
      assert r[j] == s[j - 1];
      LtAsymmetric(rpmvercmp, x, s[0]);
      if j > 1 && Lt(rpmvercmp, s[j - 1], x) {
        assert s[j - 1] in s + [x] && s[0] in s + [x];
        LtTransitive(rpmvercmp, s[j - 1], x, s[0]);
      }
    }
  }

  /** `x` is not `< s[0]`, so `s[0]` stays first, in front of the sorted insertion into the rest. */
  lemma InsertAfterHead(rpmvercmp: Comparator, x: Pkg, s: seq<Pkg>, rt: seq<Pkg>)
    requires Sorted(rpmvercmp, s) && s != [] && !Lt(rpmvercmp, x, s[0])
    requires Sorted(rpmvercmp, rt) && multiset(rt) == multiset(s[1..]) + multiset{x}
    ensures Sorted(rpmvercmp, [s[0]] + rt)
  {
    var r := [s[0]] + rt;
    var t := s[1..];
    forall j | 0 < j < |r| ensures !Lt(rpmvercmp, r[j], s[0]) {
      assert r[j] == rt[j - 1];
      assert rt[j - 1] in multiset(rt);
      if rt[j - 1] != x {
        assert rt[j - 1] in t;
        var k :| 0 <= k < |t| && t[k] == rt[j - 1];
        assert s[k + 1] == t[k];
      }
    }
  }

  /** When rpmvercmp is a total preorder and epochs are uniform, `sorted` sorts. */
  lemma {:induction false} SortPkgsSorted(rpmvercmp: Comparator, s: seq<Pkg>)
    requires TotalPreorderCmp(rpmvercmp) && UniformEpochs(s)
    ensures Sorted(rpmvercmp, SortPkgs(rpmvercmp, s))
  {
    if s != [] {
      var prefix := s[..|s| - 1];
      assert forall y | y in prefix :: y in s;
      SortPkgsSorted(rpmvercmp, prefix);
      var sp := SortPkgs(rpmvercmp, prefix);
      assert forall y | y in sp + [s[|s| - 1]] :: y in s by {
        forall y | y in sp + [s[|s| - 1]] ensures y in s {
          if y in sp {
            assert y in multiset(prefix);
          }
        }
      }
      InsertPkgSorted(rpmvercmp, s[|s| - 1], sp);
    }
  }

  // ---------------------------------------------------------------------------
  // Which packages an argument list selects

  /** The tuple `full` of names a package answers to. */
  function Full(p: Pkg): seq<string>
  {
    [p.name, Nv(p), Nvr(p), Nvra(p)]
  }

  /** Some argument equals one of the names. */
  ghost predicate ExactHit(args: seq<string>, full: seq<string>)
  {
    exists a | a in args :: a in full
  }

  /** Some argument, as a pattern, matches one of the names. */
  ghost predicate GlobHit(fnmatch: Matcher, args: seq<string>, full: seq<string>)
  {
    exists a, m | a in args && m in full :: fnmatch(m, a)
  }

  /** A package is kept when there are no arguments or some argument selects it. */
  ghost predicate Selected(fnmatch: Matcher, args: seq<string>, p: Pkg)
  {
    |args| == 0 || ExactHit(args, Full(p)) || GlobHit(fnmatch, args, Full(p))
  }

  /** The selected packages of `s`, in the order of `s`. */
  ghost function Filter(fnmatch: Matcher, args: seq<string>, s: seq<Pkg>): seq<Pkg>
  {
    if s == [] then []
    else Filter(fnmatch, args, s[..|s| - 1])
         + (if Selected(fnmatch, args, s[|s| - 1]) then [s[|s| - 1]] else [])
  }

  lemma ExactHitSnoc(args: seq<string>, a: string, full: seq<string>)
    ensures ExactHit(args + [a], full) <==> ExactHit(args, full) || a in full
  {
    assert a in args + [a];
    assert forall b | b in args :: b in args + [a];
  }

  lemma GlobHitSnoc(fnmatch: Matcher, args: seq<string>, a: string, full: seq<string>)
    ensures GlobHit(fnmatch, args + [a], full) <==>
              GlobHit(fnmatch, args, full) || exists m | m in full :: fnmatch(m, a)
  {
    assert a in args + [a];
    assert forall b | b in args :: b in args + [a];
  }

  /** `match_pkgs(args, bpkgs)` */
  method MatchPkgs(rpmvercmp: Comparator, fnmatch: Matcher, args: seq<string>, bpkgs: seq<Pkg>)
    returns (ret: seq<Pkg>)
    ensures ret == Filter(fnmatch, args, SortPkgs(rpmvercmp, bpkgs))
  {
    ret := [];
    var sorted := SortPkgs(rpmvercmp, bpkgs);
    for b := 0 to |sorted|
      invariant ret == Filter(fnmatch, args, sorted[..b])
    {
      assert sorted[..b + 1][..b] == sorted[..b];
      var bpkg := sorted[b];
      var found := IsSelected(fnmatch, args, bpkg);
      if !found {
        continue;
      }
      ret := ret + [bpkg];
    }
    assert sorted[..|sorted|] == sorted;
  }

  /** The body of the loop of `match_pkgs` for one package: no arguments, an exact
      name among the four forms, or a pattern matching one of them. */
  method IsSelected(fnmatch: Matcher, args: seq<string>, bpkg: Pkg) returns (found: bool)
    ensures found <==> Selected(fnmatch, args, bpkg)
  {
    var full := Full(bpkg);
    found := |args| == 0;
    var i := 0;
    while i < |args| && !found
      invariant 0 <= i <= |args|
      invariant found ==> |args| == 0 || ExactHit(args, full)
      invariant !found ==> |args| > 0 && !ExactHit(args[..i], full)
    {
      assert args[..i + 1] == args[..i] + [args[i]];
      ExactHitSnoc(args[..i], args[i], full);
      if args[i] in full {
        assert args[i] in args;
        found := true;
      }
      i := i + 1;
    }
    assert !found ==> args[..i] == args;
    i := 0;
    assert args[..0] == [];
    while i < |args| && !found
      invariant 0 <= i <= |args|
      invariant found ==> Selected(fnmatch, args, bpkg)
      invariant !found ==> |args| > 0 && !ExactHit(args, full) && !GlobHit(fnmatch, args[..i], full)
    {
      var arg := args[i];
      var j := 0;
      while j < |full| && !found
        invariant 0 <= j <= |full|
        invariant found ==> Selected(fnmatch, args, bpkg)
        invariant !found ==> forall k | 0 <= k < j :: !fnmatch(full[k], arg)
      {
        if fnmatch(full[j], arg) {
          assert arg in args && full[j] in full;
          found := true;
          break;
        }
        j := j + 1;
      }
      assert args[..i + 1] == args[..i] + [arg];
      GlobHitSnoc(fnmatch, args[..i], arg, full);
      i := i + 1;
    }
    assert !found ==> args[..i] == args;
  }

  // ---------------------------------------------------------------------------
  // What the selection keeps

  /** Each package is kept as often as it occurs, if it is selected, and not at all otherwise. */
  lemma {:induction false} FilterCount(fnmatch: Matcher, args: seq<string>, s: seq<Pkg>, x: Pkg)
    ensures multiset(Filter(fnmatch, args, s))[x] == if Selected(fnmatch, args, x) then multiset(s)[x] else 0
  {
    if s != [] {
      FilterCount(fnmatch, args, s[..|s| - 1], x);
      assert s == s[..|s| - 1] + [s[|s| - 1]];
    }
  }

  /** Filtering keeps the relative order, so a sorted list stays sorted. */
  lemma {:induction false} FilterSorted(rpmvercmp: Comparator, fnmatch: Matcher, args: seq<string>, s: seq<Pkg>)
    requires Sorted(rpmvercmp, s)
    ensures Sorted(rpmvercmp, Filter(fnmatch, args, s))
  {
    if s != [] {
      var prefix := s[..|s| - 1];
      var last := s[|s| - 1];
      FilterSorted(rpmvercmp, fnmatch, args, prefix);
      var f := Filter(fnmatch, args, prefix);
      if Selected(fnmatch, args, last) {
        forall i | 0 <= i < |f| ensures !Lt(rpmvercmp, last, f[i]) {
          FilterCount(fnmatch, args, prefix, f[i]);
          assert f[i] in multiset(f);
          var k :| 0 <= k < |prefix| && prefix[k] == f[i];
          assert s[k] == f[i];
        }
      }
    }
  }

  /** The result of `match_pkgs`: exactly the selected packages, each as often as in the
      input, and in sorted order when rpmvercmp is a total preorder and epochs are uniform. */
  lemma MatchPkgsResult(rpmvercmp: Comparator, fnmatch: Matcher, args: seq<string>, bpkgs: seq<Pkg>)
    requires TotalPreorderCmp(rpmvercmp) && UniformEpochs(bpkgs)
    ensures Sorted(rpmvercmp, Filter(fnmatch, args, SortPkgs(rpmvercmp, bpkgs)))
    ensures forall x :: multiset(Filter(fnmatch, args, SortPkgs(rpmvercmp, bpkgs)))[x]
                        == if Selected(fnmatch, args, x) then multiset(bpkgs)[x] else 0
  {
    SortPkgsSorted(rpmvercmp, bpkgs);
    FilterSorted(rpmvercmp, fnmatch, args, SortPkgs(rpmvercmp, bpkgs));
    forall x ensures multiset(Filter(fnmatch, args, SortPkgs(rpmvercmp, bpkgs)))[x]
                     == if Selected(fnmatch, args, x) then multiset(bpkgs)[x] else 0 {
      FilterCount(fnmatch, args, SortPkgs(rpmvercmp, bpkgs), x);
    }
  }

  /** With no arguments every package is kept. */
  lemma {:induction false} NoArgsKeepsAll(fnmatch: Matcher, s: seq<Pkg>)
    ensures Filter(fnmatch, [], s) == s
  {
    if s != [] {
      NoArgsKeepsAll(fnmatch, s[..|s| - 1]);
    }
  }

  /** A package is selected by its name, NV, NVR or NVRA given verbatim, whatever fnmatch does. */
  lemma SelectedByExactName(fnmatch: Matcher, args: seq<string>, p: Pkg)
    requires p.name in args || Nv(p) in args || Nvr(p) in args || Nvra(p) in args
    ensures Selected(fnmatch, args, p)
  {
    if p.name in args { assert p.name in Full(p); }
    else if Nv(p) in args { assert Nv(p) in Full(p); }
    else if Nvr(p) in args { assert Nvr(p) in Full(p); }
    else { assert Nvra(p) in Full(p); }
  }

  /** Without a verbatim hit, a package is selected exactly when fnmatch accepts one of
      its four names against one of the arguments. */
  lemma SelectedByPattern(fnmatch: Matcher, args: seq<string>, p: Pkg)
    requires |args| > 0 && !ExactHit(args, Full(p))
    ensures Selected(fnmatch, args, p) <==>
              exists a | a in args :: fnmatch(p.name, a) || fnmatch(Nv(p), a) || fnmatch(Nvr(p), a) || fnmatch(Nvra(p), a)
  {
    if Selected(fnmatch, args, p) {
      var a, m :| a in args && m in Full(p) && fnmatch(m, a);
      assert fnmatch(p.name, a) || fnmatch(Nv(p), a) || fnmatch(Nvr(p), a) || fnmatch(Nvra(p), a);
    }
    if exists a | a in args :: fnmatch(p.name, a) || fnmatch(Nv(p), a) || fnmatch(Nvr(p), a) || fnmatch(Nvra(p), a) {
      var a :| a in args && (fnmatch(p.name, a) || fnmatch(Nv(p), a) || fnmatch(Nvr(p), a) || fnmatch(Nvra(p), a));
      assert p.name in Full(p) && Nv(p) in Full(p) && Nvr(p) in Full(p) && Nvra(p) in Full(p);
    }
  }
}
