/** `returnNewestByName` and `returnNewestByNameArch` of spkg.py: a fold of a
    package list into a dictionary of per-key lists, flattened in key order. */
module Newest {
  import opened PyStr
  import opened Package

  /** The dictionary `highdict`: its keys in insertion order (a Python dict keeps
      the position of a key that is reassigned), and the list stored under each. */
  datatype HighDict<K(==)> = HighDict(keys: seq<K>, lists: map<K, seq<Pkg>>)

  ghost predicate WellFormed<K(!new)>(d: HighDict<K>)
  {
    && (forall i, j :: 0 <= i < j < |d.keys| ==> d.keys[i] != d.keys[j])
    && (forall k :: k in d.lists <==> k in d.keys)
    && (forall k :: k in d.lists ==> d.lists[k] != [])
  }

  /** The loop body exactly as spkg.py writes it: a strictly newer package replaces
      the list and then, unless `single`, is appended to that new list as well. */
  function InsertAsWritten<K(==,!new)>(rpmvercmp: Comparator, single: bool, d: HighDict<K>, k: K, pkg: Pkg)
    : (r: HighDict<K>)
    requires WellFormed(d)
    ensures WellFormed(r)
    ensures r.keys == (if k in d.lists then d.keys else d.keys + [k])
    ensures forall k' | k' in d.lists && k' != k :: k' in r.lists && r.lists[k'] == d.lists[k']
  {
    if k !in d.lists then HighDict(d.keys + [k], d.lists[k := [pkg]])
    else
      var pkg2 := d.lists[k][0];
      var l := if VerGt(rpmvercmp, pkg, pkg2) then [pkg] else d.lists[k];
      if single || VerLt(rpmvercmp, pkg, pkg2) then HighDict(d.keys, d.lists[k := l])
      else HighDict(d.keys, d.lists[k := l + [pkg]])
  }

  /** The loop body as intended: a strictly newer package starts a new list, a package
      tied with the head joins it unless `single`, an older one is dropped. */
  function Insert<K(==,!new)>(rpmvercmp: Comparator, single: bool, d: HighDict<K>, k: K, pkg: Pkg): (r: HighDict<K>)
    requires WellFormed(d)
    ensures WellFormed(r)
    ensures r.keys == (if k in d.lists then d.keys else d.keys + [k])
    ensures forall k' :: k' in r.lists <==> k' in d.lists || k' == k
    ensures forall k' | k' in d.lists && k' != k :: k' in r.lists && r.lists[k'] == d.lists[k']
  {
    if k !in d.lists then HighDict(d.keys + [k], d.lists[k := [pkg]])
    else
      var pkg2 := d.lists[k][0];
      if VerGt(rpmvercmp, pkg, pkg2) then HighDict(d.keys, d.lists[k := [pkg]])
      else if single || VerLt(rpmvercmp, pkg, pkg2) then d
      else HighDict(d.keys, d.lists[k := d.lists[k] + [pkg]])
  }

  /** The dictionary after the loop has run over `pkgs`. */
  function Fold<K(==,!new)>(rpmvercmp: Comparator, single: bool, key: Pkg -> K, pkgs: seq<Pkg>): (d: HighDict<K>)
    ensures WellFormed(d)
    decreases |pkgs|
  {
    if pkgs == [] then HighDict([], map[])
    else
      var last := pkgs[|pkgs| - 1];
      Insert(rpmvercmp, single, Fold(rpmvercmp, single, key, pkgs[..|pkgs| - 1]), key(last), last)
  }

  /** The dictionary after the loop as written has run over `pkgs`. */
  function FoldAsWritten<K(==,!new)>(rpmvercmp: Comparator, single: bool, key: Pkg -> K, pkgs: seq<Pkg>)
    : (d: HighDict<K>)
    ensures WellFormed(d)
    decreases |pkgs|
  {
    if pkgs == [] then HighDict([], map[])
    else
      var last := pkgs[|pkgs| - 1];
      InsertAsWritten(rpmvercmp, single, FoldAsWritten(rpmvercmp, single, key, pkgs[..|pkgs| - 1]), key(last), last)
  }

  /** The lists under `keys`, concatenated in order. */
  function Flatten<K(==)>(keys: seq<K>, lists: map<K, seq<Pkg>>): seq<Pkg>
    requires forall k :: k in keys ==> k in lists
  {
    if keys == [] then []
    else Flatten(keys[..|keys| - 1], lists) + lists[keys[|keys| - 1]]
  }

  /** The loop of both functions, written once over the grouping key. It runs the
      body as spkg.py writes it; with `single` it returns what the corrected loop would. */
  method ReturnNewestBy<K(==,!new)>(rpmvercmp: Comparator, pkgs: seq<Pkg>, single: bool, key: Pkg -> K)
    returns (returnlist: seq<Pkg>)
    ensures returnlist == Flatten(FoldAsWritten(rpmvercmp, single, key, pkgs).keys,
                                  FoldAsWritten(rpmvercmp, single, key, pkgs).lists)
    ensures single ==> returnlist == Flatten(Fold(rpmvercmp, true, key, pkgs).keys, Fold(rpmvercmp, true, key, pkgs).lists)
  {
    var keys: seq<K> := [];
    var highdict: map<K, seq<Pkg>> := map[];
    for i := 0 to |pkgs|
      invariant HighDict(keys, highdict) == FoldAsWritten(rpmvercmp, single, key, pkgs[..i])
    {
      assert pkgs[..i + 1][..i] == pkgs[..i];
      keys, highdict := InsertStep(rpmvercmp, single, keys, highdict, key(pkgs[i]), pkgs[i]);
    }
    assert pkgs[..|pkgs|] == pkgs;
    returnlist := FlattenValues(keys, highdict);
    if single {
      FoldAsWrittenSingle(rpmvercmp, key, pkgs);
    }
  }

  /** One pass of the loop body, as spkg.py writes it. */
  method InsertStep<K(==,!new)>(rpmvercmp: Comparator, single: bool, keys: seq<K>, highdict: map<K, seq<Pkg>>, k: K, pkg: Pkg)
    returns (keys': seq<K>, highdict': map<K, seq<Pkg>>)
    requires WellFormed(HighDict(keys, highdict))
    ensures HighDict(keys', highdict') == InsertAsWritten(rpmvercmp, single, HighDict(keys, highdict), k, pkg)
  {
    keys', highdict' := keys, highdict;
    if k !in highdict' {
      keys' := keys' + [k];
      highdict' := highdict'[k := [pkg]];
      return;
    }
    var pkg2 := highdict'[k][0];
    if VerGt(rpmvercmp, pkg, pkg2) {
      highdict' := highdict'[k := [pkg]];
    }
    if single || VerLt(rpmvercmp, pkg, pkg2) {
      return;
    }
    highdict' := highdict'[k := highdict'[k] + [pkg]];
  }

  /** The nested loop over `highdict.values()`. */
  method FlattenValues<K(==)>(keys: seq<K>, highdict: map<K, seq<Pkg>>) returns (returnlist: seq<Pkg>)
    requires forall k :: k in keys ==> k in highdict
    ensures returnlist == Flatten(keys, highdict)
  {
    returnlist := [];
    for j := 0 to |keys|
      invariant returnlist == Flatten(keys[..j], highdict)
    {
      assert keys[..j + 1][..j] == keys[..j];
      var polst := highdict[keys[j]];
      for m := 0 to |polst|
        invariant returnlist == Flatten(keys[..j], highdict) + polst[..m]
      {
        assert polst[..m + 1] == polst[..m] + [polst[m]];
        returnlist := returnlist + [polst[m]];
      }
      assert polst[..|polst|] == polst;
    }
    assert keys[..|keys|] == keys;
  }

  function NameKey(p: Pkg): string { p.name }

  function NameArchKey(p: Pkg): (string, string) { (p.name, p.arch) }

  /** `returnNewestByName(pkgs, single)`: groups by name. */
  method ReturnNewestByName(rpmvercmp: Comparator, pkgs: seq<Pkg>, single: bool)
    returns (returnlist: seq<Pkg>)
    ensures returnlist == Flatten(FoldAsWritten(rpmvercmp, single, NameKey, pkgs).keys,
                                  FoldAsWritten(rpmvercmp, single, NameKey, pkgs).lists)
    ensures single ==> returnlist == Flatten(Fold(rpmvercmp, true, NameKey, pkgs).keys, Fold(rpmvercmp, true, NameKey, pkgs).lists)
  {
    returnlist := ReturnNewestBy(rpmvercmp, pkgs, single, NameKey);
  }

  /** `returnNewestByNameArch(pkgs, single)`: groups by (name, arch). */
  method ReturnNewestByNameArch(rpmvercmp: Comparator, pkgs: seq<Pkg>, single: bool)
    returns (returnlist: seq<Pkg>)
    ensures returnlist == Flatten(FoldAsWritten(rpmvercmp, single, NameArchKey, pkgs).keys,
                                  FoldAsWritten(rpmvercmp, single, NameArchKey, pkgs).lists)
    ensures single ==> returnlist == Flatten(Fold(rpmvercmp, true, NameArchKey, pkgs).keys, Fold(rpmvercmp, true, NameArchKey, pkgs).lists)
  {
    returnlist := ReturnNewestBy(rpmvercmp, pkgs, single, NameArchKey);
  }

  // ---------------------------------------------------------------------------
  // The duplicate in the loop as written

  /** As written, with `single` false a strictly newer package ends up twice in its list. */
  lemma NewerPackageAppearsTwice<K(!new)>(rpmvercmp: Comparator, d: HighDict<K>, k: K, pkg: Pkg)
    requires WellFormed(d) && k in d.lists
    requires VerGt(rpmvercmp, pkg, d.lists[k][0])
    ensures InsertAsWritten(rpmvercmp, false, d, k, pkg).lists[k] == [pkg, pkg]
    ensures Insert(rpmvercmp, false, d, k, pkg).lists[k] == [pkg]
  {
  }

  /** The correction changes nothing but that case: in particular the default
      `single=True` behaves exactly as written. */
  lemma InsertDiffersOnlyOnDuplicate<K(!new)>(rpmvercmp: Comparator, single: bool, d: HighDict<K>, k: K, pkg: Pkg)
    requires WellFormed(d)
    ensures InsertAsWritten(rpmvercmp, single, d, k, pkg) != Insert(rpmvercmp, single, d, k, pkg)
            <==> !single && k in d.lists && VerGt(rpmvercmp, pkg, d.lists[k][0])
  {
    if !single && k in d.lists && VerGt(rpmvercmp, pkg, d.lists[k][0]) {
      assert InsertAsWritten(rpmvercmp, single, d, k, pkg).lists[k] != Insert(rpmvercmp, single, d, k, pkg).lists[k];
    }
  }

  // ---------------------------------------------------------------------------
  // What the fold computes

  /** Some package of `pkgs` has key `k`. */
  ghost predicate KeyOccurs<K(!new)>(key: Pkg -> K, pkgs: seq<Pkg>, k: K)
  {
    exists i :: 0 <= i < |pkgs| && key(pkgs[i]) == k
  }

  /** Every occurrence of key `b` in `pkgs` comes after some occurrence of key `a`. */
  ghost predicate SeenBefore<K(!new)>(key: Pkg -> K, pkgs: seq<Pkg>, a: K, b: K)
  {
    forall m :: 0 <= m < |pkgs| && key(pkgs[m]) == b ==>
      exists l :: 0 <= l < m && key(pkgs[l]) == a
  }

  /** The dictionary has one key per distinct key of the input, in first-seen order. */
  lemma {:induction false} FoldKeys<K(!new)>(rpmvercmp: Comparator, single: bool, key: Pkg -> K, pkgs: seq<Pkg>)
    ensures forall k :: k in Fold(rpmvercmp, single, key, pkgs).lists <==> KeyOccurs(key, pkgs, k)
    ensures forall i, j :: 0 <= i < j < |Fold(rpmvercmp, single, key, pkgs).keys| ==>
              SeenBefore(key, pkgs, Fold(rpmvercmp, single, key, pkgs).keys[i], Fold(rpmvercmp, single, key, pkgs).keys[j])
    decreases |pkgs|
  {
    if pkgs != [] {
      var n := |pkgs| - 1;
      var prefix := pkgs[..n];
      var p := pkgs[n];
      FoldKeys(rpmvercmp, single, key, prefix);
      assert prefix + [p] == pkgs;
      FoldKeysStep(rpmvercmp, single, key, prefix, p, Fold(rpmvercmp, single, key, prefix));
    }
  }

  /** One step of the loop keeps the keys those of the input so far, in first-seen order. */
  lemma FoldKeysStep<K(!new)>(rpmvercmp: Comparator, single: bool, key: Pkg -> K, prefix: seq<Pkg>, p: Pkg,
                               d0: HighDict<K>)
    requires WellFormed(d0)
    requires forall k :: k in d0.lists <==> KeyOccurs(key, prefix, k)
    requires forall i, j :: 0 <= i < j < |d0.keys| ==> SeenBefore(key, prefix, d0.keys[i], d0.keys[j])
    ensures forall k :: k in Insert(rpmvercmp, single, d0, key(p), p).lists <==> KeyOccurs(key, prefix + [p], k)
    ensures forall i, j :: 0 <= i < j < |Insert(rpmvercmp, single, d0, key(p), p).keys| ==>
              SeenBefore(key, prefix + [p], Insert(rpmvercmp, single, d0, key(p), p).keys[i],
                         Insert(rpmvercmp, single, d0, key(p), p).keys[j])
  {
    var d := Insert(rpmvercmp, single, d0, key(p), p);
    forall k ensures k in d.lists <==> KeyOccurs(key, prefix + [p], k) {
      KeyOccursSnoc(key, prefix, p, k);
    }
    forall i, j | 0 <= i < j < |d.keys| ensures SeenBefore(key, prefix + [p], d.keys[i], d.keys[j]) {
      SeenBeforeStep(key, prefix, p, d0, d, i, j);
    }
  }

  /** A key occurs in `prefix + [p]` when it occurs in `prefix` or is the key of `p`. */
  lemma KeyOccursSnoc<K(!new)>(key: Pkg -> K, prefix: seq<Pkg>, p: Pkg, k: K)
    ensures KeyOccurs(key, prefix + [p], k) <==> KeyOccurs(key, prefix, k) || key(p) == k
  {
    var pkgs := prefix + [p];
    if KeyOccurs(key, prefix, k) {
      var i :| 0 <= i < |prefix| && key(prefix[i]) == k;
      assert key(pkgs[i]) == k;
    }
    if KeyOccurs(key, pkgs, k) && k != key(p) {
      var i :| 0 <= i < |pkgs| && key(pkgs[i]) == k;
      assert i < |prefix| && key(prefix[i]) == k;
    }
    assert key(pkgs[|prefix|]) == key(p);
  }

  lemma SeenBeforeStep<K(!new)>(key: Pkg -> K, prefix: seq<Pkg>, p: Pkg, d0: HighDict<K>, d: HighDict<K>,
                                 i: int, j: int)
    requires forall k :: k in d0.lists <==> KeyOccurs(key, prefix, k)
    requires forall i, j :: 0 <= i < j < |d0.keys| ==> SeenBefore(key, prefix, d0.keys[i], d0.keys[j])
    requires forall k :: k in d0.lists <==> k in d0.keys
    requires d.keys == (if key(p) in d0.lists then d0.keys else d0.keys + [key(p)])
    requires 0 <= i < j < |d.keys|
    ensures SeenBefore(key, prefix + [p], d.keys[i], d.keys[j])
  {
    var pkgs := prefix + [p];
    var n := |prefix|;
    var a, b := d.keys[i], d.keys[j];
    assert i < |d0.keys| && a == d0.keys[i];
    assert KeyOccurs(key, prefix, a);
    var l0 :| 0 <= l0 < n && key(prefix[l0]) == a;
    assert key(pkgs[l0]) == a;
    if j < |d0.keys| {
      assert SeenBefore(key, prefix, a, b);
      forall m | 0 <= m < |pkgs| && key(pkgs[m]) == b
        ensures exists l :: 0 <= l < m && key(pkgs[l]) == a
      {
        if m < n {
          assert key(prefix[m]) == b;
          var l :| 0 <= l < m && key(prefix[l]) == a;
          assert key(pkgs[l]) == a;
        }
      }
    } else {
      assert b == key(p) && !KeyOccurs(key, prefix, b);
      assert forall m :: 0 <= m < n ==> key(pkgs[m]) != b by {
        forall m | 0 <= m < n ensures key(pkgs[m]) != b {
          assert pkgs[m] == prefix[m];
        }
      }
    }
  }

  /** A list's packages: all of key `k`, all from the input, each the head or tied with
      it, and with `single` just one. */
  ghost predicate GoodGroup<K(!new)>(rpmvercmp: Comparator, single: bool, key: Pkg -> K, pkgs: seq<Pkg>,
                                     k: K, l: seq<Pkg>)
  {
    && l != []
    && (single ==> |l| == 1)
    && (forall x | x in l :: key(x) == k && x in pkgs)
    && (forall x | x in l :: x == l[0] || VerEq(rpmvercmp, x, l[0]))
  }

  lemma {:induction false} FoldGroups<K(!new)>(rpmvercmp: Comparator, single: bool, key: Pkg -> K, pkgs: seq<Pkg>)
    ensures forall k | k in Fold(rpmvercmp, single, key, pkgs).lists ::
              GoodGroup(rpmvercmp, single, key, pkgs, k, Fold(rpmvercmp, single, key, pkgs).lists[k])
    decreases |pkgs|
  {
    if pkgs != [] {
      var n := |pkgs| - 1;
      var prefix := pkgs[..n];
      var p := pkgs[n];
      FoldGroups(rpmvercmp, single, key, prefix);
      assert prefix + [p] == pkgs;
      FoldGroupsStep(rpmvercmp, single, key, prefix, p, Fold(rpmvercmp, single, key, prefix));
    }
  }

  /** One step of the loop keeps every list a good group of the input so far. */
  lemma FoldGroupsStep<K(!new)>(rpmvercmp: Comparator, single: bool, key: Pkg -> K, prefix: seq<Pkg>, p: Pkg,
                                 d0: HighDict<K>)
    requires WellFormed(d0)
    requires forall k | k in d0.lists :: GoodGroup(rpmvercmp, single, key, prefix, k, d0.lists[k])
    ensures forall k | k in Insert(rpmvercmp, single, d0, key(p), p).lists ::
              GoodGroup(rpmvercmp, single, key, prefix + [p], k, Insert(rpmvercmp, single, d0, key(p), p).lists[k])
  {
    forall k | k in Insert(rpmvercmp, single, d0, key(p), p).lists
      ensures GoodGroup(rpmvercmp, single, key, prefix + [p], k, Insert(rpmvercmp, single, d0, key(p), p).lists[k])
    {
      GroupStep(rpmvercmp, single, key, prefix, p, d0, k);
    }
  }

  lemma GroupStep<K(!new)>(rpmvercmp: Comparator, single: bool, key: Pkg -> K, prefix: seq<Pkg>, p: Pkg,
                              d0: HighDict<K>, k: K)
    requires WellFormed(d0)
    requires forall k | k in d0.lists :: GoodGroup(rpmvercmp, single, key, prefix, k, d0.lists[k])
    requires k in Insert(rpmvercmp, single, d0, key(p), p).lists
    ensures GoodGroup(rpmvercmp, single, key, prefix + [p], k, Insert(rpmvercmp, single, d0, key(p), p).lists[k])
  {
    var l := Insert(rpmvercmp, single, d0, key(p), p).lists[k];
    assert forall x | x in prefix :: x in prefix + [p];
    if k in d0.lists {
      var l0 := d0.lists[k];
      assert l == l0 || l == [p] || l == l0 + [p];
      if l == l0 + [p] {
        assert k == key(p) && VerEq(rpmvercmp, p, l0[0]);
        assert l[0] == l0[0];
      }
    }
  }

  /** The head of each list does not depend on `single`: the flag only decides
      whether ties are appended behind it. */
  lemma {:induction false} FoldHeadsIgnoreSingle<K(!new)>(rpmvercmp: Comparator, key: Pkg -> K, pkgs: seq<Pkg>)
    ensures Fold(rpmvercmp, true, key, pkgs).keys == Fold(rpmvercmp, false, key, pkgs).keys
    ensures forall k | k in Fold(rpmvercmp, true, key, pkgs).lists ::
              k in Fold(rpmvercmp, false, key, pkgs).lists
              && Fold(rpmvercmp, true, key, pkgs).lists[k][0] == Fold(rpmvercmp, false, key, pkgs).lists[k][0]
    decreases |pkgs|
  {
    if pkgs != [] {
      var prefix, p := pkgs[..|pkgs| - 1], pkgs[|pkgs| - 1];
      FoldHeadsIgnoreSingle(rpmvercmp, key, prefix);
      SameHeadsStep(rpmvercmp, Fold(rpmvercmp, true, key, prefix), Fold(rpmvercmp, false, key, prefix), key(p), p);
    }
  }

  /** One step of the loop keeps two dictionaries with the same keys and heads in step,
      whatever `single` is for each. */
  lemma SameHeadsStep<K(!new)>(rpmvercmp: Comparator, dt: HighDict<K>, df: HighDict<K>, k: K, p: Pkg)
    requires WellFormed(dt) && WellFormed(df) && dt.keys == df.keys
    requires forall k' | k' in dt.lists :: k' in df.lists && dt.lists[k'][0] == df.lists[k'][0]
    ensures Insert(rpmvercmp, true, dt, k, p).keys == Insert(rpmvercmp, false, df, k, p).keys
    ensures forall k' | k' in Insert(rpmvercmp, true, dt, k, p).lists ::
              k' in Insert(rpmvercmp, false, df, k, p).lists
              && Insert(rpmvercmp, true, dt, k, p).lists[k'][0] == Insert(rpmvercmp, false, df, k, p).lists[k'][0]
  {
    assert k in dt.lists <==> k in df.lists;
  }

  // ---------------------------------------------------------------------------
  // The heads are the newest packages

  /** `pkgs[idx]` is rpm-version newest among the packages of its key, and strictly
      newer than every one before it. */
  ghost predicate NewestAt<K(!new)>(rpmvercmp: Comparator, key: Pkg -> K, pkgs: seq<Pkg>, idx: int)
  {
    && 0 <= idx < |pkgs|
    && (forall j :: 0 <= j < |pkgs| && key(pkgs[j]) == key(pkgs[idx]) ==>
          (j < idx ==> VerCmp(rpmvercmp, pkgs[j], pkgs[idx]) < 0)
          && (idx < j ==> VerCmp(rpmvercmp, pkgs[j], pkgs[idx]) <= 0))
  }

  /** `h` is the earliest newest package of key `k` in `pkgs`. */
  ghost predicate HeadIsNewest<K(!new)>(rpmvercmp: Comparator, key: Pkg -> K, pkgs: seq<Pkg>, k: K, h: Pkg)
  {
    exists idx :: NewestAt(rpmvercmp, key, pkgs, idx) && key(pkgs[idx]) == k && pkgs[idx] == h
  }

  /** When rpmvercmp is a total preorder and epochs are uniform, each list head is the
      earliest of the newest packages of its key. */
  lemma {:induction false} FoldHeadIsNewest<K(!new)>(rpmvercmp: Comparator, single: bool, key: Pkg -> K,
                                                        pkgs: seq<Pkg>)
    requires TotalPreorderCmp(rpmvercmp) && UniformEpochs(pkgs)
    ensures forall k | k in Fold(rpmvercmp, single, key, pkgs).lists ::
              HeadIsNewest(rpmvercmp, key, pkgs, k, Fold(rpmvercmp, single, key, pkgs).lists[k][0])
    decreases |pkgs|
  {
    if pkgs != [] {
      var prefix := pkgs[..|pkgs| - 1];
      assert UniformEpochs(prefix) by {
        assert forall x | x in prefix :: x in pkgs;
      }
      FoldHeadIsNewest(rpmvercmp, single, key, prefix);
      FoldKeys(rpmvercmp, single, key, prefix);
      var p := pkgs[|pkgs| - 1];
      assert prefix + [p] == pkgs;
      var d0 := Fold(rpmvercmp, single, key, prefix);
      var d := Fold(rpmvercmp, single, key, pkgs);
      assert d == Insert(rpmvercmp, single, d0, key(p), p);
      forall k | k in d.lists ensures HeadIsNewest(rpmvercmp, key, pkgs, k, d.lists[k][0]) {
        HeadStep(rpmvercmp, single, key, prefix, p, d0, k);
      }
    }
  }

  lemma HeadStep<K(!new)>(rpmvercmp: Comparator, single: bool, key: Pkg -> K, prefix: seq<Pkg>, p: Pkg,
                          d0: HighDict<K>, k: K)
    requires TotalPreorderCmp(rpmvercmp) && UniformEpochs(prefix + [p]) && WellFormed(d0)
    requires k !in d0.lists ==> !KeyOccurs(key, prefix, k)
    requires k in d0.lists ==> HeadIsNewest(rpmvercmp, key, prefix, k, d0.lists[k][0])
    requires k in Insert(rpmvercmp, single, d0, key(p), p).lists
    ensures HeadIsNewest(rpmvercmp, key, prefix + [p], k, Insert(rpmvercmp, single, d0, key(p), p).lists[k][0])
  {
    if k !in d0.lists {
      HeadStepNewKey(rpmvercmp, key, prefix, p);
    } else if key(p) == k && VerGt(rpmvercmp, p, d0.lists[k][0]) {
      HeadStepNewer(rpmvercmp, key, prefix, p, d0.lists[k][0]);
    } else {
      HeadStepKept(rpmvercmp, key, prefix, p, k, d0.lists[k][0]);
    }
  }

  lemma HeadStepNewKey<K(!new)>(rpmvercmp: Comparator, key: Pkg -> K, prefix: seq<Pkg>, p: Pkg)
    requires !KeyOccurs(key, prefix, key(p))
    ensures HeadIsNewest(rpmvercmp, key, prefix + [p], key(p), p)
  {
    var pkgs := prefix + [p];
    var n := |prefix|;
    forall j | 0 <= j < n ensures key(pkgs[j]) != key(p) {
      assert prefix[j] == pkgs[j];
    }
    assert NewestAt(rpmvercmp, key, pkgs, n);
  }

  lemma HeadStepNewer<K(!new)>(rpmvercmp: Comparator, key: Pkg -> K, prefix: seq<Pkg>, p: Pkg, h: Pkg)
    requires TotalPreorderCmp(rpmvercmp) && UniformEpochs(prefix + [p])
    requires HeadIsNewest(rpmvercmp, key, prefix, key(p), h) && VerGt(rpmvercmp, p, h)
    ensures HeadIsNewest(rpmvercmp, key, prefix + [p], key(p), p)
  {
    var pkgs := prefix + [p];
    var n := |prefix|;
    var idx0 :| NewestAt(rpmvercmp, key, prefix, idx0) && key(prefix[idx0]) == key(p) && prefix[idx0] == h;
    assert pkgs[idx0] == h && pkgs[n] == p;
    VerCmpAntisymmetric(rpmvercmp, h, p);
    forall j | 0 <= j < n && key(pkgs[j]) == key(p) ensures VerCmp(rpmvercmp, pkgs[j], p) < 0 {
      assert pkgs[j] == prefix[j];
      if j != idx0 {
        VerCmpTransitive(rpmvercmp, pkgs[j], h, p);
      }
    }
    assert NewestAt(rpmvercmp, key, pkgs, n);
  }

  lemma HeadStepKept<K(!new)>(rpmvercmp: Comparator, key: Pkg -> K, prefix: seq<Pkg>, p: Pkg, k: K, h: Pkg)
    requires HeadIsNewest(rpmvercmp, key, prefix, k, h)
    requires key(p) == k ==> !VerGt(rpmvercmp, p, h)
    ensures HeadIsNewest(rpmvercmp, key, prefix + [p], k, h)
  {
    var pkgs := prefix + [p];
    var n := |prefix|;
    var idx0 :| NewestAt(rpmvercmp, key, prefix, idx0) && key(prefix[idx0]) == k && prefix[idx0] == h;
    assert pkgs[idx0] == h;
    forall j | 0 <= j < |pkgs| && key(pkgs[j]) == k
      ensures (j < idx0 ==> VerCmp(rpmvercmp, pkgs[j], h) < 0)
              && (idx0 < j ==> VerCmp(rpmvercmp, pkgs[j], h) <= 0)
    {
      if j < n {
        assert pkgs[j] == prefix[j];
      }
    }
    assert NewestAt(rpmvercmp, key, pkgs, idx0);
  }

  /** A head that is newest is at least as new as every package of its key. */
  lemma HeadIsMax<K(!new)>(rpmvercmp: Comparator, key: Pkg -> K, pkgs: seq<Pkg>, k: K, h: Pkg)
    requires ReflexiveCmp(rpmvercmp) && HeadIsNewest(rpmvercmp, key, pkgs, k, h)
    ensures forall j :: 0 <= j < |pkgs| && key(pkgs[j]) == k ==> VerCmp(rpmvercmp, pkgs[j], h) <= 0
  {
    var idx :| NewestAt(rpmvercmp, key, pkgs, idx) && key(pkgs[idx]) == k && pkgs[idx] == h;
    assert VerCmp(rpmvercmp, h, h) == 0;
  }

  // ---------------------------------------------------------------------------
  // With `single=False` each list is every package tied with the newest

  /** The packages of `pkgs` with key `k` that tie with `h`, in input order. */
  ghost function Ties<K(!new)>(rpmvercmp: Comparator, key: Pkg -> K, pkgs: seq<Pkg>, k: K, h: Pkg): seq<Pkg>
    decreases |pkgs|
  {
    if pkgs == [] then []
    else
      var last := pkgs[|pkgs| - 1];
      Ties(rpmvercmp, key, pkgs[..|pkgs| - 1], k, h)
        + (if key(last) == k && VerEq(rpmvercmp, last, h) then [last] else [])
  }

  lemma {:induction false} TiesEmpty<K(!new)>(rpmvercmp: Comparator, key: Pkg -> K, pkgs: seq<Pkg>, k: K, h: Pkg)
    requires forall j :: 0 <= j < |pkgs| && key(pkgs[j]) == k ==> !VerEq(rpmvercmp, pkgs[j], h)
    ensures Ties(rpmvercmp, key, pkgs, k, h) == []
    decreases |pkgs|
  {
    if pkgs != [] {
      var prefix := pkgs[..|pkgs| - 1];
      forall j | 0 <= j < |prefix| && key(prefix[j]) == k ensures !VerEq(rpmvercmp, prefix[j], h) {
        assert prefix[j] == pkgs[j];
      }
      TiesEmpty(rpmvercmp, key, prefix, k, h);
    }
  }

  /** The intended result of `single=False`: under each key, exactly the packages of
      that key that tie with the newest one, in input order. */
  lemma {:induction false} FoldCollectsTies<K(!new)>(rpmvercmp: Comparator, key: Pkg -> K, pkgs: seq<Pkg>)
    requires TotalPreorderCmp(rpmvercmp) && UniformEpochs(pkgs)
    ensures forall k | k in Fold(rpmvercmp, false, key, pkgs).lists ::
              Fold(rpmvercmp, false, key, pkgs).lists[k]
              == Ties(rpmvercmp, key, pkgs, k, Fold(rpmvercmp, false, key, pkgs).lists[k][0])
    decreases |pkgs|
  {
    if pkgs != [] {
      var prefix := pkgs[..|pkgs| - 1];
      assert UniformEpochs(prefix) by {
        assert forall x | x in prefix :: x in pkgs;
      }
      FoldCollectsTies(rpmvercmp, key, prefix);
      FoldHeadIsNewest(rpmvercmp, false, key, prefix);
      FoldKeys(rpmvercmp, false, key, prefix);
      var p := pkgs[|pkgs| - 1];
      assert prefix + [p] == pkgs;
      var d0 := Fold(rpmvercmp, false, key, prefix);
      var d := Fold(rpmvercmp, false, key, pkgs);
      assert d == Insert(rpmvercmp, false, d0, key(p), p);
      forall k | k in d.lists ensures d.lists[k] == Ties(rpmvercmp, key, pkgs, k, d.lists[k][0]) {
        TiesStep(rpmvercmp, key, prefix, p, d0, k);
      }
    }
  }

  lemma TiesStep<K(!new)>(rpmvercmp: Comparator, key: Pkg -> K, prefix: seq<Pkg>, p: Pkg, d0: HighDict<K>, k: K)
    requires TotalPreorderCmp(rpmvercmp) && UniformEpochs(prefix + [p]) && WellFormed(d0)
    requires k !in d0.lists ==> !KeyOccurs(key, prefix, k)
    requires k in d0.lists ==>
      && d0.lists[k] == Ties(rpmvercmp, key, prefix, k, d0.lists[k][0])
      && HeadIsNewest(rpmvercmp, key, prefix, k, d0.lists[k][0])
    requires k in Insert(rpmvercmp, false, d0, key(p), p).lists
    ensures var l := Insert(rpmvercmp, false, d0, key(p), p).lists[k];
      l == Ties(rpmvercmp, key, prefix + [p], k, l[0])
  {
    var pkgs := prefix + [p];
    var l := Insert(rpmvercmp, false, d0, key(p), p).lists[k];
    assert pkgs[..|prefix|] == prefix;
    assert VerEq(rpmvercmp, p, p);
    if k !in d0.lists {
      assert k == key(p) && l == [p];
      TiesEmpty(rpmvercmp, key, prefix, k, p);
    } else {
      var h := d0.lists[k][0];
      if key(p) == k && VerGt(rpmvercmp, p, h) {
        assert l == [p];
        NoTiesWithNewer(rpmvercmp, key, prefix, p, h);
      } else {
        assert l[0] == h;
      }
    }
  }

  /** Nothing before a package strictly newer than the earliest newest one ties with it. */
  lemma NoTiesWithNewer<K(!new)>(rpmvercmp: Comparator, key: Pkg -> K, prefix: seq<Pkg>, p: Pkg, h: Pkg)
    requires TotalPreorderCmp(rpmvercmp) && UniformEpochs(prefix + [p])
    requires HeadIsNewest(rpmvercmp, key, prefix, key(p), h) && VerGt(rpmvercmp, p, h)
    ensures Ties(rpmvercmp, key, prefix, key(p), p) == []
  {
    var k, pkgs := key(p), prefix + [p];
    var idx0 :| NewestAt(rpmvercmp, key, prefix, idx0) && key(prefix[idx0]) == k && prefix[idx0] == h;
    HeadIsMax(rpmvercmp, key, prefix, k, h);
    VerCmpAntisymmetric(rpmvercmp, p, h);
    forall j | 0 <= j < |prefix| && key(prefix[j]) == k ensures !VerEq(rpmvercmp, prefix[j], p) {
      assert prefix[j] == pkgs[j] && h == pkgs[idx0] && p == pkgs[|prefix|];
      VerCmpTransitive(rpmvercmp, prefix[j], h, p);
    }
    TiesEmpty(rpmvercmp, key, prefix, k, p);
  }

  // ---------------------------------------------------------------------------
  // What the loop as written computes

  /** With `single=True`, the default, the loop as written and the corrected loop agree. */
  lemma {:induction false} FoldAsWrittenSingle<K(!new)>(rpmvercmp: Comparator, key: Pkg -> K, pkgs: seq<Pkg>)
    ensures FoldAsWritten(rpmvercmp, true, key, pkgs) == Fold(rpmvercmp, true, key, pkgs)
    decreases |pkgs|
  {
    if pkgs != [] {
      var prefix, p := pkgs[..|pkgs| - 1], pkgs[|pkgs| - 1];
      FoldAsWrittenSingle(rpmvercmp, key, prefix);
      InsertDiffersOnlyOnDuplicate(rpmvercmp, true, Fold(rpmvercmp, true, key, prefix), key(p), p);
    }
  }

  /** For any rpmvercmp and any mix of epochs, the loop as written has the corrected
      keys in the same first-seen order, and each of its lists is a good group. */
  lemma FoldAsWrittenShape<K(!new)>(rpmvercmp: Comparator, single: bool, key: Pkg -> K, pkgs: seq<Pkg>)
    ensures FoldAsWritten(rpmvercmp, single, key, pkgs).keys == Fold(rpmvercmp, single, key, pkgs).keys
    ensures forall k | k in FoldAsWritten(rpmvercmp, single, key, pkgs).lists ::
              GoodGroup(rpmvercmp, single, key, pkgs, k, FoldAsWritten(rpmvercmp, single, key, pkgs).lists[k])
  {
    FoldAsWrittenKeys(rpmvercmp, single, key, pkgs);
    FoldAsWrittenGroups(rpmvercmp, single, key, pkgs);
  }

  lemma {:induction false} FoldAsWrittenKeys<K(!new)>(rpmvercmp: Comparator, single: bool, key: Pkg -> K,
                                                       pkgs: seq<Pkg>)
    ensures FoldAsWritten(rpmvercmp, single, key, pkgs).keys == Fold(rpmvercmp, single, key, pkgs).keys
    decreases |pkgs|
  {
    if pkgs != [] {
      var prefix, p := pkgs[..|pkgs| - 1], pkgs[|pkgs| - 1];
      var da0, df0 := FoldAsWritten(rpmvercmp, single, key, prefix), Fold(rpmvercmp, single, key, prefix);
      assert FoldAsWritten(rpmvercmp, single, key, pkgs) == InsertAsWritten(rpmvercmp, single, da0, key(p), p);
      assert Fold(rpmvercmp, single, key, pkgs) == Insert(rpmvercmp, single, df0, key(p), p);
      FoldAsWrittenKeys(rpmvercmp, single, key, prefix);
      assert key(p) in da0.lists <==> key(p) in df0.lists;
    }
  }

  lemma {:induction false} FoldAsWrittenGroups<K(!new)>(rpmvercmp: Comparator, single: bool, key: Pkg -> K,
                                                         pkgs: seq<Pkg>)
    ensures forall k | k in FoldAsWritten(rpmvercmp, single, key, pkgs).lists ::
              GoodGroup(rpmvercmp, single, key, pkgs, k, FoldAsWritten(rpmvercmp, single, key, pkgs).lists[k])
    decreases |pkgs|
  {
    if pkgs != [] {
      var prefix, p := pkgs[..|pkgs| - 1], pkgs[|pkgs| - 1];
      var da0 := FoldAsWritten(rpmvercmp, single, key, prefix);
      assert FoldAsWritten(rpmvercmp, single, key, pkgs) == InsertAsWritten(rpmvercmp, single, da0, key(p), p);
      FoldAsWrittenGroups(rpmvercmp, single, key, prefix);
      assert prefix + [p] == pkgs;
      AsWrittenGroupsStep(rpmvercmp, single, key, prefix, p, da0);
    }
  }

  /** One step of the loop as written keeps every list a good group of the input so far. */
  lemma AsWrittenGroupsStep<K(!new)>(rpmvercmp: Comparator, single: bool, key: Pkg -> K, prefix: seq<Pkg>, p: Pkg,
                                     d0: HighDict<K>)
    requires WellFormed(d0)
    requires forall k | k in d0.lists :: GoodGroup(rpmvercmp, single, key, prefix, k, d0.lists[k])
    ensures forall k | k in InsertAsWritten(rpmvercmp, single, d0, key(p), p).lists ::
              GoodGroup(rpmvercmp, single, key, prefix + [p], k, InsertAsWritten(rpmvercmp, single, d0, key(p), p).lists[k])
  {
    forall k | k in InsertAsWritten(rpmvercmp, single, d0, key(p), p).lists
      ensures GoodGroup(rpmvercmp, single, key, prefix + [p], k, InsertAsWritten(rpmvercmp, single, d0, key(p), p).lists[k])
    {
      AsWrittenGroupStep(rpmvercmp, single, key, prefix, p, d0, k);
    }
  }

  lemma AsWrittenGroupStep<K(!new)>(rpmvercmp: Comparator, single: bool, key: Pkg -> K, prefix: seq<Pkg>, p: Pkg,
                                    d0: HighDict<K>, k: K)
    requires WellFormed(d0)
    requires forall k | k in d0.lists :: GoodGroup(rpmvercmp, single, key, prefix, k, d0.lists[k])
    requires k in InsertAsWritten(rpmvercmp, single, d0, key(p), p).lists
    ensures GoodGroup(rpmvercmp, single, key, prefix + [p], k, InsertAsWritten(rpmvercmp, single, d0, key(p), p).lists[k])
  {
    var l := InsertAsWritten(rpmvercmp, single, d0, key(p), p).lists[k];
    assert forall x | x in prefix :: x in prefix + [p];
    if k !in d0.lists {
      assert l == [p];
    } else if k != key(p) {
      assert l == d0.lists[k];
    } else {
      var l0 := d0.lists[k];
      var h := l0[0];
      if VerGt(rpmvercmp, p, h) {
        assert l == [p] || l == [p] + [p];
      } else if single || VerLt(rpmvercmp, p, h) {
        assert l == l0;
      } else {
        assert l == l0 + [p];
        assert VerEq(rpmvercmp, p, h);
      }
    }
  }

  /** The first package of `pkgs` with key `k`. */
  ghost function FirstWithKey<K(!new)>(key: Pkg -> K, pkgs: seq<Pkg>, k: K): Pkg
    requires KeyOccurs(key, pkgs, k)
    decreases |pkgs|
  {
    var prefix := pkgs[..|pkgs| - 1];
    if KeyOccurs(key, prefix, k) then FirstWithKey(key, prefix, k) else pkgs[|pkgs| - 1]
  }

  lemma {:induction false} FirstWithKeyOccurs<K(!new)>(key: Pkg -> K, pkgs: seq<Pkg>, k: K)
    requires KeyOccurs(key, pkgs, k)
    ensures exists j :: 0 <= j < |pkgs| && pkgs[j] == FirstWithKey(key, pkgs, k) && key(pkgs[j]) == k
    decreases |pkgs|
  {
    var n := |pkgs| - 1;
    var prefix := pkgs[..n];
    if KeyOccurs(key, prefix, k) {
      FirstWithKeyOccurs(key, prefix, k);
      var j :| 0 <= j < |prefix| && prefix[j] == FirstWithKey(key, prefix, k) && key(prefix[j]) == k;
      assert pkgs[j] == prefix[j];
    } else {
      assert pkgs[n] == FirstWithKey(key, pkgs, k);
    }
  }

  /** `da`, from the loop as written, holds the lists of `df`, from the corrected loop,
      with the head written once more in front where it replaced the first package of its key. */
  ghost predicate RepeatsReplacingHeads<K(!new)>(key: Pkg -> K, pkgs: seq<Pkg>, da: HighDict<K>, df: HighDict<K>)
  {
    && WellFormed(df)
    && da.keys == df.keys
    && forall k | k in df.lists ::
         && k in da.lists && KeyOccurs(key, pkgs, k)
         && da.lists[k] == (if df.lists[k][0] != FirstWithKey(key, pkgs, k) then [df.lists[k][0]] else [])
                           + df.lists[k]
  }

  lemma {:induction false} FoldRepeatsReplacingHeads<K(!new)>(rpmvercmp: Comparator, key: Pkg -> K, pkgs: seq<Pkg>)
    requires TotalPreorderCmp(rpmvercmp) && UniformEpochs(pkgs)
    ensures RepeatsReplacingHeads(key, pkgs, FoldAsWritten(rpmvercmp, false, key, pkgs), Fold(rpmvercmp, false, key, pkgs))
    decreases |pkgs|
  {
    if pkgs != [] {
      var prefix, p := pkgs[..|pkgs| - 1], pkgs[|pkgs| - 1];
      assert UniformEpochs(prefix) by {
        assert forall x | x in prefix :: x in pkgs;
      }
      assert prefix + [p] == pkgs;
      assert FoldAsWritten(rpmvercmp, false, key, pkgs)
             == InsertAsWritten(rpmvercmp, false, FoldAsWritten(rpmvercmp, false, key, prefix), key(p), p);
      assert Fold(rpmvercmp, false, key, pkgs) == Insert(rpmvercmp, false, Fold(rpmvercmp, false, key, prefix), key(p), p);
      FoldRepeatsReplacingHeads(rpmvercmp, key, prefix);
      FoldKeys(rpmvercmp, false, key, prefix);
      FoldHeadIsNewest(rpmvercmp, false, key, prefix);
      RepeatStep(rpmvercmp, key, prefix, p, FoldAsWritten(rpmvercmp, false, key, prefix), Fold(rpmvercmp, false, key, prefix));
    }
  }

  lemma RepeatStep<K(!new)>(rpmvercmp: Comparator, key: Pkg -> K, prefix: seq<Pkg>, p: Pkg,
                            da: HighDict<K>, df: HighDict<K>)
    requires ReflexiveCmp(rpmvercmp) && WellFormed(da)
    requires RepeatsReplacingHeads(key, prefix, da, df)
    requires forall k :: k in df.lists <==> KeyOccurs(key, prefix, k)
    requires forall k | k in df.lists :: HeadIsNewest(rpmvercmp, key, prefix, k, df.lists[k][0])
    ensures RepeatsReplacingHeads(key, prefix + [p], InsertAsWritten(rpmvercmp, false, da, key(p), p),
                                  Insert(rpmvercmp, false, df, key(p), p))
  {
    assert key(p) in da.lists <==> key(p) in df.lists;
    RepeatListsStep(rpmvercmp, key, prefix, p, da, df);
  }

  lemma RepeatListsStep<K(!new)>(rpmvercmp: Comparator, key: Pkg -> K, prefix: seq<Pkg>, p: Pkg,
                                 da: HighDict<K>, df: HighDict<K>)
    requires ReflexiveCmp(rpmvercmp) && WellFormed(da)
    requires RepeatsReplacingHeads(key, prefix, da, df)
    requires forall k :: k in df.lists <==> KeyOccurs(key, prefix, k)
    requires forall k | k in df.lists :: HeadIsNewest(rpmvercmp, key, prefix, k, df.lists[k][0])
    ensures var da', df' := InsertAsWritten(rpmvercmp, false, da, key(p), p), Insert(rpmvercmp, false, df, key(p), p);
      forall k | k in df'.lists ::
        && k in da'.lists && KeyOccurs(key, prefix + [p], k)
        && da'.lists[k] == (if df'.lists[k][0] != FirstWithKey(key, prefix + [p], k) then [df'.lists[k][0]] else [])
                           + df'.lists[k]
  {
    var da', df' := InsertAsWritten(rpmvercmp, false, da, key(p), p), Insert(rpmvercmp, false, df, key(p), p);
    forall k | k in df'.lists
      ensures && k in da'.lists && KeyOccurs(key, prefix + [p], k)
              && da'.lists[k] == (if df'.lists[k][0] != FirstWithKey(key, prefix + [p], k) then [df'.lists[k][0]] else [])
                                 + df'.lists[k]
    {
      RepeatKeyStep(rpmvercmp, key, prefix, p, da, df, k);
    }
  }

  lemma RepeatKeyStep<K(!new)>(rpmvercmp: Comparator, key: Pkg -> K, prefix: seq<Pkg>, p: Pkg,
                               da: HighDict<K>, df: HighDict<K>, k: K)
    requires ReflexiveCmp(rpmvercmp) && WellFormed(da)
    requires RepeatsReplacingHeads(key, prefix, da, df)
    requires forall k :: k in df.lists <==> KeyOccurs(key, prefix, k)
    requires k in df.lists ==> HeadIsNewest(rpmvercmp, key, prefix, k, df.lists[k][0])
    requires k in Insert(rpmvercmp, false, df, key(p), p).lists
    ensures var da', df' := InsertAsWritten(rpmvercmp, false, da, key(p), p), Insert(rpmvercmp, false, df, key(p), p);
            && k in da'.lists && KeyOccurs(key, prefix + [p], k)
            && da'.lists[k] == (if df'.lists[k][0] != FirstWithKey(key, prefix + [p], k) then [df'.lists[k][0]] else [])
                               + df'.lists[k]
  {
    var pkgs := prefix + [p];
    var da', df' := InsertAsWritten(rpmvercmp, false, da, key(p), p), Insert(rpmvercmp, false, df, key(p), p);
    assert pkgs[..|pkgs| - 1] == prefix && pkgs[|pkgs| - 1] == p;
    KeyOccursSnoc(key, prefix, p, k);
    if k !in df.lists {
      assert key(p) == k && FirstWithKey(key, pkgs, k) == p;
      assert da'.lists[k] == [p] && df'.lists[k] == [p];
    } else {
      assert FirstWithKey(key, pkgs, k) == FirstWithKey(key, prefix, k);
      var h, f := df.lists[k][0], FirstWithKey(key, prefix, k);
      var d := if h != f then [h] else [];
      assert da.lists[k] == d + df.lists[k];
      assert da.lists[k][0] == h;
      if key(p) != k {
        assert da'.lists[k] == da.lists[k] && df'.lists[k] == df.lists[k];
      } else if VerGt(rpmvercmp, p, h) {
        FirstWithKeyOccurs(key, prefix, k);
        HeadIsMax(rpmvercmp, key, prefix, k, h);
        assert p != f;
        assert !VerLt(rpmvercmp, p, h);
        assert da'.lists[k] == [p] + [p] && df'.lists[k] == [p];
      } else if VerLt(rpmvercmp, p, h) {
        assert da'.lists[k] == da.lists[k] && df'.lists[k] == df.lists[k];
      } else {
        assert da'.lists[k] == da.lists[k] + [p] && df'.lists[k] == df.lists[k] + [p];
        AppendAssoc(d, df.lists[k], [p]);
      }
    }
  }

  lemma AppendAssoc(a: seq<Pkg>, b: seq<Pkg>, c: seq<Pkg>)
    ensures (a + b) + c == a + (b + c)
  {
  }

  /** What spkg.py returns under each key with `single=False`: the packages tied with the
      newest one in input order, with the newest written once more in front when it
      replaced the first package of its key. */
  lemma AsWrittenRepeatsReplacingHead<K(!new)>(rpmvercmp: Comparator, key: Pkg -> K, pkgs: seq<Pkg>)
    requires TotalPreorderCmp(rpmvercmp) && UniformEpochs(pkgs)
    ensures FoldAsWritten(rpmvercmp, false, key, pkgs).keys == Fold(rpmvercmp, false, key, pkgs).keys
    ensures forall k | k in FoldAsWritten(rpmvercmp, false, key, pkgs).lists ::
      && KeyOccurs(key, pkgs, k)
      && FoldAsWritten(rpmvercmp, false, key, pkgs).lists[k]
         == (if FoldAsWritten(rpmvercmp, false, key, pkgs).lists[k][0] != FirstWithKey(key, pkgs, k)
             then [FoldAsWritten(rpmvercmp, false, key, pkgs).lists[k][0]] else [])
            + Ties(rpmvercmp, key, pkgs, k, FoldAsWritten(rpmvercmp, false, key, pkgs).lists[k][0])
  {
    FoldRepeatsReplacingHeads(rpmvercmp, key, pkgs);
    FoldCollectsTies(rpmvercmp, key, pkgs);
    var da, df := FoldAsWritten(rpmvercmp, false, key, pkgs), Fold(rpmvercmp, false, key, pkgs);
    forall k | k in da.lists ensures k in df.lists && da.lists[k][0] == df.lists[k][0] {
      assert k in da.keys;
    }
  }

  // ---------------------------------------------------------------------------
  // The flattened result

  /** With one package per list, flattening lists the heads in key order. */
  lemma {:induction false} FlattenSingletons<K>(keys: seq<K>, lists: map<K, seq<Pkg>>)
    requires forall k :: k in keys ==> k in lists && |lists[k]| == 1
    ensures |Flatten(keys, lists)| == |keys|
    ensures forall i :: 0 <= i < |keys| ==> Flatten(keys, lists)[i] == lists[keys[i]][0]
  {
    if keys != [] {
      FlattenSingletons(keys[..|keys| - 1], lists);
    }
  }

  /** The result of a `single=True` selection: one package per distinct key, in
      first-seen key order, each taken from the input with that key. */
  lemma SingleSelection<K(!new)>(rpmvercmp: Comparator, key: Pkg -> K, pkgs: seq<Pkg>)
    ensures var d := Fold(rpmvercmp, true, key, pkgs);
            var out := Flatten(d.keys, d.lists);
      && |out| == |d.keys|
      && (forall i, j :: 0 <= i < j < |out| ==> key(out[i]) != key(out[j]))
      && (forall i :: 0 <= i < |out| ==> out[i] in pkgs && key(out[i]) == d.keys[i])
      && (forall i :: 0 <= i < |out| ==> out[i] == d.lists[d.keys[i]][0])
      && (forall p :: p in pkgs ==> key(p) in d.keys)
      && (forall i, j :: 0 <= i < j < |out| ==> SeenBefore(key, pkgs, key(out[i]), key(out[j])))
  {
    var d := Fold(rpmvercmp, true, key, pkgs);
    FoldGroups(rpmvercmp, true, key, pkgs);
    FoldKeys(rpmvercmp, true, key, pkgs);
    forall k | k in d.keys ensures k in d.lists && |d.lists[k]| == 1 && d.lists[k][0] in pkgs && key(d.lists[k][0]) == k {
      assert d.lists[k][0] in d.lists[k];
    }
    SingletonsSelect(key, pkgs, d.keys, d.lists);
  }

  /** Lists of one input package each, under keys in first-seen order, flatten to one
      package per key. */
  lemma SingletonsSelect<K(!new)>(key: Pkg -> K, pkgs: seq<Pkg>, keys: seq<K>, lists: map<K, seq<Pkg>>)
    requires forall k :: k in keys ==> k in lists && |lists[k]| == 1 && lists[k][0] in pkgs && key(lists[k][0]) == k
    requires forall k :: k in lists <==> k in keys
    requires forall k :: k in lists <==> KeyOccurs(key, pkgs, k)
    requires forall i, j :: 0 <= i < j < |keys| ==> keys[i] != keys[j]
    requires forall i, j :: 0 <= i < j < |keys| ==> SeenBefore(key, pkgs, keys[i], keys[j])
    ensures var out := Flatten(keys, lists);
      && |out| == |keys|
      && (forall i, j :: 0 <= i < j < |out| ==> key(out[i]) != key(out[j]))
      && (forall i :: 0 <= i < |out| ==> out[i] in pkgs && key(out[i]) == keys[i])
      && (forall i :: 0 <= i < |out| ==> out[i] == lists[keys[i]][0])
      && (forall p :: p in pkgs ==> key(p) in keys)
      && (forall i, j :: 0 <= i < j < |out| ==> SeenBefore(key, pkgs, key(out[i]), key(out[j])))
  {
    FlattenSingletons(keys, lists);
    forall p | p in pkgs ensures key(p) in keys {
      var i :| 0 <= i < |pkgs| && pkgs[i] == p;
      assert KeyOccurs(key, pkgs, key(p));
    }
  }

  // ---------------------------------------------------------------------------
  // Worked examples

  /** A single package makes a dictionary of one key. */
  lemma FoldFirst<K(!new)>(rpmvercmp: Comparator, single: bool, key: Pkg -> K, p: Pkg)
    ensures Fold(rpmvercmp, single, key, [p]) == HighDict([key(p)], map[key(p) := [p]])
  {
    assert [p][..0] == [];
    assert [] + [key(p)] == [key(p)];
  }

  /** A second package of the same key that is strictly newer replaces the first. */
  lemma FoldNewerSecond<K(!new)>(rpmvercmp: Comparator, single: bool, key: Pkg -> K, p1: Pkg, p2: Pkg)
    requires key(p1) == key(p2) && VerGt(rpmvercmp, p2, p1)
    ensures Fold(rpmvercmp, single, key, [p1, p2]) == HighDict([key(p1)], map[key(p1) := [p2]])
  {
    var k, s := key(p1), [p1, p2];
    assert s[..|s| - 1] == [p1] && s[|s| - 1] == p2;
    FoldFirst(rpmvercmp, single, key, p1);
    var d1 := Fold(rpmvercmp, single, key, [p1]);
    assert k in d1.lists && d1.lists[k][0] == p1;
    assert Fold(rpmvercmp, single, key, s) == Insert(rpmvercmp, single, d1, k, p2);
    assert Insert(rpmvercmp, single, d1, k, p2) == HighDict([k], d1.lists[k := [p2]]);
    assert d1.lists[k := [p2]] == map[k := [p2]];
  }

  /** As written, a single package makes a dictionary of one key as well. */
  lemma FoldAsWrittenFirst<K(!new)>(rpmvercmp: Comparator, single: bool, key: Pkg -> K, p: Pkg)
    ensures FoldAsWritten(rpmvercmp, single, key, [p]) == HighDict([key(p)], map[key(p) := [p]])
  {
    assert [p][..0] == [];
    assert [] + [key(p)] == [key(p)];
  }

  /** As written with `single=False`, a strictly newer second package of the same key
      is kept twice. */
  lemma FoldAsWrittenNewerSecond<K(!new)>(rpmvercmp: Comparator, key: Pkg -> K, p1: Pkg, p2: Pkg)
    requires key(p1) == key(p2) && VerGt(rpmvercmp, p2, p1)
    ensures FoldAsWritten(rpmvercmp, false, key, [p1, p2]) == HighDict([key(p1)], map[key(p1) := [p2, p2]])
  {
    var k, s := key(p1), [p1, p2];
    assert s[..|s| - 1] == [p1] && s[|s| - 1] == p2;
    FoldAsWrittenFirst(rpmvercmp, false, key, p1);
    var d1 := FoldAsWritten(rpmvercmp, false, key, [p1]);
    assert k in d1.lists && d1.lists[k][0] == p1;
    assert FoldAsWritten(rpmvercmp, false, key, s) == InsertAsWritten(rpmvercmp, false, d1, k, p2);
    assert !VerLt(rpmvercmp, p2, p1);
    assert InsertAsWritten(rpmvercmp, false, d1, k, p2) == HighDict([k], d1.lists[k := [p2] + [p2]]);
    assert [p2] + [p2] == [p2, p2];
    assert d1.lists[k := [p2, p2]] == map[k := [p2, p2]];
  }

  /** Versions 1 and 2 of foo, release 1, without epochs, on any two arches. */
  lemma FooTwoNewer(a1: string, a2: string)
    ensures VerGt(LexCmp, Pkg("foo", "2", "1", a2, Absent), Pkg("foo", "1", "1", a1, Absent))
  {
    assert StrLt("1", "2");
  }

  /** foo-1-1.i686 and foo-2-1.noarch grouped by name with `single=True`: only
      foo-2-1.noarch is returned. */
  lemma NewestByNameExample()
    ensures var p1, p2 := Pkg("foo", "1", "1", "i686", Absent), Pkg("foo", "2", "1", "noarch", Absent);
            var d := Fold(LexCmp, true, NameKey, [p1, p2]);
            Flatten(d.keys, d.lists) == [p2]
  {
    var p1, p2 := Pkg("foo", "1", "1", "i686", Absent), Pkg("foo", "2", "1", "noarch", Absent);
    FooTwoNewer("i686", "noarch");
    FoldNewerSecond(LexCmp, true, NameKey, p1, p2);
    assert ["foo"][..0] == [];
  }

  /** `returnNewestByName([foo-1-1, foo-2-1], single=False)` as written returns foo-2-1 twice. */
  lemma DuplicateExample()
    ensures var p1, p2 := Pkg("foo", "1", "1", "src", Absent), Pkg("foo", "2", "1", "src", Absent);
            var d := FoldAsWritten(LexCmp, false, NameKey, [p1, p2]);
            Flatten(d.keys, d.lists) == [p2, p2]
  {
    var p1, p2 := Pkg("foo", "1", "1", "src", Absent), Pkg("foo", "2", "1", "src", Absent);
    FooTwoNewer("src", "src");
    FoldAsWrittenNewerSecond(LexCmp, NameKey, p1, p2);
    assert ["foo"][..0] == [];
  }
}
