/** The `Pkg` value type of spkg.py: an RPM package identity (name, epoch,
    version, release, arch), its version comparison, its ordering and its
    string renderings. */
module Package {
  import opened PyStr

  /** The private `__epoch` attribute: `None`, or a value already turned into a string. */
  datatype StoredEpoch = Absent | Present(value: string)

  datatype Pkg = Pkg(name: string, version: string, release: string, arch: string, epoch: StoredEpoch)

  /** `Pkg(name, version, release=None, arch=None, epoch=None)`; `None` is `Option.None`. */
  function NewPkg(name: string, version: string, release: Option<string>,
                  arch: Option<string>, epoch: Option<string>): (p: Pkg)
    ensures p.name == name && p.version == version
    ensures p.release == (if release.Some? then release.value else "1")
    ensures p.arch == (if arch.Some? then arch.value else "src")
    ensures p.epoch.Present? <==> epoch.Some?
    ensures DisplayEpoch(p) == (if epoch.Some? then epoch.value else "0")
  {
    Pkg(name, version,
        if release.None? then "1" else release.value,
        if arch.None? then "src" else arch.value,
        if epoch.None? then Absent else Present(epoch.value))
  }

  /** The `epoch` property: an absent epoch reads as "0". */
  function DisplayEpoch(p: Pkg): string
  {
    match p.epoch
    case Absent => "0"
    case Present(e) => e
  }

  lemma NewPkgDefaults(name: string, version: string)
    ensures var p := NewPkg(name, version, None, None, None);
      p.release == "1" && p.arch == "src" && p.epoch == Absent && DisplayEpoch(p) == "0"
  {
  }

  // ---------------------------------------------------------------------------
  // Version comparison

  /** The external `rpmvercmp(a, b)`: negative, zero or positive. Its algorithm is
      not part of this model; properties of it appear only as lemma hypotheses. */
  type Comparator = (string, string) -> int

  ghost predicate ReflexiveCmp(rpmvercmp: Comparator)
  {
    forall a :: rpmvercmp(a, a) == 0
  }

  ghost predicate AntisymmetricCmp(rpmvercmp: Comparator)
  {
    forall a, b :: rpmvercmp(a, b) < 0 <==> rpmvercmp(b, a) > 0
  }

  ghost predicate TransitiveCmp(rpmvercmp: Comparator)
  {
    forall a, b, c :: rpmvercmp(a, b) <= 0 && rpmvercmp(b, c) <= 0 ==> rpmvercmp(a, c) <= 0
  }

  /** `rpmvercmp` orders strings as a total preorder. */
  ghost predicate TotalPreorderCmp(rpmvercmp: Comparator)
  {
    ReflexiveCmp(rpmvercmp) && AntisymmetricCmp(rpmvercmp) && TransitiveCmp(rpmvercmp)
  }

  /** `p.verCMP(o)`: epochs are compared only when both are stored, then versions, then releases. */
  function VerCmp(rpmvercmp: Comparator, p: Pkg, o: Pkg): (r: int)
    ensures r == 0 <==>
              (p.epoch.Present? && o.epoch.Present? ==> rpmvercmp(p.epoch.value, o.epoch.value) == 0)
              && rpmvercmp(p.version, o.version) == 0
              && rpmvercmp(p.release, o.release) == 0
    ensures p.epoch.Present? && o.epoch.Present? && rpmvercmp(p.epoch.value, o.epoch.value) != 0 ==>
              r == rpmvercmp(p.epoch.value, o.epoch.value)
    ensures (p.epoch.Present? && o.epoch.Present? ==> rpmvercmp(p.epoch.value, o.epoch.value) == 0) ==>
              if rpmvercmp(p.version, o.version) != 0 then r == rpmvercmp(p.version, o.version)
              else r == rpmvercmp(p.release, o.release)
  {
    var e := if p.epoch.Present? && o.epoch.Present? then rpmvercmp(DisplayEpoch(p), DisplayEpoch(o)) else 0;
    if e != 0 then e
    else
      var v := rpmvercmp(p.version, o.version);
      if v != 0 then v
      else rpmvercmp(p.release, o.release)
  }

  /** When one side has no stored epoch, the other side's epoch plays no part at all. */
  lemma VerCmpIgnoresEpochAgainstAbsent(rpmvercmp: Comparator, p: Pkg, o: Pkg, e: StoredEpoch)
    requires p.epoch.Absent?
    ensures VerCmp(rpmvercmp, p, o) == VerCmp(rpmvercmp, p, o.(epoch := e))
    ensures VerCmp(rpmvercmp, o, p) == VerCmp(rpmvercmp, o.(epoch := e), p)
    ensures VerCmp(rpmvercmp, p, o) == 0 <==>
              rpmvercmp(p.version, o.version) == 0 && rpmvercmp(p.release, o.release) == 0
  {
  }

  /** With both epochs stored, a differing epoch decides the comparison whatever the versions. */
  lemma VerCmpEpochFirst(rpmvercmp: Comparator, p: Pkg, o: Pkg)
    requires p.epoch.Present? && o.epoch.Present?
    requires rpmvercmp(p.epoch.value, o.epoch.value) != 0
    ensures VerCmp(rpmvercmp, p, o) == rpmvercmp(p.epoch.value, o.epoch.value)
  {
  }

  /** The sign of verCMP flips when its arguments are swapped, whenever rpmvercmp's does. */
  lemma VerCmpAntisymmetric(rpmvercmp: Comparator, p: Pkg, o: Pkg)
    requires AntisymmetricCmp(rpmvercmp)
    ensures VerCmp(rpmvercmp, p, o) < 0 <==> VerCmp(rpmvercmp, o, p) > 0
    ensures VerCmp(rpmvercmp, p, o) == 0 <==> VerCmp(rpmvercmp, o, p) == 0
  {
  }

  /** Packages that all carry an epoch, or all lack one. */
  predicate SameEpochKind(p: Pkg, o: Pkg)
  {
    p.epoch.Present? == o.epoch.Present?
  }

  /** All packages of a list carry an epoch, or none does. */
  ghost predicate UniformEpochs(pkgs: seq<Pkg>)
  {
    forall a, b | a in pkgs && b in pkgs :: SameEpochKind(a, b)
  }

  /** verCMP is transitive among packages of one epoch kind, strictly when either step is strict. */
  lemma VerCmpTransitive(rpmvercmp: Comparator, a: Pkg, b: Pkg, c: Pkg)
    requires TotalPreorderCmp(rpmvercmp)
    requires SameEpochKind(a, b) && SameEpochKind(b, c)
    requires VerCmp(rpmvercmp, a, b) <= 0 && VerCmp(rpmvercmp, b, c) <= 0
    ensures VerCmp(rpmvercmp, a, c) <= 0
    ensures VerCmp(rpmvercmp, a, b) < 0 || VerCmp(rpmvercmp, b, c) < 0 ==> VerCmp(rpmvercmp, a, c) < 0
  {
    if a.epoch.Present? {
      LexTransitive(rpmvercmp, a.epoch.value, b.epoch.value, c.epoch.value,
        a.version, b.version, c.version, a.release, b.release, c.release);
    } else {
      LexTransitive(rpmvercmp, "", "", "",
        a.version, b.version, c.version, a.release, b.release, c.release);
    }
  }

  /** The first non-zero of three rpmvercmp results. */
  function Lex3(rpmvercmp: Comparator, e1: string, e2: string, v1: string, v2: string,
                r1: string, r2: string): int
  {
    var e := rpmvercmp(e1, e2);
    if e != 0 then e
    else
      var v := rpmvercmp(v1, v2);
      if v != 0 then v else rpmvercmp(r1, r2)
  }

  lemma LexTransitive(rpmvercmp: Comparator, ea: string, eb: string, ec: string,
                      va: string, vb: string, vc: string, ra: string, rb: string, rc: string)
    requires TotalPreorderCmp(rpmvercmp)
    ensures var ab, bc, ac := Lex3(rpmvercmp, ea, eb, va, vb, ra, rb),
                              Lex3(rpmvercmp, eb, ec, vb, vc, rb, rc),
                              Lex3(rpmvercmp, ea, ec, va, vc, ra, rc);
      ab <= 0 && bc <= 0 ==> ac <= 0 && (ab < 0 || bc < 0 ==> ac < 0)
  {
    StrictStep(rpmvercmp, ea, eb, ec);
    StrictStep(rpmvercmp, va, vb, vc);
    StrictStep(rpmvercmp, ra, rb, rc);
  }

  /** The consequences of a total preorder on one triple of strings. */
  lemma StrictStep(rpmvercmp: Comparator, a: string, b: string, c: string)
    requires TotalPreorderCmp(rpmvercmp)
    ensures rpmvercmp(a, b) <= 0 && rpmvercmp(b, c) <= 0 ==> rpmvercmp(a, c) <= 0
    ensures rpmvercmp(a, b) < 0 && rpmvercmp(b, c) <= 0 ==> rpmvercmp(a, c) < 0
    ensures rpmvercmp(a, b) <= 0 && rpmvercmp(b, c) < 0 ==> rpmvercmp(a, c) < 0
    ensures rpmvercmp(a, b) == 0 && rpmvercmp(b, c) == 0 ==> rpmvercmp(a, c) == 0
  {
    assert rpmvercmp(a, c) >= 0 ==> rpmvercmp(c, a) <= 0;
    assert rpmvercmp(c, a) <= 0 && rpmvercmp(a, b) <= 0 ==> rpmvercmp(c, b) <= 0;
    assert rpmvercmp(b, c) <= 0 && rpmvercmp(c, a) <= 0 ==> rpmvercmp(b, a) <= 0;
    assert rpmvercmp(c, b) <= 0 && rpmvercmp(b, a) <= 0 ==> rpmvercmp(c, a) <= 0;
  }

  // ---------------------------------------------------------------------------
  // The rpm-version relations `verEQ` .. `verGE`

  predicate VerEq(rpmvercmp: Comparator, p: Pkg, o: Pkg) { VerCmp(rpmvercmp, p, o) == 0 }

  predicate VerLt(rpmvercmp: Comparator, p: Pkg, o: Pkg) { VerCmp(rpmvercmp, p, o) < 0 }

  predicate VerGt(rpmvercmp: Comparator, p: Pkg, o: Pkg) { VerCmp(rpmvercmp, p, o) > 0 }

  predicate VerNe(rpmvercmp: Comparator, p: Pkg, o: Pkg)
    ensures VerNe(rpmvercmp, p, o) <==> VerLt(rpmvercmp, p, o) || VerGt(rpmvercmp, p, o)
  {
    !VerEq(rpmvercmp, p, o)
  }

  predicate VerLe(rpmvercmp: Comparator, p: Pkg, o: Pkg)
    ensures VerLe(rpmvercmp, p, o) <==> VerLt(rpmvercmp, p, o) || VerEq(rpmvercmp, p, o)
    ensures VerLe(rpmvercmp, p, o) <==> !VerGt(rpmvercmp, p, o)
  {
    VerCmp(rpmvercmp, p, o) <= 0
  }

  predicate VerGe(rpmvercmp: Comparator, p: Pkg, o: Pkg)
    ensures VerGe(rpmvercmp, p, o) <==> VerGt(rpmvercmp, p, o) || VerEq(rpmvercmp, p, o)
    ensures VerGe(rpmvercmp, p, o) <==> !VerLt(rpmvercmp, p, o)
  {
    VerCmp(rpmvercmp, p, o) >= 0
  }

  /** verLT and verGT are converses, and verEQ is symmetric, whenever rpmvercmp flips sign. */
  lemma VerRelationsConverse(rpmvercmp: Comparator, p: Pkg, o: Pkg)
    requires AntisymmetricCmp(rpmvercmp)
    ensures VerLt(rpmvercmp, p, o) <==> VerGt(rpmvercmp, o, p)
    ensures VerEq(rpmvercmp, p, o) <==> VerEq(rpmvercmp, o, p)
  {
    VerCmpAntisymmetric(rpmvercmp, p, o);
  }

  // ---------------------------------------------------------------------------
  // The package ordering `==`, `<`, `>`, `>=`, `<=`

  predicate Eq(rpmvercmp: Comparator, p: Pkg, o: Pkg)
  {
    if p.name != o.name then false
    else if VerCmp(rpmvercmp, p, o) != 0 then false
    else p.arch == o.arch
  }

  predicate Gt(rpmvercmp: Comparator, p: Pkg, o: Pkg)
  {
    if StrLt(o.name, p.name) then true
    else if p.name != o.name then false
    else
      var val := VerCmp(rpmvercmp, p, o);
      if val > 0 then true
      else if val != 0 then false
      else StrLt(o.arch, p.arch)
  }

  predicate Lt(rpmvercmp: Comparator, p: Pkg, o: Pkg)
  {
    if StrLt(p.name, o.name) then true
    else if p.name != o.name then false
    else
      var val := VerCmp(rpmvercmp, p, o);
      if val < 0 then true
      else if val != 0 then false
      else StrLt(p.arch, o.arch)
  }

  /** `p >= o` is `not p < o`, which is exactly `p > o or p == o`. */
  predicate Ge(rpmvercmp: Comparator, p: Pkg, o: Pkg)
    ensures Ge(rpmvercmp, p, o) <==> Gt(rpmvercmp, p, o) || Eq(rpmvercmp, p, o)
  {
    OrderingConsistent(rpmvercmp, p, o);
    !Lt(rpmvercmp, p, o)
  }

  /** `p <= o` is `not p > o`, which is exactly `p < o or p == o`. */
  predicate Le(rpmvercmp: Comparator, p: Pkg, o: Pkg)
    ensures Le(rpmvercmp, p, o) <==> Lt(rpmvercmp, p, o) || Eq(rpmvercmp, p, o)
  {
    OrderingConsistent(rpmvercmp, p, o);
    !Gt(rpmvercmp, p, o)
  }

  /** Whatever rpmvercmp does, exactly one of `<`, `>`, `==` holds between two packages,
      and between different names the name order alone decides. */
  lemma OrderingConsistent(rpmvercmp: Comparator, p: Pkg, o: Pkg)
    ensures !(Lt(rpmvercmp, p, o) && Gt(rpmvercmp, p, o))
    ensures Eq(rpmvercmp, p, o) ==> !Lt(rpmvercmp, p, o) && !Gt(rpmvercmp, p, o)
    ensures Lt(rpmvercmp, p, o) || Gt(rpmvercmp, p, o) || Eq(rpmvercmp, p, o)
    ensures p.name != o.name ==>
              (Lt(rpmvercmp, p, o) <==> StrLt(p.name, o.name))
              && (Gt(rpmvercmp, p, o) <==> StrLt(o.name, p.name))
              && (Lt(rpmvercmp, p, o) != Gt(rpmvercmp, p, o))
  {
    StrLtAsymmetric(p.name, o.name);
    StrLtAsymmetric(p.arch, o.arch);
    StrLtTrichotomy(p.name, o.name);
    StrLtTrichotomy(p.arch, o.arch);
    StrLtIrreflexive(p.arch);
    StrLtIrreflexive(p.name);
  }

  /** `p < o` exactly when `o > p`, whenever rpmvercmp flips sign. */
  lemma LtIsConverseOfGt(rpmvercmp: Comparator, p: Pkg, o: Pkg)
    requires AntisymmetricCmp(rpmvercmp)
    ensures Lt(rpmvercmp, p, o) <==> Gt(rpmvercmp, o, p)
    ensures Eq(rpmvercmp, p, o) <==> Eq(rpmvercmp, o, p)
  {
    VerCmpAntisymmetric(rpmvercmp, p, o);
  }

  /** `<` is asymmetric whenever rpmvercmp flips sign. */
  lemma LtAsymmetric(rpmvercmp: Comparator, p: Pkg, o: Pkg)
    requires AntisymmetricCmp(rpmvercmp)
    ensures Lt(rpmvercmp, p, o) ==> !Lt(rpmvercmp, o, p)
  {
    LtIsConverseOfGt(rpmvercmp, o, p);
    OrderingConsistent(rpmvercmp, p, o);
  }

  /** `<` is transitive among packages of one epoch kind when rpmvercmp is a total preorder. */
  lemma LtTransitive(rpmvercmp: Comparator, a: Pkg, b: Pkg, c: Pkg)
    requires TotalPreorderCmp(rpmvercmp)
    requires SameEpochKind(a, b) && SameEpochKind(b, c)
    requires Lt(rpmvercmp, a, b) && Lt(rpmvercmp, b, c)
    ensures Lt(rpmvercmp, a, c)
  {
    StrLtIrreflexive(a.name);
    StrLtIrreflexive(b.name);
    if a.name == b.name && b.name == c.name {
      VerCmpTransitive(rpmvercmp, a, b, c);
      if VerCmp(rpmvercmp, a, b) == 0 && VerCmp(rpmvercmp, b, c) == 0 {
        VerCmpAntisymmetric(rpmvercmp, a, b);
        VerCmpAntisymmetric(rpmvercmp, b, c);
        VerCmpAntisymmetric(rpmvercmp, a, c);
        VerCmpTransitive(rpmvercmp, c, b, a);
        StrLtTransitive(a.arch, b.arch, c.arch);
      }
    } else if a.name == b.name {
      assert StrLt(b.name, c.name);
    } else if b.name == c.name {
      assert StrLt(a.name, b.name);
    } else {
      StrLtTransitive(a.name, b.name, c.name);
    }
  }

  /** A comparator that is a total preorder: plain string order. */
  function LexCmp(a: string, b: string): int
  {
    if a == b then 0 else if StrLt(a, b) then -1 else 1
  }

  lemma LexCmpIsTotalPreorder()
    ensures TotalPreorderCmp(LexCmp)
  {
    forall a: string ensures LexCmp(a, a) == 0 { }
    forall a: string, b: string ensures LexCmp(a, b) < 0 <==> LexCmp(b, a) > 0 {
      StrLtAsymmetric(a, b);
      StrLtTrichotomy(a, b);
    }
    forall a: string, b: string, c: string | LexCmp(a, b) <= 0 && LexCmp(b, c) <= 0
      ensures LexCmp(a, c) <= 0
    {
      if a != b && b != c {
        StrLtTransitive(a, b, c);
      }
    }
  }

  /** Because an absent epoch skips the epoch step, `==` is not transitive once
      packages with and without an epoch are mixed, even over a total preorder. */
  lemma EqNotTransitiveAcrossEpochKinds()
    ensures var none, one, two := Pkg("foo", "1", "1", "src", Absent),
                                  Pkg("foo", "1", "1", "src", Present("1")),
                                  Pkg("foo", "1", "1", "src", Present("2"));
      TotalPreorderCmp(LexCmp)
      && Eq(LexCmp, none, one) && Eq(LexCmp, none, two) && !Eq(LexCmp, one, two)
  {
    LexCmpIsTotalPreorder();
    assert StrLt("1", "2");
  }

  // ---------------------------------------------------------------------------
  // String renderings

  function Vr(p: Pkg): string { p.version + "-" + p.release }

  function Vra(p: Pkg): string { p.version + "-" + p.release + "." + p.arch }

  function Na(p: Pkg): string { p.name + "." + p.arch }

  function Nv(p: Pkg): string { p.name + "-" + p.version }

  function Nvr(p: Pkg): string { p.name + "-" + Vr(p) }

  function Nvra(p: Pkg): string { p.name + "-" + Vra(p) }

  function Evr(p: Pkg): string { DisplayEpoch(p) + ":" + Vr(p) }

  function Evra(p: Pkg): string { DisplayEpoch(p) + ":" + Vra(p) }

  function Envr(p: Pkg): string { DisplayEpoch(p) + ":" + Nvr(p) }

  function Envra(p: Pkg): string { DisplayEpoch(p) + ":" + Nvra(p) }

  function Nevr(p: Pkg): string { p.name + "-" + Evr(p) }

  function Nevra(p: Pkg): string { p.name + "-" + Evra(p) }

  /** The NVR form, as the parsers split it. */
  lemma NvrForm(p: Pkg)
    ensures Nvr(p) == p.name + ['-'] + p.version + ['-'] + p.release
  {
  }

  /** The NVRA form: the NVR form and the arch after a dot. */
  lemma NvraForm(p: Pkg)
    ensures Nvra(p) == Nvr(p) + ['.'] + p.arch
    ensures Nvra(p) == p.name + ['-'] + p.version + ['-'] + (p.release + ['.'] + p.arch)
  {
  }

  /** The NEVRA form `name-epoch:version-release.arch`, grouped as the parser splits it. */
  lemma NevraForm(p: Pkg)
    ensures Nevra(p) == p.name + ['-'] + (DisplayEpoch(p) + [':'] + p.version) + ['-']
                        + (p.release + ['.'] + p.arch)
  {
  }

  function UiEnvr(p: Pkg): (s: string)
    ensures s == Nvr(p) <==> DisplayEpoch(p) == "0"
    ensures DisplayEpoch(p) != "0" ==> s == Envr(p)
  {
    if DisplayEpoch(p) == "0" then Nvr(p) else Envr(p)
  }

  function UiEnvra(p: Pkg): (s: string)
    ensures s == Nvra(p) <==> DisplayEpoch(p) == "0"
    ensures DisplayEpoch(p) != "0" ==> s == Envra(p)
  {
    if DisplayEpoch(p) == "0" then Nvra(p) else Envra(p)
  }

  function UiNevr(p: Pkg): (s: string)
    ensures s == Nvr(p) <==> DisplayEpoch(p) == "0"
    ensures DisplayEpoch(p) != "0" ==> s == Nevr(p)
  {
    if DisplayEpoch(p) == "0" then Nvr(p) else Nevr(p)
  }

  function UiNevra(p: Pkg): (s: string)
    ensures s == Nvra(p) <==> DisplayEpoch(p) == "0"
    ensures DisplayEpoch(p) != "0" ==> s == Nevra(p)
  {
    if DisplayEpoch(p) == "0" then Nvra(p) else Nevra(p)
  }

  function UiEvr(p: Pkg): (s: string)
    ensures s == Vr(p) <==> DisplayEpoch(p) == "0"
    ensures DisplayEpoch(p) != "0" ==> s == Evr(p)
  {
    if DisplayEpoch(p) == "0" then Vr(p) else Evr(p)
  }

  function UiEvra(p: Pkg): (s: string)
    ensures s == Vra(p) <==> DisplayEpoch(p) == "0"
    ensures DisplayEpoch(p) != "0" ==> s == Evra(p)
  {
    if DisplayEpoch(p) == "0" then Vra(p) else Evra(p)
  }

  /** `str(p)`: the epoch-suppressing NEVRA. */
  function Str(p: Pkg): (s: string)
    ensures s == Nvra(p) <==> DisplayEpoch(p) == "0"
    ensures DisplayEpoch(p) != "0" ==> s == Nevra(p)
  {
    UiNevra(p)
  }
}
