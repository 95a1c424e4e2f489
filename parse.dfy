/** The module-level helpers of spkg.py that convert strings to packages,
    and Koji's integer epochs to epoch strings and back. */
module Parse {
  import opened PyStr
  import opened Package

  // ---------------------------------------------------------------------------
  // Koji epochs: an int, or None when rpm has none.

  /** `epochnum2epoch`: None becomes "0", an int its decimal numeral. */
  function EpochNum2Epoch(epochnum: Option<int>): (e: string)
    ensures IsCanonicalInt(e)
    ensures e == "0" <==> epochnum == None || epochnum == Some(0)
  {
    if epochnum.None? then "0" else IntToString(epochnum.value)
  }

  /** `epoch2epochnum`: "0" becomes None, any other integer literal its value; anything
      else makes `int()` raise ValueError. */
  function Epoch2EpochNum(epoch: string): (r: Result<Option<int>>)
    ensures r.Err? <==> epoch != "0" && !IsIntLiteral(epoch)
    ensures r.Err? ==> r.error == ValueError
    ensures r == Ok(None) <==> epoch == "0"
    ensures r.Ok? && epoch != "0" ==> r.value == Some(ParseInt(epoch))
  {
    if epoch == "0" then Ok(None)
    else if IsIntLiteral(epoch) then Ok(Some(ParseInt(epoch)))
    else Err(ValueError)
  }

  /** Converting a Koji epoch to a string and back is the identity, except that an
      explicit 0 comes back as None. */
  lemma EpochNumRoundTrip(epochnum: Option<int>)
    ensures Epoch2EpochNum(EpochNum2Epoch(epochnum)) == Ok(if epochnum == Some(0) then None else epochnum)
  {
    if epochnum.Some? {
      ParseIntOfIntToString(epochnum.value);
    }
  }

  /** Converting a numeral to a Koji epoch and back is the identity. */
  lemma EpochRoundTrip(epoch: string)
    requires IsCanonicalInt(epoch)
    ensures Epoch2EpochNum(epoch).Ok?
    ensures EpochNum2Epoch(Epoch2EpochNum(epoch).value) == epoch
  {
    if epoch != "0" {
      IntToStringOfParseInt(epoch);
    }
  }

  // ---------------------------------------------------------------------------
  // Parsers

  /** `nvr2pkg(nvr, arch=None, epoch=None)`: the last two `-`-separated fields are
      version and release, everything before them the name. */
  function Nvr2Pkg(nvr: string, arch: Option<string>, epoch: Option<string>): (r: Result<Pkg>)
    ensures r.Err? <==> multiset(nvr)['-'] < 2
    ensures r.Err? ==> r.error == ValueError
    ensures r.Ok? ==> Nvr(r.value) == nvr && '-' !in r.value.version && '-' !in r.value.release
    ensures r.Ok? ==> r.value == NewPkg(r.value.name, r.value.version, Some(r.value.release), arch, epoch)
  {
    match RSplitTwice(nvr, '-')
    case Err(e) => Err(e)
    case Ok((n, v, rel)) =>
      var p := NewPkg(n, v, Some(rel), arch, epoch);
      NvrForm(p);
      Ok(p)
  }

  /** `nvra2pkg(nvra, epoch=None)`: the text after the last `.` is the arch. */
  function Nvra2Pkg(nvra: string, epoch: Option<string>): (r: Result<Pkg>)
    ensures r.Err? <==> '.' !in nvra || multiset(nvra[..LastIndexOf(nvra, '.')])['-'] < 2
    ensures r.Err? ==> r.error == ValueError
    ensures r.Ok? ==> Nvra(r.value) == nvra && '.' !in r.value.arch
                      && '-' !in r.value.version && '-' !in r.value.release
    ensures r.Ok? ==> r.value.epoch == (if epoch.Some? then Present(epoch.value) else Absent)
  {
    match RSplitOnce(nvra, '.')
    case Err(e) => Err(e)
    case Ok((nvr, a)) =>
      var r := Nvr2Pkg(nvr, Some(a), epoch);
      if r.Ok? then
        NvraForm(r.value);
        r
      else r
  }

  /** `nevra2pkg(nevra)`: like NVRA, but the version field may carry `epoch:`; without
      one the epoch is the explicit string "0". */
  function Nevra2Pkg(nevra: string): (r: Result<Pkg>)
    ensures r.Err? <==> multiset(nevra)['-'] < 2 || '.' !in nevra[LastIndexOf(nevra, '-') + 1..]
    ensures r.Err? ==> r.error == ValueError
    ensures r.Ok? ==> r.value.epoch.Present? && ':' !in r.value.epoch.value
                      && '-' !in r.value.epoch.value && '-' !in r.value.version
                      && '.' !in r.value.arch && '-' !in r.value.arch && '-' !in r.value.release
    ensures r.Ok? ==> Nevra(r.value) == nevra
                      || (Nvra(r.value) == nevra && r.value.epoch == Present("0"))
    ensures r.Ok? && ':' !in nevra ==> Nvra(r.value) == nevra && r.value.epoch == Present("0")
  {
    match RSplitTwice(nevra, '-')
    case Err(e) => Err(e)
    case Ok((n, ev, ra)) =>
      var (e, v) := SplitEpoch(ev);
      match RSplitOnce(ra, '.')
      case Err(err) => Err(err)
      case Ok((rel, a)) =>
        NevraParsed(nevra, n, ev, ra, e, v, rel, a);
        Ok(NewPkg(n, v, Some(rel), Some(a), Some(e)))
  }

  /** The `if ':' in ev` of `nevra2pkg`: split at the first `:`, or take epoch "0". */
  function SplitEpoch(ev: string): (r: (string, string))
    ensures ':' !in r.0
    ensures ':' in ev ==> ev == r.0 + [':'] + r.1
    ensures ':' !in ev ==> r == ("0", ev)
  {
    if ':' in ev then SplitOnce(ev, ':').value else ("0", ev)
  }

  /** The fields that `nevra2pkg` split out render back to its input. */
  lemma NevraParsed(nevra: string, n: string, ev: string, ra: string, e: string, v: string, rel: string, a: string)
    requires nevra == n + ['-'] + ev + ['-'] + ra && '-' !in ra
    requires (e, v) == SplitEpoch(ev)
    requires ra == rel + ['.'] + a && '.' !in a
    ensures var p := NewPkg(n, v, Some(rel), Some(a), Some(e));
            '-' !in p.arch && '-' !in p.release
            && (Nevra(p) == nevra || (Nvra(p) == nevra && e == "0"))
            && (':' !in nevra ==> Nvra(p) == nevra && e == "0")
  {
    var p := NewPkg(n, v, Some(rel), Some(a), Some(e));
    assert p == Pkg(n, v, rel, a, Present(e));
    assert forall i | 0 <= i < |a| :: a[i] == ra[|rel| + 1 + i];
    assert forall i | 0 <= i < |rel| :: rel[i] == ra[i];
    if ':' in ev {
      var i :| 0 <= i < |ev| && ev[i] == ':';
      assert nevra[|n| + 1 + i] == ':';
      NevraForm(p);
    } else {
      NvraForm(p);
    }
  }

  /** `srpm.endswith(".rpm")`. */
  predicate EndsWithRpm(srpm: string)
  {
    |srpm| >= 4 && srpm[|srpm| - 4..] == ".rpm"
  }

  /** `srpm2pkg(srpm)`: drops one trailing ".rpm", then parses the rest as NVRA
      without an epoch. */
  function Srpm2Pkg(srpm: string): (r: Result<Pkg>)
    ensures r.Err? <==> var stem := if EndsWithRpm(srpm) then srpm[..|srpm| - 4] else srpm;
                        '.' !in stem || multiset(stem[..LastIndexOf(stem, '.')])['-'] < 2
    ensures r.Err? ==> r.error == ValueError
    ensures r.Ok? ==> r.value.epoch == Absent && '.' !in r.value.arch
                      && '-' !in r.value.version && '-' !in r.value.release
    ensures r.Ok? ==> Nvra(r.value) + (if EndsWithRpm(srpm) then ".rpm" else "") == srpm
  {
    var stem := if EndsWithRpm(srpm) then srpm[..|srpm| - 4] else srpm;
    assert EndsWithRpm(srpm) ==> stem + ".rpm" == srpm;
    Nvra2Pkg(stem, None)
  }

  // ---------------------------------------------------------------------------
  // Round trips

  /** No separator that the parsers split on occurs inside a field where it would be misread. */
  predicate Splittable(p: Pkg)
  {
    '-' !in p.version && '-' !in p.release && '-' !in p.arch && '.' !in p.arch
  }

  /** Parsing the rendered NVR gives the fields back; arch and epoch come from the call. */
  lemma NvrRoundTrip(p: Pkg)
    requires '-' !in p.version && '-' !in p.release
    ensures Nvr2Pkg(Nvr(p), None, None) == Ok(Pkg(p.name, p.version, p.release, "src", Absent))
  {
    RSplitTwiceOf(p.name, '-', p.version, p.release);
    NvrForm(p);
  }

  /** Parsing the rendered NVRA gives the package back, with its epoch dropped. */
  lemma NvraRoundTrip(p: Pkg)
    requires '-' !in p.version && '-' !in p.release && '.' !in p.arch
    ensures Nvra2Pkg(Nvra(p), None) == Ok(p.(epoch := Absent))
  {
    RSplitOnceOf(Nvr(p), '.', p.arch);
    assert Nvra(p) == Nvr(p) + ['.'] + p.arch;
    RSplitTwiceOf(p.name, '-', p.version, p.release);
    NvrForm(p);
  }

  /** Parsing the rendered NEVRA gives the package back, with its displayed epoch made explicit
      (an absent epoch comes back as "0"). */
  lemma NevraRoundTrip(p: Pkg)
    requires Splittable(p)
    requires '-' !in DisplayEpoch(p) && ':' !in DisplayEpoch(p)
    ensures Nevra2Pkg(Nevra(p)) == Ok(p.(epoch := Present(DisplayEpoch(p))))
  {
    var e := DisplayEpoch(p);
    var ev := e + [':'] + p.version;
    var ra := p.release + ['.'] + p.arch;
    NevraForm(p);
    RSplitTwiceOf(p.name, '-', ev, ra);
    SplitOnceOf(e, ':', p.version);
    RSplitOnceOf(p.release, '.', p.arch);
  }

  /** A source-package file name parses as its NVRA. */
  lemma SrpmRoundTrip(p: Pkg)
    requires '-' !in p.version && '-' !in p.release && '.' !in p.arch
    ensures Srpm2Pkg(Nvra(p) + ".rpm") == Ok(p.(epoch := Absent))
  {
    var s := Nvra(p) + ".rpm";
    assert s[|s| - 4..] == ".rpm" && s[..|s| - 4] == Nvra(p);
    NvraRoundTrip(p);
  }

  /** The example of malformed input: a name without hyphens is rejected. */
  lemma NoHyphensRejected()
    ensures Nvr2Pkg("nohyphens", None, None) == Err(ValueError)
  {
    var s := "nohyphens";
    assert forall i | 0 <= i < |s| :: s[i] != '-';
    assert '-' !in multiset(s);
  }
}
