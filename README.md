# spkg — RPM package identities, in Dafny

This project models `spkg.py`, a small library from sync2git that handles RPM package
identities, and proves properties of the model. It covers:

- **The `Pkg` value** (`package.dfy`, module `Package`).
  - Fields: name, version, release and arch, plus an epoch that is either absent or a stored string. An absent epoch displays as `"0"`.
  - `verCMP`, which consults `rpmvercmp` on the epochs only when both packages carry one.
  - The `verXX` relations and the ordering operators `==`, `<`, `>`, `>=` and `<=`.
  - The string renderings: `nvr`, `nevra`, …, and the `ui_*` forms, which drop a `"0"` epoch.
- **The parsers** (`parse.dfy`, module `Parse`).
  - `nvr2pkg`, `nvra2pkg`, `nevra2pkg` and `srpm2pkg`.
  - The Koji epoch converters `epochnum2epoch` and `epoch2epochnum`.
  - A failed tuple unpack (Python's `ValueError`) becomes `Err(ValueError)`.
- **Newest selection** (`newest.dfy`, module `Newest`): `returnNewestByName` and `returnNewestByNameArch`.
  - Both are one imperative loop over a dictionary from key to package list. The dictionary is modelled as its keys in insertion order plus a map.
  - The loop runs the body as spkg.py writes it, and is proved against a fold of that body (`FoldAsWritten`).
  - With `single=False` that body lists a newer package twice (see Findings). The intended behaviour is a corrected fold (`Fold`), and the properties of the selection are proved about it. With `single=True`, the default, the two folds are proved equal. For any rpmvercmp and any mix of epochs, the loop as written has the corrected keys in first-seen order, and every entry of a list is the list's head or verEQ to it. Under a total-preorder rpmvercmp and uniform epochs, with `single=False`, each per-key list as written is proved to be the corrected list, with the newest package repeated in front when it replaced an older one.
- **`match_pkgs`** (`match.dfy`, module `Match`).
  - The imperative exact-match and glob passes are proved equal to a filter of the sorted input.
  - The filter is proved to keep exactly the selected packages, in sorted order.
- **Release classifiers** (`release.dfy`, module `Release`): `_is_branch_el8`, `_is_module`, and the digit-stripping loop of `_is_rebuild`.
- **Python string operations** (`pystr.dfy`, module `PyStr`), which the above rely on:
  - code-point string order;
  - `rsplit` and `split` with a maximum count;
  - substring search;
  - decimal numerals.

Two functions come from outside the file and are parameters of every operation that uses them:

- `rpmvercmp` is a `Comparator`, a function `(string, string) -> int`.
  - Its algorithm is not part of this model.
  - Where a property needs it to behave like an order, the lemma takes that as a hypothesis: `ReflexiveCmp`, `AntisymmetricCmp` or `TotalPreorderCmp`.
- `fnmatch.fnmatch` is a `Matcher`, a function `(string, string) -> bool`.

Some of the results hold only when epochs are uniform. Packages without an epoch compare equal to packages with any epoch, so `==` is not transitive across a mix of the two; `Package.EqNotTransitiveAcrossEpochKinds` exhibits this. Every transitivity and sortedness result therefore assumes `UniformEpochs`: either all packages carry an epoch, or none does.

## Model

| member | source | states |
|---|---|---|
| Package.NewPkg | spkg.py:10-21 | The given name and version are kept. An omitted release becomes "1" and an omitted arch "src". The epoch is stored exactly when one is given, and it displays as the given string or as "0". |
| Package.NewPkgDefaults | spkg.py:10-21 | A package built with only name and version has release "1", arch "src", no stored epoch and displayed epoch "0". |
| Package.VerCmp | spkg.py:91-101 | The checks run in order and the first non-zero result is returned. A differing epoch comparison is returned when both packages carry an epoch. Otherwise a differing version comparison is returned, and only a version tie leaves the release comparison as the result. The result is 0 exactly when all of these compare 0. |
| Package.VerCmpIgnoresEpochAgainstAbsent | spkg.py:91-101 | If one package has no epoch, the other's epoch (absent or any value) never changes verCMP in either argument order. The result is 0 exactly when version and release compare 0. |
| Package.VerCmpEpochFirst | spkg.py:91-96 | When both epochs are present and differ under rpmvercmp, verCMP is that epoch comparison, whatever the versions are. |
| Package.VerCmpAntisymmetric | spkg.py:91-101 | If rpmvercmp flips sign when its arguments swap, so does verCMP. |
| Package.VerCmpTransitive | spkg.py:91-101 | Suppose rpmvercmp is a total preorder and the epoch kinds agree. Then verCMP is transitive, and it is strictly transitive when either step is strict. |
| Package.VerNe | spkg.py:106-108 | verNE holds exactly when verLT or verGT does. |
| Package.VerLe | spkg.py:112-114 | verLE is verLT or verEQ, and it is the negation of verGT. |
| Package.VerGe | spkg.py:118-120 | verGE is verGT or verEQ, and it is the negation of verLT. |
| Package.VerRelationsConverse | spkg.py:103-120 | Under an antisymmetric rpmvercmp, p verLT o exactly when o verGT p, and verEQ is symmetric. |
| Package.OrderingConsistent | spkg.py:26-65 | `<` and `>` never both hold. `==` excludes both. One of the three always holds. For different names, exactly one of `<` and `>` holds, decided by string order on the names. |
| Package.Ge | spkg.py:67-68 | `p >= o` holds exactly when `p > o` or `p == o`. |
| Package.Le | spkg.py:69-70 | `p <= o` holds exactly when `p < o` or `p == o`. |
| Package.LtIsConverseOfGt | spkg.py:33-65 | Under an antisymmetric rpmvercmp, `p < o` exactly when `o > p`, and `==` is symmetric. |
| Package.LtAsymmetric | spkg.py:50-65 | Under an antisymmetric rpmvercmp, `p < o` and `o < p` never both hold. |
| Package.LtTransitive | spkg.py:50-65 | `<` is transitive when rpmvercmp is a total preorder and the three packages have the same epoch kind. |
| Package.EqNotTransitiveAcrossEpochKinds | spkg.py:26-31 | Take an epoch-less package and two with epochs "1" and "2", all otherwise equal, and a total-preorder comparator. The epoch-less package is `==` to both, and the other two are not `==` to each other. |
| Package.UiEnvr | spkg.py:122-127 | ui_envr equals nvr exactly when the displayed epoch is "0", and otherwise equals envr. |
| Package.UiEnvra | spkg.py:128-133 | ui_envra equals nvra exactly when the displayed epoch is "0", and otherwise equals envra. |
| Package.UiNevr | spkg.py:134-139 | ui_nevr equals nvr exactly when the displayed epoch is "0", and otherwise equals nevr. |
| Package.UiNevra | spkg.py:140-145 | ui_nevra equals nvra exactly when the displayed epoch is "0", and otherwise equals nevra. |
| Package.UiEvr | spkg.py:147-152 | ui_evr equals vr exactly when the displayed epoch is "0", and otherwise equals evr. |
| Package.UiEvra | spkg.py:153-158 | ui_evra equals vra exactly when the displayed epoch is "0", and otherwise equals evra. |
| Package.Str | spkg.py:23-24 | `str(pkg)` is nvra exactly when the displayed epoch is "0", and otherwise it is nevra. |
| Parse.EpochNum2Epoch | spkg.py:201-204 | The result is a canonical integer numeral. It is "0" exactly for None and for 0. |
| Parse.Epoch2EpochNum | spkg.py:205-208 | "0" gives None, and only "0" does. Any other signed decimal literal gives `Some` of its value. Everything else fails with ValueError. |
| Parse.EpochNumRoundTrip | spkg.py:201-208 | Rendering a Koji epoch and parsing it back returns it, except that 0 comes back as None. |
| Parse.EpochRoundTrip | spkg.py:201-208 | Parsing a canonical numeral and rendering it back gives the same string. |
| Parse.Nvr2Pkg | spkg.py:211-213 | The parse fails (ValueError) exactly when the string has fewer than two `-`. On success, the package's nvr is the input, version and release contain no `-`, and arch and epoch come from the call with the constructor defaults. |
| Parse.Nvra2Pkg | spkg.py:215-218 | The parse fails exactly when there is no `.` or the part before the last `.` has fewer than two `-`. On success, nvra is the input and arch has no `.`. The epoch is stored exactly when one is given, and it is the given string. |
| Parse.Nevra2Pkg | spkg.py:220-227 | The parse fails exactly when there are fewer than two `-` or no `.` after the last `-`. On success the epoch is always stored, the epoch contains no `:` and no `-`, and the version contains no `-`, so the name ends at the second-last `-`. The result renders back to the input either as nevra, or as nvra with stored epoch "0". When the input contains no `:`, it is the second case. |
| Parse.SplitEpoch | spkg.py:222-225 | The epoch returned never contains `:`. When the field has a `:`, it is the epoch, a `:` and the version, split at the first `:`. When it has none, the epoch is "0" and the version is the whole field. |
| Parse.Srpm2Pkg | spkg.py:229-232 | A package parsed from the input has no stored epoch. Its nvra, followed by ".rpm" when the input ends in ".rpm", is the input. The parse fails (ValueError) exactly when the input, less one trailing ".rpm", has no `.` or has fewer than two `-` before its last `.`. |
| Parse.NvrRoundTrip | spkg.py:211-213 | If version and release have no `-`, parsing a package's nvr gives back name, version and release, with arch "src" and no epoch. |
| Parse.NvraRoundTrip | spkg.py:215-218 | If version and release have no `-` and arch has no `.`, parsing a package's nvra gives the package back without its epoch. |
| Parse.NevraRoundTrip | spkg.py:220-227 | If the fields contain none of the separators, parsing a package's nevra gives the package back with its displayed epoch stored. An absent epoch becomes "0". |
| Parse.SrpmRoundTrip | spkg.py:229-232 | The file name `<nvra>.rpm` parses to the package without its epoch. |
| Parse.NoHyphensRejected | spkg.py:211-213 | "nohyphens" does not parse as an NVR (ValueError). |
| Newest.ReturnNewestByName | spkg.py:235-259 | The result is the name-keyed fold of the loop body as written, flattened in key order. With single=True it is the corrected fold, flattened. |
| Newest.ReturnNewestByNameArch | spkg.py:261-289 | The result is the (name, arch)-keyed fold of the loop body as written, flattened in key order. With single=True it is the corrected fold, flattened. |
| Newest.ReturnNewestBy | spkg.py:240-258 | The dictionary loop computes the fold of the body as written, one package per iteration, and the flattening loop lists it in key order. With single=True the result is that of the corrected fold. |
| Newest.InsertStep | spkg.py:243-251 | One pass of the loop body, with its `continue`s, leaves the dictionary that the as-written step describes. |
| Newest.FlattenValues | spkg.py:253-258 | The nested loop over `highdict.values()` concatenates the lists in key order. |
| Newest.InsertAsWritten | spkg.py:242-251 | The loop body exactly as written keeps the dictionary well formed: keys are distinct, they are exactly the map's domain, and no list is empty. A new key is appended to the key order, and every other key's list is unchanged. |
| Newest.Insert | spkg.py:242-251 | The corrected body keeps the dictionary well formed. A new key is appended to the key order and an existing key keeps its position. Every other key's list is unchanged. |
| Newest.NewerPackageAppearsTwice | spkg.py:246-251 | With single=False, as written, a package strictly newer than the head leaves its list as [pkg, pkg]. The corrected step leaves [pkg]. |
| Newest.DuplicateExample | spkg.py:235-259 | `returnNewestByName([foo-1-1, foo-2-1], single=False)` as written returns [foo-2-1, foo-2-1]. |
| Newest.FoldAsWrittenNewerSecond | spkg.py:242-251 | As written with single=False, a second package of the same key that is strictly newer than the first leaves it twice under that key. |
| Newest.FoldAsWrittenSingle | spkg.py:242-251 | With single=True the loop as written and the corrected loop build the same dictionary. |
| Newest.FoldAsWrittenShape | spkg.py:240-251 | For any rpmvercmp and mixed epochs, the loop as written has the same keys in the same order as the corrected loop (first-seen order, by Newest.FoldKeys). Each of its lists holds packages of its key from the input, each the head or verEQ to it, and just one when single. |
| Newest.FoldAsWrittenKeys | spkg.py:240-251 | The loop as written adds the same keys, in the same order, as the corrected loop. |
| Newest.FoldAsWrittenGroups | spkg.py:242-251 | Every list of the loop as written is non-empty, holds input packages of its key, each the head or verEQ to it, and one package when single. |
| Newest.AsWrittenRepeatsReplacingHead | spkg.py:242-251 | Under a total-preorder rpmvercmp and uniform epochs, with single=False: the loop as written has the corrected keys. Under each key it holds the packages verEQ to the newest, in input order, and the newest once more in front exactly when it is not the first package of its key. |
| Newest.InsertDiffersOnlyOnDuplicate | spkg.py:242-251 | The corrected step differs from the written one exactly when single is False, the key exists and the package is strictly newer than the head. The default single=True is therefore unaffected. |
| Newest.FoldKeys | spkg.py:242-245 | The dictionary's keys are exactly the keys occurring in the input. They are ordered by first occurrence. |
| Newest.FoldGroups | spkg.py:242-251 | Every list is nonempty. All its packages come from the input and have its key. Each is the head or verEQ to it. With single=True the list has one element. |
| Newest.FoldHeadsIgnoreSingle | spkg.py:246-251 | Whatever the value of single, the fold produces the same key order and the same list heads. |
| Newest.FoldHeadIsNewest | spkg.py:246-249 | Under a total-preorder rpmvercmp and uniform epochs, each head is the earliest package of its key that no other package of that key exceeds. It is also strictly newer than every package of that key before it, so ties keep the earliest. |
| Newest.HeadIsMax | spkg.py:246-249 | Under a reflexive rpmvercmp, no package of the key compares above the head. |
| Newest.FoldCollectsTies | spkg.py:246-251 | Under a total-preorder rpmvercmp and uniform epochs, with single=False, each list is exactly the packages of its key that are verEQ to the newest, in input order. Older ones are dropped and none is repeated. |
| Newest.SingleSelection | spkg.py:235-259 | With single=True the output has one package per distinct key, each taken from the input with that key, in first-seen key order. The package for each key is the head of that key's list, which Newest.FoldHeadIsNewest characterises as the newest. Every key of the input is represented. |
| Newest.NewestByNameExample | spkg.py:235-259 | foo-1-1.i686 and foo-2-1.noarch by name (single=True) give [foo-2-1.noarch]. |
| Match.InsertPkg | spkg.py:294 | Inserting into the sorted prefix adds exactly the one element (a multiset equality). |
| Match.SortPkgs | spkg.py:294 | `sorted(bpkgs)` is a permutation of its input. |
| Match.InsertPkgSorted | spkg.py:294 | Under a total-preorder rpmvercmp and uniform epochs, inserting into a sorted list keeps it sorted. |
| Match.SortPkgsSorted | spkg.py:294 | Under a total-preorder rpmvercmp and uniform epochs, `sorted(bpkgs)` has no later element `<` an earlier one. |
| Match.MatchPkgs | spkg.py:292-312 | Keeps exactly the selected packages of sorted(bpkgs), in sorted order. |
| Match.IsSelected | spkg.py:294-308 | For one package, `found` ends true exactly when there are no arguments, or some argument equals its name, nv, nvr or nvra, or some argument matches one of those four as a glob. |
| Match.FilterCount | spkg.py:292-312 | A selected package occurs in the result as often as in the input. An unselected one does not occur. |
| Match.FilterSorted | spkg.py:294-311 | Filtering a sorted list leaves it sorted. |
| Match.MatchPkgsResult | spkg.py:292-312 | Under a total-preorder rpmvercmp and uniform epochs, the result is sorted. It holds each selected input package with its multiplicity and nothing else. |
| Match.NoArgsKeepsAll | spkg.py:296 | With no arguments every package is kept. |
| Match.SelectedByExactName | spkg.py:298-301 | A package is kept when an argument equals its name, nv, nvr or nvra. |
| Match.SelectedByPattern | spkg.py:302-308 | Suppose there are arguments and none matches exactly. A package is then kept exactly when fnmatch accepts one of its four forms against some argument. |
| Match.ExactHitSnoc | spkg.py:297-301 | Adding an argument adds an exact hit exactly when that argument is one of the four forms. |
| Match.GlobHitSnoc | spkg.py:302-308 | Adding an argument adds a glob hit exactly when fnmatch accepts one of the four forms against it. |
| Release.IsBranchEl8 | spkg.py:315-317 | True exactly when "el8_" occurs somewhere in the release. |
| Release.IsModule | spkg.py:319-321 | True exactly when ".module+" occurs somewhere in the release. |
| Release.IsRebuild | spkg.py:323-333 | An empty release fails (IndexError). Otherwise the result is True exactly when the release ends in one or more digits directly preceded by `+`. |
| Release.BranchExample | spkg.py:315-317 | Release "2.el8_3" is a branch build. |
| Release.ModuleExample | spkg.py:319-321 | Release "2.module+el8.1.0+2940+f62455ee" is a module build and not a rebuild. |
| Release.RebuildExample | spkg.py:323-333 | Release "2.el8+4" is a rebuild and neither a branch nor a module build. |

## Left out

- The `rpmvercmp` algorithm is imported from a module that is not part of this model. It is a parameter, and its order properties appear only as lemma hypotheses.
- The glob language of `fnmatch.fnmatch` is library code. It is a parameter. Only the order of the calls and how their answers are combined is modelled.
- `sorted(args)` (spkg.py:297, 302) is iterated in the order given. Whether a package is kept depends only on whether some argument hits, so the order of the arguments cannot change the result.
- `sorted(bpkgs)` is Python's Timsort. It is modelled as an insertion sort under the `__lt__` of `Pkg`. The model proves that the result is a permutation of the input, and under a total-preorder rpmvercmp with uniform epochs that it is sorted. It does not prove that packages neither `<` the other keep the relative order Timsort gives them.
- Parse.Epoch2EpochNum: `int()` also accepts surrounding whitespace, `_` digit separators and non-ASCII digits. The model accepts only an optional sign followed by ASCII digits, and treats any other string as ValueError.
- The `str()` coercions in the constructor and in the epoch setter (spkg.py:11-18, 88) are not modelled: every field is already a string.
- Python exceptions are modelled as `Err(ValueError)` or `Err(IndexError)` results, not as raised exceptions.
- The worked example in the docstring of `returnNewestByNameArch` (spkg.py:266-267) is not restated as a lemma. It takes three packages, and the general lemmas (Newest.FoldCollectsTies, Newest.FoldHeadIsNewest) cover it. Newest.NewestByNameExample states the two-package case for `returnNewestByName`.
- Python dict iteration order is modelled as insertion order, with a reassigned key keeping its place.
- `Pkg.__init__` accepts empty fields, and so does `Package.NewPkg`.
- `match_pkgs` returns its result in `Pkg` order, because it iterates `sorted(bpkgs)` (spkg.py:294).

## Findings

| source | as written | input that shows it | evidently intended | confidence | as-written member | corrected member |
|---|---|---|---|---|---|---|
| spkg.py:247-251, 277-281 | With `single=False`, a package strictly newer than the list head first replaces the list with `[pkg]`. It then falls through to the append, because `verLT` against the old head is false. | `returnNewestByName([foo-1-1, foo-2-1], single=False)` returns `[foo-2-1, foo-2-1]` | The newer package starts a fresh list once. Only packages tied with the head are appended, so every list holds each tied package once. | not executed | Newest.InsertAsWritten, run by Newest.ReturnNewestBy (Newest.NewerPackageAppearsTwice, Newest.DuplicateExample, Newest.AsWrittenRepeatsReplacingHead) | Newest.Insert (Newest.FoldCollectsTies, Newest.InsertDiffersOnlyOnDuplicate, Newest.FoldAsWrittenSingle) |
