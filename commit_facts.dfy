/**
 * What one commit does to the accumulator, stated against reference
 * definitions that do not follow the loop: the filtered deltas, their
 * components and languages, and first occurrences.
 */
module CommitFacts {
  import opened Wrappers
  import opened Git
  import opened Changes
  import opened CommitFold
  import Classifier

  /** The deltas the path filter lets through, in diff order. */
  function ConsideredDeltas(ds: seq<FileDelta>): (r: seq<FileDelta>)
    ensures |r| <= |ds|
  {
    if ds == [] then []
    else (if Considered(ds[0].newPath) then [ds[0]] else []) + ConsideredDeltas(ds[1..])
  }

  /** The component of each delta, in order. */
  function ComponentsOf(ds: seq<FileDelta>): (r: seq<string>)
    ensures |r| == |ds|
  {
    if ds == [] then [] else [ComponentOf(ds[0].newPath)] + ComponentsOf(ds[1..])
  }

  /** The language of each delta, in order. */
  function LanguagesOf(ds: seq<FileDelta>): (r: seq<string>)
    ensures |r| == |ds|
  {
    if ds == [] then [] else [LanguageOf(ds[0].newPath)] + LanguagesOf(ds[1..])
  }

  /** A delta survives the path filter exactly when it is in the diff and its path is considered. */
  lemma {:induction false} ConsideredDeltasMembers(ds: seq<FileDelta>, d: FileDelta)
    ensures d in ConsideredDeltas(ds) <==> d in ds && Considered(d.newPath)
  {
    if ds != [] {
      ConsideredDeltasMembers(ds[1..], d);
      assert ds == [ds[0]] + ds[1..];
    }
  }

  /** The language at position `i` is the language of the `i`-th delta's path. */
  lemma {:induction false} LanguagesOfAt(ds: seq<FileDelta>, i: nat)
    requires i < |ds|
    ensures LanguagesOf(ds)[i] == LanguageOf(ds[i].newPath)
  {
    if i > 0 {
      LanguagesOfAt(ds[1..], i - 1);
    }
  }

  /** The component at position `i` is the component of the `i`-th delta's path. */
  lemma {:induction false} ComponentsOfAt(ds: seq<FileDelta>, i: nat)
    requires i < |ds|
    ensures ComponentsOf(ds)[i] == ComponentOf(ds[i].newPath)
  {
    if i > 0 {
      ComponentsOfAt(ds[1..], i - 1);
    }
  }

  /** The allow-listed languages among `xs`, in order. */
  function InterestingOnly(xs: seq<string>): seq<string> {
    if xs == [] then []
    else (if xs[0] in Classifier.InterestingLangs then [xs[0]] else []) + InterestingOnly(xs[1..])
  }

  /** The first occurrence of each element of `xs` that is not in `seen`, in order. */
  function Distinct(xs: seq<string>, seen: set<string>): seq<string> {
    if xs == [] then []
    else if xs[0] in seen then Distinct(xs[1..], seen)
    else [xs[0]] + Distinct(xs[1..], seen + {xs[0]})
  }

  /** The considered deltas that are the first of their component (ignoring components in `seen`). */
  function FirstDeltas(ds: seq<FileDelta>, seen: set<string>): seq<FileDelta> {
    if ds == [] then []
    else if !Considered(ds[0].newPath) || ComponentOf(ds[0].newPath) in seen then FirstDeltas(ds[1..], seen)
    else [ds[0]] + FirstDeltas(ds[1..], seen + {ComponentOf(ds[0].newPath)})
  }

  function Is(status: Delta, kind: Delta): nat {
    if status == kind then 1 else 0
  }

  /** How many of the deltas have change kind `kind`. */
  function StatusCount(fs: seq<FileDelta>, kind: Delta): nat {
    if fs == [] then 0 else Is(fs[0].status, kind) + StatusCount(fs[1..], kind)
  }

  /** The added, deleted and modified counts of `fs` on top of the counters of `l`. */
  function CountersAfter(l: Locals, fs: seq<FileDelta>): CommitChanges {
    New(l.added + StatusCount(fs, Added), l.deleted + StatusCount(fs, Deleted), l.modified + StatusCount(fs, Modified))
  }

  predicate NoDuplicates(xs: seq<string>) {
    forall i, j | 0 <= i < j < |xs| :: xs[i] != xs[j]
  }

  /**
   * `Distinct` keeps exactly the elements not already seen, each once: every
   * kept element occurs once in the result and an unkept one not at all.
   */
  lemma {:induction false} DistinctFacts(xs: seq<string>, seen: set<string>)
    ensures forall x :: x in Distinct(xs, seen) <==> x in xs && x !in seen
    ensures forall x :: multiset(Distinct(xs, seen))[x] == if x in xs && x !in seen then 1 else 0
    ensures NoDuplicates(Distinct(xs, seen))
    decreases |xs|
  {
    if xs != [] {
      var x0 := xs[0];
      if x0 in seen {
        DistinctFacts(xs[1..], seen);
        forall x ensures x in xs <==> x == x0 || x in xs[1..] {
          assert xs == [x0] + xs[1..];
        }
      } else {
        var rest := Distinct(xs[1..], seen + {x0});
        DistinctFacts(xs[1..], seen + {x0});
        assert Distinct(xs, seen) == [x0] + rest;
        forall x ensures x in xs <==> x == x0 || x in xs[1..] {
          assert xs == [x0] + xs[1..];
        }
        assert multiset([x0] + rest) == multiset{x0} + multiset(rest);
        forall i, j | 0 <= i < j < |[x0] + rest| ensures ([x0] + rest)[i] != ([x0] + rest)[j] {
          if i == 0 {
            assert ([x0] + rest)[j] == rest[j - 1];
          }
        }
      }
    }
  }

  /** The components of the first deltas are the distinct components of the considered deltas. */
  lemma {:induction false} FirstDeltasComponents(ds: seq<FileDelta>, seen: set<string>)
    ensures ComponentsOf(FirstDeltas(ds, seen)) == Distinct(ComponentsOf(ConsideredDeltas(ds)), seen)
    decreases |ds|
  {
    if ds != [] {
      var d := ds[0];
      var rest := ConsideredDeltas(ds[1..]);
      if Considered(d.newPath) {
        assert ConsideredDeltas(ds) == [d] + rest;
        assert ComponentsOf([d] + rest) == [ComponentOf(d.newPath)] + ComponentsOf(rest);
        if ComponentOf(d.newPath) in seen {
          FirstDeltasComponents(ds[1..], seen);
        } else {
          FirstDeltasComponents(ds[1..], seen + {ComponentOf(d.newPath)});
          assert ComponentsOf(FirstDeltas(ds, seen)) ==
            [ComponentOf(d.newPath)] + ComponentsOf(FirstDeltas(ds[1..], seen + {ComponentOf(d.newPath)}));
        }
      } else {
        assert ConsideredDeltas(ds) == rest;
        FirstDeltasComponents(ds[1..], seen);
      }
    }
  }

  /** One delta's effect on the language list and the local language set. */
  lemma DeltaStepLanguage(t: Tally, l: Locals, d: FileDelta)
    ensures var next := DeltaStep(t, l, d);
            var x := LanguageOf(d.newPath);
            var noted := Considered(d.newPath) && x in Classifier.InterestingLangs;
            && next.0.langNameOccurrences ==
                 t.langNameOccurrences + (if noted && x !in l.localLangs then [x] else [])
            && next.1.localLangs == l.localLangs + (if noted then {x} else {})
  {
    var x := LanguageOf(d.newPath);
    if Considered(d.newPath) && x in Classifier.InterestingLangs && x in l.localLangs {
      assert l.localLangs + {x} == l.localLangs;
    }
  }

  /** One delta's effect on the component list, the change map and the per-commit counters. */
  lemma DeltaStepComponent(t: Tally, l: Locals, d: FileDelta)
    ensures var next := DeltaStep(t, l, d);
            var c := ComponentOf(d.newPath);
            if Considered(d.newPath) && c !in l.localComps then
              && next.1.localComps == l.localComps + {c}
              && next.1.added == l.added + Is(d.status, Added)
              && next.1.deleted == l.deleted + Is(d.status, Deleted)
              && next.1.modified == l.modified + Is(d.status, Modified)
              && next.0.changesByComponent ==
                   AddAssignAt(t.changesByComponent, c, New(next.1.added, next.1.deleted, next.1.modified))
              && next.0.componentNameOccurrences == t.componentNameOccurrences + [c]
            else
              && next.1.localComps == l.localComps
              && next.1.added == l.added && next.1.deleted == l.deleted && next.1.modified == l.modified
              && next.0.changesByComponent == t.changesByComponent
              && next.0.componentNameOccurrences == t.componentNameOccurrences
  {
  }

  /** The reference language list, one delta at a time. */
  lemma LanguagesUnfold(ds: seq<FileDelta>)
    requires ds != []
    ensures var x := LanguageOf(ds[0].newPath);
            InterestingOnly(LanguagesOf(ConsideredDeltas(ds))) ==
              (if Considered(ds[0].newPath) && x in Classifier.InterestingLangs then [x] else [])
              + InterestingOnly(LanguagesOf(ConsideredDeltas(ds[1..])))
  {
    var d := ds[0];
    var x := LanguageOf(d.newPath);
    var rest := ConsideredDeltas(ds[1..]);
    if Considered(d.newPath) {
      assert ConsideredDeltas(ds) == [d] + rest;
      assert LanguagesOf([d] + rest) == [x] + LanguagesOf(rest);
      assert ([x] + LanguagesOf(rest))[1..] == LanguagesOf(rest);
    } else {
      assert ConsideredDeltas(ds) == rest;
    }
  }

  /** Each considered delta adds one to `num_file_changes`; nothing else does. */
  lemma {:induction false} ScanFileChanges(t: Tally, l: Locals, ds: seq<FileDelta>)
    ensures ScanDeltas(t, l, ds).0.numFileChanges == t.numFileChanges + |ConsideredDeltas(ds)|
    decreases |ds|
  {
    if ds != [] {
      var next := DeltaStep(t, l, ds[0]);
      ScanFileChanges(next.0, next.1, ds[1..]);
    }
  }

  /**
   * The languages a commit appends are its allow-listed languages, each once,
   * in first-seen order, leaving out those already in the local set.
   */
  lemma {:induction false} ScanLanguages(t: Tally, l: Locals, ds: seq<FileDelta>)
    ensures ScanDeltas(t, l, ds).0.langNameOccurrences ==
      t.langNameOccurrences + Distinct(InterestingOnly(LanguagesOf(ConsideredDeltas(ds))), l.localLangs)
    decreases |ds|
  {
    if ds != [] {
      var d := ds[0];
      var next := DeltaStep(t, l, d);
      ScanLanguages(next.0, next.1, ds[1..]);
      DeltaStepLanguage(t, l, d);
      LanguagesUnfold(ds);
      var x := LanguageOf(d.newPath);
      var rest := InterestingOnly(LanguagesOf(ConsideredDeltas(ds[1..])));
      if Considered(d.newPath) && x in Classifier.InterestingLangs {
        assert ([x] + rest)[0] == x && ([x] + rest)[1..] == rest;
      } else {
        assert [] + rest == rest;
      }
    }
  }

  /** The components a commit appends are those of its first deltas. */
  lemma {:induction false} ScanComponents(t: Tally, l: Locals, ds: seq<FileDelta>)
    ensures ScanDeltas(t, l, ds).0.componentNameOccurrences ==
      t.componentNameOccurrences + ComponentsOf(FirstDeltas(ds, l.localComps))
    decreases |ds|
  {
    if ds != [] {
      var d := ds[0];
      var next := DeltaStep(t, l, d);
      ScanComponents(next.0, next.1, ds[1..]);
      DeltaStepComponent(t, l, d);
      if Considered(d.newPath) && ComponentOf(d.newPath) !in l.localComps {
        assert ComponentsOf(FirstDeltas(ds, l.localComps)) ==
          [ComponentOf(d.newPath)] + ComponentsOf(FirstDeltas(ds[1..], l.localComps + {ComponentOf(d.newPath)}));
      }
    }
  }

  /** The components of the first deltas are all new. */
  lemma FirstDeltasAreNew(ds: seq<FileDelta>, seen: set<string>, c: string)
    requires c in ComponentsOf(FirstDeltas(ds, seen))
    ensures c !in seen
  {
    FirstDeltasComponents(ds, seen);
    DistinctFacts(ComponentsOf(ConsideredDeltas(ds)), seen);
  }

  /** A component with no first delta in the commit keeps its entry (or its absence). */
  lemma {:induction false} ScanChangesUntouched(t: Tally, l: Locals, ds: seq<FileDelta>, c: string)
    requires c !in ComponentsOf(FirstDeltas(ds, l.localComps))
    ensures var m := ScanDeltas(t, l, ds).0.changesByComponent;
      (c in m <==> c in t.changesByComponent) && (c in m ==> m[c] == t.changesByComponent[c])
    decreases |ds|
  {
    if ds != [] {
      var d := ds[0];
      var next := DeltaStep(t, l, d);
      DeltaStepComponent(t, l, d);
      if Considered(d.newPath) && ComponentOf(d.newPath) !in l.localComps {
        var seen' := l.localComps + {ComponentOf(d.newPath)};
        assert ComponentsOf(FirstDeltas(ds, l.localComps)) ==
          [ComponentOf(d.newPath)] + ComponentsOf(FirstDeltas(ds[1..], seen'));
      }
      ScanChangesUntouched(next.0, next.1, ds[1..], c);
    }
  }

  /**
   * The entry of the component of the `k`-th first delta grows by one `+=`
   * whose operand counts, on top of the starting counters, the added, deleted
   * and modified kinds among the first `k + 1` first deltas: the counters keep
   * growing across the components of a commit.
   */
  lemma {:induction false} ScanChangesFirst(t: Tally, l: Locals, ds: seq<FileDelta>, k: nat)
    requires k < |FirstDeltas(ds, l.localComps)|
    ensures var fs := FirstDeltas(ds, l.localComps);
            var c := ComponentOf(fs[k].newPath);
            var m := ScanDeltas(t, l, ds).0.changesByComponent;
            c in m && m[c] == EntryOrEmpty(t.changesByComponent, c).Add(CountersAfter(l, fs[..k + 1]))
    decreases |ds|, 1
  {
    var d := ds[0];
    if Considered(d.newPath) && ComponentOf(d.newPath) !in l.localComps {
      if k == 0 {
        ScanChangesHead(t, l, ds);
      } else {
        ScanChangesLater(t, l, ds, k);
      }
    } else {
      var next := DeltaStep(t, l, d);
      DeltaStepComponent(t, l, d);
      assert FirstDeltas(ds, l.localComps) == FirstDeltas(ds[1..], next.1.localComps);
      ScanChangesFirst(next.0, next.1, ds[1..], k);
    }
  }

  /** The first delta of a new component: its entry grows by the counters after that delta. */
  lemma ScanChangesHead(t: Tally, l: Locals, ds: seq<FileDelta>)
    requires ds != [] && Considered(ds[0].newPath) && ComponentOf(ds[0].newPath) !in l.localComps
    ensures var c := ComponentOf(ds[0].newPath);
            var m := ScanDeltas(t, l, ds).0.changesByComponent;
            c in m && m[c] == EntryOrEmpty(t.changesByComponent, c).Add(CountersAfter(l, [ds[0]]))
  {
    var d := ds[0];
    var comp := ComponentOf(d.newPath);
    var next := DeltaStep(t, l, d);
    DeltaStepComponent(t, l, d);
    var seen' := l.localComps + {comp};
    FirstDeltasComponentsNotSeen(ds[1..], seen', comp);
    ScanChangesUntouched(next.0, next.1, ds[1..], comp);
    assert StatusCount([d], Added) == Is(d.status, Added);
    assert StatusCount([d], Deleted) == Is(d.status, Deleted);
    assert StatusCount([d], Modified) == Is(d.status, Modified);
  }

  /** A later first delta: the counters carried in include the head delta's kind. */
  lemma {:induction false} ScanChangesLater(t: Tally, l: Locals, ds: seq<FileDelta>, k: nat)
    requires ds != [] && Considered(ds[0].newPath) && ComponentOf(ds[0].newPath) !in l.localComps
    requires 0 < k < |FirstDeltas(ds, l.localComps)|
    ensures var fs := FirstDeltas(ds, l.localComps);
            var c := ComponentOf(fs[k].newPath);
            var m := ScanDeltas(t, l, ds).0.changesByComponent;
            c in m && m[c] == EntryOrEmpty(t.changesByComponent, c).Add(CountersAfter(l, fs[..k + 1]))
    decreases |ds|, 0
  {
    var d := ds[0];
    var comp := ComponentOf(d.newPath);
    var next := DeltaStep(t, l, d);
    DeltaStepComponent(t, l, d);
    var seen' := l.localComps + {comp};
    var fs := FirstDeltas(ds, l.localComps);
    var rest := FirstDeltas(ds[1..], seen');
    assert fs == [d] + rest;
    assert ScanDeltas(t, l, ds) == ScanDeltas(next.0, next.1, ds[1..]);
    ScanChangesFirst(next.0, next.1, ds[1..], k - 1);
    var c := ComponentOf(rest[k - 1].newPath);
    assert fs[k] == rest[k - 1];
    ComponentsOfAt(rest, k - 1);
    FirstDeltasAreNew(ds[1..], seen', c);
    assert c != comp;
    assert EntryOrEmpty(next.0.changesByComponent, c) == EntryOrEmpty(t.changesByComponent, c);
    assert fs[..k + 1] == [d] + rest[..k];
    CountersAfterCons(l, d, rest[..k]);
    assert CountersAfter(next.1, rest[..k]) == CountersAfter(l, fs[..k + 1]);
  }

  /** The counters after `[d] + fs` are those after `fs` starting from the counters bumped by `d`. */
  lemma CountersAfterCons(l: Locals, d: FileDelta, fs: seq<FileDelta>)
    ensures CountersAfter(l, [d] + fs) ==
      CountersAfter(l.(added := l.added + Is(d.status, Added), deleted := l.deleted + Is(d.status, Deleted),
                       modified := l.modified + Is(d.status, Modified)), fs)
  {
    assert ([d] + fs)[1..] == fs;
  }

  /** A component in `seen` is not among the components of the first deltas. */
  lemma FirstDeltasComponentsNotSeen(ds: seq<FileDelta>, seen: set<string>, c: string)
    requires c in seen
    ensures c !in ComponentsOf(FirstDeltas(ds, seen))
  {
    if c in ComponentsOf(FirstDeltas(ds, seen)) {
      FirstDeltasAreNew(ds, seen, c);
    }
  }

  /** The first deltas up to and including the first one of component `comp` (all of them when there is none). */
  function UpTo(fs: seq<FileDelta>, comp: string): seq<FileDelta> {
    if fs == [] then []
    else if ComponentOf(fs[0].newPath) == comp then [fs[0]]
    else [fs[0]] + UpTo(fs[1..], comp)
  }

  /** `UpTo` stops at the first delta of the component. */
  lemma {:induction false} UpToAt(fs: seq<FileDelta>, comp: string, k: nat)
    requires k < |fs| && ComponentOf(fs[k].newPath) == comp
    requires forall j | 0 <= j < k :: ComponentOf(fs[j].newPath) != comp
    ensures UpTo(fs, comp) == fs[..k + 1]
  {
    if k > 0 {
      UpToAt(fs[1..], comp, k - 1);
      assert fs[..k + 1] == [fs[0]] + fs[1..][..k];
    }
  }

  /**
   * The change map after a commit's deltas: a component the commit touches
   * has its entry (or the empty counter) grown by one `+=` of the per-commit
   * counters as they stood after its first delta; any other entry is kept.
   */
  lemma ScanChanges(t: Tally, l: Locals, ds: seq<FileDelta>, comp: string)
    ensures var fs := FirstDeltas(ds, l.localComps);
            var m := ScanDeltas(t, l, ds).0.changesByComponent;
            if comp in ComponentsOf(fs) then
              comp in m && m[comp] == EntryOrEmpty(t.changesByComponent, comp).Add(CountersAfter(l, UpTo(fs, comp)))
            else
              (comp in m <==> comp in t.changesByComponent) && (comp in m ==> m[comp] == t.changesByComponent[comp])
  {
    var fs := FirstDeltas(ds, l.localComps);
    var cs := ComponentsOf(fs);
    if comp in cs {
      var k :| 0 <= k < |cs| && cs[k] == comp;
      FirstDeltasComponents(ds, l.localComps);
      DistinctFacts(ComponentsOf(ConsideredDeltas(ds)), l.localComps);
      assert NoDuplicates(cs);
      ComponentsOfAt(fs, k);
      forall j | 0 <= j < k ensures ComponentOf(fs[j].newPath) != comp {
        ComponentsOfAt(fs, j);
      }
      UpToAt(fs, comp, k);
      ScanChangesFirst(t, l, ds, k);
    } else {
      ScanChangesUntouched(t, l, ds, comp);
    }
  }
}
