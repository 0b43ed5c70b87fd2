/**
 * The staging plan of a packing run, as a specification.
 *
 * Each selected mod is visited in order; within a mod the patch map's keys
 * are visited in the map's order and then root. A visit to a subfolder that
 * holds files stages it into the working copy of its target patch: the first
 * visit to a patch seeds the working copy from the base patch (and aborts the
 * run when there is none), every visit then overlays the subfolder on it.
 */
module Staging {
  import opened Languages
  import opened PatchMap

  /** A mod directory: the subfolders that exist and those that hold files. */
  datatype ModFolder = ModFolder(subfolders: set<Subfolder>, nonEmpty: set<Subfolder>)

  /** A new mod: every subfolder of the layout, all empty. */
  const NewMod: ModFolder := ModFolder(set f | f in ModLayout, {})

  /** The directory Mods/m/f exists and is not empty (a missing mod has no content). */
  predicate HasContent(mods: map<string, ModFolder>, m: string, f: Subfolder) {
    m in mods && f in mods[m].subfolders && f in mods[m].nonEmpty
  }

  /** Within one mod: the patch map's keys in order, then root. */
  const VisitOrder: seq<Subfolder> := MapOrder + [Root]

  lemma VisitOrderIsEverySubfolderOnce()
    ensures forall f: Subfolder :: f in VisitOrder
    ensures forall i, j :: 0 <= i < j < |VisitOrder| ==> VisitOrder[i] != VisitOrder[j]
  {
    forall f: Subfolder ensures f in VisitOrder {
      match f
      case Lua => assert VisitOrder[0] == f;
      case Images => assert VisitOrder[1] == f;
      case Data => assert VisitOrder[2] == f;
      case Text => assert VisitOrder[3] == f;
      case Message => assert VisitOrder[4] == f;
      case Root => assert VisitOrder[5] == f;
    }
  }

  /** One subfolder of one mod that holds files. */
  datatype Visit = Visit(mod: string, folder: Subfolder)

  /** The visits of mod m over the subfolders fs, in order. */
  function ModVisits(mods: map<string, ModFolder>, m: string, fs: seq<Subfolder>): seq<Visit> {
    if fs == [] then []
    else
      var f := fs[|fs| - 1];
      ModVisits(mods, m, fs[..|fs| - 1]) + (if HasContent(mods, m, f) then [Visit(m, f)] else [])
  }

  /** The visits of a packing run over the selected mods, in order. */
  function Visits(mods: map<string, ModFolder>, selected: seq<string>): seq<Visit> {
    if selected == [] then []
    else Visits(mods, selected[..|selected| - 1]) + ModVisits(mods, selected[|selected| - 1], VisitOrder)
  }

  /** One layer of a patch working copy. */
  datatype Layer =
    | Seed(patch: string)                    // copy of Extracted_Patches/<patch>
    | Overlay(mod: string, folder: Subfolder) // Mods/<mod>/<folder> merged over it

  /**
   * The staging state: the modified patches in insertion order, and the
   * working copy of each, as its layers.
   */
  datatype Plan = Plan(order: seq<string>, copies: map<string, seq<Layer>>)

  datatype StageResult = Staged(plan: Plan) | MissingBase(patch: string)

  const Empty: StageResult := Staged(Plan([], map[]))

  /** Stage one visit; bases is the set of patches under Extracted_Patches. */
  function Step(r: StageResult, v: Visit, l: Language, bases: set<string>): StageResult {
    match r
    case MissingBase(_) => r
    case Staged(plan) =>
      var p := Target(l, v.folder);
      if p in plan.copies then
        Staged(Plan(plan.order, plan.copies[p := plan.copies[p] + [Overlay(v.mod, v.folder)]]))
      else if p !in bases then
        MissingBase(p)
      else
        Staged(Plan(plan.order + [p], plan.copies[p := [Seed(p), Overlay(v.mod, v.folder)]]))
  }

  /** Stage a list of visits, from an empty temporary directory. */
  function Stage(vs: seq<Visit>, l: Language, bases: set<string>): StageResult {
    if vs == [] then Empty else Step(Stage(vs[..|vs| - 1], l, bases), vs[|vs| - 1], l, bases)
  }

  // ---------------------------------------------------------------------
  // An independent description of the outcome.

  /** The target patch of each visit. */
  function Targets(vs: seq<Visit>, l: Language): (r: seq<string>)
    ensures |r| == |vs|
    ensures forall i :: 0 <= i < |vs| ==> r[i] == Target(l, vs[i].folder)
  {
    seq(|vs|, i requires 0 <= i < |vs| => Target(l, vs[i].folder))
  }

  /** The elements of s, each at its first occurrence. */
  function Dedup(s: seq<string>): (r: seq<string>)
    ensures forall x :: x in r <==> x in s
    ensures forall i, j :: 0 <= i < j < |r| ==> r[i] != r[j]
  {
    if s == [] then []
    else
      var d := Dedup(s[..|s| - 1]);
      if s[|s| - 1] in d then d else d + [s[|s| - 1]]
  }

  /** In s, x first appears before y does. */
  predicate UsedBefore(s: seq<string>, x: string, y: string) {
    exists a :: 0 <= a < |s| && s[a] == x && y !in s[..a + 1]
  }

  lemma UsedBeforeExtends(s: seq<string>, t: seq<string>, x: string, y: string)
    requires UsedBefore(s, x, y)
    ensures UsedBefore(s + t, x, y)
  {
    var a :| 0 <= a < |s| && s[a] == x && y !in s[..a + 1];
    assert (s + t)[..a + 1] == s[..a + 1];
  }

  /** Dedup keeps the patches in the order of their first appearance. */
  lemma {:induction false} DedupFirstUse(s: seq<string>)
    ensures forall i, j :: 0 <= i < j < |Dedup(s)| ==> UsedBefore(s, Dedup(s)[i], Dedup(s)[j])
  {
    if s != [] {
      var pre, last := s[..|s| - 1], s[|s| - 1];
      var d := Dedup(pre);
      DedupFirstUse(pre);
      assert s == pre + [last];
      forall i, j | 0 <= i < j < |Dedup(s)|
        ensures UsedBefore(s, Dedup(s)[i], Dedup(s)[j])
      {
        if j < |d| {
          UsedBeforeExtends(pre, [last], d[i], d[j]);
        } else {
          assert Dedup(s) == d + [last] && last !in pre;
          assert d[i] in d;
          var a :| 0 <= a < |pre| && pre[a] == d[i];
          assert s[..a + 1] == pre[..a + 1];
        }
      }
    }
  }

  /** The overlays, in visit order, of the visits that target p. */
  function OverlaysFor(vs: seq<Visit>, l: Language, p: string): seq<Layer> {
    if vs == [] then []
    else
      var v := vs[|vs| - 1];
      OverlaysFor(vs[..|vs| - 1], l, p) + (if Target(l, v.folder) == p then [Overlay(v.mod, v.folder)] else [])
  }

  lemma {:induction false} OverlaysForContents(vs: seq<Visit>, l: Language, p: string)
    ensures forall x :: x in OverlaysFor(vs, l, p) ==> x.Overlay?
    ensures forall m, f :: Overlay(m, f) in OverlaysFor(vs, l, p) <==> Visit(m, f) in vs && Target(l, f) == p
  {
    if vs != [] {
      var pre := vs[..|vs| - 1];
      OverlaysForContents(pre, l, p);
      assert vs == pre + [vs[|vs| - 1]];
    }
  }

  /** Every visit targets a patch that has a base. */
  predicate AllBased(vs: seq<Visit>, l: Language, bases: set<string>) {
    forall i :: 0 <= i < |vs| ==> Target(l, vs[i].folder) in bases
  }

  /** A patch with no base is targeted by no visit before the last one. */
  lemma AllBasedPrefix(vs: seq<Visit>, l: Language, bases: set<string>)
    requires vs != []
    ensures AllBased(vs, l, bases) <==>
              AllBased(vs[..|vs| - 1], l, bases) && Target(l, vs[|vs| - 1].folder) in bases
  {
    var pre, last := vs[..|vs| - 1], vs[|vs| - 1];
    if AllBased(vs, l, bases) {
      forall i | 0 <= i < |pre| ensures Target(l, pre[i].folder) in bases {
        assert pre[i] == vs[i];
      }
    }
    if AllBased(pre, l, bases) && Target(l, last.folder) in bases {
      forall i | 0 <= i < |vs| ensures Target(l, vs[i].folder) in bases {
        if i < |pre| {
          assert vs[i] == pre[i];
        }
      }
    }
  }

  lemma TargetsPrefix(vs: seq<Visit>, l: Language)
    requires vs != []
    ensures Targets(vs, l)[..|vs| - 1] == Targets(vs[..|vs| - 1], l)
    ensures Targets(vs, l) == Targets(vs[..|vs| - 1], l) + [Target(l, vs[|vs| - 1].folder)]
  {
  }

  /** A staged plan has one working copy per target, in first-use order, all with bases. */
  lemma {:induction false} StagedKeys(vs: seq<Visit>, l: Language, bases: set<string>)
    ensures Stage(vs, l, bases).Staged? ==>
              && AllBased(vs, l, bases)
              && Stage(vs, l, bases).plan.order == Dedup(Targets(vs, l))
              && forall p :: p in Stage(vs, l, bases).plan.copies <==> p in Targets(vs, l)
  {
    if vs != [] {
      var pre, v := vs[..|vs| - 1], vs[|vs| - 1];
      StagedKeys(pre, l, bases);
      TargetsPrefix(vs, l);
      AllBasedPrefix(vs, l, bases);
    }
  }

  /** The run aborts exactly when some visit targets a patch with no base, on the first such patch. */
  lemma {:induction false} StageMissing(vs: seq<Visit>, l: Language, bases: set<string>)
    ensures Stage(vs, l, bases).MissingBase? <==> !AllBased(vs, l, bases)
    ensures Stage(vs, l, bases).MissingBase? ==>
              exists i :: 0 <= i < |vs| && Target(l, vs[i].folder) == Stage(vs, l, bases).patch &&
                Stage(vs, l, bases).patch !in bases &&
                AllBased(vs[..i], l, bases)
  {
    if vs != [] {
      var pre, v := vs[..|vs| - 1], vs[|vs| - 1];
      StageMissing(pre, l, bases);
      StagedKeys(pre, l, bases);
      TargetsPrefix(vs, l);
      AllBasedPrefix(vs, l, bases);
      if Stage(pre, l, bases).MissingBase? {
        var i :| 0 <= i < |pre| && Target(l, pre[i].folder) == Stage(pre, l, bases).patch &&
                 Stage(pre, l, bases).patch !in bases && AllBased(pre[..i], l, bases);
        assert vs[..i] == pre[..i];
      } else if Stage(vs, l, bases).MissingBase? {
        assert vs[..|vs| - 1] == pre;
      }
    }
  }

  /** With no overlay aimed at p so far, p's overlay list is empty. */
  lemma OverlaysForUntargeted(vs: seq<Visit>, l: Language, p: string)
    requires p !in Targets(vs, l)
    ensures OverlaysFor(vs, l, p) == []
  {
    OverlaysForContents(vs, l, p);
    var os := OverlaysFor(vs, l, p);
  }

  /** Each working copy is its base seeded once, then the overlays aimed at it in visit order. */
  lemma {:induction false} StagedCopies(vs: seq<Visit>, l: Language, bases: set<string>)
    ensures Stage(vs, l, bases).Staged? ==>
              forall p :: p in Stage(vs, l, bases).plan.copies ==>
                Stage(vs, l, bases).plan.copies[p] == [Seed(p)] + OverlaysFor(vs, l, p)
  {
    if vs != [] && Stage(vs, l, bases).Staged? {
      var pre := vs[..|vs| - 1];
      StagedCopies(pre, l, bases);
      StagedKeys(pre, l, bases);
      StepCopies(Stage(pre, l, bases).plan, vs, l, bases);
    }
  }

  /** One step of StagedCopies: the new visit's overlay lands on its target alone. */
  lemma StepCopies(plan: Plan, vs: seq<Visit>, l: Language, bases: set<string>)
    requires vs != []
    requires forall q :: q in plan.copies <==> q in Targets(vs[..|vs| - 1], l)
    requires forall q :: q in plan.copies ==> plan.copies[q] == [Seed(q)] + OverlaysFor(vs[..|vs| - 1], l, q)
    requires Step(Staged(plan), vs[|vs| - 1], l, bases).Staged?
    ensures var copies := Step(Staged(plan), vs[|vs| - 1], l, bases).plan.copies;
            forall q :: q in copies ==> copies[q] == [Seed(q)] + OverlaysFor(vs, l, q)
  {
    var pre, v := vs[..|vs| - 1], vs[|vs| - 1];
    var p := Target(l, v.folder);
    var ov := Overlay(v.mod, v.folder);
    var copies := Step(Staged(plan), v, l, bases).plan.copies;
    if p !in plan.copies {
      OverlaysForUntargeted(pre, l, p);
    }
    forall q | q in copies ensures copies[q] == [Seed(q)] + OverlaysFor(vs, l, q) {
      assert OverlaysFor(vs, l, q) == OverlaysFor(pre, l, q) + (if p == q then [ov] else []);
    }
  }

  /**
   * The run aborts exactly when some visit targets a patch with no base,
   * and then on the first such visit's patch. Otherwise the modified
   * patches are the distinct targets in first-use order, and each working
   * copy is its base seeded once followed by the overlays aimed at it.
   */
  lemma StageReference(vs: seq<Visit>, l: Language, bases: set<string>)
    ensures Stage(vs, l, bases).MissingBase? <==>
              exists i :: 0 <= i < |vs| && Target(l, vs[i].folder) !in bases
    ensures Stage(vs, l, bases).MissingBase? ==>
              exists i :: 0 <= i < |vs| && Target(l, vs[i].folder) == Stage(vs, l, bases).patch &&
                Stage(vs, l, bases).patch !in bases &&
                forall j :: 0 <= j < i ==> Target(l, vs[j].folder) in bases
    ensures Stage(vs, l, bases).Staged? ==>
              var plan := Stage(vs, l, bases).plan;
              && plan.order == Dedup(Targets(vs, l))
              && (forall p :: p in plan.copies <==> p in Targets(vs, l))
              && (forall p :: p in plan.copies ==> plan.copies[p] == [Seed(p)] + OverlaysFor(vs, l, p))
  {
    StagedKeys(vs, l, bases);
    StageMissing(vs, l, bases);
    StagedCopies(vs, l, bases);
    if Stage(vs, l, bases).MissingBase? {
      var i :| 0 <= i < |vs| && Target(l, vs[i].folder) == Stage(vs, l, bases).patch &&
               Stage(vs, l, bases).patch !in bases && AllBased(vs[..i], l, bases);
      forall j | 0 <= j < i ensures Target(l, vs[j].folder) in bases {
        assert vs[..i][j] == vs[j];
      }
    }
  }

  // ---------------------------------------------------------------------
  // The same facts, stated over the selected mods.

  lemma {:induction false} ModVisitsContents(mods: map<string, ModFolder>, m: string, fs: seq<Subfolder>)
    ensures forall v :: v in ModVisits(mods, m, fs) <==> v.mod == m && v.folder in fs && HasContent(mods, m, v.folder)
  {
    if fs != [] {
      var pre := fs[..|fs| - 1];
      ModVisitsContents(mods, m, pre);
      assert fs == pre + [fs[|fs| - 1]];
    }
  }

  /** A run visits exactly the non-empty subfolders of the selected mods. */
  lemma {:induction false} VisitsContents(mods: map<string, ModFolder>, selected: seq<string>)
    ensures forall v :: v in Visits(mods, selected) <==> v.mod in selected && HasContent(mods, v.mod, v.folder)
  {
    VisitOrderIsEverySubfolderOnce();
    if selected != [] {
      var pre, m := selected[..|selected| - 1], selected[|selected| - 1];
      VisitsContents(mods, pre);
      ModVisitsContents(mods, m, VisitOrder);
      assert selected == pre + [m];
    }
  }

  /** Some selected mod has a non-empty subfolder targeting p. */
  predicate Touched(mods: map<string, ModFolder>, selected: seq<string>, l: Language, p: string) {
    exists m, f :: m in selected && HasContent(mods, m, f) && Target(l, f) == p
  }

  /** A run aborts exactly when some touched patch has no base. */
  lemma AbortIff(mods: map<string, ModFolder>, selected: seq<string>, l: Language, bases: set<string>)
    ensures Stage(Visits(mods, selected), l, bases).MissingBase? <==>
              exists p :: Touched(mods, selected, l, p) && p !in bases
    ensures Stage(Visits(mods, selected), l, bases).MissingBase? ==>
              var p := Stage(Visits(mods, selected), l, bases).patch;
              Touched(mods, selected, l, p) && p !in bases
  {
    var vs := Visits(mods, selected);
    StageReference(vs, l, bases);
    VisitsContents(mods, selected);
    if exists p :: Touched(mods, selected, l, p) && p !in bases {
      var p, m, f :| m in selected && HasContent(mods, m, f) && Target(l, f) == p && p !in bases;
      assert Visit(m, f) in vs;
    }
  }

  /** A patch is touched exactly when some visit of the run targets it. */
  lemma TouchedIffTargeted(mods: map<string, ModFolder>, selected: seq<string>, l: Language, p: string)
    ensures Touched(mods, selected, l, p) <==> p in Targets(Visits(mods, selected), l)
  {
    var vs := Visits(mods, selected);
    var ts := Targets(vs, l);
    VisitsContents(mods, selected);
    if p in ts {
      var i :| 0 <= i < |ts| && ts[i] == p;
      assert vs[i] in vs;
    }
    if Touched(mods, selected, l, p) {
      var m, f :| m in selected && HasContent(mods, m, f) && Target(l, f) == p;
      assert Visit(m, f) in vs;
      var i :| 0 <= i < |vs| && vs[i] == Visit(m, f);
      assert ts[i] == p;
    }
  }

  /**
   * When staging succeeds, a patch is modified exactly when it is touched,
   * has a working copy exactly then, appears once in the modified order,
   * and has a base.
   */
  lemma TouchedIffModified(mods: map<string, ModFolder>, selected: seq<string>, l: Language, bases: set<string>)
    requires Stage(Visits(mods, selected), l, bases).Staged?
    ensures var plan := Stage(Visits(mods, selected), l, bases).plan;
            && (forall p :: p in plan.order <==> Touched(mods, selected, l, p))
            && (forall p :: p in plan.copies <==> p in plan.order)
            && (forall i, j :: 0 <= i < j < |plan.order| ==> plan.order[i] != plan.order[j])
            && (forall p :: p in plan.order ==> p in bases)
  {
    var vs := Visits(mods, selected);
    StagedKeys(vs, l, bases);
    var ts := Targets(vs, l);
    forall p ensures Touched(mods, selected, l, p) <==> p in ts {
      TouchedIffTargeted(mods, selected, l, p);
    }
    forall p | p in ts ensures p in bases {
      var i :| 0 <= i < |ts| && ts[i] == p;
    }
  }

  /**
   * When staging succeeds, each working copy is seeded from its base first
   * and only then: every later layer is an overlay.
   */
  lemma SeededOnce(mods: map<string, ModFolder>, selected: seq<string>, l: Language, bases: set<string>)
    requires Stage(Visits(mods, selected), l, bases).Staged?
    ensures var copies := Stage(Visits(mods, selected), l, bases).plan.copies;
            forall p :: p in copies ==>
              && |copies[p]| > 0
              && copies[p][0] == Seed(p)
              && forall k :: 0 < k < |copies[p]| ==> copies[p][k].Overlay?
  {
    var vs := Visits(mods, selected);
    var copies: map<string, seq<Layer>> := Stage(vs, l, bases).plan.copies;
    StagedCopies(vs, l, bases);
    forall p | p in copies
      ensures |copies[p]| > 0 && copies[p][0] == Seed(p)
      ensures forall k :: 0 < k < |copies[p]| ==> copies[p][k].Overlay?
    {
      LayersShape(vs, l, p, copies[p]);
    }
  }

  lemma LayersShape(vs: seq<Visit>, l: Language, p: string, layers: seq<Layer>)
    requires layers == [Seed(p)] + OverlaysFor(vs, l, p)
    ensures |layers| > 0 && layers[0] == Seed(p)
    ensures forall k :: 0 < k < |layers| ==> layers[k].Overlay?
  {
    OverlaysForContents(vs, l, p);
    var os := OverlaysFor(vs, l, p);
    forall k | 0 < k < |layers| ensures layers[k].Overlay? {
      assert layers[k] == os[k - 1];
      assert os[k - 1] in os;
    }
  }

  /**
   * When staging succeeds, a selected mod's non-empty subfolder is merged
   * into its target patch's working copy and into no other; in particular
   * root content is merged into the patch the images entry names.
   */
  lemma OverlayPlacement(mods: map<string, ModFolder>, selected: seq<string>, l: Language, bases: set<string>,
                         p: string, m: string, f: Subfolder)
    requires Stage(Visits(mods, selected), l, bases).Staged?
    requires p in Stage(Visits(mods, selected), l, bases).plan.copies
    ensures Overlay(m, f) in Stage(Visits(mods, selected), l, bases).plan.copies[p] <==>
              m in selected && HasContent(mods, m, f) && Target(l, f) == p
    ensures f == Root && Overlay(m, f) in Stage(Visits(mods, selected), l, bases).plan.copies[p] ==>
              p == Map(l)[Images]
  {
    var vs := Visits(mods, selected);
    var layers := Stage(vs, l, bases).plan.copies[p];
    StagedCopies(vs, l, bases);
    assert layers == [Seed(p)] + OverlaysFor(vs, l, p);
    assert Overlay(m, f) in layers <==> Overlay(m, f) in OverlaysFor(vs, l, p);
    OverlaysForContents(vs, l, p);
    VisitsContents(mods, selected);
    assert Visit(m, f) in vs <==> m in selected && HasContent(mods, m, f);
    TargetIsMapEntry(l, Root);
  }

  /**
   * Nothing is staged (the "nothing to pack" case) exactly when no selected
   * mod has a non-empty subfolder.
   */
  lemma NothingToPackIff(mods: map<string, ModFolder>, selected: seq<string>, l: Language, bases: set<string>)
    ensures Stage(Visits(mods, selected), l, bases) == Empty <==>
              forall m, f :: m in selected ==> !HasContent(mods, m, f)
  {
    var vs := Visits(mods, selected);
    StageReference(vs, l, bases);
    VisitsContents(mods, selected);
    if !forall m, f :: m in selected ==> !HasContent(mods, m, f) {
      var m, f :| m in selected && HasContent(mods, m, f);
      assert Visit(m, f) in vs;
      var i :| 0 <= i < |vs| && vs[i] == Visit(m, f);
      assert Targets(vs, l)[i] in Targets(vs, l);
    } else {
      FirstIsMember(vs);
    }
  }

  lemma FirstIsMember(vs: seq<Visit>)
    ensures vs == [] || vs[0] in vs
  {
  }

  /** A freshly created mod, or a selected name with no mod directory, has nothing to pack. */
  lemma NewModsPackNothing(mods: map<string, ModFolder>, selected: seq<string>, l: Language, bases: set<string>)
    requires forall m :: m in selected ==> m !in mods || mods[m] == NewMod
    ensures Stage(Visits(mods, selected), l, bases) == Empty
  {
    NothingToPackIff(mods, selected, l, bases);
  }

  // ---------------------------------------------------------------------
  // Facts the packing method uses to follow the run visit by visit.

  /** Once the run has aborted, later visits change nothing. */
  lemma {:induction false} MissingBaseSticks(a: seq<Visit>, b: seq<Visit>, l: Language, bases: set<string>)
    requires Stage(a, l, bases).MissingBase?
    ensures Stage(a + b, l, bases) == Stage(a, l, bases)
  {
    if b == [] {
      assert a + b == a;
    } else {
      MissingBaseSticks(a, b[..|b| - 1], l, bases);
      assert (a + b)[..|a + b| - 1] == a + b[..|b| - 1];
    }
  }

  lemma {:induction false} ModVisitsAppend(mods: map<string, ModFolder>, m: string, fs: seq<Subfolder>, gs: seq<Subfolder>)
    ensures ModVisits(mods, m, fs + gs) == ModVisits(mods, m, fs) + ModVisits(mods, m, gs)
  {
    if gs == [] {
      assert fs + gs == fs;
    } else {
      ModVisitsAppend(mods, m, fs, gs[..|gs| - 1]);
      assert (fs + gs)[..|fs + gs| - 1] == fs + gs[..|gs| - 1];
    }
  }

  lemma {:induction false} VisitsAppend(mods: map<string, ModFolder>, a: seq<string>, b: seq<string>)
    ensures Visits(mods, a + b) == Visits(mods, a) + Visits(mods, b)
  {
    if b == [] {
      assert a + b == a;
    } else {
      VisitsAppend(mods, a, b[..|b| - 1]);
      assert (a + b)[..|a + b| - 1] == a + b[..|b| - 1];
    }
  }

  /** The run splits at mod i into the mods before it, mod i, and the mods after it. */
  lemma VisitsSplit(mods: map<string, ModFolder>, selected: seq<string>, i: nat)
    requires i < |selected|
    ensures Visits(mods, selected) ==
            Visits(mods, selected[..i]) + ModVisits(mods, selected[i], VisitOrder) + Visits(mods, selected[i + 1..])
  {
    var m := selected[i];
    var head, tail := selected[..i], selected[i + 1..];
    assert selected == (head + [m]) + tail;
    VisitsAppend(mods, head + [m], tail);
    VisitsAppend(mods, head, [m]);
    assert Visits(mods, [m]) == ModVisits(mods, m, VisitOrder) by {
      assert [m][..0] == [];
    }
  }

  /** A mod's visits split after the first j subfolders. */
  lemma ModVisitsSplit(mods: map<string, ModFolder>, m: string, j: nat)
    requires j <= |VisitOrder|
    ensures ModVisits(mods, m, VisitOrder) == ModVisits(mods, m, VisitOrder[..j]) + ModVisits(mods, m, VisitOrder[j..])
  {
    assert VisitOrder == VisitOrder[..j] + VisitOrder[j..];
    ModVisitsAppend(mods, m, VisitOrder[..j], VisitOrder[j..]);
  }

  /** The visits of the first i mods and the first j subfolders of mod i begin the whole run. */
  lemma RunPrefix(mods: map<string, ModFolder>, selected: seq<string>, i: nat, j: nat)
    requires i < |selected| && j <= |VisitOrder|
    ensures exists rest :: Visits(mods, selected) ==
              Visits(mods, selected[..i]) + ModVisits(mods, selected[i], VisitOrder[..j]) + rest
  {
    var m := selected[i];
    VisitsSplit(mods, selected, i);
    ModVisitsSplit(mods, m, j);
    var a, b := Visits(mods, selected[..i]), ModVisits(mods, m, VisitOrder[..j]);
    var c, d := ModVisits(mods, m, VisitOrder[j..]), Visits(mods, selected[i + 1..]);
    assert a + (b + c) + d == a + b + (c + d);
  }

  /** An abort part-way through mod i is the outcome of the whole run. */
  lemma AbortAt(mods: map<string, ModFolder>, selected: seq<string>, i: nat, j: nat, l: Language, bases: set<string>)
    requires i < |selected| && j <= |VisitOrder|
    requires Stage(Visits(mods, selected[..i]) + ModVisits(mods, selected[i], VisitOrder[..j]), l, bases).MissingBase?
    ensures Stage(Visits(mods, selected), l, bases) ==
            Stage(Visits(mods, selected[..i]) + ModVisits(mods, selected[i], VisitOrder[..j]), l, bases)
  {
    RunPrefix(mods, selected, i, j);
    var rest :| Visits(mods, selected) ==
                Visits(mods, selected[..i]) + ModVisits(mods, selected[i], VisitOrder[..j]) + rest;
    MissingBaseSticks(Visits(mods, selected[..i]) + ModVisits(mods, selected[i], VisitOrder[..j]), rest, l, bases);
  }

  /** A plan with no modified patch is the empty plan. */
  lemma NoOrderIsEmpty(vs: seq<Visit>, l: Language, bases: set<string>)
    requires Stage(vs, l, bases).Staged? && Stage(vs, l, bases).plan.order == []
    ensures Stage(vs, l, bases) == Empty
  {
    StagedKeys(vs, l, bases);
    assert Stage(vs, l, bases).plan.copies == map[];
  }

  // ---------------------------------------------------------------------
  // Packing the staged patches.

  /** The archive the pack command writes for a patch working copy. */
  function ArchiveName(p: string): string {
    p + ".MVGL"
  }

  lemma ArchiveNameInjective(p: string, q: string)
    requires ArchiveName(p) == ArchiveName(q)
    ensures p == q
  {
    assert |p| == |q|;
    assert p == ArchiveName(p)[..|p|];
  }

  /** The archives produced, in staging order: one per patch whose pack command succeeds. */
  function Archives(order: seq<string>, packOk: string -> bool): seq<string> {
    if order == [] then []
    else
      var p := order[|order| - 1];
      Archives(order[..|order| - 1], packOk) + (if packOk(p) then [ArchiveName(p)] else [])
  }

  /**
   * The archives keep the staging order: each one is named after some staged
   * patch, and of two archives the earlier one comes from an earlier patch.
   */
  lemma {:induction false} ArchivesOrder(order: seq<string>, packOk: string -> bool)
    ensures forall i :: 0 <= i < |Archives(order, packOk)| ==>
              exists a :: 0 <= a < |order| && Archives(order, packOk)[i] == ArchiveName(order[a])
    ensures forall i, j :: 0 <= i < j < |Archives(order, packOk)| ==>
              exists a, b :: 0 <= a < b < |order|
                && Archives(order, packOk)[i] == ArchiveName(order[a]) && Archives(order, packOk)[j] == ArchiveName(order[b])
  {
    if order != [] {
      var pre, p := order[..|order| - 1], order[|order| - 1];
      var prior, all := Archives(pre, packOk), Archives(order, packOk);
      ArchivesOrder(pre, packOk);
      assert all == prior + (if packOk(p) then [ArchiveName(p)] else []);
      forall i | 0 <= i < |all|
        ensures exists a :: 0 <= a < |order| && all[i] == ArchiveName(order[a])
      {
        if i < |prior| {
          var a :| 0 <= a < |pre| && prior[i] == ArchiveName(pre[a]);
          assert order[a] == pre[a];
        } else {
          assert all[i] == ArchiveName(order[|order| - 1]);
        }
      }
      forall i, j | 0 <= i < j < |all|
        ensures exists a, b :: 0 <= a < b < |order| && all[i] == ArchiveName(order[a]) && all[j] == ArchiveName(order[b])
      {
        if j < |prior| {
          var a, b :| 0 <= a < b < |pre| && prior[i] == ArchiveName(pre[a]) && prior[j] == ArchiveName(pre[b]);
          assert order[a] == pre[a] && order[b] == pre[b];
        } else {
          var a :| 0 <= a < |pre| && prior[i] == ArchiveName(pre[a]);
          assert order[a] == pre[a];
          assert all[j] == ArchiveName(order[|order| - 1]);
        }
      }
    } else {
      assert Archives(order, packOk) == [];
    }
  }

  /**
   * An archive is produced exactly for each staged patch whose pack
   * succeeds, at most once each; none is produced ("packing failed")
   * exactly when every pack fails.
   */
  lemma {:induction false} ArchivesSpec(order: seq<string>, packOk: string -> bool)
    requires forall i, j :: 0 <= i < j < |order| ==> order[i] != order[j]
    ensures forall a :: a in Archives(order, packOk) <==> exists p :: p in order && packOk(p) && a == ArchiveName(p)
    ensures forall i, j :: 0 <= i < j < |Archives(order, packOk)| ==> Archives(order, packOk)[i] != Archives(order, packOk)[j]
    ensures Archives(order, packOk) == [] <==> forall p :: p in order ==> !packOk(p)
  {
    if order != [] {
      var pre, p := order[..|order| - 1], order[|order| - 1];
      ArchivesSpec(pre, packOk);
      assert order == pre + [p];
      if packOk(p) {
        var prior := Archives(pre, packOk);
        forall i | 0 <= i < |prior| ensures prior[i] != ArchiveName(p) {
          if prior[i] == ArchiveName(p) {
            assert prior[i] in prior;
            var q :| q in pre && packOk(q) && prior[i] == ArchiveName(q);
            ArchiveNameInjective(p, q);
          }
        }
      }
    }
  }
}
