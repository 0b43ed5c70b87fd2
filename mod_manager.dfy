/**
 * The mod manager's state and its three actions: creating a mod, extracting
 * game archives, and packing the selected mods (with or without installing
 * the result).
 *
 * The directories the application works in are abstracted: Mods/ is a map
 * from mod name to its folder state, gamedata/, Extracted/,
 * Extracted_Patches/ and Packed/ are sets of entry names, and the temporary
 * packing directory is a flag, the working copies staged in it and the
 * archives packed into it. The external archive tool and file moves enter as
 * success oracles on the name they act on.
 */
module ModManager {
  import opened Options
  import opened Languages
  import opened PatchMap
  import opened ModNames
  import opened ArchiveNames
  import opened Staging

  function Elements(s: seq<string>): set<string> {
    set x | x in s
  }

  datatype CreateOutcome =
    | Cancelled                  // dialog dismissed or left empty
    | InvalidName                // nothing left after sanitising
    | AlreadyExists(name: string)
    | Created(name: string)

  datatype ExtractOutcome =
    | NoSelection
    | Extracted(patches: seq<string>, copied: bool)
    | LanguageUnknown(patches: seq<string>)          // the copy prompt's table lookup raises
    | CopyFailed(patches: seq<string>, missing: string) // copying a patch with no extracted directory raises

  datatype PackOutcome =
    | NoModsSelected
    | UnknownLanguage            // the patch map's table lookup raises; the temporary directory is left behind
    | MissingBasePatch(patch: string)
    | NothingToPack
    | PackingFailed
    | Done(moved: seq<string>)
    | MoveFailed(moved: seq<string>, failed: string)

  /**
   * moved is the longest prefix of generated whose moves succeed, and
   * failed is the archive whose move raised, if any.
   */
  predicate MovedPrefix(generated: seq<string>, moveOk: string -> bool, moved: seq<string>, failed: Option<string>) {
    && moved <= generated
    && (forall f :: f in moved ==> moveOk(f))
    && (failed.None? ==> moved == generated)
    && (failed.Some? ==> |moved| < |generated| && generated[|moved|] == failed.value && !moveOk(failed.value))
  }

  /**
   * The outcome of packing and moving, given the archives produced: packing
   * failed when there are none; otherwise the moves went through in order,
   * all of them or up to the one that failed.
   */
  predicate PackedOutcome(generated: seq<string>, moveOk: string -> bool, outcome: PackOutcome) {
    && (generated == [] ==> outcome == PackingFailed)
    && (generated != [] ==>
          || (outcome.Done? && MovedPrefix(generated, moveOk, outcome.moved, None))
          || (outcome.MoveFailed? && MovedPrefix(generated, moveOk, outcome.moved, Some(outcome.failed))))
  }

  /** The outcome of a packing run whose staging ended in st. */
  predicate RunOutcome(st: StageResult, packOk: string -> bool, moveOk: string -> bool, outcome: PackOutcome) {
    && (st.MissingBase? ==> outcome == MissingBasePatch(st.patch))
    && (st == Empty ==> outcome == NothingToPack)
    && (st.Staged? && st != Empty ==> PackedOutcome(Archives(st.plan.order, packOk), moveOk, outcome))
  }

  /** The archives an outcome moved out of the temporary directory. */
  function MovedBy(outcome: PackOutcome): set<string> {
    if outcome.Done? || outcome.MoveFailed? then Elements(outcome.moved) else {}
  }

  /** The destination, gamedata when installing and Packed otherwise, gains exactly the moved archives. */
  predicate Delivered(install: bool, moved: set<string>, gamedata0: set<string>, packed0: set<string>,
                      gamedata: set<string>, packed: set<string>) {
    if install then gamedata == gamedata0 + moved && packed == packed0
    else packed == packed0 + moved && gamedata == gamedata0
  }

  class App {
    var gamePath: string
    var language: string
    var mods: map<string, ModFolder>      // Mods/
    var gamedata: set<string>             // <game>/gamedata/
    var extracted: set<string>            // Extracted/
    var basePatches: set<string>          // Extracted_Patches/
    var packed: set<string>               // Packed/
    var tempExists: bool                  // the temporary packing directory
    var workCopies: map<string, seq<Layer>>
    var tempArchives: set<string>

    /** Start-up: the directories as found, then the configuration load. */
    constructor (config: ConfigFile, isDir: string -> bool, mods0: map<string, ModFolder>,
                 gamedata0: set<string>, extracted0: set<string>, bases0: set<string>, packed0: set<string>)
      ensures gamePath == LoadConfig(config, isDir).gamePath && language == LoadConfig(config, isDir).language
      ensures mods == mods0 && gamedata == gamedata0 && extracted == extracted0
      ensures basePatches == bases0 && packed == packed0
      ensures !tempExists && workCopies == map[] && tempArchives == {}
    {
      var settings := LoadConfig(config, isDir);
      gamePath, language := settings.gamePath, settings.language;
      mods, gamedata, extracted, basePatches, packed := mods0, gamedata0, extracted0, bases0, packed0;
      tempExists, workCopies, tempArchives := false, map[], {};
    }

    // -------------------------------------------------------------------
    // Create New Mod

    /**
     * Create a mod from the name typed into the dialog (None when the
     * dialog is cancelled). The sanitised name must be non-empty and new;
     * the mod is then created with the six empty subfolders.
     */
    method CreateMod(input: Option<string>, isAlnum: char -> bool, isSpace: char -> bool)
      returns (outcome: CreateOutcome)
      modifies this`mods
      ensures input.None? || input == Some("") ==> outcome == Cancelled
      ensures input.Some? && input.value != "" ==>
                var name := Sanitize(input.value, isAlnum, isSpace);
                && (name == "" ==> outcome == InvalidName)
                && (name != "" && name in old(mods) ==> outcome == AlreadyExists(name))
                && (name != "" && name !in old(mods) ==> outcome == Created(name))
      ensures outcome.Created? ==> mods == old(mods)[outcome.name := NewMod]
      ensures !outcome.Created? ==> mods == old(mods)
    {
      if input.None? || input.value == "" {
        return Cancelled;
      }
      var name := Sanitize(input.value, isAlnum, isSpace);
      if name == "" {
        return InvalidName;
      }
      if name in mods {
        return AlreadyExists(name);
      }
      mods := mods[name := ModFolder({}, {})];
      var i := 0;
      while i < |ModLayout|
        invariant 0 <= i <= |ModLayout|
        invariant name in mods && mods == old(mods)[name := ModFolder(mods[name].subfolders, {})]
        invariant forall f :: f in mods[name].subfolders <==> f in ModLayout[..i]
      {
        assert ModLayout[..i + 1] == ModLayout[..i] + [ModLayout[i]];
        mods := mods[name := ModFolder(mods[name].subfolders + {ModLayout[i]}, {})];
        i := i + 1;
      }
      assert ModLayout[..|ModLayout|] == ModLayout;
      assert mods[name].subfolders == NewMod.subfolders;
      outcome := Created(name);
    }

    // -------------------------------------------------------------------
    // Extract MVGL

    /**
     * Run the extraction tool on each selected archive in order: its output
     * directory under Extracted/ is first removed, then present again when
     * the tool succeeds. Returns the output directories of the archives
     * named like a patch, in selection order.
     */
    method ExtractSelected(selected: seq<string>, extractOk: string -> bool) returns (patches: seq<string>)
      modifies this`extracted
      ensures extracted == ExtractAll(old(extracted), selected, extractOk)
      ensures patches == PatchBases(selected)
    {
      patches := [];
      var i := 0;
      while i < |selected|
        invariant 0 <= i <= |selected|
        invariant extracted == ExtractAll(old(extracted), selected[..i], extractOk)
        invariant patches == PatchBases(selected[..i])
      {
        var name := selected[i];
        assert selected[..i + 1][..i] == selected[..i];
        var base := StripExt(name);
        extracted := extracted - {base};
        if extractOk(name) {
          extracted := extracted + {base};
        }
        if IsPatchName(name) {
          patches := patches + [base];
        }
        i := i + 1;
      }
      assert selected[..|selected|] == selected;
    }

    /**
     * Copy each patch's extracted directory to Extracted_Patches/, replacing
     * any older copy. The old copy is deleted before the copy is attempted,
     * so a patch with no extracted directory loses its base copy and ends
     * the loop; its name is returned.
     */
    method CopyPatches(patches: seq<string>) returns (missing: Option<string>)
      modifies this`basePatches
      ensures missing.None? ==>
                Elements(patches) <= extracted && basePatches == old(basePatches) + Elements(patches)
      ensures missing.Some? ==>
                exists k :: 0 <= k < |patches| && patches[k] == missing.value
                  && missing.value !in extracted
                  && Elements(patches[..k]) <= extracted
                  && basePatches == old(basePatches) + Elements(patches[..k]) - {missing.value}
    {
      var k := 0;
      while k < |patches|
        invariant 0 <= k <= |patches|
        invariant Elements(patches[..k]) <= extracted
        invariant basePatches == old(basePatches) + Elements(patches[..k])
      {
        var p := patches[k];
        assert patches[..k + 1] == patches[..k] + [p];
        basePatches := basePatches - {p};
        if p !in extracted {
          return Some(p);
        }
        basePatches := basePatches + {p};
        k := k + 1;
      }
      assert patches[..|patches|] == patches;
      missing := None;
    }

    /**
     * Extract the selected archives (chosen from the offered list), then,
     * when some of them are patches and the user agrees, copy the patches'
     * directories to Extracted_Patches/.
     */
    method PerformExtraction(selected: seq<string>, extractOk: string -> bool, copyConfirmed: bool)
      returns (outcome: ExtractOutcome)
      modifies this`extracted, this`basePatches
      ensures selected == [] <==> outcome == NoSelection
      ensures selected == [] ==> extracted == old(extracted) && basePatches == old(basePatches)
      ensures selected != [] ==>
                && extracted == ExtractAll(old(extracted), selected, extractOk)
                && outcome.patches == PatchBases(selected)
      ensures outcome.Extracted? && outcome.copied ==>
                && copyConfirmed && outcome.patches != []
                && Elements(outcome.patches) <= extracted
                && basePatches == old(basePatches) + Elements(outcome.patches)
      ensures outcome.Extracted? && !outcome.copied ==>
                && (outcome.patches == [] || !copyConfirmed)
                && basePatches == old(basePatches)
      ensures outcome.LanguageUnknown? ==>
                Resolve(language).None? && outcome.patches != [] && basePatches == old(basePatches)
      ensures outcome.CopyFailed? ==>
                && copyConfirmed && Resolve(language).Some?
                && exists k :: 0 <= k < |outcome.patches| && outcome.patches[k] == outcome.missing
                     && outcome.missing !in extracted
                     && Elements(outcome.patches[..k]) <= extracted
                     && basePatches == old(basePatches) + Elements(outcome.patches[..k]) - {outcome.missing}
      ensures selected != [] && PatchBases(selected) != [] && Resolve(language).None? ==> outcome.LanguageUnknown?
      ensures selected != [] && PatchBases(selected) != [] && Resolve(language).Some? && !copyConfirmed ==>
                outcome == Extracted(PatchBases(selected), false)
      ensures selected != [] && PatchBases(selected) != [] && Resolve(language).Some? && copyConfirmed ==>
                (outcome.Extracted? <==> Elements(PatchBases(selected)) <= extracted)
    {
      if selected == [] {
        return NoSelection;
      }
      var patches := ExtractSelected(selected, extractOk);
      if patches == [] {
        return Extracted(patches, false);
      }
      if Resolve(language).None? {
        return LanguageUnknown(patches);
      }
      if !copyConfirmed {
        return Extracted(patches, false);
      }
      var missing := CopyPatches(patches);
      outcome := if missing.None? then Extracted(patches, true) else CopyFailed(patches, missing.value);
    }

    // -------------------------------------------------------------------
    // Pack Only / Pack and Install

    /**
     * Stage one non-empty subfolder of mod m into the working copy of its
     * target patch p, seeding the copy from the base patch on first use.
     */
    method StageVisit(m: string, f: Subfolder, p: string, l: Language, modified: seq<string>, ghost done: seq<Visit>)
      returns (ok: bool, modified': seq<string>)
      requires p == Target(l, f)
      requires Stage(done, l, basePatches) == Staged(Plan(modified, workCopies))
      modifies this`workCopies
      ensures Stage(done + [Visit(m, f)], l, basePatches) ==
              if ok then Staged(Plan(modified', workCopies)) else MissingBase(p)
    {
      ghost var plan := Plan(modified, workCopies);
      assert Stage(done + [Visit(m, f)], l, basePatches) == Step(Staged(plan), Visit(m, f), l, basePatches) by {
        assert (done + [Visit(m, f)])[..|done|] == done;
      }
      assert p in modified <==> p in workCopies by {
        StagedKeys(done, l, basePatches);
      }
      if p !in modified {
        if p !in basePatches {
          return false, modified;
        }
        // the working copy starts as a copy of the base patch
        workCopies := workCopies[p := [Seed(p)]];
        modified' := modified + [p];
      } else {
        modified' := modified;
      }
      var prior := workCopies[p];
      workCopies := workCopies[p := prior + [Overlay(m, f)]];
      assert p !in modified ==> prior + [Overlay(m, f)] == [Seed(p), Overlay(m, f)];
      ok := true;
    }

    /** One more subfolder of mod m extends the run by its visit when it has content, else by nothing. */
    static lemma NextVisit(mods: map<string, ModFolder>, m: string, j: nat, done: seq<Visit>)
      requires j < |VisitOrder|
      ensures HasContent(mods, m, VisitOrder[j]) ==>
                done + ModVisits(mods, m, VisitOrder[..j + 1]) ==
                done + ModVisits(mods, m, VisitOrder[..j]) + [Visit(m, VisitOrder[j])]
      ensures !HasContent(mods, m, VisitOrder[j]) ==>
                done + ModVisits(mods, m, VisitOrder[..j + 1]) == done + ModVisits(mods, m, VisitOrder[..j])
    {
      assert VisitOrder[..j + 1][..j] == VisitOrder[..j];
    }

    /** The root visit, if any, completes a mod's visits after its mapped subfolders. */
    static lemma RootVisit(mods: map<string, ModFolder>, m: string, done: seq<Visit>)
      ensures HasContent(mods, m, Root) ==>
                done + ModVisits(mods, m, VisitOrder[..6]) == done + ModVisits(mods, m, VisitOrder[..5]) + [Visit(m, Root)]
      ensures !HasContent(mods, m, Root) ==>
                done + ModVisits(mods, m, VisitOrder[..6]) == done + ModVisits(mods, m, VisitOrder[..5])
    {
      NextVisit(mods, m, 5, done);
    }

    /**
     * Stage subfolder k of mod m, one patch map entry, when it holds files.
     * On an abort, failed is the base patch found missing.
     */
    method StageEntry(m: string, k: nat, l: Language, modified: seq<string>, ghost done: seq<Visit>)
      returns (failed: Option<string>, modified': seq<string>)
      requires k < |MapOrder|
      requires Stage(done + ModVisits(mods, m, VisitOrder[..k]), l, basePatches) == Staged(Plan(modified, workCopies))
      modifies this`workCopies
      ensures failed.None? ==>
                Stage(done + ModVisits(mods, m, VisitOrder[..k + 1]), l, basePatches) == Staged(Plan(modified', workCopies))
      ensures failed.Some? ==>
                Stage(done + ModVisits(mods, m, VisitOrder[..k + 1]), l, basePatches) == MissingBase(failed.value)
    {
      var f := MapOrder[k];
      assert VisitOrder[k] == f;
      ghost var acc := done + ModVisits(mods, m, VisitOrder[..k]);
      NextVisit(mods, m, k, done);
      TargetIsMapEntry(l, f);
      modified' := modified;
      if HasContent(mods, m, f) {
        var ok;
        ok, modified' := StageVisit(m, f, Map(l)[f], l, modified, acc);
        if !ok {
          return Some(Map(l)[f]), modified';
        }
      }
      failed := None;
    }

    /**
     * Stage the non-empty subfolders of mod m that have a patch map entry,
     * in the map's order. On an abort, j is the number of subfolders visited
     * and failed the base patch found missing.
     */
    method StageMapped(m: string, l: Language, modified: seq<string>, ghost done: seq<Visit>)
      returns (failed: Option<string>, modified': seq<string>, ghost j: nat)
      requires Stage(done, l, basePatches) == Staged(Plan(modified, workCopies))
      modifies this`workCopies
      ensures j <= |MapOrder|
      ensures failed.None? ==>
                Stage(done + ModVisits(mods, m, VisitOrder[..5]), l, basePatches) == Staged(Plan(modified', workCopies))
      ensures failed.Some? ==>
                Stage(done + ModVisits(mods, m, VisitOrder[..j]), l, basePatches) == MissingBase(failed.value)
    {
      modified', j := modified, 0;
      var k := 0;
      assert done + ModVisits(mods, m, VisitOrder[..0]) == done by {
        assert VisitOrder[..0] == [];
      }
      while k < |MapOrder|
        invariant 0 <= k <= |MapOrder|
        invariant Stage(done + ModVisits(mods, m, VisitOrder[..k]), l, basePatches) ==
                  Staged(Plan(modified', workCopies))
      {
        failed, modified' := StageEntry(m, k, l, modified', done);
        if failed.Some? {
          j := k + 1;
          return;
        }
        k := k + 1;
      }
      failed := None;
    }

    /**
     * Stage the non-empty subfolders of mod m: the mapped ones, then root
     * into the images patch. On an abort, j is the number of subfolders
     * visited and failed the base patch found missing.
     */
    method StageMod(m: string, l: Language, modified: seq<string>, ghost done: seq<Visit>)
      returns (failed: Option<string>, modified': seq<string>, ghost j: nat)
      requires Stage(done, l, basePatches) == Staged(Plan(modified, workCopies))
      modifies this`workCopies
      ensures j <= |VisitOrder|
      ensures failed.None? ==>
                Stage(done + ModVisits(mods, m, VisitOrder[..6]), l, basePatches) == Staged(Plan(modified', workCopies))
      ensures failed.Some? ==>
                Stage(done + ModVisits(mods, m, VisitOrder[..j]), l, basePatches) == MissingBase(failed.value)
    {
      failed, modified', j := StageMapped(m, l, modified, done);
      if failed.Some? {
        return;
      }
      ghost var acc := done + ModVisits(mods, m, VisitOrder[..5]);
      RootVisit(mods, m, done);
      TargetIsMapEntry(l, Root);
      if HasContent(mods, m, Root) {
        var ok;
        ok, modified' := StageVisit(m, Root, Map(l)[Images], l, modified', acc);
        if !ok {
          j := 6;
          return Some(Map(l)[Images]), modified', j;
        }
      }
    }

    /**
     * The staging loops: stage every selected mod in order. Returns the
     * modified patches in insertion order, or the base patch found missing.
     */
    method StageSelected(selected: seq<string>, l: Language) returns (result: StageResult)
      requires workCopies == map[]
      modifies this`workCopies
      ensures result == Stage(Visits(mods, selected), l, basePatches)
      ensures result.Staged? ==> workCopies == result.plan.copies
    {
      var modified: seq<string> := [];
      var i := 0;
      while i < |selected|
        invariant 0 <= i <= |selected|
        invariant Stage(Visits(mods, selected[..i]), l, basePatches) == Staged(Plan(modified, workCopies))
      {
        var failed;
        ghost var j;
        failed, modified, j := StageMod(selected[i], l, modified, Visits(mods, selected[..i]));
        if failed.Some? {
          AbortAt(mods, selected, i, j, l, basePatches);
          return MissingBase(failed.value);
        }
        assert VisitOrder[..6] == VisitOrder;
        assert selected[..i + 1][..i] == selected[..i];
        i := i + 1;
      }
      assert selected[..|selected|] == selected;
      result := Staged(Plan(modified, workCopies));
    }

    /** Pack each staged working copy in order; keep the archives whose pack succeeds. */
    method PackStaged(order: seq<string>, packOk: string -> bool) returns (generated: seq<string>)
      modifies this`tempArchives
      ensures generated == Archives(order, packOk)
      ensures tempArchives == old(tempArchives) + Elements(generated)
    {
      generated := [];
      var i := 0;
      while i < |order|
        invariant 0 <= i <= |order|
        invariant generated == Archives(order[..i], packOk)
        invariant tempArchives == old(tempArchives) + Elements(generated)
      {
        var p := order[i];
        assert order[..i + 1][..i] == order[..i];
        if packOk(p) {
          generated := generated + [ArchiveName(p)];
          tempArchives := tempArchives + {ArchiveName(p)};
        }
        i := i + 1;
      }
      assert order[..|order|] == order;
    }

    /**
     * Move the packed archives, in order, into gamedata/ (install) or
     * Packed/; a move that raises ends the loop.
     */
    method MoveArchives(generated: seq<string>, install: bool, moveOk: string -> bool)
      returns (moved: seq<string>, failed: Option<string>)
      modifies this`gamedata, this`packed, this`tempArchives
      ensures MovedPrefix(generated, moveOk, moved, failed)
      ensures install ==> gamedata == old(gamedata) + Elements(moved) && packed == old(packed)
      ensures !install ==> packed == old(packed) + Elements(moved) && gamedata == old(gamedata)
      ensures tempArchives == old(tempArchives) - Elements(moved)
    {
      moved, failed := [], None;
      var i := 0;
      while i < |generated|
        invariant 0 <= i <= |generated|
        invariant moved == generated[..i]
        invariant forall f :: f in moved ==> moveOk(f)
        invariant install ==> gamedata == old(gamedata) + Elements(moved) && packed == old(packed)
        invariant !install ==> packed == old(packed) + Elements(moved) && gamedata == old(gamedata)
        invariant tempArchives == old(tempArchives) - Elements(moved)
      {
        var f := generated[i];
        if !moveOk(f) {
          return moved, Some(f);
        }
        if install {
          gamedata := gamedata + {f};
        } else {
          packed := packed + {f};
        }
        tempArchives := tempArchives - {f};
        assert generated[..i + 1] == moved + [f];
        moved := moved + [f];
        i := i + 1;
      }
      assert generated[..|generated|] == generated;
    }

    /** Remove the temporary packing directory and everything in it. */
    method RemoveTemp()
      modifies this`tempExists, this`workCopies, this`tempArchives
      ensures !tempExists && workCopies == map[] && tempArchives == {}
    {
      tempExists, workCopies, tempArchives := false, map[], {};
    }

    /**
     * Pack the staged working copies in order, then move the archives
     * produced; the temporary directory is removed in every case.
     */
    method PackAndMove(install: bool, order: seq<string>, packOk: string -> bool, moveOk: string -> bool)
      returns (outcome: PackOutcome)
      modifies this`gamedata, this`packed, this`tempExists, this`workCopies, this`tempArchives
      ensures PackedOutcome(Archives(order, packOk), moveOk, outcome)
      ensures Delivered(install, MovedBy(outcome), old(gamedata), old(packed), gamedata, packed)
      ensures !tempExists && workCopies == map[] && tempArchives == {}
    {
      var generated := PackStaged(order, packOk);
      if generated == [] {
        RemoveTemp();
        return PackingFailed;
      }
      var moved, failed := MoveArchives(generated, install, moveOk);
      RemoveTemp();
      outcome := if failed.None? then Done(moved) else MoveFailed(moved, failed.value);
    }

    /**
     * A packing run for language l, from an empty temporary directory:
     * stage the selected mods, then pack and move unless staging aborted or
     * found nothing to pack.
     */
    method PackFor(install: bool, selected: seq<string>, l: Language, packOk: string -> bool, moveOk: string -> bool)
      returns (outcome: PackOutcome)
      requires workCopies == map[]
      modifies this`gamedata, this`packed, this`tempExists, this`workCopies, this`tempArchives
      ensures RunOutcome(Stage(Visits(mods, selected), l, basePatches), packOk, moveOk, outcome)
      ensures Delivered(install, MovedBy(outcome), old(gamedata), old(packed), gamedata, packed)
      ensures !tempExists && workCopies == map[] && tempArchives == {}
    {
      var st := StageSelected(selected, l);
      if st.MissingBase? {
        RemoveTemp();
        return MissingBasePatch(st.patch);
      }
      if st.plan.order == [] {
        NoOrderIsEmpty(Visits(mods, selected), l, basePatches);
        RemoveTemp();
        return NothingToPack;
      }
      outcome := PackAndMove(install, st.plan.order, packOk, moveOk);
    }

    /**
     * Pack the selected mods: stage them, pack each modified patch, and
     * move the archives produced into gamedata/ (install) or Packed/.
     */
    method PackMods(install: bool, selected: seq<string>, packOk: string -> bool, moveOk: string -> bool)
      returns (outcome: PackOutcome)
      modifies this`gamedata, this`packed, this`tempExists, this`workCopies, this`tempArchives
      ensures mods == old(mods) && extracted == old(extracted) && basePatches == old(basePatches)
      ensures language == old(language) && gamePath == old(gamePath)
      ensures selected == [] ==> outcome == NoModsSelected && unchanged(this)
      ensures selected != [] && Resolve(language).None? ==>
                && outcome == UnknownLanguage
                && tempExists && workCopies == map[] && tempArchives == {}
      ensures selected != [] && Resolve(language).Some? ==>
                && RunOutcome(Stage(Visits(mods, selected), Resolve(language).value, basePatches), packOk, moveOk, outcome)
                && !tempExists && workCopies == map[] && tempArchives == {}
      ensures Delivered(install, MovedBy(outcome), old(gamedata), old(packed), gamedata, packed)
    {
      if selected == [] {
        return NoModsSelected;
      }
      tempExists, workCopies, tempArchives := true, map[], {};
      var lang := Resolve(language);
      if lang.None? {
        return UnknownLanguage;
      }
      outcome := PackFor(install, selected, lang.value, packOk, moveOk);
    }
  }
}
