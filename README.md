# The Hundred Line mod manager, modelled in Dafny

BadModLoader is a desktop mod manager for the game *The Hundred Line*. A mod
is a directory under `Mods/` with six subfolders (`lua`, `images`, `text`,
`message`, `data`, `root`). The manager does three things:

- **Extract.** It runs an external tool to unpack the game's `.mvgl` archives
  into `Extracted/`. When asked, it copies the patch archives' directories to
  `Extracted_Patches/`.
- **Pack.** It overlays every non-empty subfolder of the selected mods onto a
  working copy of the base patch that subfolder targets. The target depends on
  the chosen game language (`root` goes to the images patch). It then packs
  each working copy back into a `.MVGL` archive.
- **Install or keep.** It moves the new archives into the game's `gamedata/`
  folder ("Pack and Install") or into `Packed/` ("Pack Only").

This project models that logic and proves properties of it:

- `languages.dfy`: the language table, the English fallback, and loading and
  saving the configuration.
- `patch_map.dfy`: the mod layout and the language-dependent patch map.
- `mod_names.dfy`: sanitising a new mod's name.
- `archive_names.dfy`: the names used by the extraction dialog. Covers which
  files are offered and in what order, each archive's output directory
  (`os.path.splitext`), which archives count as patches, and what an
  extraction run leaves behind.
- `staging.dfy`: a specification of a packing run as a fold over the visited
  subfolders, plus an independent description of the result. Also covers
  which archives the pack step produces.
- `mod_manager.dfy`: the application state as a class. Its methods are the
  three actions, written with the source's loops and proved against the
  specification functions above.

Directories are abstracted as follows:

- `Mods/` is a map from mod name to the subfolders that exist and the ones
  that hold files.
- `gamedata/`, `Extracted/`, `Extracted_Patches/` and `Packed/` are sets of
  entry names.
- A patch working copy is its list of layers: the base patch, then the mod
  subfolders merged over it.

The external tool, file moves, the filesystem test on the game path, and
Unicode `isalnum`/`isspace` enter as predicates passed in as parameters. The
answers to dialogs enter as ordinary parameters.

## Model

| member | source | states |
|---|---|---|
| Languages.Lookup | BadModLoader.py:21-26 | A name is found exactly when it is one of the four table keys, and the language found has that name |
| Languages.LookupName | BadModLoader.py:21-26 | Every language is found again under its display name |
| Languages.CodesDistinct | BadModLoader.py:21-26 | Each language code is one digit from 0 to 3, and different languages have different codes |
| Languages.Resolve | BadModLoader.py:273-278 | The patch map's language: an empty selection falls back to English, a known name gives its own language, and any other non-empty name is a failed lookup |
| Languages.LoadConfig | BadModLoader.py:140-155 | The loaded language is always a table key, and it is the stored one whenever the stored one is a key (otherwise English). The game path is the stored one exactly when that is non-empty and a directory (otherwise empty) |
| Languages.SaveConfig | BadModLoader.py:157-160 | For every directory oracle, the file written loads back to the same settings whenever the language is a table key and the game path is empty or still a directory |
| Languages.ConfigRoundTrip | BadModLoader.py:140-160 | Saving and then loading gives back the same settings, provided the language is a table key and the game path is empty or still a directory |
| Languages.LoadedLanguageResolves | BadModLoader.py:140-155 | Whatever the configuration file holds, the loaded language resolves for packing |
| Languages.PackLanguageAsWritten | BadModLoader.py:273-294 | As written, packing proceeds only when the raw selection is a table key, and then with the same language the patch map uses |
| Languages.EmptySelectionDefeatsFallback | BadModLoader.py:273-294 | The as-written path agrees with the fallback on every non-empty selection. On the empty selection it fails, while the fallback gives English |
| PatchMap.ModLayoutIsEverySubfolder | BadModLoader.py:206 | A new mod's subfolder list names each of the six subfolders exactly once |
| PatchMap.ModLayoutNames | BadModLoader.py:206-208 | The directories a new mod gets are lua, images, text, message, data and root, in that order, and no two subfolders share a directory name |
| PatchMap.Map | BadModLoader.py:279 | The patch map has exactly the keys lua, images, data, text and message; root has no entry |
| PatchMap.Target | BadModLoader.py:279-324 | The patch a subfolder's content is merged into: Patch_0.dx11 for lua, the images patch for images, data and root, the text patch for text and message. No contract of its own; TargetIsMapEntry ties it to the patch map |
| PatchMap.TargetIsMapEntry | BadModLoader.py:302-324 | A mapped subfolder goes to its own map entry, and root goes to the images entry |
| PatchMap.EnglishTargets | BadModLoader.py:279-324 | For English, lua goes to Patch_0.dx11, images/data/root to Patch_1.dx11, and text/message to Patch_text01.dx11 |
| PatchMap.SameTarget | BadModLoader.py:279-324 | Two subfolders share a target patch exactly when they are in the same group (lua; images/data/root; text/message), or when the language is Japanese and neither is text or message |
| PatchMap.TargetDeterminesLanguage | BadModLoader.py:279 | For every subfolder except lua, the target patch name determines the language |
| ModNames.Filter | BadModLoader.py:195 | The filtered name keeps only alphanumerics, space, underscore and hyphen, and is no longer than the input |
| ModNames.FilterCounts | BadModLoader.py:195 | The filter keeps each allowed character as often as it occurs, and drops every other character |
| ModNames.FilterAppend | BadModLoader.py:195 | Filtering distributes over concatenation, so kept characters keep their order |
| ModNames.RStrip | BadModLoader.py:195 | The result is a prefix of the input, everything removed is whitespace, and the result does not end in whitespace |
| ModNames.Sanitize | BadModLoader.py:195 | The name create_mod works with is no longer than the name typed, holds only allowed characters and does not end in whitespace |
| ModNames.SanitizeShape | BadModLoader.py:195 | The sanitised name is the filtered name less a trailing whitespace run. It holds only allowed characters and does not end in whitespace |
| ModNames.SanitizeIdempotent | BadModLoader.py:195 | Sanitising a sanitised name changes nothing |
| ModNames.RStripEmpty | BadModLoader.py:195 | Stripping gives the empty string exactly when every character is whitespace |
| ModNames.SanitizeEmpty | BadModLoader.py:195-198 | A name is rejected as invalid exactly when each of its allowed characters is whitespace |
| ArchiveNames.Lower | BadModLoader.py:219 | Lower-casing keeps the length, leaves no upper-case letter, maps each upper-case letter to its lower-case partner and keeps every other character |
| ArchiveNames.LowerIdempotent | BadModLoader.py:219 | Lower-casing twice is lower-casing once |
| ArchiveNames.IsMvglName | BadModLoader.py:219 | A listed name is offered when its lower-cased form ends in .mvgl. No contract of its own; MvglNameCharacterised states it without lower-casing |
| ArchiveNames.IsPatchName | BadModLoader.py:251 | An extracted file counts as a patch when its lower-cased name starts with patch. No contract of its own; PatchBasesSpec states what it selects |
| ArchiveNames.MvglNameCharacterised | BadModLoader.py:219 | A name is offered exactly when it ends in a dot followed by m, v, g, l in any mix of cases |
| ArchiveNames.StripExt | BadModLoader.py:246 | The output directory name is a prefix of the file name. It is shorter exactly when some dot follows a non-dot character; then it stops at the last dot |
| ArchiveNames.StripMvgl | BadModLoader.py:246 | An offered archive extracts to its name less the five-character extension, unless the name is only dots before the extension |
| ArchiveNames.LexLeTotal | BadModLoader.py:219 | String order is total, so sorting is well defined |
| ArchiveNames.Sort | BadModLoader.py:219 | The sorted list is ordered and is a permutation of its input |
| ArchiveNames.OfferedFiles | BadModLoader.py:219 | The offered list is sorted. It holds each .mvgl name of the listing as often as listed, and nothing else |
| ArchiveNames.OpenExtractWindow | BadModLoader.py:214-226 | An error exactly when gamedata is not a directory. A notice exactly when it holds no .mvgl name. Otherwise a non-empty, sorted offer of exactly the .mvgl names, each as often as it is listed |
| ArchiveNames.PatchBases | BadModLoader.py:243-251 | The bases recorded by an extraction run, in selection order. No contract of its own; PatchBasesSpec states which bases are recorded |
| ArchiveNames.ExtractAll | BadModLoader.py:243-251 | Extracted/ after the run: each selected file's output directory is removed, then present again exactly when the tool succeeded. No contract of its own; ExtractAllUntouched and ExtractAllLastWriter state its effect |
| ArchiveNames.PatchBasesSpec | BadModLoader.py:243-251 | A patch base is recorded exactly for each selected file whose name starts with "patch" (any case), whatever its extraction outcome |
| ArchiveNames.ExtractAllUntouched | BadModLoader.py:244-250 | An output directory no selected file extracts to is left as it was |
| ArchiveNames.ExtractAllLastWriter | BadModLoader.py:244-250 | An output directory the run writes ends up present exactly when the last file extracted to it succeeded |
| Staging.HasContent | BadModLoader.py:268-270 | A subfolder counts as having content when it is a directory holding at least one entry (the negation of is_dir_empty). No contract of its own |
| Staging.ModVisits | BadModLoader.py:302-323 | One mod's non-empty subfolders, in the given order. No contract of its own; VisitsContents states what is visited |
| Staging.Visits | BadModLoader.py:297-323 | The visits of a packing run: each selected mod in turn, its subfolders in visit order. No contract of its own; VisitsContents states what is visited |
| Staging.Step | BadModLoader.py:304-339 | One staging step: an abort stays; a visit whose patch has a working copy adds an overlay; otherwise it aborts on a missing base or seeds the copy and adds the overlay. No contract of its own; StageMissing, StagedCopies and SeededOnce state its effect |
| Staging.Stage | BadModLoader.py:297-339 | The staging run as a fold of Step over the visits. No contract of its own; StageReference ties it to the independent description |
| Staging.VisitOrderIsEverySubfolderOnce | BadModLoader.py:302-323 | Within a mod, each of the six subfolders is visited exactly once: the map's keys in order, then root |
| Staging.Dedup | BadModLoader.py:319-339 | The modified-patch list holds exactly the patches given, each once |
| Staging.DedupFirstUse | BadModLoader.py:319-339 | The modified-patch list keeps the patches in the order in which they are first touched |
| Staging.OverlaysForContents | BadModLoader.py:316-337 | A working copy's overlays are exactly the visited subfolders that target its patch |
| Staging.StagedKeys | BadModLoader.py:302-339 | A completed staging has one working copy per targeted patch, in first-use order, and all of them have a base |
| Staging.StageMissing | BadModLoader.py:307-334 | Staging aborts exactly when some visit targets a patch with no base, and names the first such visit's patch |
| Staging.StagedCopies | BadModLoader.py:314-337 | Each working copy is its base followed by the overlays aimed at it, in visit order |
| Staging.StageReference | BadModLoader.py:297-339 | Ties the step-by-step staging to the independent description: abort on the first visit whose patch has no base; otherwise modified patches are the distinct targets in first-use order, each working copy being its base plus its overlays |
| Staging.VisitsContents | BadModLoader.py:297-323 | A run visits exactly the non-empty subfolders of the selected mods |
| Staging.AbortIff | BadModLoader.py:307-334 | A run aborts exactly when some patch touched by a selected mod has no base, and the patch it names is such a patch |
| Staging.TouchedIffTargeted | BadModLoader.py:297-339 | A patch is touched by the selection exactly when some visit targets it |
| Staging.TouchedIffModified | BadModLoader.py:297-339 | After successful staging: a patch is modified exactly when touched, has a working copy exactly then, appears once, and has a base |
| Staging.SeededOnce | BadModLoader.py:307-317 | After successful staging, every working copy starts from its base once and holds only overlays after that |
| Staging.OverlayPlacement | BadModLoader.py:302-339 | A selected mod's non-empty subfolder is merged into its target patch's working copy and into no other; root content goes to the patch the images entry names |
| Staging.NothingToPackIff | BadModLoader.py:341-345 | Nothing is staged exactly when no selected mod has a non-empty subfolder |
| Staging.NewModsPackNothing | BadModLoader.py:341-345 | Packing only freshly created mods, or names with no mod directory, stages nothing |
| Staging.MissingBaseSticks | BadModLoader.py:309-334 | Once staging has aborted, later visits change nothing |
| Staging.AbortAt | BadModLoader.py:309-334 | An abort part-way through a mod is the outcome of the whole run |
| Staging.ArchiveNameInjective | BadModLoader.py:350 | Different working copies pack to different archive names |
| Staging.Archives | BadModLoader.py:348-354 | The archives produced: one per staged patch whose pack command succeeds, in staging order. No contract of its own; ArchivesSpec and ArchivesOrder state what it produces |
| Staging.ArchivesOrder | BadModLoader.py:348-354 | The archives keep the staging order: each is named after a staged patch, and an earlier archive comes from an earlier patch |
| Staging.ArchivesSpec | BadModLoader.py:347-359 | An archive is produced for each staged patch whose pack succeeds, at most once each. Packing fails exactly when every pack fails |
| ModManager.App.constructor | BadModLoader.py:140-155 | Start-up takes the directories as found and the loaded settings, with no temporary directory |
| ModManager.App.CreateMod | BadModLoader.py:192-212 | Outcomes: cancel on no input; invalid when the sanitised name is empty; already-exists when that name is a mod. Otherwise the mod is added with all six subfolders, empty, and nothing else changes |
| ModManager.App.ExtractSelected | BadModLoader.py:243-251 | The extraction loop leaves Extracted/ as the extraction fold describes and returns the patch bases in selection order |
| ModManager.App.CopyPatches | BadModLoader.py:261-266 | Every patch directory gets copied, or the copy stops at the first patch with no extracted directory; that patch's old copy is already deleted |
| ModManager.App.PerformExtraction | BadModLoader.py:234-267 | Outcomes: no selection; extraction only (no patches, or copy declined); language lookup failure before the prompt, whenever patches were extracted and the language is unknown; copy complete; copy failed. States what each outcome leaves in Extracted/ and Extracted_Patches/ |
| ModManager.App.StageVisit | BadModLoader.py:304-319 | Staging one non-empty subfolder is one step of the staging fold: the base is seeded on first use and the subfolder is overlaid; aborts on a missing base |
| ModManager.App.StageEntry | BadModLoader.py:302-319 | Staging one patch map entry of a mod extends the staging fold by that subfolder's visit when it holds files, and by nothing otherwise |
| ModManager.App.StageMapped | BadModLoader.py:302-319 | The loop over the patch map's entries runs the staging fold over the mod's mapped subfolders, or reports where it aborted |
| ModManager.App.StageMod | BadModLoader.py:302-339 | One mod's staging, mapped subfolders then root, is the staging fold over its visits |
| ModManager.App.StageSelected | BadModLoader.py:295-339 | The staging loops compute exactly the staging fold over the selected mods; on success the working copies are the plan's |
| ModManager.App.PackStaged | BadModLoader.py:347-354 | The pack loop produces exactly the archives the packing specification gives, and they appear in the temporary directory |
| ModManager.App.MoveArchives | BadModLoader.py:361-382 | Archives move in order until a move fails. The destination (gamedata when installing, Packed otherwise) gains exactly the archives moved |
| ModManager.App.RemoveTemp | BadModLoader.py:384 | The temporary packing directory is gone, with every working copy and archive left in it; lines 312, 333, 344 and 358 make the same call on their early returns |
| ModManager.App.PackAndMove | BadModLoader.py:347-383 | The outcome is packing-failed exactly when the packing specification yields no archive; otherwise the archives are moved in order up to the first failure. Only the destination gains the moved archives, and the temporary directory is gone afterwards |
| ModManager.App.PackFor | BadModLoader.py:295-383 | For a resolved language, the outcome is the one the staging specification dictates (missing base, nothing to pack, packing failed, moved or move failed); the temporary directory is gone afterwards |
| ModManager.App.PackMods | BadModLoader.py:281-383 | No selection changes nothing. An unknown language stops with the temporary directory left behind. Otherwise the outcome follows the staging specification, only the destination directory gains archives, and the temporary directory is removed |

## Left out

- The user interface is not modelled: windows, widgets, the log pane and
  message boxes. Dialog answers and list selections are parameters.
  `refresh_mod_list`, `select_game_folder` and `validate_game_path` are UI
  only and are not modelled.
- `run_command` is a success predicate on the name it acts on: `extractOk` on
  the archive, `packOk` on the patch. Its output streaming and its error
  handling (tool missing, unexpected exceptions) are left out.
- The MVGL archive format and the tool's behaviour are not modelled. An
  extraction that fails is assumed to leave no output directory.
- `shutil.move` is a success predicate (`moveOk`) on the archive name. The
  directory copies are modelled as layers, not file trees, so file-level
  overwrite order inside a working copy is not modelled.
- `resource_path`, the tool location check at start-up, and
  `setup_initial_directories` are left out, as are directories created
  on demand (`Extracted/`, `Extracted_Patches/`, `Packed/`). The model takes
  these directories to exist.
- An `OSError` from `os.makedirs` in `create_mod` is not modelled: the model
  assumes creating the mod directory succeeds.
- `str.isalnum`, `str.isspace` and `str.lower` use Unicode tables in Python.
  The first two are abstract predicates; `str.lower` is modelled for the ASCII
  letters only.
- `json.load` results other than a missing key or a string are left out
  (for example a number stored as the language).
- ModManager.App.PackMods: the selected mods are a parameter. The source takes
  them from its checkbox list in sorted order; the model does not require
  that order.
- ModManager.App.PerformExtraction: a tool run that crashes the process, or a
  copy that fails for a reason other than a missing source directory, is not
  modelled.
- Names are compared exactly, character for character, while the program's
  filesystem (Windows, as its use of `subprocess.CREATE_NO_WINDOW` at
  BadModLoader.py:119 shows) ignores case. Three effects are not modelled:
  packing looks up a base such as `Patch_1.dx11` and finds one extracted as
  `patch_1.dx11`, where the model reports it missing; `create_mod("mymod")`
  reports an existing `MyMod` as already there, where the model creates a
  second mod; installing `Patch_1.dx11.MVGL` replaces the game's
  `Patch_1.dx11.mvgl`, where the model's gamedata keeps both names.
- ModManager.App.constructor: assumes no temporary packing directory is left
  from an earlier run; the program does not remove one at start-up, and only
  clears it when packing starts (BadModLoader.py:290).

## Findings

| source | as written | input that shows it | evidently intended | confidence | as-written member | corrected member |
|---|---|---|---|---|---|---|
| BadModLoader.py:273-294 | The patch map falls back to English for an empty language selection (lines 275-278). The log line at 294 then looks the raw selection up again and raises KeyError, leaving the temporary directory behind. Line 257 of the extraction prompt does the same raw lookup. | language selection "" (the fallback's own case) | an empty selection packs for English | low, not executed; the combobox is read-only and the loader always sets a key, so "" is not reachable through the UI | Languages.PackLanguageAsWritten, Languages.EmptySelectionDefeatsFallback | Languages.Resolve (used by ModManager.App.PackMods and ModManager.App.PerformExtraction) |
