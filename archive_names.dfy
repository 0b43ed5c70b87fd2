/**
 * File-name logic of the extraction dialog: which game data files are
 * offered (names ending in ".mvgl", ignoring case, in sorted order), the
 * directory each is extracted to (the name without its last extension) and
 * which ones count as patches (names starting with "patch", ignoring case).
 */
module ArchiveNames {
  import opened Options

  /** Case folding, for the ASCII letters. */
  function LowerChar(c: char): char {
    if 'A' <= c <= 'Z' then (c as int + 32) as char else c
  }

  /**
   * str.lower(), for the ASCII letters: no upper-case letter is left, each
   * upper-case letter becomes its lower-case partner, and every other
   * character is kept.
   */
  function Lower(s: string): (r: string)
    ensures |r| == |s|
    ensures forall i :: 0 <= i < |r| ==> !('A' <= r[i] <= 'Z')
    ensures forall i :: 0 <= i < |s| && 'A' <= s[i] <= 'Z' ==> r[i] as int == s[i] as int + 32
    ensures forall i :: 0 <= i < |s| && !('A' <= s[i] <= 'Z') ==> r[i] == s[i]
  {
    seq(|s|, i requires 0 <= i < |s| => LowerChar(s[i]))
  }

  /** Lower-casing twice is lower-casing once. */
  lemma LowerIdempotent(s: string)
    ensures Lower(Lower(s)) == Lower(s)
  {
  }

  /** name.lower().endswith(".mvgl") */
  predicate IsMvglName(name: string) {
    var low := Lower(name);
    |low| >= 5 && low[|low| - 5..] == ".mvgl"
  }

  /** name.lower().startswith("patch") */
  predicate IsPatchName(name: string) {
    var low := Lower(name);
    |low| >= 5 && low[..5] == "patch"
  }

  /** Any spelling of the extension, in any mix of cases, is recognised. */
  lemma MvglNameCharacterised(name: string)
    ensures IsMvglName(name) <==>
              && |name| >= 5
              && name[|name| - 5] == '.'
              && name[|name| - 4] in "mM"
              && name[|name| - 3] in "vV"
              && name[|name| - 2] in "gG"
              && name[|name| - 1] in "lL"
  {
    var low := Lower(name);
    if |name| >= 5 {
      var n := |name|;
      assert low[n - 5..] == [low[n - 5], low[n - 4], low[n - 3], low[n - 2], low[n - 1]];
    }
  }

  /** The position of the last '.' in p, if any. */
  function LastDot(p: string): (r: Option<nat>)
    ensures r.Some? ==> r.value < |p| && p[r.value] == '.' && forall j :: r.value < j < |p| ==> p[j] != '.'
    ensures r.None? ==> forall j :: 0 <= j < |p| ==> p[j] != '.'
  {
    if p == [] then None
    else if p[|p| - 1] == '.' then Some(|p| - 1)
    else LastDot(p[..|p| - 1])
  }

  /**
   * os.path.splitext(p)[0] for a bare file name (no directory separator):
   * the name up to its last dot, provided some character before that dot
   * is not itself a dot; otherwise the whole name.
   */
  function StripExt(p: string): (r: string)
    ensures r <= p
    ensures r != p ==> p[|r|] == '.' && (forall j :: |r| < j < |p| ==> p[j] != '.')
    ensures r != p ==> exists i :: 0 <= i < |r| && r[i] != '.'
    ensures r != p <==> exists i, d :: 0 <= i < d < |p| && p[i] != '.' && p[d] == '.'
  {
    match LastDot(p)
    case None => p
    case Some(d) => if exists i :: 0 <= i < d && p[i] != '.' then p[..d] else p
  }

  /**
   * For an offered archive, the extraction directory is the name less its
   * five-character extension, unless everything before the extension is
   * dots (".mvgl", "..mvgl"), in which case it is the whole name.
   */
  lemma StripMvgl(name: string)
    requires IsMvglName(name)
    ensures StripExt(name) ==
              if forall i :: 0 <= i < |name| - 5 ==> name[i] == '.' then name else name[..|name| - 5]
  {
    MvglNameCharacterised(name);
    var d := |name| - 5;
    assert LastDot(name) == Some(d) by {
      assert name[..|name| - 1][..|name| - 2] == name[..|name| - 2];
      assert name[..|name| - 2][..|name| - 3] == name[..|name| - 3];
      assert name[..|name| - 3][..|name| - 4] == name[..|name| - 4];
      assert LastDot(name[..|name| - 4]) == Some(d);
    }
  }

  // ---------------------------------------------------------------------
  // Python's sorted() on file names: code point order, prefix first.

  /** a <= b on Python strings. */
  predicate LexLe(a: string, b: string) {
    a == [] || (b != [] && (a[0] < b[0] || (a[0] == b[0] && LexLe(a[1..], b[1..]))))
  }

  lemma {:induction false} LexLeTotal(a: string, b: string)
    ensures LexLe(a, b) || LexLe(b, a)
  {
    if a != [] && b != [] && a[0] == b[0] {
      LexLeTotal(a[1..], b[1..]);
    }
  }

  predicate Sorted(s: seq<string>) {
    forall i :: 0 < i < |s| ==> LexLe(s[i - 1], s[i])
  }

  /** Insert x into a sorted list. */
  function Insert(x: string, s: seq<string>): (r: seq<string>)
    requires Sorted(s)
    ensures Sorted(r)
    ensures multiset(r) == multiset(s) + multiset{x}
    ensures r[0] == x || (s != [] && r[0] == s[0])
  {
    if s == [] then [x]
    else if LexLe(x, s[0]) then [x] + s
    else
      LexLeTotal(x, s[0]);
      assert s == [s[0]] + s[1..];
      [s[0]] + Insert(x, s[1..])
  }

  /** sorted(s) */
  function Sort(s: seq<string>): (r: seq<string>)
    ensures Sorted(r)
    ensures multiset(r) == multiset(s)
  {
    if s == [] then []
    else
      assert s == [s[0]] + s[1..];
      Insert(s[0], Sort(s[1..]))
  }

  /** The names of s that end in ".mvgl", in order. */
  function MvglNames(s: seq<string>): (r: seq<string>)
    ensures forall f :: multiset(r)[f] == if IsMvglName(f) then multiset(s)[f] else 0
  {
    if s == [] then []
    else
      assert s == [s[0]] + s[1..];
      (if IsMvglName(s[0]) then [s[0]] else []) + MvglNames(s[1..])
  }

  /**
   * The list offered for extraction from a directory listing: the .mvgl
   * names, each as often as listed, in sorted order.
   */
  function OfferedFiles(listing: seq<string>): (r: seq<string>)
    ensures Sorted(r)
    ensures forall f :: multiset(r)[f] == if IsMvglName(f) then multiset(listing)[f] else 0
    ensures forall f :: f in r <==> f in listing && IsMvglName(f)
  {
    var r := Sort(MvglNames(listing));
    assert forall f :: f in r <==> f in multiset(r);
    assert forall f :: f in listing <==> f in multiset(listing);
    r
  }

  /** What opening the extraction dialog leads to. */
  datatype ExtractOffer = NoGamedata | NoMvglFiles | Offer(files: seq<string>)

  /**
   * The extraction dialog: an error when gamedata is not a directory, a
   * notice when it holds no .mvgl file, and otherwise the offered list.
   */
  function OpenExtractWindow(gamedataIsDir: bool, listing: seq<string>): (o: ExtractOffer)
    ensures o == NoGamedata <==> !gamedataIsDir
    ensures o == NoMvglFiles <==> gamedataIsDir && forall f :: f in listing ==> !IsMvglName(f)
    ensures o.Offer? ==> o.files != [] && Sorted(o.files)
    ensures o.Offer? ==> forall f :: f in o.files <==> f in listing && IsMvglName(f)
    ensures o.Offer? ==> forall f :: multiset(o.files)[f] == if IsMvglName(f) then multiset(listing)[f] else 0
  {
    if !gamedataIsDir then NoGamedata
    else
      var files := OfferedFiles(listing);
      if files == [] then NoMvglFiles else Offer(files)
  }

  // ---------------------------------------------------------------------
  // Bookkeeping of an extraction run over the selected files.

  /** The bases of the selected files that count as patches, in selection order. */
  function PatchBases(files: seq<string>): seq<string> {
    if files == [] then []
    else
      var f := files[|files| - 1];
      PatchBases(files[..|files| - 1]) + (if IsPatchName(f) then [StripExt(f)] else [])
  }

  /**
   * A base is recorded exactly for the selected files named like a patch,
   * whatever the outcome of their extraction.
   */
  lemma {:induction false} PatchBasesSpec(files: seq<string>)
    ensures |PatchBases(files)| <= |files|
    ensures forall b :: b in PatchBases(files) <==> exists f :: f in files && IsPatchName(f) && StripExt(f) == b
  {
    if files != [] {
      var pre := files[..|files| - 1];
      PatchBasesSpec(pre);
      assert files == pre + [files[|files| - 1]];
    }
  }

  /**
   * The directories under Extracted after extracting files in order: each
   * file's output directory is removed, then present again exactly when the
   * tool succeeded.
   */
  function ExtractAll(dirs: set<string>, files: seq<string>, extractOk: string -> bool): set<string> {
    if files == [] then dirs
    else
      var f := files[|files| - 1];
      var before := ExtractAll(dirs, files[..|files| - 1], extractOk);
      if extractOk(f) then before + {StripExt(f)} else before - {StripExt(f)}
  }

  /** An output directory no selected file extracts to is left as it was. */
  lemma {:induction false} ExtractAllUntouched(dirs: set<string>, files: seq<string>, extractOk: string -> bool, b: string)
    requires forall f :: f in files ==> StripExt(f) != b
    ensures b in ExtractAll(dirs, files, extractOk) <==> b in dirs
  {
    if files != [] {
      var pre := files[..|files| - 1];
      assert forall g :: g in pre ==> g in files;
      ExtractAllUntouched(dirs, pre, extractOk, b);
    }
  }

  /**
   * An output directory the run writes is present afterwards exactly when
   * the last file extracted to it succeeded.
   */
  lemma {:induction false} ExtractAllLastWriter(dirs: set<string>, files: seq<string>, extractOk: string -> bool, k: nat)
    requires k < |files|
    requires forall j :: k < j < |files| ==> StripExt(files[j]) != StripExt(files[k])
    ensures StripExt(files[k]) in ExtractAll(dirs, files, extractOk) <==> extractOk(files[k])
  {
    if k < |files| - 1 {
      var pre := files[..|files| - 1];
      assert pre[k] == files[k];
      assert forall j :: k < j < |pre| ==> pre[j] == files[j];
      ExtractAllLastWriter(dirs, pre, extractOk, k);
    }
  }
}
