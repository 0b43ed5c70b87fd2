/**
 * The mod folder layout and the language-dependent patch map: which patch
 * archive each mod subfolder is merged into.
 */
module PatchMap {
  import opened Languages

  /** The six subfolders of a mod. */
  datatype Subfolder = Lua | Images | Text | Message | Data | Root

  /** The directory name of a subfolder inside a mod directory. */
  function FolderName(f: Subfolder): string {
    match f
    case Lua => "lua"
    case Images => "images"
    case Text => "text"
    case Message => "message"
    case Data => "data"
    case Root => "root"
  }

  /** The subfolders a new mod is created with, in creation order. */
  const ModLayout: seq<Subfolder> := [Lua, Images, Text, Message, Data, Root]

  /** The keys of the patch map, in the map's own (insertion) order. */
  const MapOrder: seq<Subfolder> := [Lua, Images, Data, Text, Message]

  lemma ModLayoutIsEverySubfolder()
    ensures |ModLayout| == 6
    ensures forall f: Subfolder :: f in ModLayout
    ensures forall i, j :: 0 <= i < j < |ModLayout| ==> ModLayout[i] != ModLayout[j]
  {
    forall f: Subfolder ensures f in ModLayout {
      match f
      case Lua => assert ModLayout[0] == f;
      case Images => assert ModLayout[1] == f;
      case Text => assert ModLayout[2] == f;
      case Message => assert ModLayout[3] == f;
      case Data => assert ModLayout[4] == f;
      case Root => assert ModLayout[5] == f;
    }
  }

  /**
   * A new mod's directories, in creation order, are lua, images, text,
   * message, data and root; no two subfolders share a directory name.
   */
  lemma ModLayoutNames()
    ensures seq(|ModLayout|, i requires 0 <= i < |ModLayout| => FolderName(ModLayout[i]))
              == ["lua", "images", "text", "message", "data", "root"]
    ensures forall f, g :: FolderName(f) == FolderName(g) ==> f == g
  {
  }

  /** The file name of the patch shared by lua content in every language. */
  const LuaPatch: string := "Patch_0.dx11"

  function ImagesPatch(l: Language): string {
    "Patch_" + Code(l) + ".dx11"
  }

  function TextPatch(l: Language): string {
    "Patch_text0" + Code(l) + ".dx11"
  }

  /** The patch map built for a language: five entries, no entry for root. */
  function Map(l: Language): (m: map<Subfolder, string>)
    ensures m.Keys == {Lua, Images, Data, Text, Message}
    ensures forall f :: f in MapOrder <==> f in m
  {
    map[Lua := LuaPatch, Images := ImagesPatch(l), Data := ImagesPatch(l),
        Text := TextPatch(l), Message := TextPatch(l)]
  }

  /**
   * The patch a subfolder's content is merged into: its patch map entry,
   * and for root the images entry (see TargetIsMapEntry).
   */
  function Target(l: Language, f: Subfolder): string {
    match f
    case Lua => LuaPatch
    case Images | Data | Root => ImagesPatch(l)
    case Text | Message => TextPatch(l)
  }

  /** Every mapped subfolder targets its own map entry; root targets the images entry. */
  lemma TargetIsMapEntry(l: Language, f: Subfolder)
    ensures f in Map(l) ==> Target(l, f) == Map(l)[f]
    ensures f == Root ==> Target(l, f) == Map(l)[Images]
  {
  }

  /** The three groups of subfolders that share a patch in every language. */
  function Group(f: Subfolder): nat {
    match f
    case Lua => 0
    case Images | Data | Root => 1
    case Text | Message => 2
  }

  /** The patch map for English, written out. */
  lemma EnglishTargets()
    ensures Target(English, Lua) == "Patch_0.dx11"
    ensures Target(English, Images) == "Patch_1.dx11"
    ensures Target(English, Data) == "Patch_1.dx11"
    ensures Target(English, Root) == "Patch_1.dx11"
    ensures Target(English, Text) == "Patch_text01.dx11"
    ensures Target(English, Message) == "Patch_text01.dx11"
  {
  }

  /**
   * Two subfolders target the same patch exactly when they are in the same
   * group, or the language is Japanese (code 0) and neither is a text group
   * subfolder: then lua and the images group share Patch_0.dx11.
   */
  lemma SameTarget(l: Language, f: Subfolder, g: Subfolder)
    ensures Target(l, f) == Target(l, g) <==>
              Group(f) == Group(g) || (l == Japanese && Group(f) != 2 && Group(g) != 2)
  {
    var lua, img, txt := LuaPatch, ImagesPatch(l), TextPatch(l);
    assert txt[6] == 't' && img[6] == Code(l)[0] && lua[6] == '0';
    assert txt != img && txt != lua;
    assert img == lua <==> l == Japanese by {
      if l != Japanese {
        assert img[6] != lua[6];
      }
    }
  }

  /** Apart from lua, the patch a subfolder targets determines the language. */
  lemma TargetDeterminesLanguage(l1: Language, l2: Language, f: Subfolder)
    requires f != Lua
    requires Target(l1, f) == Target(l2, f)
    ensures l1 == l2
  {
    var p1, p2 := Target(l1, f), Target(l2, f);
    if Group(f) == 1 {
      assert p1[6] == Code(l1)[0] && p2[6] == Code(l2)[0];
    } else {
      assert p1[11] == Code(l1)[0] && p2[11] == Code(l2)[0];
    }
  }
}
