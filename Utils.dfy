/** The helpers of an AppImage handle that look only at its path and at the raw file:
    the format sniffer (determineImageType) and the display-name fallback
    (calculateNiceName). */
module Utils {
  import opened Text

  /** What opening and stat-ing the path reveals. The content of a regular file is all its
      bytes, so its size is the length of its content. */
  datatype FileView =
    | CannotOpen                       // os.Open fails
    | CannotStat                       // os.Stat fails
    | Directory                        // info.IsDir()
    | RegularFile(content: seq<byte>)

  /** Files smaller than 100 KiB are never AppImages. */
  const MinimumSize: nat := 100 * 1024

  /** "AI\x02" at offset 8 marks a type 2 AppImage, "AI\x01" a type 1 AppImage. */
  const MarkerOffset: nat := 8
  const Type2Marker: seq<byte> := [0x41, 0x49, 0x02]
  const Type1Marker: seq<byte> := [0x41, 0x49, 0x01]

  /** The ELF magic at offset 0 and the ISO 9660 primary volume descriptor signature "CD001"
      at offset 32769. */
  const ElfMagic: seq<byte> := [0x7f, 0x45, 0x4c]
  const IsoOffset: nat := 32769
  const IsoSignature: seq<byte> := [0x43, 0x44, 0x30, 0x30, 0x31]

  /** The file holds exactly the bytes magic starting at offset. */
  predicate MagicAt(content: seq<byte>, magic: seq<byte>, offset: nat)
  {
    offset + |magic| <= |content| && content[offset..offset + |magic|] == magic
  }

  /** A regular file large enough to be considered at all. */
  predicate Candidate(file: FileView)
  {
    file.RegularFile? && |file.content| >= MinimumSize
  }

  /** An ISO 9660 image that is also an ELF executable. */
  predicate ElfIso(content: seq<byte>)
  {
    MagicAt(content, ElfMagic, 0) && MagicAt(content, IsoSignature, IsoOffset)
  }

  /** determineImageType: 2 or 1 for the two AppImage layouts, -1 for anything else. The
      explicit markers are checked before the ELF-plus-ISO 9660 heuristic. */
  function DetermineImageType(file: FileView): (t: int)
    ensures t == -1 || t == 1 || t == 2
  {
    match file
    case CannotOpen => -1
    case CannotStat => -1
    case Directory => -1
    case RegularFile(content) =>
      if |content| < MinimumSize then -1
      else if MagicAt(content, Type2Marker, MarkerOffset) then 2
      else if MagicAt(content, Type1Marker, MarkerOffset) then 1
      else if ElfIso(content) then 1
      else -1
  }

  /** The classification in full: 2 exactly for large regular files with the type 2 marker;
      1 exactly for large regular files without it that carry the type 1 marker or are
      ELF-plus-ISO 9660; -1 for everything else. */
  lemma ImageTypeClassification(file: FileView)
    ensures DetermineImageType(file) == 2 <==>
      Candidate(file) && MagicAt(file.content, Type2Marker, MarkerOffset)
    ensures DetermineImageType(file) == 1 <==>
      Candidate(file) && !MagicAt(file.content, Type2Marker, MarkerOffset) &&
      (MagicAt(file.content, Type1Marker, MarkerOffset) || ElfIso(file.content))
    ensures DetermineImageType(file) == -1 <==>
      !Candidate(file) ||
      (!MagicAt(file.content, Type2Marker, MarkerOffset) &&
       !MagicAt(file.content, Type1Marker, MarkerOffset) && !ElfIso(file.content))
  {
  }

  /** A path that cannot be opened or stat-ed, or that is a directory, is not an AppImage. */
  lemma UnreadableIsNotAppImage(file: FileView)
    requires file.CannotOpen? || file.CannotStat? || file.Directory?
    ensures DetermineImageType(file) == -1
  {
  }

  /** Whatever its bytes, a file under 100 KiB is not an AppImage. */
  lemma SmallFileIsNotAppImage(content: seq<byte>)
    requires |content| < MinimumSize
    ensures DetermineImageType(RegularFile(content)) == -1
  {
  }

  /** The type 2 marker wins over everything else the file may contain, including the type 1
      marker's competitor, the ELF-plus-ISO 9660 layout. */
  lemma Type2MarkerWins(content: seq<byte>)
    requires |content| >= MinimumSize
    requires MagicAt(content, Type2Marker, MarkerOffset)
    ensures DetermineImageType(RegularFile(content)) == 2
  {
  }

  lemma Type1MarkerGivesType1(content: seq<byte>)
    requires |content| >= MinimumSize
    requires MagicAt(content, Type1Marker, MarkerOffset)
    ensures DetermineImageType(RegularFile(content)) == 1
  {
  }

  /** Without a marker, an ELF executable that is also an ISO 9660 image is type 1. */
  lemma ElfIsoIsType1(content: seq<byte>)
    requires |content| >= MinimumSize
    requires !MagicAt(content, Type2Marker, MarkerOffset)
    requires ElfIso(content)
    ensures DetermineImageType(RegularFile(content)) == 1
  {
  }

  /** The base name without the AppImage extension and the architecture tags, each deleted
      wherever it occurs, in this order. */
  function StripTags(name: string): string
  {
    var name1 := ReplaceAll(name, ".AppImage", "");
    var name2 := ReplaceAll(name1, ".appimage", "");
    var name3 := ReplaceAll(name2, "-x86_64", "");
    var name4 := ReplaceAll(name3, "-i386", "");
    var name5 := ReplaceAll(name4, "-i686", "");
    var name6 := ReplaceAll(name5, "-aarch64", "");
    ReplaceAll(name6, "-armhf", "")
  }

  /** calculateNiceName: the base name of the path without the AppImage extension and the
      architecture tags, with '-' and '_' turned into spaces. The tags are removed before
      '-' is replaced, so "-x86_64" is still recognised. */
  function NiceName(path: string): string
  {
    ReplaceAll(ReplaceAll(StripTags(Base(path)), "-", " "), "_", " ")
  }

  /** The display name holds no '-' and no '_', and is never longer than the base name:
      every step deletes text or swaps one character for one. */
  lemma NiceNameShape(path: string)
    ensures '-' !in NiceName(path) && '_' !in NiceName(path)
    ensures |NiceName(path)| <= |Base(path)|
  {
    var stripped := StripTags(Base(path));
    var dashless := ReplaceAll(stripped, "-", " ");
    ReplaceCharRemoves(stripped, '-', ' ');
    ReplaceKeepsAbsent(dashless, "_", " ", '-');
    ReplaceCharRemoves(dashless, '_', ' ');
  }

  /** The example: in any directory, "my-app-1.2-x86_64.AppImage" is
      shown as "my app 1.2" — the architecture tag and the extension are dropped and the
      dashes become spaces. */
  lemma NiceNameExample(dir: string)
    ensures NiceName(dir + "/my-app-1.2-x86_64.AppImage") == "my app 1.2"
  {
    var path := dir + "/my-app-1.2-x86_64.AppImage";
    BaseOfExample(dir);
    StripTagsExample(Base(path));
    SpaceDashes("my-app-1.2");
    KeepUnderscoreFree("my app 1.2");
  }

  // The steps of NiceNameExample. Their subjects are parameters, cut into literal pieces, so
  // that the verifier steps through the text by the lemmas about ReplaceAll rather than by
  // unfolding it.

  lemma BaseOfExample(dir: string)
    ensures Base(dir + "/my-app-1.2-x86_64.AppImage") == "my-app-1.2-x86_64.AppImage"
  {
    var path := dir + "/my-app-1.2-x86_64.AppImage";
    var file := path[|dir| + 1..];
    assert path == dir + "/" + file;
    assert file == "my-app-1.2-x86_64.AppImage";
    assert '/' !in file;
    BaseOfChild(dir, file);
  }

  lemma StripTagsExample(s0: string)
    requires s0 == "my-app-1.2-x86_64.AppImage"
    ensures StripTags(s0) == "my-app-1.2"
  {
    var s1 := ReplaceAll(s0, ".AppImage", "");
    DropExtension(s0);
    var s2 := ReplaceAll(s1, ".appimage", "");
    KeepLowerExtension(s1);
    var s3 := ReplaceAll(s2, "-x86_64", "");
    DropX86Tag(s2);
    ArchTagMisses(s3, "-i386");
    ArchTagMisses(s3, "-i686");
    ArchTagMisses(s3, "-aarch64");
    ArchTagMisses(s3, "-armhf");
  }

  lemma DropExtension(s: string)
    requires s == "my-app-1.2-x86_64.AppImage"
    ensures ReplaceAll(s, ".AppImage", "") == "my-app-1.2-x86_64"
  {
    var tail := ".2-x86_64.AppImage";
    assert s == "my-app-1" + tail;
    assert "my-app-1" + ".2-x86_64" == "my-app-1.2-x86_64";
    DropExtensionTail(tail);
    ReplaceAllSkipsFree("my-app-1", tail, ".AppImage", "");
  }

  lemma DropExtensionTail(s: string)
    requires s == ".2-x86_64.AppImage"
    ensures ReplaceAll(s, ".AppImage", "") == ".2-x86_64"
  {
    var p, b := ".AppImage", "2-x86_64";
    assert s == ['.'] + (b + (p + []));
    assert [s[0]] + (b + []) == ".2-x86_64";
    assert s[1..] == b + (p + []);
    ReplaceAllMatch([], p, "");
    ReplaceAllSkipsFree(b, p + [], p, "");
    ReplaceAllMismatch(s, p, "", 1);
  }

  lemma KeepLowerExtension(s: string)
    requires s == "my-app-1.2-x86_64"
    ensures ReplaceAll(s, ".appimage", "") == s
  {
    var p, a, b := ".appimage", "my-app-1", "2-x86_64";
    var tail := ['.'] + b;
    assert s == a + tail;
    ReplaceAllSkipsFree(b, [], p, "");
    assert b + [] == b;
    ReplaceAllMismatch(tail, p, "", 1);
    assert tail[1..] == b;
    ReplaceAllSkipsFree(a, tail, p, "");
  }

  lemma DropX86Tag(s: string)
    requires s == "my-app-1.2-x86_64"
    ensures ReplaceAll(s, "-x86_64", "") == "my-app-1.2"
  {
    var app := "-app-1.2-x86_64";
    assert s == "my" + app;
    assert "my" + "-app-1.2" == "my-app-1.2";
    DropX86TagMiddle(app);
    ReplaceAllSkipsFree("my", app, "-x86_64", "");
  }

  lemma DropX86TagMiddle(s: string)
    requires s == "-app-1.2-x86_64"
    ensures ReplaceAll(s, "-x86_64", "") == "-app-1.2"
  {
    var p, version := "-x86_64", "-1.2-x86_64";
    assert s == ['-'] + ("app" + version);
    assert [s[0]] + ("app" + "-1.2") == "-app-1.2";
    assert s[1..] == "app" + version;
    DropX86TagTail(version);
    ReplaceAllSkipsFree("app", version, p, "");
    ReplaceAllMismatch(s, p, "", 1);
  }

  lemma DropX86TagTail(s: string)
    requires s == "-1.2-x86_64"
    ensures ReplaceAll(s, "-x86_64", "") == "-1.2"
  {
    var p := "-x86_64";
    assert s == ['-'] + ("1.2" + (p + []));
    assert [s[0]] + ("1.2" + []) == "-1.2";
    assert s[1..] == "1.2" + (p + []);
    ReplaceAllMatch([], p, "");
    ReplaceAllSkipsFree("1.2", p + [], p, "");
    ReplaceAllMismatch(s, p, "", 1);
  }

  lemma SpaceDashes(s: string)
    requires s == "my-app-1.2"
    ensures ReplaceAll(s, "-", " ") == "my app 1.2"
  {
    ReplaceSingleChar(s, '-', ' ');
    var r := Substitute(s, '-', ' ');
    assert |r| == 10;
    forall i | 0 <= i < 10 ensures r[i] == "my app 1.2"[i] {}
  }

  lemma KeepUnderscoreFree(s: string)
    requires s == "my app 1.2"
    ensures ReplaceAll(s, "_", " ") == s
  {
    ReplaceAllSkipsFree(s, s[10..], "_", " ");
    assert s + s[10..] == s;
  }

  lemma ArchTagMisses(s: string, tag: string)
    requires s == "my-app-1.2"
    requires tag in {"-i386", "-i686", "-aarch64", "-armhf"}
    ensures ReplaceAll(s, tag, "") == s
  {
    var version := ['-'] + "1.2";
    var app := ['-'] + ("app" + version);
    assert s == "my" + app;
    ReplaceAllSkipsFree("1.2", [], tag, "");
    assert "1.2" + [] == "1.2";
    ReplaceAllMismatch(version, tag, "", 1);
    assert version[1..] == "1.2";
    ReplaceAllSkipsFree("app", version, tag, "");
    ReplaceAllMismatch(app, tag, "", if tag[1] != 'a' then 1 else 2);
    assert app[1..] == "app" + version;
    ReplaceAllSkipsFree("my", app, tag, "");
  }
}
