/** An AppImage handle: construction from a path (type sniffing, offset, desktop-file
    sanitising and the metadata fallbacks), the integration decision, icon resolution and the
    update-information string. The archive reader, the desktop-file parser and the ELF reader
    are outside collaborators; the model takes what they deliver as values. */
module AppImage {
  import opened Text
  import opened Errors
  import opened Utils

  // ---------------------------------------------------------------------------------------
  // The parsed desktop file

  /** A parsed desktop file: sections by name, each mapping keys to values. */
  type Section = map<string, string>
  type IniFile = map<string, Section>

  /** Section("Desktop Entry"): a section the file lacks reads as an empty one. */
  function DesktopEntry(file: IniFile): Section
  {
    if "Desktop Entry" in file then file["Desktop Entry"] else map[]
  }

  /** Key(key).Value(): a key the section lacks reads as "". */
  function Value(section: Section, key: string): string
  {
    if key in section then section[key] else ""
  }

  // ---------------------------------------------------------------------------------------
  // What construction learns from outside the program

  /** The archive embedded in the AppImage, as its reader presents it. */
  datatype Archive = Archive(
    root: seq<string>,           // ListFiles("/"), in listing order
    readable: set<string>,       // the paths whose FileReader succeeds
    desktopFile: Option<string>) // the text of the entry matching "*.desktop", if one does

  datatype Host = Host(
    file: FileView,                    // what determineImageType finds at the path
    elfSize: int,                      // helpers.CalculateElfSize(path)
    archive: Option<Archive>,          // populateReader's reader; None when it fails
    parse: string -> Option<IniFile>)  // ini.Load; None when it rejects the text

  // ---------------------------------------------------------------------------------------
  // Rejecting temporary files

  /** Browsers and download tools leave files with these suffixes while they work. */
  predicate IsTemporaryPath(path: string)
  {
    HasSuffix(path, ".temp") ||
    HasSuffix(path, "~") ||
    HasSuffix(path, ".part") ||
    HasSuffix(path, ".partial") ||
    HasSuffix(path, ".zs-old") ||
    HasSuffix(path, ".crdownload")
  }

  // ---------------------------------------------------------------------------------------
  // Sanitising the desktop file

  /** U+FF1B FULLWIDTH SEMICOLON: it stands in for ';' so that the parser does not take the
      list separator for syntax of its own. */
  const Placeholder: char := '\U{FF1B}'

  /** The desktop text with every ';' replaced by the placeholder. */
  function Sanitised(text: string): string
  {
    Substitute(text, ';', Placeholder)
  }

  /** bufio.Reader.ReadString('\n') on the unread rest of the text: the text up to and
      including the first newline, or, when there is none, all of it together with EOF. */
  function ReadString(rest: string): (read: (string, bool))
    ensures HasPrefix(rest, read.0)
    ensures read.1 ==> read.0 == rest && '\n' !in rest
    ensures !read.1 ==> read.0 != [] && read.0[|read.0| - 1] == '\n' && '\n' !in read.0[..|read.0| - 1]
    decreases |rest|
  {
    if rest == [] then ([], true)
    else if rest[0] == '\n' then (['\n'], false)
    else
      var (line, eof) := ReadString(rest[1..]);
      ([rest[0]] + line, eof)
  }

  /** The cleaning loop of NewAppImage: read line by line until a read reports EOF, replace
      the semicolons of each line that has one, and append every line, the last one too. */
  method SanitiseDesktop(text: string) returns (desktop: string)
    ensures desktop == Sanitised(text)
  {
    desktop := [];
    var pos := 0;
    var eof := false;
    while !eof
      invariant 0 <= pos <= |text|
      invariant eof ==> pos == |text|
      invariant desktop == Sanitised(text[..pos])
      decreases |text| - pos, !eof
    {
      var read := ReadString(text[pos..]);
      var line := read.0;
      eof := read.1;
      var next := pos + |line|;
      assert text[pos..next] == line;
      SanitisedExtend(text, pos, next);
      SanitiseLine(line);
      if ';' in line {
        line := ReplaceAll(line, ";", [Placeholder]);
      }
      desktop := desktop + line;
      pos := next;
    }
    assert text[..pos] == text;
  }

  /** Sanitising a longer stretch of the text appends the sanitised new part. */
  lemma SanitisedExtend(text: string, pos: nat, next: nat)
    requires pos <= next <= |text|
    ensures Sanitised(text[..next]) == Sanitised(text[..pos]) + Sanitised(text[pos..next])
  {
    assert text[..next] == text[..pos] + text[pos..next];
    SubstituteAppend(text[..pos], text[pos..next], ';', Placeholder);
  }

  /** What the loop does to one line is sanitising it. */
  lemma SanitiseLine(line: string)
    ensures (if ';' in line then ReplaceAll(line, ";", [Placeholder]) else line) == Sanitised(line)
  {
    ReplaceSingleChar(line, ';', Placeholder);
    if ';' !in line {
      var s := Sanitised(line);
      forall i | 0 <= i < |line| ensures s[i] == line[i] {
        assert line[i] in line;
      }
    }
  }

  /** Sanitising leaves no ';' behind and keeps the length in characters. */
  lemma SanitisedShape(text: string)
    ensures |Sanitised(text)| == |text|
    ensures ';' !in Sanitised(text)
  {
    var s := Sanitised(text);
    forall i | 0 <= i < |s| ensures s[i] != ';' {}
  }

  /** Sanitising changes nothing but the semicolons: on text without the placeholder,
      turning the placeholders back gives the original. */
  lemma SanitisedInverse(text: string)
    requires Placeholder !in text
    ensures Substitute(Sanitised(text), Placeholder, ';') == text
  {
    var back := Substitute(Sanitised(text), Placeholder, ';');
    forall i | 0 <= i < |text| ensures back[i] == text[i] {
      assert text[i] != Placeholder;
    }
  }

  /** Splitting the sanitised text on the placeholder gives the pieces the original text has
      between its semicolons, provided the original holds no placeholder of its own. */
  lemma {:induction false} SplitSanitised(text: string)
    requires Placeholder !in text
    ensures Split(Sanitised(text), Placeholder) == Split(text, ';')
    decreases |text|
  {
    if text != [] {
      var s := Sanitised(text);
      assert Placeholder !in text[1..] by { assert forall x :: x in text[1..] ==> x in text; }
      SplitSanitised(text[1..]);
      assert s[1..] == Sanitised(text[1..]);
      assert text[0] != Placeholder by { assert text[0] in text; }
      assert s[0] == Placeholder <==> text[0] == ';';
    }
  }

  // ---------------------------------------------------------------------------------------
  // The metadata fields

  /** A list-valued key (Categories, MimeType): its value split on the placeholder. */
  function ListField(entry: Section, key: string): seq<string>
  {
    Split(Value(entry, key), Placeholder)
  }

  /** "Utility；Development；" lists Utility and Development and then an empty item. */
  lemma CategoriesExample(entry: Section)
    requires Value(entry, "Categories") == "Utility\U{FF1B}Development\U{FF1B}"
    ensures ListField(entry, "Categories") == ["Utility", "Development", ""]
  {
    var parts := ["Utility", "Development", ""];
    assert Join(parts, Placeholder) == "Utility\U{FF1B}Development\U{FF1B}";
    assert forall k :: 0 <= k < |parts| ==> Placeholder !in parts[k];
    SplitJoin(parts, Placeholder);
  }

  /** An absent or empty list key gives a list of one empty item. */
  lemma EmptyListField(entry: Section, key: string)
    requires Value(entry, key) == ""
    ensures ListField(entry, key) == [""]
  {
  }

  /** The version: X-AppImage-Version, else Version, else "1.0". */
  function ResolveVersion(entry: Section): (version: string)
    ensures version != ""
    ensures version == Value(entry, "X-AppImage-Version") || version == Value(entry, "Version") || version == "1.0"
  {
    if Value(entry, "X-AppImage-Version") != "" then Value(entry, "X-AppImage-Version")
    else if Value(entry, "Version") != "" then Value(entry, "Version")
    else "1.0"
  }

  /** A declared X-AppImage-Version takes precedence over Version, which takes precedence
      over the default. */
  lemma VersionPrecedence(entry: Section)
    ensures Value(entry, "X-AppImage-Version") != "" ==> ResolveVersion(entry) == Value(entry, "X-AppImage-Version")
    ensures Value(entry, "X-AppImage-Version") == "" && Value(entry, "Version") != "" ==>
      ResolveVersion(entry) == Value(entry, "Version")
    ensures Value(entry, "X-AppImage-Version") == "" && Value(entry, "Version") == "" ==>
      ResolveVersion(entry) == "1.0"
  {
  }

  /** The name: the declared Name, else the name derived from the file name. */
  function ResolveName(path: string, entry: Section): (name: string)
    ensures name == Value(entry, "Name") || name == NiceName(path)
    ensures name == "" ==> Value(entry, "Name") == ""
  {
    if Value(entry, "Name") != "" then Value(entry, "Name") else NiceName(path)
  }

  /** A declared Name is kept; only an empty one falls back to the name derived from the file
      name. */
  lemma NamePrecedence(path: string, entry: Section)
    ensures Value(entry, "Name") != "" ==> ResolveName(path, entry) == Value(entry, "Name")
    ensures Value(entry, "Name") == "" ==> ResolveName(path, entry) == NiceName(path)
  {
  }

  /** Without a declared Name, my-app-1.2-x86_64.AppImage is called "my app 1.2". */
  lemma NameFallbackExample(dir: string, entry: Section)
    requires Value(entry, "Name") == ""
    ensures ResolveName(dir + "/my-app-1.2-x86_64.AppImage", entry) == "my app 1.2"
  {
    NiceNameExample(dir);
  }

  // ---------------------------------------------------------------------------------------
  // Construction

  /** The fields of a handle that construction fills in. */
  datatype Fields = Fields(
    imageType: int,
    offset: int,
    reader: Option<Archive>,
    Desktop: Option<IniFile>,
    Name: string,
    Description: string,
    Version: string,
    Categories: seq<string>,
    MimeType: seq<string>)

  /** The handle's fields before construction fills any in: imageType is -1. */
  const Blank := Fields(-1, 0, None, None, "", "", "", [], [])

  /** What NewAppImage gives back: a handle with or without an error, or no handle. A panic
      of the Go program shows as NoHandle(Crash(_)). */
  datatype Outcome =
    | Handle(fields: Fields, err: Option<Error>)
    | NoHandle(failure: Error)

  /** NewAppImage as a function of the path and of what the outside world delivers. */
  function Construct(path: string, host: Host): Outcome
  {
    if IsTemporaryPath(path) then Handle(Blank, Some(TemporaryFile))
    else
      var imageType := DetermineImageType(host.file);
      if imageType < 0 then Handle(Blank.(imageType := imageType), Some(NotAnAppImage))
      else
        var typed := Blank.(imageType := imageType, offset := if imageType > 1 then host.elfSize else 0);
        match host.archive
        case None => Handle(typed, Some(ReaderUnavailable))
        case Some(archive) => Loaded(path, typed, archive, host.parse)
  }

  /** The part of NewAppImage that follows a successful populateReader: find the desktop
      file, sanitise it, parse it and fill the metadata in. */
  function Loaded(path: string, typed: Fields, archive: Archive, parse: string -> Option<IniFile>): Outcome
  {
    match archive.desktopFile
    case None => NoHandle(DesktopFileMissing)
    case Some(text) =>
      match parse(Sanitised(text))
      // Version is still "" here, so the fallback reads through the nil Desktop
      case None => NoHandle(Crash(NilDereference))
      case Some(ini) => Handle(Populated(path, typed, archive, ini), None)
  }

  /** The fields once the desktop file is parsed: the metadata comes from its Desktop Entry
      section, with the fallbacks for Name and Version. */
  function Populated(path: string, typed: Fields, archive: Archive, ini: IniFile): Fields
  {
    var entry := DesktopEntry(ini);
    typed.(reader := Some(archive), Desktop := Some(ini),
           Name := ResolveName(path, entry),
           Description := Value(entry, "Comment"),
           Version := ResolveVersion(entry),
           Categories := ListField(entry, "Categories"),
           MimeType := ListField(entry, "MimeType"))
  }

  /** A temporary file is rejected before anything is read: the outcome does not depend on
      the file at all, and the image type stays -1 even for a file that would sniff as an
      AppImage. */
  lemma TemporaryPathRejected(path: string, host: Host, other: Host)
    requires IsTemporaryPath(path)
    ensures Construct(path, host) == Handle(Blank, Some(TemporaryFile))
    ensures Construct(path, host) == Construct(path, other)
    ensures Construct(path, host).fields.imageType == -1
  {
  }

  /** The example of a partial download that holds a type 2 AppImage. */
  lemma PartialDownloadRejected(host: Host)
    ensures Construct("foo.AppImage.part", host).err == Some(TemporaryFile)
  {
    assert HasSuffix("foo.AppImage.part", ".part");
  }

  /** A file that does not sniff as an AppImage is rejected with its type, before any offset
      or reader is set. */
  lemma NotAnAppImageRejected(path: string, host: Host)
    requires !IsTemporaryPath(path) && DetermineImageType(host.file) < 0
    ensures Construct(path, host) == Handle(Blank, Some(NotAnAppImage))
  {
  }

  /** On every handle returned, the type is -1, 1 or 2 and the offset is the ELF size for
      type 2 and 0 otherwise. */
  lemma OffsetOnlyForType2(path: string, host: Host)
    requires Construct(path, host).Handle?
    ensures var f := Construct(path, host).fields;
      (f.imageType == -1 || f.imageType == 1 || f.imageType == 2) &&
      f.offset == (if f.imageType == 2 then host.elfSize else 0)
  {
  }

  /** Without a desktop file there is no handle at all. */
  lemma MissingDesktopFileIsFatal(path: string, host: Host)
    requires !IsTemporaryPath(path) && DetermineImageType(host.file) > 0
    requires host.archive.Some? && host.archive.value.desktopFile.None?
    ensures Construct(path, host) == NoHandle(DesktopFileMissing)
  {
  }

  /** A desktop file the parser rejects crashes construction: the Version fallback goes
      through the nil Desktop. */
  lemma UnparsableDesktopCrashes(path: string, host: Host)
    requires !IsTemporaryPath(path) && DetermineImageType(host.file) > 0
    requires host.archive.Some? && host.archive.value.desktopFile.Some?
    requires host.parse(Sanitised(host.archive.value.desktopFile.value)).None?
    ensures Construct(path, host) == NoHandle(Crash(NilDereference))
  {
  }

  /** A handle returned without error is an AppImage of type 1 or 2 with its reader and
      parsed desktop file, a non-empty version and at least one item in each list. */
  lemma ConstructedHandle(path: string, host: Host)
    requires Construct(path, host).Handle? && Construct(path, host).err.None?
    ensures var f := Construct(path, host).fields;
      && (f.imageType == 1 || f.imageType == 2)
      && f.imageType == DetermineImageType(host.file)
      && f.reader == host.archive && f.reader.Some?
      && f.Desktop.Some?
      && f.Version != ""
      && |f.Categories| >= 1 && |f.MimeType| >= 1
  {
  }

  // ---------------------------------------------------------------------------------------
  // Integration

  /** Whether the desktop entry asks for integration. X-AppImage-Integrate decides when it is
      present, whatever NoDisplay says; only without it does NoDisplay count. */
  predicate IntegrationAllowed(entry: Section)
  {
    if "X-AppImage-Integrate" in entry then entry["X-AppImage-Integrate"] != "false"
    else !("NoDisplay" in entry && entry["NoDisplay"] == "true")
  }

  /** With X-AppImage-Integrate present, NoDisplay is never consulted: any value of it, or
      none, gives the same answer. */
  lemma IntegrateKeyOverridesNoDisplay(entry: Section, noDisplay: string)
    requires "X-AppImage-Integrate" in entry
    ensures IntegrationAllowed(entry) <==> entry["X-AppImage-Integrate"] != "false"
    ensures IntegrationAllowed(entry["NoDisplay" := noDisplay]) == IntegrationAllowed(entry)
    ensures IntegrationAllowed(entry - {"NoDisplay"}) == IntegrationAllowed(entry)
  {
  }

  /** Without X-AppImage-Integrate, NoDisplay=true refuses integration; with neither key,
      integration is allowed. */
  lemma NoDisplayDecidesAlone(entry: Section)
    requires "X-AppImage-Integrate" !in entry
    ensures IntegrationAllowed(entry) <==> !("NoDisplay" in entry && entry["NoDisplay"] == "true")
    ensures "NoDisplay" !in entry ==> IntegrationAllowed(entry)
  {
  }

  // ---------------------------------------------------------------------------------------
  // The icon

  /** name is icon with a .png or a .svg extension. */
  predicate IsIconFile(icon: string, name: string)
  {
    name == icon + ".png" || name == icon + ".svg"
  }

  /** name is an icon file that can be read. */
  predicate AcceptedIcon(icon: string, name: string, readable: set<string>)
  {
    IsIconFile(icon, name) && name in readable
  }

  /** The first entry of files that is an icon file for icon and can be read. */
  function FirstIconFile(icon: string, files: seq<string>, readable: set<string>): (found: Option<string>)
    decreases |files|
  {
    if files == [] then None
    else if AcceptedIcon(icon, files[0], readable) then Some(files[0])
    else FirstIconFile(icon, files[1..], readable)
  }

  /** FirstIconFile finds an accepted entry exactly when the listing has one, and what it
      finds is the earliest one. */
  lemma {:induction false} FirstIconFileIsFirst(icon: string, files: seq<string>, readable: set<string>)
    ensures FirstIconFile(icon, files, readable).None? <==>
      forall k :: 0 <= k < |files| ==> !AcceptedIcon(icon, files[k], readable)
    ensures FirstIconFile(icon, files, readable).Some? ==>
      exists k :: 0 <= k < |files| && files[k] == FirstIconFile(icon, files, readable).value &&
        AcceptedIcon(icon, files[k], readable) &&
        forall j :: 0 <= j < k ==> !AcceptedIcon(icon, files[j], readable)
    decreases |files|
  {
    if files != [] {
      FirstIconFileIsFirst(icon, files[1..], readable);
      var found := FirstIconFile(icon, files, readable);
      if AcceptedIcon(icon, files[0], readable) {
        assert files[0] == found.value;
      } else {
        assert found == FirstIconFile(icon, files[1..], readable);
        forall k | 1 <= k < |files| ensures files[k] == files[1..][k - 1] {}
        if found.Some? {
          var k :| 0 <= k < |files[1..]| && files[1..][k] == found.value &&
            AcceptedIcon(icon, files[1..][k], readable) &&
            forall j :: 0 <= j < k ==> !AcceptedIcon(icon, files[1..][j], readable);
          assert files[k + 1] == found.value;
          forall j | 0 <= j < k + 1 ensures !AcceptedIcon(icon, files[j], readable) {
            if j > 0 { assert files[j] == files[1..][j - 1]; }
          }
        }
      }
    }
  }

  /** Icon: the declared icon as it is when it has a .png or .svg extension and reads;
      otherwise the first readable root entry named after it with one of those extensions. */
  function ResolveIcon(desktop: Option<IniFile>, reader: Option<Archive>): Result<string>
    requires desktop.Some? ==> reader.Some?
  {
    if desktop.None? then Err(DesktopNotParsed)
    else
      var icon := Value(DesktopEntry(desktop.value), "Icon");
      if icon == "" then Err(NoIconDeclared)
      else if (HasSuffix(icon, ".png") || HasSuffix(icon, ".svg")) && icon in reader.value.readable then Ok(icon)
      else
        match FirstIconFile(icon, reader.value.root, reader.value.readable)
        case Some(name) => Ok(name)
        case None => Err(IconNotFound(icon))
  }

  /** Every outcome of Icon: the two errors of a missing or silent desktop file, the declared
      icon taken as it is, and otherwise the first accepted listing entry, with the not-found
      error exactly when the listing holds none. */
  lemma IconResolution(desktop: Option<IniFile>, reader: Option<Archive>)
    requires desktop.Some? ==> reader.Some?
    ensures desktop.None? ==> ResolveIcon(desktop, reader) == Err(DesktopNotParsed)
    ensures desktop.Some? ==>
      var icon := Value(DesktopEntry(desktop.value), "Icon");
      var archive := reader.value;
      && (icon == "" ==> ResolveIcon(desktop, reader) == Err(NoIconDeclared))
      && (icon != "" && (HasSuffix(icon, ".png") || HasSuffix(icon, ".svg")) && icon in archive.readable ==>
            ResolveIcon(desktop, reader) == Ok(icon))
      && (icon != "" && !((HasSuffix(icon, ".png") || HasSuffix(icon, ".svg")) && icon in archive.readable) ==>
            && (ResolveIcon(desktop, reader) == Err(IconNotFound(icon)) <==>
                  forall k :: 0 <= k < |archive.root| ==> !AcceptedIcon(icon, archive.root[k], archive.readable))
            && (ResolveIcon(desktop, reader).Ok? ==>
                  exists k :: 0 <= k < |archive.root| && archive.root[k] == ResolveIcon(desktop, reader).value &&
                    AcceptedIcon(icon, archive.root[k], archive.readable) &&
                    forall j :: 0 <= j < k ==> !AcceptedIcon(icon, archive.root[j], archive.readable)))
  {
    if desktop.Some? {
      var icon := Value(DesktopEntry(desktop.value), "Icon");
      FirstIconFileIsFirst(icon, reader.value.root, reader.value.readable);
    }
  }

  /** The name Icon returns is the declared icon, with ".png" or ".svg" appended or as it is,
      and it can be read. */
  lemma IconNameShape(desktop: Option<IniFile>, reader: Option<Archive>)
    requires desktop.Some? ==> reader.Some?
    requires ResolveIcon(desktop, reader).Ok?
    ensures var icon := Value(DesktopEntry(desktop.value), "Icon");
      var name := ResolveIcon(desktop, reader).value;
      (name == icon || name == icon + ".png" || name == icon + ".svg") &&
      name in reader.value.readable
  {
    var icon := Value(DesktopEntry(desktop.value), "Icon");
    FirstIconFileIsFirst(icon, reader.value.root, reader.value.readable);
  }

  /** An entry that cannot be read is passed over. */
  lemma UnreadableIconSkipped(icon: string, name: string, rest: seq<string>, readable: set<string>)
    requires name !in readable
    ensures FirstIconFile(icon, [name] + rest, readable) == FirstIconFile(icon, rest, readable)
  {
    assert ([name] + rest)[1..] == rest;
  }

  /** Listing order decides, not the extension: with foo.svg listed before foo.png and both
      readable, the icon is foo.svg. */
  lemma IconListingOrder(ini: IniFile, archive: Archive)
    requires Value(DesktopEntry(ini), "Icon") == "foo"
    requires archive.root == ["foo.svg", "foo.png"]
    requires "foo.svg" in archive.readable && "foo.png" in archive.readable
    ensures ResolveIcon(Some(ini), Some(archive)) == Ok("foo.svg")
  {
    assert !HasSuffix("foo", ".png") && !HasSuffix("foo", ".svg");
    assert AcceptedIcon("foo", "foo.svg", archive.readable);
  }

  // ---------------------------------------------------------------------------------------
  // The update information

  /** The raw data of an ELF section, or the failure to decode it. */
  datatype SectionData = Bytes(data: seq<byte>) | Undecodable

  /** The AppImage file read as an ELF executable: its sections by name. */
  datatype ElfFile = NotElf | Elf(sections: map<string, SectionData>)

  const UpdateSection := ".upd_info"

  /** GetUpdateInformation: the bytes of the .upd_info section before its first NUL. A
      section without NUL makes the Go program slice with -1 and panic. */
  function GetUpdateInformation(elf: ElfFile): (info: Result<seq<byte>>)
    ensures info.Ok? <==>
      elf.Elf? && UpdateSection in elf.sections && elf.sections[UpdateSection].Bytes? &&
      0 in elf.sections[UpdateSection].data
    ensures info.Ok? ==>
      var data := elf.sections[UpdateSection].data;
      0 !in info.value && |info.value| < |data| && data[..|info.value| + 1] == info.value + [0]
    ensures elf.NotElf? ==> info == Err(CannotOpenElf)
    ensures elf.Elf? && UpdateSection !in elf.sections ==> info == Err(MissingUpdateSection)
  {
    match elf
    case NotElf => Err(CannotOpenElf)
    case Elf(sections) =>
      if UpdateSection !in sections then Err(MissingUpdateSection)
      else
        match sections[UpdateSection]
        case Undecodable => Err(UnreadableUpdateSection)
        case Bytes(data) =>
          var end := IndexByte(data, 0);
          if end < 0 then Err(Crash(SliceOutOfRange))
          else
            assert data[..end + 1] == data[..end] + [0];
            Ok(data[..end])
  }

  /** As written: a section holding no NUL crashes the program, whatever other sections the
      ELF file has. */
  lemma UnterminatedUpdateSectionCrashes(sections: map<string, SectionData>, data: seq<byte>)
    requires UpdateSection in sections && sections[UpdateSection] == Bytes(data)
    requires 0 !in data
    ensures GetUpdateInformation(Elf(sections)) == Err(Crash(SliceOutOfRange))
  {
  }

  /** A locator followed by a NUL and trailing bytes gives the locator alone. */
  lemma UpdateInformationStopsAtNul(locator: seq<byte>, trailing: seq<byte>)
    requires 0 !in locator
    ensures GetUpdateInformation(Elf(map[UpdateSection := Bytes(locator + [0] + trailing)])) == Ok(locator)
  {
    var data := locator + [0] + trailing;
    assert data[|locator|] == 0;
    var end := IndexByte(data, 0);
    assert end == |locator|;
    assert data[..end] == locator;
  }

  /** The corrected extraction: a section without NUL is a locator that fills the whole
      section. */
  function GetUpdateInformationFixed(elf: ElfFile): (info: Result<seq<byte>>)
    ensures info.Ok? <==> elf.Elf? && UpdateSection in elf.sections && elf.sections[UpdateSection].Bytes?
    ensures info.Ok? ==>
      var data := elf.sections[UpdateSection].data;
      0 !in info.value && HasPrefix(data, info.value) &&
      (|info.value| == |data| || data[|info.value|] == 0)
    ensures !(info.Err? && info.error.Crash?)
  {
    match elf
    case NotElf => Err(CannotOpenElf)
    case Elf(sections) =>
      if UpdateSection !in sections then Err(MissingUpdateSection)
      else
        match sections[UpdateSection]
        case Undecodable => Err(UnreadableUpdateSection)
        case Bytes(data) =>
          var end := IndexByte(data, 0);
          if end < 0 then Ok(data) else Ok(data[..end])
  }

  /** Where the code as written returns a locator, the corrected one returns the same. */
  lemma FixedAgreesWhereTerminated(elf: ElfFile)
    requires GetUpdateInformation(elf).Ok?
    ensures GetUpdateInformationFixed(elf) == GetUpdateInformation(elf)
  {
  }

  // ---------------------------------------------------------------------------------------
  // The handle

  class AppImage {
    var Desktop: Option<IniFile>
    var Name: string
    var Description: string
    var Version: string
    var Categories: seq<string>
    var MimeType: seq<string>
    var Path: string
    var UpdateInformation: string

    var reader: Option<Archive>
    var offset: int
    var imageType: int

    /** The type is -1, 1 or 2; only type 2 has an offset; a parsed desktop file comes with a
        reader. */
    ghost predicate Valid()
      reads this
    {
      && (imageType == -1 || imageType == 1 || imageType == 2)
      && (imageType != 2 ==> offset == 0)
      && (Desktop.Some? ==> reader.Some?)
    }

    function Snapshot(): Fields
      reads this
    {
      Fields(imageType, offset, reader, Desktop, Name, Description, Version, Categories, MimeType)
    }

    /** AppImage{Path: path, imageType: -1}. */
    constructor (path: string)
      ensures Valid() && Path == path && Snapshot() == Blank && UpdateInformation == ""
    {
      Desktop, Name, Description, Version := None, "", "", "";
      Categories, MimeType, Path, UpdateInformation := [], [], path, "";
      reader, offset, imageType := None, 0, -1;
    }

    /** Type: the type construction determined, -1, 1 or 2. */
    function Type(): (t: int)
      reads this
      requires Valid()
      ensures t == -1 || t == 1 || t == 2
      ensures t == 2 <== offset != 0
    {
      imageType
    }

    /** ShallBeIntegrated: the Go method reads through Desktop without a nil check, so without
        a parsed desktop file it crashes. */
    method ShallBeIntegrated() returns (integrate: Result<bool>)
      ensures Desktop.None? ==> integrate == Err(Crash(NilDereference))
      ensures Desktop.Some? ==> integrate == Ok(IntegrationAllowed(DesktopEntry(Desktop.value)))
    {
      if Desktop.None? {
        return Err(Crash(NilDereference));
      }
      var integrationRequested := "true";
      var noDisplay := "false";
      var entry := DesktopEntry(Desktop.value);
      if "X-AppImage-Integrate" in entry {
        integrationRequested := Value(entry, "X-AppImage-Integrate");
      } else if "NoDisplay" in entry {
        noDisplay := Value(entry, "NoDisplay");
      }
      return Ok(!(integrationRequested == "false" || noDisplay == "true"));
    }

    /** Icon: the name of the icon file; the stream that goes with it is the reader's. */
    method Icon() returns (icon: Result<string>)
      requires Valid()
      ensures icon == ResolveIcon(Desktop, reader)
    {
      if Desktop.None? {
        return Err(DesktopNotParsed);
      }
      var declared := Value(DesktopEntry(Desktop.value), "Icon");
      if declared == "" {
        return Err(NoIconDeclared);
      }
      var archive := reader.value;
      if HasSuffix(declared, ".png") || HasSuffix(declared, ".svg") {
        if declared in archive.readable {
          return Ok(declared);
        }
      }
      var rootFiles := archive.root;
      assert HasPrefix(declared + ".png", declared) && HasPrefix(declared + ".svg", declared);
      for i := 0 to |rootFiles|
        invariant FirstIconFile(declared, rootFiles, archive.readable) ==
                  FirstIconFile(declared, rootFiles[i..], archive.readable)
      {
        var fil := rootFiles[i];
        assert rootFiles[i..][1..] == rootFiles[i + 1..];
        if HasPrefix(fil, declared) {
          if fil == declared + ".png" {
            if fil !in archive.readable {
              continue;
            }
            return Ok(fil);
          } else if fil == declared + ".svg" {
            if fil !in archive.readable {
              continue;
            }
            return Ok(fil);
          }
        }
      }
      return Err(IconNotFound(declared));
    }

    /** The part of NewAppImage that follows a successful populateReader, on a handle that
        holds only its type, offset and reader: ends as Loaded says. */
    method LoadDesktop(archive: Archive, parse: string -> Option<IniFile>) returns (failure: Option<Error>)
      requires Valid()
      requires Snapshot() == Blank.(imageType := imageType, offset := offset, reader := Some(archive))
      modifies this
      ensures Path == old(Path) && UpdateInformation == old(UpdateInformation)
      ensures var outcome := Loaded(Path, Blank.(imageType := old(imageType), offset := old(offset)), archive, parse);
        && (failure.None? <==> outcome.Handle?)
        && (outcome.Handle? ==> Valid() && Snapshot() == outcome.fields)
        && (outcome.NoHandle? ==> failure == Some(outcome.failure))
    {
      ghost var typed := Blank.(imageType := imageType, offset := offset);
      ghost var outcome := Loaded(Path, typed, archive, parse);
      if archive.desktopFile.None? {
        return Some(DesktopFileMissing);
      }
      var desktop := SanitiseDesktop(archive.desktopFile.value);
      Desktop := parse(desktop);
      var crashed := FillMetadata();
      if crashed {
        return Some(Crash(NilDereference));
      }
      assert Snapshot() == Populated(Path, typed, archive, Desktop.value);
      return None;
    }

    /** The metadata as the Desktop Entry section of the parsed desktop file declares it;
        nothing else changes. */
    method ReadDesktopEntry()
      requires Desktop.Some?
      modifies this
      ensures Desktop == old(Desktop) && Path == old(Path) && reader == old(reader)
      ensures imageType == old(imageType) && offset == old(offset)
      ensures UpdateInformation == old(UpdateInformation)
      ensures var entry := DesktopEntry(Desktop.value);
        && Name == Value(entry, "Name")
        && Description == Value(entry, "Comment")
        && Version == Value(entry, "X-AppImage-Version")
        && Categories == ListField(entry, "Categories")
        && MimeType == ListField(entry, "MimeType")
    {
      var entry := DesktopEntry(Desktop.value);
      Name := Value(entry, "Name");
      Version := Value(entry, "X-AppImage-Version");
      MimeType := ListField(entry, "MimeType");
      Categories := ListField(entry, "Categories");
      Description := Value(entry, "Comment");
    }

    /** The rest of NewAppImage once the desktop file has been handed to the parser: the
        metadata from the Desktop Entry section, then the Name and Version fallbacks. With no
        parsed file the Version fallback reads through the nil Desktop and the program
        crashes. */
    method FillMetadata() returns (crashed: bool)
      requires Name == "" && Version == ""
      modifies this
      ensures crashed <==> Desktop.None?
      ensures Desktop == old(Desktop) && Path == old(Path) && reader == old(reader)
      ensures imageType == old(imageType) && offset == old(offset)
      ensures UpdateInformation == old(UpdateInformation)
      ensures !crashed ==>
        var entry := DesktopEntry(Desktop.value);
        && Name == ResolveName(Path, entry)
        && Description == Value(entry, "Comment")
        && Version == ResolveVersion(entry)
        && Categories == ListField(entry, "Categories")
        && MimeType == ListField(entry, "MimeType")
    {
      if Desktop.Some? {
        ReadDesktopEntry();
      }
      FallBackOnNiceName();
      crashed := FallBackOnVersion();
    }

    /** Without a declared Name, the name derived from the file name. */
    method FallBackOnNiceName()
      modifies this
      ensures Name == (if old(Name) == "" then NiceName(Path) else old(Name))
      ensures Desktop == old(Desktop) && Path == old(Path) && reader == old(reader)
      ensures imageType == old(imageType) && offset == old(offset)
      ensures UpdateInformation == old(UpdateInformation) && Description == old(Description)
      ensures Version == old(Version) && Categories == old(Categories) && MimeType == old(MimeType)
    {
      if Name == "" {
        Name := NiceName(Path);
      }
    }

    /** Without X-AppImage-Version, Version, and without that "1.0". The Go code reads Version
        through Desktop even when it is nil, so without a parsed file this crashes. */
    method FallBackOnVersion() returns (crashed: bool)
      modifies this
      ensures crashed <==> old(Version) == "" && Desktop.None?
      ensures !crashed ==> Version == (if old(Version) != "" then old(Version)
        else if Value(DesktopEntry(Desktop.value), "Version") != "" then Value(DesktopEntry(Desktop.value), "Version")
        else "1.0")
      ensures Desktop == old(Desktop) && Path == old(Path) && reader == old(reader)
      ensures imageType == old(imageType) && offset == old(offset)
      ensures UpdateInformation == old(UpdateInformation) && Description == old(Description)
      ensures Name == old(Name) && Categories == old(Categories) && MimeType == old(MimeType)
    {
      if Version == "" {
        if Desktop.None? {
          return true;
        }
        Version := Value(DesktopEntry(Desktop.value), "Version");
        if Version == "" {
          Version := "1.0";
        }
      }
      return false;
    }
  }

  /** NewAppImage: fills a fresh handle step by step and ends as Construct says. */
  method NewAppImage(path: string, host: Host) returns (ai: AppImage?, err: Option<Error>)
    ensures ai != null <==> Construct(path, host).Handle?
    ensures ai != null ==>
      && fresh(ai) && ai.Valid() && ai.Path == path && ai.UpdateInformation == ""
      && ai.Snapshot() == Construct(path, host).fields
      && err == Construct(path, host).err
    ensures ai == null ==> err == Some(Construct(path, host).failure)
  {
    ghost var outcome := Construct(path, host);
    ai := new AppImage(path);
    if IsTemporaryPath(path) {
      assert outcome == Handle(Blank, Some(TemporaryFile));
      return ai, Some(TemporaryFile);
    }
    ai.imageType := DetermineImageType(host.file);
    if ai.imageType < 0 {
      assert outcome == Handle(Blank.(imageType := ai.imageType), Some(NotAnAppImage));
      return ai, Some(NotAnAppImage);
    }
    if ai.imageType > 1 {
      ai.offset := host.elfSize;
    }
    ghost var typed := Blank.(imageType := ai.imageType, offset := ai.offset);
    assert ai.Snapshot() == typed;
    if host.archive.None? {
      assert outcome == Handle(typed, Some(ReaderUnavailable));
      return ai, Some(ReaderUnavailable);
    }
    ai.reader := host.archive;
    var failure := ai.LoadDesktop(host.archive.value, host.parse);
    if failure.Some? {
      return null, failure;
    }
    return ai, None;
  }
}
