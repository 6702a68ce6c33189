# appimage-go inspection core in Dafny

This project models how appimage-go inspects an AppImage, which is a self-mounting Linux application bundle. It covers `src/appimage.go` and `src/utils.go`:

- **Format sniffing** (`determineImageType`). A file is a type 2 AppImage when it has the bytes `AI\x02` at offset 8. It is a type 1 AppImage when it has `AI\x01` there, or when it begins with the bytes `7f 45 4c` and has `CD001` at offset 32769. Both tests apply only to files of at least 100 KiB. Anything else, including a smaller file, a directory, or a file that cannot be opened, gets -1.
- **Display names** (`calculateNiceName`). The model takes the base name of the path, deletes the AppImage extension and the architecture tags, and turns `-` and `_` into spaces.
- **Construction** (`NewAppImage`). Construction fills the handle's fields step by step:
  - it rejects temporary download files by their suffix;
  - it sniffs the type and takes the ELF size as the offset, for type 2 only;
  - it sanitises the desktop file line by line, replacing every `;` with U+FF1B FULLWIDTH SEMICOLON;
  - it parses the desktop file and reads Name, Version, Comment, Categories and MimeType from its `Desktop Entry` section;
  - it falls back to the display name when Name is empty, and to `Version`, then to `"1.0"`, when Version is empty.
- **The integration decision** (`ShallBeIntegrated`).
- **Icon lookup** (`Icon`).
- **The update-information string** (`GetUpdateInformation`). This is the `.upd_info` ELF section cut at its first NUL.

Layout:

- `Text.dfy`: the parts of Go's standard library that the core relies on. They are modelled on strings as `seq<char>` and on bytes:
  - `strings.HasPrefix`, `strings.HasSuffix`;
  - `strings.Replace` with n = -1;
  - `strings.Split` on one character, and `strings.Join`;
  - `bytes.Index` on one byte;
  - `filepath.Base` on a Unix host.
- `Errors.dfy`: `Option`, `Result`, and the error kinds of the core. A Go runtime panic is the explicit error `Crash(...)`, so the inputs that reach a panic can be named and proved.
- `Utils.dfy`: `determineImageType` and `calculateNiceName`, both as pure functions.
- `AppImage.dfy`:
  - the class `AppImage`, with the fields of the Go struct;
  - the imperative construction and its steps: `NewAppImage`, `LoadDesktop`, `ReadDesktopEntry`, `FillMetadata` and the two fallbacks;
  - the sanitising loop `SanitiseDesktop`;
  - the `Icon` loop and `ShallBeIntegrated`.

  Each method is proved against a pure function:
  - `NewAppImage` against `Construct`;
  - `SanitiseDesktop` against `Sanitised`;
  - `Icon` against `ResolveIcon`.

  The properties themselves are proved about those functions.

The outside world is passed in as values:

- `Host` gives what opening and reading the file reveals (`FileView`) and the ELF size that `helpers.CalculateElfSize` computes.
- `Host` also gives the archive reader as an `Archive`:
  - the root listing, in order;
  - the set of paths whose `FileReader` succeeds;
  - the text of the `*.desktop` entry, if there is one.
- The desktop-file parser `ini.Load` is a function from text to an optional map of sections. A missing section reads as empty, and a missing key reads as `""`. This matches what `Section(...)` and `Key(...).Value()` give back.
- `GetUpdateInformation` takes the ELF file as a map from section names to their data.

Three behaviours of the code are worth knowing:

- **A desktop file the parser rejects.** `ini.Load` then gives a nil `*ini.File` (`src/appimage.go:104`), so the metadata block is skipped (`src/appimage.go:105-113`). Version is still empty, so `ai.Desktop.Section(...)` at `src/appimage.go:120` runs through the nil pointer and the program panics. `Construct` gives `NoHandle(Crash(NilDereference))`.
- **A missing desktop file.** The doc comment of `NewAppImage` says that it still returns the AppImage in all instances (`src/appimage.go:54-56`). The code returns `nil` and the error instead (`src/appimage.go:87-90`). The model follows the code and gives `NoHandle(DesktopFileMissing)`.
- **Temporary files and files that are not AppImages.** The code still returns a handle, together with an error (`src/appimage.go:68`, `src/appimage.go:74`). The model returns a handle with that error, as the code does.

## Model

| member | source | states |
|---|---|---|
| Utils.DetermineImageType | src/utils.go:37-67 | The type is always -1, 1 or 2. |
| Utils.ImageTypeClassification | src/utils.go:37-67 | Each result holds exactly when its condition holds. 2: a regular file of at least 100 KiB with `41 49 02` at offset 8. 1: such a file without that marker, but with `41 49 01` at offset 8 or with the ELF magic at 0 plus `CD001` at 32769. -1: every other file. |
| Utils.UnreadableIsNotAppImage | src/utils.go:39-51 | A path that cannot be opened or stat-ed, or that is a directory, gives -1. |
| Utils.SmallFileIsNotAppImage | src/utils.go:53-55 | Any file under 100*1024 bytes gives -1, whatever its content. |
| Utils.Type2MarkerWins | src/utils.go:56-58 | The type 2 marker gives 2, whatever else the file holds. |
| Utils.Type1MarkerGivesType1 | src/utils.go:59-61 | The type 1 marker at offset 8 gives 1. |
| Utils.ElfIsoIsType1 | src/utils.go:62-65 | Without the type 2 marker, an ELF file that is also an ISO 9660 image gives 1. |
| Utils.NiceNameShape | src/utils.go:21-33 | The display name has no `-` and no `_`, and is never longer than the base name. |
| Utils.NiceNameExample | src/utils.go:21-33 | In any directory, `my-app-1.2-x86_64.AppImage` becomes `my app 1.2`. The tag is removed before `-` is replaced. |
| Utils.StripTagsExample | src/utils.go:23-29 | Deleting the extension and the architecture tags from `my-app-1.2-x86_64.AppImage` leaves `my-app-1.2`. |
| Text.ReplaceAll | src/utils.go:23-31 | A replacement no longer than its pattern never lengthens the text. |
| Text.ReplaceSingleChar | src/appimage.go:98-100 | Replacing a one-character pattern with one character is a character-by-character substitution. |
| Text.ReplaceCharRemoves | src/utils.go:30-31 | After `-` (or `_`) is replaced with a different character, none is left. |
| Text.ReplaceKeepsAbsent | src/utils.go:30-31 | A replacement that adds no `x` leaves a text without `x` without `x`. |
| Text.ReplaceAllSkipsFree | src/utils.go:23-29 | A stretch of text that holds no first character of the pattern is copied unchanged. |
| Text.Split | src/appimage.go:110-111 | A split always has at least one piece. |
| Text.JoinSplit | src/appimage.go:110-111 | Joining the pieces of a split with the separator gives back the original string. |
| Text.SplitJoin | src/appimage.go:110-111 | Splitting a join of separator-free pieces gives back those pieces. |
| Text.SplitPiecesExcludeSep | src/appimage.go:110-111 | No piece of a split contains the separator. |
| Text.IndexByte | src/appimage.go:225 | `bytes.Index` gives -1 exactly when the byte is absent. Otherwise it gives the position of the first occurrence. |
| Text.Base | src/utils.go:22 | `filepath.Base` is never empty. It is `/` or holds no `/`. |
| Text.BaseOfChild | src/utils.go:22 | The base of `dir/name` is `name`. |
| AppImage.ReadString | src/appimage.go:97 | `ReadString('\n')` reads a prefix of the rest. It ends at the first newline, or it reads the whole rest and reports EOF when there is no newline. |
| AppImage.SanitiseDesktop | src/appimage.go:92-102 | The buffer is the whole desktop text with every `;` replaced by U+FF1B. This includes a last line without a newline. |
| AppImage.SanitisedExtend | src/appimage.go:95-102 | Sanitising a longer prefix appends the sanitised new part. |
| AppImage.SanitiseLine | src/appimage.go:98-100 | What the loop does to one line, whether or not the line has a `;`, is sanitising it. |
| AppImage.SanitisedShape | src/appimage.go:95-102 | Sanitising keeps the length in characters and leaves no `;`. |
| AppImage.SanitisedInverse | src/appimage.go:95-102 | Turning the placeholders back into `;` restores any text that had no placeholder of its own. |
| AppImage.SplitSanitised | src/appimage.go:98-111 | Splitting the sanitised text on U+FF1B gives the pieces the original text has between its semicolons. |
| AppImage.CategoriesExample | src/appimage.go:111 | `Utility；Development；` gives `["Utility", "Development", ""]`. |
| AppImage.EmptyListField | src/appimage.go:110-111 | An absent or empty list key gives `[""]`. |
| AppImage.ResolveVersion | src/appimage.go:109-124 | The version is never empty. It is X-AppImage-Version, Version or `1.0`. |
| AppImage.VersionPrecedence | src/appimage.go:119-124 | A non-empty X-AppImage-Version wins. Without it, a non-empty Version wins. Without both, the version is `1.0`. |
| AppImage.ResolveName | src/appimage.go:108-117 | The name is the declared Name or the display name of the path. It is empty only when Name is. |
| AppImage.NamePrecedence | src/appimage.go:108-117 | A non-empty declared Name is kept. Only an empty Name falls back to the display name of the path. |
| AppImage.NameFallbackExample | src/appimage.go:115-117 | Without a Name, `my-app-1.2-x86_64.AppImage` is called `my app 1.2`. |
| AppImage.TemporaryPathRejected | src/appimage.go:58-69 | A path with a temporary suffix gives a handle with type -1 and the temporary-file error, whatever the file holds. |
| AppImage.PartialDownloadRejected | src/appimage.go:62-68 | `foo.AppImage.part` is rejected as a temporary file. |
| AppImage.NotAnAppImageRejected | src/appimage.go:71-75 | A file that does not sniff as an AppImage gives the not-an-AppImage error, before any offset or reader is set. |
| AppImage.OffsetOnlyForType2 | src/appimage.go:71-79 | Every handle has type -1, 1 or 2. Its offset is the ELF size for type 2 and 0 otherwise. |
| AppImage.MissingDesktopFileIsFatal | src/appimage.go:87-90 | Without a desktop file, construction gives no handle. |
| AppImage.UnparsableDesktopCrashes | src/appimage.go:104-120 | A desktop file the parser rejects makes the Version fallback go through the nil Desktop, and construction crashes. |
| AppImage.ConstructedHandle | src/appimage.go:57-127 | A handle returned without an error has these properties: its type is 1 or 2, as sniffed; it has the reader and the parsed desktop file; its Version is non-empty; and each list field has at least one item. |
| AppImage.NewAppImage | src/appimage.go:57-127 | The method returns a handle exactly when `Construct` gives one. The handle is fresh and valid, with the given Path and fields equal to `Construct`'s, and the error is `Construct`'s. Otherwise the error is `Construct`'s failure. |
| AppImage.AppImage.constructor | src/appimage.go:58 | A new handle holds only its Path, and its type is -1. |
| AppImage.AppImage.LoadDesktop | src/appimage.go:86-126 | Everything after a successful `populateReader` ends as `Loaded` says. The method changes neither Path nor UpdateInformation. |
| AppImage.AppImage.ReadDesktopEntry | src/appimage.go:104-113 | Name, Version, Comment, Categories and MimeType come from the Desktop Entry section. Nothing else changes. |
| AppImage.AppImage.FillMetadata | src/appimage.go:105-124 | The method crashes exactly when the desktop file was not parsed. Otherwise the fields are the resolved Name and Version, the Comment, and the two list fields. |
| AppImage.AppImage.FallBackOnNiceName | src/appimage.go:115-117 | An empty Name becomes the display name of Path. Nothing else changes. |
| AppImage.AppImage.FallBackOnVersion | src/appimage.go:119-124 | An empty Version crashes without a parsed file. With one, it becomes Version or `1.0`. Nothing else changes. |
| AppImage.AppImage.Type | src/appimage.go:130-132 | The type is -1, 1 or 2. A non-zero offset means type 2. |
| AppImage.AppImage.ShallBeIntegrated | src/appimage.go:134-149 | The result is `IntegrationAllowed` of the Desktop Entry section, or a crash when there is no parsed file. |
| AppImage.IntegrateKeyOverridesNoDisplay | src/appimage.go:138-145 | With X-AppImage-Integrate present, the result is `value != "false"`. Any NoDisplay, or none, gives the same answer. |
| AppImage.NoDisplayDecidesAlone | src/appimage.go:140-147 | Without X-AppImage-Integrate, the result is false exactly when NoDisplay is `true`. With neither key, the result is true. |
| AppImage.AppImage.Icon | src/appimage.go:173-206 | The loop with `continue` and early returns gives exactly `ResolveIcon`. |
| AppImage.FirstIconFileIsFirst | src/appimage.go:187-204 | The search finds nothing exactly when no entry is a readable `icon.png` or `icon.svg`. What it finds is the earliest such entry. |
| AppImage.IconResolution | src/appimage.go:173-206 | These are the only outcomes: nil Desktop gives an error; an empty Icon key gives an error; a readable `.png` or `.svg` icon is returned as declared; otherwise the result is the first accepted entry; the not-found error comes exactly when there is none. |
| AppImage.IconNameShape | src/appimage.go:173-206 | A returned name is `icon`, `icon.png` or `icon.svg`, and it can be read. |
| AppImage.UnreadableIconSkipped | src/appimage.go:190-200 | An entry whose read fails is passed over. |
| AppImage.IconListingOrder | src/appimage.go:187-204 | Listing order decides: with `foo.svg` listed before `foo.png`, the icon is `foo.svg`. |
| AppImage.GetUpdateInformation | src/appimage.go:209-228 | The result is Ok exactly when the section exists, decodes and has a NUL. Then it is the NUL-free prefix before the first NUL. A file that cannot be opened as ELF gives its own error, and so does a missing section. |
| AppImage.UnterminatedUpdateSectionCrashes | src/appimage.go:225-226 | A section without NUL makes the slice `[:-1]` panic. |
| AppImage.UpdateInformationStopsAtNul | src/appimage.go:225-227 | `locator + [0] + trailing` gives `locator`. |
| AppImage.GetUpdateInformationFixed | src/appimage.go:225-227 | Corrected version: the result never crashes. It is NUL-free, a prefix of the section, and ends at the first NUL or at the end of the section. |
| AppImage.FixedAgreesWhereTerminated | src/appimage.go:225-227 | Wherever the code as written succeeds, the corrected version gives the same result. |

## Left out

- `ModTime`: it runs the `unsquashfs` subprocess, reads file times and converts them. This is I/O with nothing to prove.
- `ExtractFile`, `ExtractFileReader`, `Thumbnail`: these only delegate to the archive readers, which are outside the core.
- The archive readers, `populateReader`, `ini.Load`, `elf.Open`, `helpers.CalculateElfSize` and `helpers.CheckMagicAtOffset` are outside the core. Their results are inputs: `Host`, `Archive`, `ElfFile`, and `MagicAt`, which is byte equality at an offset.
- `runCommand` and `test.go`: subprocess execution and a command-line driver.
- Icon: returns the name of the icon file only. The `io.ReadCloser` that Go returns with it is left out, and "the read succeeds" is membership in `Archive.readable`.
- AppImage.AppImage.Icon, AppImage.AppImage.Type: both require `Valid()`, which every handle that `NewAppImage` builds satisfies. Handles not built by `NewAppImage` are left out, such as the zero value of the exported struct, whose `Type()` is 0.
- AppImage.SanitiseDesktop, Utils.NiceName, Text.Base, AppImage.IsTemporaryPath: these work on Unicode characters (`seq<char>`) where Go works on byte strings. A path or desktop file that is not valid UTF-8 therefore has no model. On valid text the results agree, because every pattern involved is ASCII and the placeholder is one character.
- AppImage.SanitiseDesktop: an error from the reader in the middle of the stream is left out. The text arrives whole.
- NewAppImage: the side effects of `ini.File.Section` and `Key` are left out. On a missing section or key these create an empty one. Nothing in this core reads them. The exported `Desktop` field does show the added empty keys, which the model's `Desktop` lacks. The `*.desktop` wildcard match is abstracted as the `desktopFile` field of `Archive`.
- NewAppImage: `UpdateInformation` is never filled in by construction, as in the code. `GetUpdateInformation` is a separate function of the ELF file.
- The open file that `determineImageType` never closes is a resource leak with no effect on the result.

## Findings

| source | as written | input that shows it | evidently intended | confidence | as-written member | corrected member |
|---|---|---|---|---|---|---|
| src/appimage.go:225-226 | `sectionData[:str_end]`, where `str_end` is `bytes.Index(sectionData, "\000")` | A `.upd_info` section with no zero byte, such as a locator that fills the section exactly. `bytes.Index` gives -1, and `sectionData[:-1]` panics. | The locator is the whole section when no NUL ends it, and the program does not crash | not executed; high that this panics, medium on the intended result | AppImage.UnterminatedUpdateSectionCrashes | AppImage.GetUpdateInformationFixed |
