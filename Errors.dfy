/** Optional values, results and the ways the inspection core can fail. */
module Errors {

  datatype Option<+T> = None | Some(value: T)

  datatype Result<+T> = Ok(value: T) | Err(error: Error)

  /** A runtime panic of the Go program: not an error value the caller receives, but a crash.
      The model makes it an explicit outcome so that the inputs that reach it can be named. */
  datatype Panic =
    | NilDereference    // a method called through the nil *ini.File
    | SliceOutOfRange   // sectionData[:-1]

  datatype Error =
    | TemporaryFile              // "given path is a temporary file"
    | NotAnAppImage              // "given path is not an AppImage"
    | ReaderUnavailable          // populateReader failed
    | DesktopFileMissing         // no entry matched "*.desktop"
    | DesktopNotParsed           // "desktop file wasn't parsed"
    | NoIconDeclared             // "desktop file doesn't specify an icon"
    | IconNotFound(icon: string) // "Cannot find the AppImage's icon: " + icon
    | CannotOpenElf              // "cannot open the appimage file: ..."
    | MissingUpdateSection       // "missing update section on target elf"
    | UnreadableUpdateSection    // "unable to parse update section: ..."
    | Crash(panic: Panic)        // the Go program panics here
}
