/** The exceptions the core throws, as values that its operations return. */
module Exceptions {

  datatype Exception =
    | DirectoryNotFound            // PrepareFileInfo: `GetDirectoryName` is null, for "" and the bare root
    | EmptyPath                    // Directory.GetFiles("", ...): ArgumentException for an empty directory path
    | FileNotFound(path: string)   // a file that is read or copied does not exist
    | NoHeaderFile                 // FileNotFoundException("No header file found") of FindMatchingFiles
    | NotSupported                 // a DXGI format or FourCC code without a size rule
    | InvalidOperation             // a fragment or the post-header data is too short for a slice
    | ArgumentOutOfRange           // an index past the end of a list, or a negative count passed to Write
    | Overflow                     // an array allocated with a negative length
    | HeaderTooShort(length: nat)  // DdsHeaderDeserializer.ValidateHeaderContent's ArgumentException
}
