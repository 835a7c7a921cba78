/** The log messages of the scan engine, as abstract events. */
module Events {

  datatype Event =
    | DirectoryMissing(path: string)                      // warning: "Directory ... Does Not Exist"
    | FileDeleted(name: string)                           // info: "File Deleted ..."
    | FileAdded(name: string)                             // info: "New File Added ..."
    | MagicFound(name: string, lineNumbers: seq<nat>)     // info: "New Magic String Detected In ..."
}
