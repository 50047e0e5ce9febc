/** One constructor per exception message the CVFS model raises. */
module Errors {

  datatype Error =
    | NoDiskLoaded            // "No virtual disk loaded."
    | Usage                   // "Usage: <command> ..." (wrong number of tokens)
    | NotAnInteger            // Integer.parseInt rejected the disk size
    | NegativeDiskSize        // "Error: Disk size should not be negative."
    | DocTypeNotAllowed       // "Document type not allowed."
    | InvalidFileName         // "Invalid file name." (File constructor, setName)
    | DuplicateFileName       // "File with the same name already exists." (addFile)
    | DiskSpaceExceeded       // "Disk space exceeded." (updateSize)
    | FileNotFound            // "File not found." (delete, rename, removeFile)
    | InvalidNewFileName      // "Invalid new file name." (rename)
    | NewNameExists           // "A file with the new name already exists." (rename)
    | AtRoot                  // "Already at the root directory."
    | DirectoryNotFound       // "Directory not found."
    | InvalidCriterionName    // "Invalid criterion name."
    | CriterionExists         // "Criterion name already exists."
    | CriterionMissing        // "Criterion X does not exist." / "Criteria do not exist."
    | InvalidNameOperator     // "Invalid operator for name attribute."
    | InvalidTypeOperator     // "Invalid operator for type attribute."
    | InvalidSizeOperator     // "Invalid operator for size attribute."
    | ValueNotInteger         // "Value must be an integer."
    | InvalidAttribute        // "Invalid attribute name."
    | InvalidLogicOp          // "Invalid logical operator."
    | CriterionNotFound       // "Criterion not found." (search, rSearch)
    | NoWorkingDirectory      // the null working directory dereferenced by search/rSearch before any newDisk
    | NothingToUndo           // "Nothing to undo."
    | NothingToRedo           // "Nothing to redo."
}
