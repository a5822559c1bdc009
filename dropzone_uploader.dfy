/**
  The upload box: the check a chosen file must pass, and the handlers that take the
  first of the dropped or chosen files, set the error message and hand a valid file on.
*/
module DropzoneUploader {

  datatype Option<T> = None | Some(value: T)

  /** The parts of a browser `File` the upload box looks at. */
  datatype File = File(name: string, mimeType: string, size: nat)

  const MAX_FILE_SIZE: nat := 25 * 1024 * 1024
  const ACCEPTED_TYPES: seq<string> := ["image/jpeg", "image/jpg", "image/png", "image/webp"]
  const FORMAT_ERROR: string := "Please select a valid image file (JPEG, PNG, or WebP)"
  const SIZE_ERROR: string := "File size must be less than 25MB"

  /**
    `validateFile`: the type is checked first, then the size; no message means the
    file is accepted.
  */
  function ValidateFile(file: File): (message: Option<string>)
    ensures message == None <==> file.mimeType in ACCEPTED_TYPES && file.size <= MAX_FILE_SIZE
    ensures file.mimeType !in ACCEPTED_TYPES ==> message == Some(FORMAT_ERROR)
    ensures file.mimeType in ACCEPTED_TYPES && file.size > MAX_FILE_SIZE ==> message == Some(SIZE_ERROR)
  {
    if file.mimeType !in ACCEPTED_TYPES then Some(FORMAT_ERROR)
    else if file.size > MAX_FILE_SIZE then Some(SIZE_ERROR)
    else None
  }

  /** A file of exactly 25 MiB is accepted; one byte more is refused for its size. */
  lemma SizeLimitIsInclusive(name: string)
    ensures ValidateFile(File(name, "image/png", 26214400)) == None
    ensures ValidateFile(File(name, "image/png", 26214401)) == Some(SIZE_ERROR)
  {
    assert "image/png" == ACCEPTED_TYPES[2];
  }

  /** An oversized file of a refused type gets the format message, not the size message. */
  lemma TypeCheckedFirst(file: File)
    requires file.mimeType !in ACCEPTED_TYPES && file.size > MAX_FILE_SIZE
    ensures ValidateFile(file) == Some(FORMAT_ERROR)
  {
  }

  /**
    The state of the upload box that the handlers change: the error shown under it, and
    every file handed to `onFileSelect` so far, in order.
  */
  class Dropzone {
    var error: Option<string>
    var selected: seq<File>

    /** Only valid files are ever handed on, and any error shown is one of the two messages. */
    ghost predicate Valid()
      reads this
    {
      && (forall i :: 0 <= i < |selected| ==> ValidateFile(selected[i]) == None)
      && (error == None || error == Some(FORMAT_ERROR) || error == Some(SIZE_ERROR))
    }

    constructor ()
      ensures Valid() && error == None && selected == []
    {
      error := None;
      selected := [];
    }

    /**
      `handleFile`: a refused file sets the error and goes no further; an accepted one
      clears the error and is handed to `onFileSelect`.
    */
    method HandleFile(file: File)
      requires Valid()
      modifies this
      ensures Valid()
      ensures ValidateFile(file).Some? ==> error == ValidateFile(file) && selected == old(selected)
      ensures ValidateFile(file) == None ==> error == None && selected == old(selected) + [file]
    {
      var validationError := ValidateFile(file);
      if validationError.Some? {
        error := validationError;
        return;
      }
      error := None;
      selected := selected + [file];
    }

    /** `handleDrop`: only the first dropped file is considered; an empty drop does nothing. */
    method HandleDrop(files: seq<File>)
      requires Valid()
      modifies this
      ensures Valid()
      ensures |files| == 0 ==> error == old(error) && selected == old(selected)
      ensures |files| > 0 ==> Handled(old(error), old(selected), files[0], error, selected)
    {
      if |files| > 0 {
        HandleFile(files[0]);
      }
    }

    /**
      `handleFileInput`: the input's file list may be missing or empty, and then nothing
      happens; otherwise only its first file is considered.
    */
    method HandleFileInput(files: Option<seq<File>>)
      requires Valid()
      modifies this
      ensures Valid()
      ensures files == None || |files.value| == 0 ==> error == old(error) && selected == old(selected)
      ensures files.Some? && |files.value| > 0 ==>
                Handled(old(error), old(selected), files.value[0], error, selected)
    {
      if files.Some? && |files.value| > 0 {
        HandleFile(files.value[0]);
      }
    }
  }

  /** The state change `handleFile(file)` makes, from (error, selected) to (error', selected'). */
  ghost predicate Handled(error: Option<string>, selected: seq<File>, file: File,
                          error': Option<string>, selected': seq<File>)
  {
    if ValidateFile(file).Some? then error' == ValidateFile(file) && selected' == selected
    else error' == None && selected' == selected + [file]
  }
}
