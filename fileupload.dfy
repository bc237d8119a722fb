/** The file picker: the size and type gate, and the drag-highlight state. */
module FilePicker {
  import opened Decimal
  import opened Shares

  /** One mebibyte. */
  const Megabyte: int := 1024 * 1024

  /** The picker's default size limit: 100 MB. */
  const DefaultMaxSize: int := 100 * Megabyte

  const ErrUnsupportedType: string := "File type not supported"

  /** The gate's decision on a file. */
  datatype Gate = Accept | TooLarge | WrongType

  /** `validateAndSelectFile`'s checks: size first, then type; an empty list of
      accepted types accepts every type. */
  function Check(file: FileMeta, maxSize: int, acceptedTypes: seq<string>): (g: Gate)
    ensures g.Accept? <==> file.size <= maxSize && (|acceptedTypes| == 0 || file.fileType in acceptedTypes)
    ensures g.TooLarge? <==> file.size > maxSize
    ensures g.WrongType? ==> |acceptedTypes| > 0 && file.fileType !in acceptedTypes
  {
    if file.size > maxSize then TooLarge
    else if |acceptedTypes| > 0 && file.fileType !in acceptedTypes then WrongType
    else Accept
  }

  /** `Math.round(maxSize / (1024 * 1024))`: the nearest whole number of
      megabytes, halves rounded up. */
  function RoundMegabytes(size: int): (r: int)
    ensures (2 * r - 1) * (Megabyte / 2) <= size < (2 * r + 1) * (Megabyte / 2)
  {
    (2 * size + Megabyte) / (2 * Megabyte)
  }

  const SizePrefix: string := "File size must be less than "

  /** The size error: the limit, rounded to whole megabytes, written in
      decimal between the fixed text and "MB". */
  function SizeMessage(maxSize: int): (m: string)
    ensures |m| > |SizePrefix| + 2
    ensures m[..|SizePrefix|] == SizePrefix && m[|m| - 2..] == "MB"
    ensures var mb, n := m[|SizePrefix|..|m| - 2], RoundMegabytes(maxSize);
      (n >= 0 ==> AllDigits(mb) && Value(mb) == n) &&
      (n < 0 ==> mb[0] == '-' && AllDigits(mb[1..]) && Value(mb[1..]) == -n)
  {
    var mb := ShowInt(RoundMegabytes(maxSize));
    var m := SizePrefix + mb + "MB";
    assert m[|SizePrefix|..|m| - 2] == mb;
    m
  }

  /** With the default limit the size error reads "... less than 100MB". */
  lemma DefaultSizeMessage()
    ensures RoundMegabytes(DefaultMaxSize) == 100
    ensures SizeMessage(DefaultMaxSize) == "File size must be less than 100MB"
  {
    assert Show(100) == Show(10) + [DigitChar(0)];
    assert Show(10) == Show(1) + [DigitChar(0)];
  }

  /** The picker component's state; `notified` lists the files handed to the
      `onFileSelect` callback, in order. */
  class FileUpload {
    const maxSize: int
    const acceptedTypes: seq<string>
    var dragActive: bool
    var selectedFile: Option<FileMeta>
    var error: string
    var notified: seq<FileMeta>

    constructor (maxSize: int, acceptedTypes: seq<string>)
      ensures this.maxSize == maxSize && this.acceptedTypes == acceptedTypes
      ensures !dragActive && selectedFile.None? && error == "" && notified == []
    {
      this.maxSize := maxSize;
      this.acceptedTypes := acceptedTypes;
      dragActive := false;
      selectedFile := None;
      error := "";
      notified := [];
    }

    /** The component with its default props, as the sender page mounts it. */
    constructor WithDefaults()
      ensures maxSize == DefaultMaxSize && acceptedTypes == []
      ensures !dragActive && selectedFile.None? && error == "" && notified == []
    {
      maxSize := DefaultMaxSize;
      acceptedTypes := [];
      dragActive := false;
      selectedFile := None;
      error := "";
      notified := [];
    }

    /** `validateAndSelectFile`: an accepted file becomes the selection and is
        passed to `onFileSelect` once; a rejected one only sets the error. */
    method ValidateAndSelectFile(file: FileMeta)
      modifies this
      ensures dragActive == old(dragActive)
      ensures Check(file, maxSize, acceptedTypes).Accept? ==>
        selectedFile == Some(file) && notified == old(notified) + [file] && error == old(error)
      ensures !Check(file, maxSize, acceptedTypes).Accept? ==>
        selectedFile == old(selectedFile) && notified == old(notified) &&
        error == if file.size > maxSize then SizeMessage(maxSize) else ErrUnsupportedType
    {
      if file.size > maxSize {
        error := SizeMessage(maxSize);
        return;
      }
      if |acceptedTypes| > 0 && file.fileType !in acceptedTypes {
        error := ErrUnsupportedType;
        return;
      }
      selectedFile := Some(file);
      notified := notified + [file];
    }

    /** `handleDrag`: entering or hovering lights the drop zone, leaving
        darkens it, any other event type leaves it as it is. */
    method HandleDrag(eventType: string)
      modifies this
      ensures selectedFile == old(selectedFile) && error == old(error) && notified == old(notified)
      ensures eventType == "dragenter" || eventType == "dragover" ==> dragActive
      ensures eventType == "dragleave" ==> !dragActive
      ensures eventType !in {"dragenter", "dragover", "dragleave"} ==> dragActive == old(dragActive)
    {
      if eventType == "dragenter" || eventType == "dragover" {
        dragActive := true;
      } else if eventType == "dragleave" {
        dragActive := false;
      }
    }

    /** `handleDrop`: darkens the drop zone, clears the error, and gates the
        first dropped file if there is one. */
    method HandleDrop(files: seq<FileMeta>)
      modifies this
      ensures !dragActive
      ensures files == [] ==>
        error == "" && selectedFile == old(selectedFile) && notified == old(notified)
      ensures files != [] && Check(files[0], maxSize, acceptedTypes).Accept? ==>
        error == "" && selectedFile == Some(files[0]) && notified == old(notified) + [files[0]]
      ensures files != [] && !Check(files[0], maxSize, acceptedTypes).Accept? ==>
        error == (if files[0].size > maxSize then SizeMessage(maxSize) else ErrUnsupportedType) &&
        selectedFile == old(selectedFile) && notified == old(notified)
    {
      dragActive := false;
      error := "";
      if files != [] {
        ValidateAndSelectFile(files[0]);
      }
    }

    /** `handleInputChange`: gates the first file chosen in the browser's dialog. */
    method HandleInputChange(files: seq<FileMeta>)
      modifies this
      ensures dragActive == old(dragActive)
      ensures files == [] ==>
        error == old(error) && selectedFile == old(selectedFile) && notified == old(notified)
      ensures files != [] && Check(files[0], maxSize, acceptedTypes).Accept? ==>
        error == old(error) && selectedFile == Some(files[0]) && notified == old(notified) + [files[0]]
      ensures files != [] && !Check(files[0], maxSize, acceptedTypes).Accept? ==>
        error == (if files[0].size > maxSize then SizeMessage(maxSize) else ErrUnsupportedType) &&
        selectedFile == old(selectedFile) && notified == old(notified)
    {
      if files != [] {
        ValidateAndSelectFile(files[0]);
      }
    }

    /** `removeFile`: drops the selection and the error. */
    method RemoveFile()
      modifies this
      ensures selectedFile.None? && error == ""
      ensures dragActive == old(dragActive) && notified == old(notified)
    {
      selectedFile := None;
      error := "";
    }
  }
}
