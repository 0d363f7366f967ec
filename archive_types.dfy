/** Rows of the archive's three tables (files, trash, history), the
    uploaded payload handed over by the upload middleware, and the values
    the store's operations return. */
module ArchiveTypes {

  /** One byte of a file payload. */
  newtype byte = b: int | 0 <= b < 256

  /** Timestamps are whole seconds since the Unix epoch, in UTC, which is
      what SQLite's datetime('now') denotes. */
  type Timestamp = nat

  /** Largest payload the upload middleware lets through: 100 MiB. */
  const MaxFileSize: nat := 100 * 1024 * 1024

  /** Author recorded when an upload carries no user name. */
  const Guest: string := "guest"

  /** The changeText of the history rows written by upload, delete and replace. */
  const UploadedText: string := "Файл загружен"
  const DeletedText: string := "Файл удалён"
  const ReplacedText: string := "Файл заменён"

  /** The `state` column of the files table. */
  datatype State = Current | Deleted | Purged

  /** A row of the files table. `size` is in kilobytes, `relatedFiles` is
      the version chain (stored as a JSON list of ids). */
  datatype FileRecord = FileRecord(
    id: int,
    author: string,
    filename: string,
    uploadDate: Timestamp,
    modifyDate: Timestamp,
    extension: string,
    size: real,
    state: State,
    relatedFiles: seq<int>,
    data: seq<byte>)

  /** A row of the trash table: a snapshot of a file taken when it was deleted. */
  datatype TrashRecord = TrashRecord(
    id: int,
    fileId: int,
    filename: string,
    deleteDate: Timestamp,
    data: seq<byte>)

  /** A row of the history table. */
  datatype HistoryEntry = HistoryEntry(
    id: int,
    fileId: int,
    filename: string,
    author: string,
    changeDate: Timestamp,
    changeText: string)

  /** The file part of an upload or replace request: its original name and bytes. */
  datatype UploadedFile = UploadedFile(originalname: string, buffer: seq<byte>)

  /** What the upload route answers: the new id, the name and the size in KB. */
  datatype UploadInfo = UploadInfo(id: int, filename: string, size: real)

  /** What the replace route answers. */
  datatype ReplaceInfo = ReplaceInfo(id: int, filename: string, oldFilename: string)

  /** What the download route sends: the stored name and the stored bytes. */
  datatype Download = Download(filename: string, data: seq<byte>)

  /** Failures a route reports instead of a result: an id that matches no
      file row (404), or an upload request without a file (400). */
  datatype Error = NotFound | BadInput

  datatype Result<T> = Ok(value: T) | Err(error: Error)

  datatype Option<T> = None | Some(value: T)

  /** The size column: the byte length divided by 1024, as a real. */
  function SizeKB(data: seq<byte>): (kb: real)
    ensures 0.0 <= kb
    ensures kb * 1024.0 == |data| as real
  {
    |data| as real / 1024.0
  }

  /** The author of an upload: the given user name, or "guest" when the
      request has none (an absent field reads as the empty string). */
  function AuthorOf(username: string): (author: string)
    ensures author != ""
    ensures username != "" ==> author == username
    ensures username == "" ==> author == Guest
  {
    if username == "" then Guest else username
  }
}
