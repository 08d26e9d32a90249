/** The upload middleware: files are kept in memory, limited to 5 MiB, and
    a file filter admits only four image types. */
module Upload {
  import opened Errors

  const AllowedMimeTypes: seq<string> := ["image/jpeg", "image/png", "image/gif", "image/webp"]
  /** 5 · 1024 · 1024 bytes. */
  const MaxFileSize: nat := 5 * 1024 * 1024
  /** The single-file field of message images (`uploadSingle`) and of avatars (`uploadAvatar`). */
  const MessageImageField := "image"
  const AvatarField := "avatar"

  const InvalidFileType := "Invalid file type. Only JPEG, PNG, GIF, and WebP are allowed."

  /** The one call the filter makes to its callback: `cb(null, true)` or `cb(error)`. */
  datatype Callback = Accept | Reject(error: Error)

  /** `fileFilter`: an allowed mimetype is accepted, any other is refused
      with a bad-request error; the callback is called exactly once, with
      the one value returned here. */
  function FileFilter(mimetype: string): (call: Callback)
    ensures call.Accept? <==> mimetype in AllowedMimeTypes
    ensures call.Reject? ==> call.error == BadRequestError(InvalidFileType) && call.error.statusCode == 400
  {
    if mimetype in AllowedMimeTypes then Accept else Reject(BadRequestError(InvalidFileType))
  }
}
