/**
 * What the admin pages ask of the hosted backend, and what it answers. The
 * calls themselves are not modelled: a page's handler takes the answer it
 * would receive as a parameter, and records the requests it makes.
 */
module Backend {
  /** A request to remove one file from a storage bucket. */
  datatype Removal = Removal(bucket: string, fileName: string)

  /** The answer to uploading a file and then asking for its public URL:
      the upload fails, the URL lookup fails, or the URL (possibly empty). */
  datatype UploadOutcome =
    | UploadError(message: string)
    | PublicUrlError(message: string)
    | PublicUrl(url: string)

  /** The answer to a password change. */
  datatype AuthOutcome = AuthOk | AuthError(message: string)
}
