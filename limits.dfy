/** The bot's size and time constants and the integer gates built on them. */
module Limits {

  /** One mebibyte, the unit of every size the bot reports. */
  const MiB: nat := 1024 * 1024

  /** `MAX_FILE_SIZE`: the largest document the bot accepts or sends inline (50 MiB). */
  const MaxFileSize: nat := 50 * MiB

  /** `MAX_DOWNLOAD_SIZE`: the largest advertised size a URL may have (2 GiB). */
  const MaxDownloadSize: nat := 2 * 1024 * MiB

  /** `FILE_EXPIRATION_TIME`: how long a download link stays valid, in seconds. */
  const FileExpirationTime: nat := 86400

  /** An uploaded document is refused before any transfer when it is larger than 50 MiB. */
  predicate UploadTooLarge(fileSize: int) {
    fileSize > MaxFileSize
  }

  /** An output goes out as a chat attachment when it is at most 50 MiB, otherwise by link. */
  predicate SendInline(outputSize: int) {
    outputSize <= MaxFileSize
  }

  /** A URL is refused when its advertised `Content-Length` is over 2 GiB. */
  predicate DownloadTooLarge(contentLength: int) {
    contentLength > MaxDownloadSize
  }

  /** The gates are inclusive: exactly 50 MiB is accepted and sent inline, exactly 2 GiB is fetched. */
  lemma GateBoundaries()
    ensures !UploadTooLarge(52428800) && UploadTooLarge(52428801)
    ensures SendInline(52428800) && !SendInline(52428801)
    ensures !DownloadTooLarge(2147483648) && DownloadTooLarge(2147483649)
  {
  }
}
