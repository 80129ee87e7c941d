/**
 * The MIME table behind the backed enum FileType: every case is identified by its MIME string,
 * and tryFrom is a partial lookup in that table.
 */
module FileTypes {
  import opened Wrappers

  /** The backing values of the FileType cases of the enum, grouped by MIME family. */
  const ApplicationMimes: seq<string> := [
      "application/x-abiword", "application/x-freearc", "application/vnd.amazon.ebook",
      "application/octet-stream", "application/x-bzip", "application/x-bzip2",
      "application/x-cdf", "application/x-csh", "application/msword",
      "application/vnd.openxmlformats-officedocument.wordprocessingml.document",
      "application/vnd.ms-fontobject", "application/epub+zip", "application/x-msdownload",
      "application/gzip", "application/java-archive", "application/json", "application/ld+json",
      "application/vnd.apple.installer+xml", "application/vnd.oasis.opendocument.presentation",
      "application/vnd.oasis.opendocument.spreadsheet",
      "application/vnd.oasis.opendocument.text", "application/ogg", "application/pdf",
      "application/x-httpd-php", "application/vnd.ms-powerpoint",
      "application/vnd.openxmlformats-officedocument.presentationml.presentation",
      "application/vnd.rar", "application/rtf", "application/x-sh", "application/x-tar",
      "application/vnd.visio", "application/xhtml+xml", "application/vnd.ms-excel",
      "application", "application/xml", "application/vnd.mozilla.xul+xml", "application/zip",
      "application/x-7z-compressed"
  ]
  const AudioMimes: seq<string> := [
      "audio/aac", "audio/midi", "audio/mpeg", "audio/ogg", "audio/opus", "audio/wav",
      "audio/webm", "audio/3gpp", "audio/3gpp2"
  ]
  const FontMimes: seq<string> := [
      "font/otf", "font/ttf", "font/woff", "font/woff2"
  ]
  const ImageMimes: seq<string> := [
      "image/avif", "image/bmp", "image/gif", "image/vnd.microsoft.icon", "image/jpeg",
      "image/png", "image/svg+xml", "image/tiff", "image/webp"
  ]
  const TextMimes: seq<string> := [
      "text/css", "text/csv", "text/html", "text/calendar", "text/javascript", "text/plain"
  ]
  const VideoMimes: seq<string> := [
      "video/x-msvideo", "video/mp4", "video/mpeg", "video/ogg", "video/mp2t", "video/webm",
      "video/3gpp", "video/3gpp2"
  ]

  /** The 74 backing values, family by family. */
  const MimeTable: seq<string> :=
    ApplicationMimes + AudioMimes + FontMimes + ImageMimes + TextMimes + VideoMimes

  /** The string is one of the table's entries. */
  predicate Listed(mime: string, table: seq<string>)
    decreases |table|
  {
    table != [] && (table[0] == mime || Listed(mime, table[1..]))
  }

  /** The string is the backing value of some FileType case. */
  predicate IsMime(mime: string) {
    Listed(mime, MimeTable)
  }

  /**
   * A FileType case, identified by its backing MIME string. Only tryFrom builds cases here, so
   * every case a request produces is one of the table's (`IsCase`).
   */
  datatype FileType = FileType(mime: string)

  /** The value is one of the enum's cases. */
  predicate IsCase(t: FileType) {
    IsMime(t.mime)
  }

  /** FileType::tryFrom: the case whose backing value is the given string, or null. */
  function TryFrom(mime: string): (r: Option<FileType>)
    ensures r.Some? <==> IsMime(mime)
    ensures r.Some? ==> r.value.mime == mime && IsCase(r.value)
  {
    if IsMime(mime) then Some(FileType(mime)) else None
  }

  /** tryFrom of a case's own backing value gives back that case. */
  lemma TryFromCase(t: FileType)
    requires IsCase(t)
    ensures TryFrom(t.mime) == Some(t)
  {
  }

  /** Listed means occurring somewhere in the table. */
  lemma {:induction false} ListedIn(mime: string, table: seq<string>)
    ensures Listed(mime, table) <==> mime in table
    decreases |table|
  {
    if table != [] {
      ListedIn(mime, table[1..]);
      assert table == [table[0]] + table[1..];
    }
  }

  /** The empty string is the backing value of no case, so tryFrom("") is null. */
  lemma EmptyIsNoType()
    ensures TryFrom("") == None
  {
    ListedIn("", MimeTable);
    EmptyNotApplication();
    EmptyNotMedia();
  }

  /** No application MIME type is empty. */
  lemma EmptyNotApplication()
    ensures "" !in ApplicationMimes
  {
  }

  /** No audio, font, image, text or video MIME type is empty. */
  lemma EmptyNotMedia()
    ensures "" !in AudioMimes && "" !in FontMimes && "" !in ImageMimes
    ensures "" !in TextMimes && "" !in VideoMimes
  {
  }
}
