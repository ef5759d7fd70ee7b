/** The durable row of one downloaded book. */
module OfflineBookModels {
  import opened Options
  import opened Characters

  type BookId = string

  /** A file location as its standardised path components. */
  type Url = seq<string>

  datatype Link = Link(href: Bytes, mediaType: string)
  datatype Manifest = Manifest(title: string, author: Option<string>, readingOrder: seq<Link>, resources: seq<Link>)
  datatype Revision = Revision(size: int, mtime: int)
  datatype Limits = Limits(entries: int, totalUncompressedBytes: int, resourceBytes: int)
  datatype Locator = Locator(href: string, position: int)

  datatype State = Intent | Downloading | Downloaded | Failed | Missing

  datatype OfflineBook = OfflineBook(
    serverInstanceId: string, userId: int, itemId: int, fileId: int,
    revision: Option<Revision>, publication: Option<Manifest>, limits: Option<Limits>,
    state: State, localPath: Option<Url>, cover: Option<Url>,
    locator: Option<Locator>, progression: real, completed: bool, recordedAt: Option<int>, pendingProgress: bool,
    errorMessage: Option<string>)
}
