/** The record every component passes around. */
module Bookmarks {

  /** One saved link, the `{'title': ..., 'url': ...}` dictionary of the application. */
  datatype Bookmark = Bookmark(title: string, url: string)
}
