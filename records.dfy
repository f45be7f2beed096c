/**
 * The records the sync and search commands pass around: what the remote API returns for one
 * item (`zotero.Item`) and the stored library (`common.Library`,
 * `common.Item`, `common.Attachment`, `common.SearchResults`).
 * Go's `uint` fields are `nat` here.
 */
module Records {
  import opened Wrappers

  datatype Creator = Creator(firstName: string, lastName: string)

  /** The `data` object of a remote record; `parentKey` is "" when absent. */
  datatype ItemData = ItemData(
    title: string,
    abstractNote: string,
    itemType: string,
    creators: seq<Creator>,
    parentKey: string,
    contentType: string,
    filename: string)

  /** One record of a remote item listing. */
  datatype RemoteItem = RemoteItem(key: string, version: nat, data: ItemData)

  /** The accumulated pages of a listing, tagged with the library version. */
  datatype ItemsResult = ItemsResult(items: seq<RemoteItem>, version: nat)

  datatype Attachment = Attachment(key: string, version: nat, contentType: string, filename: string)

  /** A top-level item of the stored library with its attachments in arrival order. */
  datatype Item = Item(
    key: string,
    version: nat,
    title: string,
    abstractNote: string,
    itemType: string,
    creators: seq<Creator>,
    attachments: seq<Attachment>)

  datatype Library = Library(version: nat, items: seq<Item>)

  datatype SearchResultsItem = SearchResultsItem(key: string, filename: string, contentType: string)

  datatype SearchResults = SearchResults(term: string, items: seq<SearchResultsItem>)

  /** The whole stored document: the library and the last search, if any. */
  datatype StoredData = StoredData(lib: Library, search: Option<SearchResults>)
}
