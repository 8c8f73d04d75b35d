/**
 * The two direct routes of a playlist, by Opencast id (`/!p/:<ocID>`) and by
 * Tobira key (`/!p/<key>`), and the playlist page's choice between "not
 * found", an error, and the list of its entries.
 *
 * Both routes match the raw path; the captured id is then URI-component
 * decoded, which is not part of this model, and neither is turning a key into
 * a GraphQL id. The captures here are the ids before decoding.
 */
module PlaylistRoute {
  import opened Wrappers
  import opened Text

  /** `url` of `DirectPlaylistOCRoute`. */
  function OcUrl(ocID: string): (url: string)
    ensures StartsWith(url, "/!p/:") && url[5..] == ocID
  {
    "/!p/:" + ocID
  }

  /** `^/!p/:([^/]+)$`: the capture, when the path matches. */
  function MatchOcRoute(pathname: string): (capture: Option<string>)
    ensures capture.Some? <==>
      StartsWith(pathname, "/!p/:") && |pathname| > 5 && NoSeparator(pathname[5..], '/')
    ensures capture.Some? ==> pathname == OcUrl(capture.value)
  {
    if StartsWith(pathname, "/!p/:") && |pathname| > 5 && NoSeparator(pathname[5..], '/') then
      assert pathname == pathname[..5] + pathname[5..];
      Some(pathname[5..])
    else None
  }

  /** The URL built for an Opencast id is matched and gives that id back. */
  lemma OcRoundTrip(ocID: string)
    requires ocID != "" && NoSeparator(ocID, '/')
    ensures MatchOcRoute(OcUrl(ocID)) == Some(ocID)
  {
    assert OcUrl(ocID)[..5] == "/!p/:" && OcUrl(ocID)[5..] == ocID;
  }

  /** `url` of `DirectPlaylistRoute`, given the key of the playlist id. */
  function DirectUrl(key: string): (url: string)
    ensures StartsWith(url, "/!p/") && url[4..] == key
  {
    "/!p/" + key
  }

  /** `^/!p/([a-zA-Z0-9\-_]+)$`: the capture, when the path matches. */
  function MatchDirectRoute(pathname: string): (capture: Option<string>)
    ensures capture.Some? <==>
      StartsWith(pathname, "/!p/") && |pathname| > 4 && AllChars(pathname[4..], IsB64Char)
    ensures capture.Some? ==> pathname == DirectUrl(capture.value)
  {
    if StartsWith(pathname, "/!p/") && |pathname| > 4 && AllChars(pathname[4..], IsB64Char) then
      assert pathname == pathname[..4] + pathname[4..];
      Some(pathname[4..])
    else None
  }

  lemma DirectRoundTrip(key: string)
    requires key != "" && AllChars(key, IsB64Char)
    ensures MatchDirectRoute(DirectUrl(key)) == Some(key)
  {
    assert DirectUrl(key)[..4] == "/!p/" && DirectUrl(key)[4..] == key;
  }

  /** No path matches both routes: a colon is not a base64url character. */
  lemma RoutesDisjoint(pathname: string)
    ensures !(MatchOcRoute(pathname).Some? && MatchDirectRoute(pathname).Some?)
  {
    if MatchOcRoute(pathname).Some? && StartsWith(pathname, "/!p/") && |pathname| > 4 {
      assert pathname[4..][0] == pathname[4] == ':';
    }
  }

  // ---------------------------------------------------------------------------
  // PlaylistPage
  // ---------------------------------------------------------------------------

  /** An entry of a playlist as the API returns it. */
  datatype Entry = AuthorizedEvent(id: string) | Missing | NotAllowed

  /** The playlist as the API returns it; `Absent` when there is none. */
  datatype Playlist =
    | Absent
    | PlaylistNotAllowed
    | AuthorizedPlaylist(title: string, description: Option<string>, entries: seq<Entry>)

  /** An item of the video list. */
  datatype Item = Video(id: string) | MissingItem | Unauthorized

  /** What the playlist page shows. */
  datatype Page = NotFound | ErrorPage | VideoList(title: string, items: seq<Item>)

  function EntryItem(entry: Entry): Item {
    match entry
    case AuthorizedEvent(id) => Video(id)
    case Missing => MissingItem
    case NotAllowed => Unauthorized
  }

  /** The `entries.map(...)` of the page. */
  function Items(entries: seq<Entry>): (items: seq<Item>)
    ensures |items| == |entries|
    ensures forall i :: 0 <= i < |entries| ==>
      (entries[i].AuthorizedEvent? <==> items[i].Video?)
      && (entries[i].AuthorizedEvent? ==> items[i] == Video(entries[i].id))
      && (entries[i] == Missing <==> items[i] == MissingItem)
      && (entries[i] == NotAllowed <==> items[i] == Unauthorized)
  {
    if |entries| == 0 then []
    else [EntryItem(entries[0])] + Items(entries[1..])
  }

  /** The mapping keeps the order: it maps the parts of a list separately. */
  lemma {:induction false} ItemsAppend(a: seq<Entry>, b: seq<Entry>)
    ensures Items(a + b) == Items(a) + Items(b)
  {
    if |a| > 0 {
      assert (a + b)[1..] == a[1..] + b;
      ItemsAppend(a[1..], b);
    }
  }

  function PlaylistPage(playlist: Playlist): (page: Page)
    ensures page == NotFound <==> playlist == Absent
    ensures page == ErrorPage <==> playlist == PlaylistNotAllowed
    ensures page.VideoList? ==> page.title == playlist.title && page.items == Items(playlist.entries)
  {
    match playlist
    case Absent => NotFound
    case PlaylistNotAllowed => ErrorPage
    case AuthorizedPlaylist(title, _, entries) => VideoList(title, Items(entries))
  }
}
