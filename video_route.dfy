/**
 * The two routes that open a video: one below a realm
 * (`/<realm path>/v/<video id>`) and one direct (`/!<video id>`), the id both
 * hand to the video page, the management link built back from that id, and
 * when the page shows the "updated" date.
 *
 * Both routes match the path after `decodeURI`; the path given here is the
 * decoded one, and the error `decodeURI` raises on a malformed escape is not
 * part of this model. Whether a realm path segment is valid is
 * decided by `isValidPathSegment`, a parameter standing for the realm route's
 * own check.
 */
module VideoRoute {
  import opened Wrappers
  import opened Text

  /** What a matching route loads: the event id and the realm path it is shown in. */
  datatype Prepared = Prepared(id: string, realmPath: string)

  /** `.replace(/^\//, "").replace(/\/$/, "")`: one leading, then one trailing slash removed. */
  function StripSlashes(path: string): (stripped: string)
    ensures var afterLead := if |path| > 0 && path[0] == '/' then path[1..] else path;
      afterLead == stripped || afterLead == stripped + "/"
  {
    var afterLead := if |path| > 0 && path[0] == '/' then path[1..] else path;
    if |afterLead| > 0 && afterLead[|afterLead| - 1] == '/' then afterLead[..|afterLead| - 1]
    else afterLead
  }

  /** The unanchored `match(b64regex)`: some character of the id is a base64url character. */
  predicate HasB64Char(s: string) {
    exists i :: 0 <= i < |s| && IsB64Char(s[i])
  }

  /** The `for` loop over the realm path parts: the first invalid segment rejects the path. */
  function AllValid(segments: seq<string>, isValidPathSegment: string -> bool): (valid: bool)
    ensures valid <==> forall i :: 0 <= i < |segments| ==> isValidPathSegment(segments[i])
  {
    if |segments| == 0 then true
    else if !isValidPathSegment(segments[0]) then false
    else
      var rest := AllValid(segments[1..], isValidPathSegment);
      assert forall i :: 1 <= i < |segments| ==> segments[i] == segments[1..][i - 1];
      rest
  }

  /** The segments of a path once its outer slashes are removed. */
  function RouteParts(pathname: string): seq<string> {
    SplitOn(StripSlashes(pathname), '/')
  }

  /** The segments end in "v" and an id with a base64url character, after valid realm segments. */
  predicate IsVideoRoute(parts: seq<string>, isValidPathSegment: string -> bool) {
    && |parts| >= 2
    && parts[|parts| - 2] == "v"
    && HasB64Char(parts[|parts| - 1])
    && forall i :: 0 <= i < |parts| - 2 ==> isValidPathSegment(parts[i])
  }

  /** `VideoRoute`. */
  function MatchVideoRoute(pathname: string, isValidPathSegment: string -> bool): (r: Option<Prepared>)
    ensures r.Some? <==> IsVideoRoute(RouteParts(pathname), isValidPathSegment)
    ensures var parts := RouteParts(pathname);
      r.Some? ==> (r.value.id == "ev" + parts[|parts| - 1]
        && r.value.realmPath == "/" + Join(parts[..|parts| - 2], '/'))
  {
    var parts := RouteParts(pathname);
    if |parts| < 2 then None
    else if parts[|parts| - 2] != "v" then None
    else
      var videoId := parts[|parts| - 1];
      if !HasB64Char(videoId) then None
      else
        var realmPathParts := parts[..|parts| - 2];
        if !AllValid(realmPathParts, isValidPathSegment) then None
        else
          var realmPath := "/" + Join(realmPathParts, '/');
          Some(Prepared("ev" + videoId, realmPath))
  }

  /** The path of a video below a realm, as links to it are written. */
  function VideoPath(realm: seq<string>, videoId: string): string {
    "/" + Join(realm + ["v", videoId], '/')
  }

  /** The segments of a video path are the realm segments, "v" and the id. */
  lemma VideoPathParts(realm: seq<string>, videoId: string)
    requires forall i :: 0 <= i < |realm| ==> NoSeparator(realm[i], '/')
    requires NoSeparator(videoId, '/') && videoId != ""
    ensures RouteParts(VideoPath(realm, videoId)) == realm + ["v", videoId]
  {
    var parts := realm + ["v", videoId];
    var joined := Join(parts, '/');
    assert joined[|joined| - 1] == videoId[|videoId| - 1] by {
      JoinEndsWithLast(parts, '/');
    }
    assert StripSlashes("/" + joined) == joined by {
      assert ("/" + joined)[1..] == joined;
    }
    forall i | 0 <= i < |parts| ensures NoSeparator(parts[i], '/') {
      if i == |realm| {
        assert parts[i] == "v";
      } else if i == |realm| + 1 {
        assert parts[i] == videoId;
      } else {
        assert parts[i] == realm[i];
      }
    }
    SplitJoin(parts, '/');
  }

  /**
   * A video path built from valid segments and an id containing a base64url
   * character matches, and gives back the id (prefixed) and the realm path.
   */
  lemma VideoPathMatches(realm: seq<string>, videoId: string, isValidPathSegment: string -> bool)
    requires forall i :: 0 <= i < |realm| ==> NoSeparator(realm[i], '/') && isValidPathSegment(realm[i])
    requires NoSeparator(videoId, '/') && HasB64Char(videoId)
    ensures MatchVideoRoute(VideoPath(realm, videoId), isValidPathSegment)
      == Some(Prepared("ev" + videoId, "/" + Join(realm, '/')))
  {
    var parts := realm + ["v", videoId];
    VideoPathParts(realm, videoId);
    assert parts[..|parts| - 2] == realm;
    assert IsVideoRoute(parts, isValidPathSegment);
  }

  /** A join ends like its last part when that part is not empty. */
  lemma {:induction false} JoinEndsWithLast(parts: seq<string>, sep: char)
    requires |parts| >= 1 && parts[|parts| - 1] != ""
    ensures var joined := Join(parts, sep);
      |joined| >= |parts[|parts| - 1]| && joined[|joined| - 1] == parts[|parts| - 1][|parts[|parts| - 1]| - 1]
  {
    if |parts| > 1 {
      JoinEndsWithLast(parts[1..], sep);
    }
  }

  /** The path is "/!" and a non-empty base64url id, with an optional trailing slash. */
  predicate IsDirectPath(pathname: string, id: string) {
    |id| >= 1 && AllChars(id, IsB64Char) && (pathname == "/!" + id || pathname == "/!" + id + "/")
  }

  /** `DirectVideoRoute`: `^/!([a-zA-Z0-9\-_]+)/?$`, always shown at the root realm. */
  function MatchDirectVideoRoute(pathname: string): (r: Option<Prepared>)
    ensures r.Some? <==> exists id :: IsDirectPath(pathname, id)
    ensures r.Some? ==> (r.value.realmPath == "/" && |r.value.id| > 2 && r.value.id[..2] == "ev"
      && IsDirectPath(pathname, r.value.id[2..]))
  {
    if |pathname| < 2 || pathname[..2] != "/!" then
      NoDirectPathWithoutPrefix(pathname);
      None
    else
      var body := pathname[2..];
      var videoId := if |body| > 0 && body[|body| - 1] == '/' then body[..|body| - 1] else body;
      DirectPathId(pathname, videoId);
      if |videoId| >= 1 && AllChars(videoId, IsB64Char) then
        assert ("ev" + videoId)[..2] == "ev" && ("ev" + videoId)[2..] == videoId;
        assert IsDirectPath(pathname, videoId);
        Some(Prepared("ev" + videoId, "/"))
      else
        None
  }

  lemma NoDirectPathWithoutPrefix(pathname: string)
    requires |pathname| < 2 || pathname[..2] != "/!"
    ensures forall id :: !IsDirectPath(pathname, id)
  {
    forall id ensures !IsDirectPath(pathname, id) {
      if |pathname| >= 2 {
        assert ("/!" + id)[..2] == "/!" && ("/!" + id + "/")[..2] == "/!";
      }
    }
  }

  /** After "/!" and without one trailing slash, the rest is the only candidate id. */
  lemma DirectPathId(pathname: string, videoId: string)
    requires |pathname| >= 2 && pathname[..2] == "/!"
    requires var body := pathname[2..];
      videoId == if |body| > 0 && body[|body| - 1] == '/' then body[..|body| - 1] else body
    ensures forall id :: IsDirectPath(pathname, id) <==> id == videoId && |videoId| >= 1 && AllChars(videoId, IsB64Char)
  {
    var body := pathname[2..];
    assert pathname == "/!" + body;
    forall id | IsDirectPath(pathname, id) ensures id == videoId {
      assert ("/!" + id)[2..] == id && ("/!" + id + "/")[2..] == id + "/";
      assert (id + "/")[..|id|] == id && id[|id| - 1] != '/';
    }
  }

  /** The link to the management page of the video: the prepared id without its "ev". */
  function ManageVideoPath(id: string): (path: string)
    ensures |id| >= 2 ==> path == "/~manage/videos/" + id[2..]
  {
    "/~manage/videos/" + (if |id| >= 2 then id[2..] else "")
  }

  /** Both routes prefix the id so that the management link recovers it exactly. */
  lemma ManageLinkRecoversId(videoId: string)
    ensures ManageVideoPath("ev" + videoId) == "/~manage/videos/" + videoId
  {
    assert ("ev" + videoId)[2..] == videoId;
  }

  /** The page shows the "updated" date only when it is more than five minutes after creation. */
  function ShowsUpdated(createdMs: int, updatedMs: int): (shown: bool)
    ensures shown ==> updatedMs > createdMs
  {
    updatedMs - createdMs > 5 * 60 * 1000
  }

  lemma UpdatedThreshold(createdMs: int)
    ensures !ShowsUpdated(createdMs, createdMs + 300000)
    ensures ShowsUpdated(createdMs, createdMs + 300001)
    ensures forall u :: ShowsUpdated(createdMs, u) <==> u > createdMs + 300000
  {
  }
}
