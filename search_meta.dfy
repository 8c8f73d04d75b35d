/**
 * The versioning state of the search index: what the single document of the
 * "meta" index says, and whether the index has to be rebuilt.
 *
 * The index's current version (`VERSION`) is a parameter. Fetching the
 * documents is I/O and not modelled; `Fetch` receives them already decoded,
 * `None` standing for a document that does not decode as `Meta`.
 */
module SearchMeta {
  import opened Wrappers

  newtype u32 = x: int | 0 <= x < 0x1_0000_0000

  /** The document stored in the meta index. */
  datatype Meta = Meta(id: string, version: u32, dirty: bool)

  datatype IndexState =
    | NoVersionInfo
    | BrokenVersionInfo
    | Info(dirty: bool, version: u32)

  /** `needs_rebuild`. */
  function NeedsRebuild(state: IndexState, current: u32): (rebuild: bool)
    ensures !rebuild <==> state.Info? && !state.dirty && state.version == current
  {
    state != Info(false, current)
  }

  /** Missing or broken version information, a dirty flag or another version all force a rebuild. */
  lemma RebuildCases(state: IndexState, current: u32)
    ensures state.NoVersionInfo? ==> NeedsRebuild(state, current)
    ensures state.BrokenVersionInfo? ==> NeedsRebuild(state, current)
    ensures state.Info? && (state.dirty || state.version != current) ==> NeedsRebuild(state, current)
  {
  }

  datatype FetchError = MoreThanOneDocument

  /** The classification in `fetch`, over the documents of the meta index. */
  function Fetch(documents: seq<Option<Meta>>): (r: Result<IndexState, FetchError>)
    ensures r == Ok(NoVersionInfo) <==> |documents| == 0
    ensures r.Err? <==> |documents| > 1
    ensures r == Ok(BrokenVersionInfo) <==> |documents| == 1 && documents[0].None?
    ensures r.Ok? && r.value.Info? <==> |documents| == 1 && documents[0].Some?
    ensures r.Ok? && r.value.Info? ==>
      r.value.version == documents[0].value.version && r.value.dirty == documents[0].value.dirty
  {
    if |documents| == 0 then Ok(NoVersionInfo)
    else if |documents| > 1 then Err(MoreThanOneDocument)
    else
      match documents[0]
      case None => Ok(BrokenVersionInfo)
      case Some(meta) => Ok(Info(meta.dirty, meta.version))
  }

  /**
   * A fetched state spares the rebuild exactly when the meta index holds one
   * document, it decodes, it is clean and it carries the current version.
   */
  lemma FetchedNeedsNoRebuild(documents: seq<Option<Meta>>, current: u32)
    requires Fetch(documents).Ok?
    ensures !NeedsRebuild(Fetch(documents).value, current) <==>
      |documents| == 1 && documents[0].Some? && !documents[0].value.dirty && documents[0].value.version == current
  {
  }
}
