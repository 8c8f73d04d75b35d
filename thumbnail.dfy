/**
 * The thumbnail of a video: the replacement icon when there is no thumbnail
 * image, whether a video is audio-only, the overlay in its corner (duration,
 * or the state of a live event) and the duration format.
 *
 * Times are integer milliseconds since the epoch; the current time is the
 * parameter `now`.
 */
module Thumbnail {
  import opened Wrappers
  import opened Text

  // ---------------------------------------------------------------------------
  // formatDuration
  // ---------------------------------------------------------------------------

  /** `Math.round(totalMs / 1000)` for a non-negative duration. */
  function RoundedSeconds(totalMs: nat): nat {
    (totalMs + 500) / 1000
  }

  /** Two digits for values below 100, with a leading zero below 10. */
  function Pad(n: nat): (p: string)
    ensures AllChars(p, IsDigit)
    ensures n < 100 ==> |p| == 2
    ensures n < 10 ==> p[0] == '0'
  {
    if n < 10 then "0" + NatToString(n) else NatToString(n)
  }

  lemma PadValue(n: nat)
    ensures DecimalValue(Pad(n)) == n
  {
    var p := Pad(n);
    DecimalValueOfNat(n);
    if n < 10 {
      var d := DigitChar(n);
      assert [d][..0] == "" && DecimalValue([d]) == (d as int) - ('0' as int);
      assert p == ['0', d] && p[..1] == "0" && p[..1][..0] == "";
    }
  }

  /** `formatDuration`: "H:MM:SS" when there is at least one hour, "M:SS" otherwise. */
  function FormatDuration(totalMs: nat): (text: string)
    ensures text != ""
  {
    var totalSeconds := RoundedSeconds(totalMs);
    var seconds := totalSeconds % 60;
    var minutes := (totalSeconds / 60) % 60;
    var hours := totalSeconds / (60 * 60);
    if hours > 0 then NatToString(hours) + ":" + Pad(minutes) + ":" + Pad(seconds)
    else NatToString(minutes) + ":" + Pad(seconds)
  }

  /** The value in seconds of colon-separated fields read back in base 60. */
  function ClockValue(fields: seq<string>): nat
    requires forall i :: 0 <= i < |fields| ==> AllChars(fields[i], IsDigit)
  {
    if |fields| == 0 then 0
    else ClockValue(fields[..|fields| - 1]) * 60 + DecimalValue(fields[|fields| - 1])
  }

  /** The hours, minutes and seconds of a number of seconds. */
  lemma ClockFields(totalSeconds: nat)
    ensures totalSeconds % 60 < 60 && (totalSeconds / 60) % 60 < 60
    ensures (totalSeconds / 3600 * 60 + (totalSeconds / 60) % 60) * 60 + totalSeconds % 60 == totalSeconds
    ensures totalSeconds / 3600 == 0 ==> (totalSeconds / 60) % 60 == totalSeconds / 60
  {
    var q := totalSeconds / 60;
    assert q / 60 == totalSeconds / 3600;
  }

  /** The fields `formatDuration` joins with colons. */
  ghost function Fields(totalMs: nat): seq<string> {
    var ts := RoundedSeconds(totalMs);
    if ts / 3600 > 0 then [NatToString(ts / 3600), Pad((ts / 60) % 60), Pad(ts % 60)]
    else [NatToString((ts / 60) % 60), Pad(ts % 60)]
  }

  lemma JoinFields(a: string, b: string, c: string)
    ensures Join([a, b], ':') == a + ":" + b
    ensures Join([a, b, c], ':') == a + ":" + b + ":" + c
  {
    assert [a, b][1..] == [b];
    assert Join([a, b], ':') == a + [':'] + b;
    assert [b, c][1..] == [c];
    assert Join([b, c], ':') == b + [':'] + c;
    assert [a, b, c][1..] == [b, c];
    assert Join([a, b, c], ':') == a + [':'] + (b + [':'] + c);
  }

  lemma ClockValueTwo(a: string, b: string)
    requires AllChars(a, IsDigit) && AllChars(b, IsDigit)
    ensures ClockValue([a, b]) == DecimalValue(a) * 60 + DecimalValue(b)
  {
    assert [a, b][..1] == [a] && [a][..0] == [];
    assert ClockValue([a]) == ClockValue([]) * 60 + DecimalValue(a);
  }

  lemma ClockValueThree(a: string, b: string, c: string)
    requires AllChars(a, IsDigit) && AllChars(b, IsDigit) && AllChars(c, IsDigit)
    ensures ClockValue([a, b, c]) == (DecimalValue(a) * 60 + DecimalValue(b)) * 60 + DecimalValue(c)
  {
    assert [a, b, c][..2] == [a, b];
    ClockValueTwo(a, b);
  }

  lemma FormatIsJoin(totalMs: nat)
    ensures FormatDuration(totalMs) == Join(Fields(totalMs), ':')
  {
    var ts := RoundedSeconds(totalMs);
    JoinFields(if ts / 3600 > 0 then NatToString(ts / 3600) else NatToString((ts / 60) % 60),
      Pad(if ts / 3600 > 0 then (ts / 60) % 60 else ts % 60), Pad(ts % 60));
  }

  lemma FieldsValue(totalMs: nat)
    ensures forall i :: 0 <= i < |Fields(totalMs)| ==> AllChars(Fields(totalMs)[i], IsDigit)
    ensures ClockValue(Fields(totalMs)) == RoundedSeconds(totalMs)
  {
    var ts := RoundedSeconds(totalMs);
    var hours, minutes, seconds := ts / 3600, (ts / 60) % 60, ts % 60;
    ClockFields(ts);
    PadValue(minutes);
    PadValue(seconds);
    DecimalValueOfNat(hours);
    DecimalValueOfNat(minutes);
    if hours > 0 {
      ClockValueThree(NatToString(hours), Pad(minutes), Pad(seconds));
    } else {
      ClockValueTwo(NatToString(minutes), Pad(seconds));
    }
  }

  /**
   * Reading the formatted duration back gives the rounded number of seconds:
   * three fields when there is at least one hour, two otherwise, every field
   * after the first with exactly two digits and a value below 60, and the
   * first without a leading zero.
   */
  lemma FormatDurationRoundTrip(totalMs: nat)
    ensures var fields := SplitOn(FormatDuration(totalMs), ':');
      (|fields| == 3 <==> RoundedSeconds(totalMs) >= 3600)
      && (|fields| == 2 <==> RoundedSeconds(totalMs) < 3600)
      && (forall i :: 1 <= i < |fields| ==> |fields[i]| == 2)
      && (forall i :: 0 <= i < |fields| ==> AllChars(fields[i], IsDigit))
      && (forall i :: 1 <= i < |fields| ==> DecimalValue(fields[i]) < 60)
      && (|fields[0]| == 1 || fields[0][0] != '0')
      && ClockValue(fields) == RoundedSeconds(totalMs)
  {
    var fields := Fields(totalMs);
    var ts := RoundedSeconds(totalMs);
    FormatIsJoin(totalMs);
    FieldsValue(totalMs);
    PadValue((ts / 60) % 60);
    PadValue(ts % 60);
    forall i | 0 <= i < |fields| ensures NoSeparator(fields[i], ':') {
      assert AllChars(fields[i], IsDigit);
    }
    SplitJoin(fields, ':');
    ClockFields(RoundedSeconds(totalMs));
  }

  // ---------------------------------------------------------------------------
  // Live events
  // ---------------------------------------------------------------------------

  /** `isPastLiveEvent`: a live event whose end time has passed. */
  function IsPastLiveEvent(endTime: Option<int>, isLive: bool, now: int): (past: bool)
    ensures past ==> isLive && endTime.Some?
  {
    isLive && endTime.Some? && endTime.value < now
  }

  /** `isUpcomingLiveEvent`: a live event whose start time is still ahead. */
  function IsUpcomingLiveEvent(startingTime: Option<int>, isLive: bool, now: int): (upcoming: bool)
    ensures upcoming ==> isLive && startingTime.Some?
  {
    isLive && startingTime.Some? && startingTime.value > now
  }

  /** An event that does not end before it starts is never both past and upcoming. */
  lemma PastAndUpcomingExclusive(start: int, end: int, isLive: bool, now: int)
    requires start <= end
    ensures !(IsPastLiveEvent(Some(end), isLive, now) && IsUpcomingLiveEvent(Some(start), isLive, now))
  {
  }

  // ---------------------------------------------------------------------------
  // The thumbnail
  // ---------------------------------------------------------------------------

  /** A track of a video; `resolution` is absent for audio tracks. */
  datatype Track = Track(resolution: Option<seq<int>>)

  /** The authorized part of an event: either its tracks or a precomputed audio-only flag. */
  datatype Media = Tracks(tracks: seq<Track>) | AudioOnlyFlag(audioOnly: bool)

  datatype AuthorizedData = AuthorizedData(thumbnail: Option<string>, media: Media)

  datatype SyncedData = SyncedData(duration: nat, startTime: Option<int>, endTime: Option<int>)

  /** The event fields the thumbnail reads. */
  datatype Event = Event(
    isLive: bool,
    created: int,
    syncedData: Option<SyncedData>,
    authorizedData: Option<AuthorizedData>)

  /** Whether the event only has audio. */
  function AudioOnly(authorizedData: Option<AuthorizedData>): (audioOnly: bool)
    ensures authorizedData.None? ==> !audioOnly
    ensures authorizedData.Some? && authorizedData.value.media.AudioOnlyFlag? ==>
      audioOnly == authorizedData.value.media.audioOnly
    ensures authorizedData.Some? && authorizedData.value.media.Tracks? ==>
      (audioOnly <==> forall t :: t in authorizedData.value.media.tracks ==> t.resolution.None?)
  {
    match authorizedData
    case None => false
    case Some(data) =>
      match data.media
      case AudioOnlyFlag(flag) => flag
      case Tracks(tracks) => AllWithoutResolution(tracks)
  }

  /** `tracks.every(t => t.resolution == null)`. */
  function AllWithoutResolution(tracks: seq<Track>): (all: bool)
    ensures all <==> forall t :: t in tracks ==> t.resolution.None?
  {
    if |tracks| == 0 then true
    else
      assert forall t :: t in tracks <==> t == tracks[0] || t in tracks[1..];
      tracks[0].resolution.None? && AllWithoutResolution(tracks[1..])
  }

  /** The icons of the thumbnail replacement. */
  datatype Icon = Film | Volume | Lock | Trash

  /**
   * The icon shown when there is no thumbnail image: deletion wins over
   * preview-only, which wins over audio-only; the default is the film icon.
   */
  method ReplacementIcon(audioOnly: bool, deletionIsPending: bool, previewOnly: bool) returns (icon: Icon)
    ensures icon == Trash <==> deletionIsPending
    ensures icon == Lock <==> !deletionIsPending && previewOnly
    ensures icon == Volume <==> !deletionIsPending && !previewOnly && audioOnly
    ensures icon == Film <==> !deletionIsPending && !previewOnly && !audioOnly
  {
    icon := Film;
    if audioOnly {
      icon := Volume;
    }
    if previewOnly {
      icon := Lock;
    }
    if deletionIsPending {
      icon := Trash;
    }
  }

  /** The main part of the thumbnail: the image, or a replacement with an icon. */
  datatype Inner = Image(src: string) | Replacement(icon: Icon)

  /** The overlay in the corner. */
  datatype Overlay = NoOverlay | Ended | Live | Upcoming | Duration(text: string)

  /** A live event has ended, is live, or is upcoming. */
  ghost function LiveOverlay(start: int, end: Option<int>, now: int): Overlay {
    if end.Some? && end.value < now then Ended
    else if start < now then Live
    else Upcoming
  }

  /**
   * The thumbnail's image and overlay. `fetched` is the thumbnail loaded
   * separately for the signed-in user, used when the event carries none.
   */
  method Render(event: Event, deletionIsPending: bool, fetched: Option<string>, now: int)
    returns (inner: Inner, overlay: Overlay, liveBackground: bool)
    ensures var own := if event.authorizedData.Some? then event.authorizedData.value.thumbnail else None;
      var thumbnail := if own.Some? then own else fetched;
      (inner.Image? <==> thumbnail.Some? && thumbnail.value != "" && !deletionIsPending)
      && (inner.Image? ==> inner.src == thumbnail.value)
    ensures inner.Replacement? && event.authorizedData.None? && !deletionIsPending ==> inner.icon == Lock
    ensures inner.Replacement? && deletionIsPending ==> inner.icon == Trash
    ensures inner.Replacement? && !deletionIsPending && event.authorizedData.Some? ==>
      inner.icon == (if AudioOnly(event.authorizedData) then Volume else Film)
    ensures deletionIsPending ==> overlay == NoOverlay
    ensures !deletionIsPending && event.isLive ==>
      var synced := event.syncedData;
      var start := if synced.Some? && synced.value.startTime.Some? then synced.value.startTime.value else event.created;
      var end := if synced.Some? then synced.value.endTime else None;
      overlay == LiveOverlay(start, end, now)
    ensures !deletionIsPending && !event.isLive ==>
      if event.syncedData.Some? then overlay == Duration(FormatDuration(event.syncedData.value.duration))
      else overlay == NoOverlay
    ensures liveBackground <==> overlay == Live
  {
    var audioOnly := AudioOnly(event.authorizedData);
    var own := if event.authorizedData.Some? then event.authorizedData.value.thumbnail else None;
    var authorizedThumbnail := if own.Some? then own else fetched;
    if authorizedThumbnail.Some? && authorizedThumbnail.value != "" && !deletionIsPending {
      inner := Image(authorizedThumbnail.value);
    } else {
      var icon := ReplacementIcon(audioOnly, deletionIsPending, event.authorizedData.None?);
      inner := Replacement(icon);
    }

    liveBackground := false;
    if deletionIsPending {
      overlay := NoOverlay;
    } else if event.isLive {
      var synced := event.syncedData;
      var startTime := if synced.Some? && synced.value.startTime.Some? then synced.value.startTime.value else event.created;
      var endTime := if synced.Some? then synced.value.endTime else None;
      var hasEnded := endTime.Some? && endTime.value < now;
      var hasStarted := startTime < now;
      if hasEnded {
        overlay := Ended;
      } else if hasStarted {
        overlay := Live;
        liveBackground := true;
      } else {
        overlay := Upcoming;
      }
    } else if event.syncedData.Some? {
      overlay := Duration(FormatDuration(event.syncedData.value.duration));
    } else {
      overlay := NoOverlay;
    }
  }

  /**
   * The state of a live event in the overlay. It agrees with
   * `isPastLiveEvent`, and with `isUpcomingLiveEvent` except at the very
   * moment of the start, which the overlay already counts as upcoming.
   */
  lemma LiveOverlayStates(start: int, end: Option<int>, now: int)
    ensures LiveOverlay(start, end, now) == Ended <==> IsPastLiveEvent(end, true, now)
    ensures IsUpcomingLiveEvent(Some(start), true, now) && !IsPastLiveEvent(end, true, now) ==>
      LiveOverlay(start, end, now) == Upcoming
    ensures LiveOverlay(start, end, now) == Upcoming ==>
      IsUpcomingLiveEvent(Some(start), true, now) || start == now
    ensures LiveOverlay(start, end, now) != NoOverlay && !LiveOverlay(start, end, now).Duration?
  {
  }
}
