/**
 * The management dashboard route and the navigation list shown beside every
 * management page: which entries it holds for a user, in which order, and
 * which one is marked active.
 *
 * The URLs of the videos, upload, series and "create series" routes are
 * defined by those routes, which are not part of this model; they appear here
 * as constructors of `NavPath`. Labels and icons are translations and images
 * and are left out.
 */
module ManageNav {
  import opened Roles

  const PATH: string := "/~manage"

  /** `ManageRoute.match`: only the exact dashboard path. */
  function MatchManageRoute(pathname: string): (matched: bool)
    ensures matched ==> |pathname| == 8 && pathname[0] == '/' && pathname[1] == '~'
    ensures matched <==> pathname == PATH
  {
    pathname == PATH
  }

  lemma ManageRouteIsExact()
    ensures !MatchManageRoute(PATH + "/")
    ensures !MatchManageRoute(PATH + "/videos")
    ensures MatchManageRoute("/~manage")
  {
    assert |PATH + "/"| == 9;
  }

  /** The target of an entry; `Studio` is the "STUDIO" external service. */
  datatype NavPath =
    | Dashboard
    | UserRealm(username: string)
    | Videos
    | Upload
    | Studio
    | Series
    | CreateSeries

  /** The path string of the dashboard and of a user realm, as the source writes them. */
  function PathText(p: NavPath): (text: string)
    requires p.Dashboard? || p.UserRealm?
    ensures p.UserRealm? ==> |text| >= 2 && text[..2] == "/@" && text[2..] == p.username
    ensures p.Dashboard? ==> text == PATH
  {
    match p
    case Dashboard => PATH
    case UserRealm(name) => "/@" + name
  }

  /** A user realm's path never equals the dashboard path. */
  lemma UserRealmNotDashboard(username: string)
    ensures PathText(UserRealm(username)) != PathText(Dashboard)
  {
    assert PathText(UserRealm(username))[1] == '@';
    assert PathText(Dashboard)[1] == '~';
  }

  /** Position of an entry in the fixed order of the list. */
  function Rank(p: NavPath): nat {
    match p
    case Dashboard => 0
    case UserRealm(_) => 1
    case Videos => 2
    case Upload => 3
    case Studio => 4
    case Series => 5
    case CreateSeries => 6
  }

  predicate InOrder(entries: seq<NavPath>) {
    forall i, j :: 0 <= i < j < |entries| ==> Rank(entries[i]) < Rank(entries[j])
  }

  /** `[p]` when `cond` holds, else nothing: one conditional `push`. */
  function PushedIf(cond: bool, p: NavPath): seq<NavPath> {
    if cond then [p] else []
  }

  /** The entries of the list, written as the concatenation the pushes build. */
  ghost function NavEntries(user: UserState): seq<NavPath> {
    var isReal := user.RealUser?;
    [Dashboard]
    + PushedIf(isReal && user.user.canCreateUserRealm, UserRealm(if isReal then user.user.username else ""))
    + [Videos]
    + PushedIf(isReal && user.user.canUpload, Upload)
    + PushedIf(isReal && user.user.canUseStudio, Studio)
    + [Series]
    + [CreateSeries]
  }

  /** The conditional `push` calls of `ManageNav`. */
  method Entries(user: UserState) returns (entries: seq<NavPath>)
    ensures entries == NavEntries(user)
  {
    var isReal := user.RealUser?;
    entries := [Dashboard];
    if isReal && user.user.canCreateUserRealm {
      entries := entries + [UserRealm(user.user.username)];
    }
    assert entries == [Dashboard] + PushedIf(isReal && user.user.canCreateUserRealm, UserRealm(if isReal then user.user.username else ""));
    entries := entries + [Videos];
    var beforeUpload := entries;
    if isReal && user.user.canUpload {
      entries := entries + [Upload];
    }
    assert entries == beforeUpload + PushedIf(isReal && user.user.canUpload, Upload);
    var beforeStudio := entries;
    if isReal && user.user.canUseStudio {
      entries := entries + [Studio];
    }
    assert entries == beforeStudio + PushedIf(isReal && user.user.canUseStudio, Studio);
    entries := entries + [Series];
    entries := entries + [CreateSeries];
  }

  lemma NavEntriesShape(user: UserState)
    ensures var e := NavEntries(user);
      4 <= |e| <= 7 && e[0] == Dashboard && e[|e| - 1] == CreateSeries
  {
  }

  /** The entries keep the order dashboard, user realm, videos, upload, studio, series, create. */
  lemma NavEntriesOrder(user: UserState)
    ensures InOrder(NavEntries(user))
  {
    var isReal := user.RealUser?;
    var e0 := [Dashboard];
    var e1 := e0 + PushedIf(isReal && user.user.canCreateUserRealm, UserRealm(if isReal then user.user.username else ""));
    PushKeepsOrder(e0, isReal && user.user.canCreateUserRealm, UserRealm(if isReal then user.user.username else ""));
    var e2 := e1 + PushedIf(true, Videos);
    PushKeepsOrder(e1, true, Videos);
    var e3 := e2 + PushedIf(isReal && user.user.canUpload, Upload);
    PushKeepsOrder(e2, isReal && user.user.canUpload, Upload);
    var e4 := e3 + PushedIf(isReal && user.user.canUseStudio, Studio);
    PushKeepsOrder(e3, isReal && user.user.canUseStudio, Studio);
    var e5 := e4 + PushedIf(true, Series);
    PushKeepsOrder(e4, true, Series);
    PushKeepsOrder(e5, true, CreateSeries);
  }

  predicate RanksBelow(entries: seq<NavPath>, bound: nat) {
    forall i :: 0 <= i < |entries| ==> Rank(entries[i]) < bound
  }

  /** A push of an entry ranked after every entry so far keeps the list ordered. */
  lemma PushKeepsOrder(entries: seq<NavPath>, cond: bool, p: NavPath)
    requires InOrder(entries) && RanksBelow(entries, Rank(p))
    ensures InOrder(entries + PushedIf(cond, p)) && RanksBelow(entries + PushedIf(cond, p), Rank(p) + 1)
  {
    var pushed := entries + PushedIf(cond, p);
    assert forall i :: 0 <= i < |entries| ==> pushed[i] == entries[i];
  }

  /** The user-realm entry is there exactly when a real user may create their realm, and names them. */
  lemma NavEntriesUserRealm(user: UserState)
    ensures forall name :: UserRealm(name) in NavEntries(user) <==>
      user.RealUser? && user.user.canCreateUserRealm && name == user.user.username
  {
  }

  /** Upload and Studio follow the user's permissions; videos and both series entries are always there. */
  lemma NavEntriesPermissions(user: UserState)
    ensures Upload in NavEntries(user) <==> user.RealUser? && user.user.canUpload
    ensures Studio in NavEntries(user) <==> user.RealUser? && user.user.canUseStudio
    ensures Videos in NavEntries(user) && Series in NavEntries(user) && CreateSeries in NavEntries(user)
  {
  }

  /** An item of the rendered list: a link to the Studio service or an internal link. */
  datatype Link = StudioLink | InternalLink(to: NavPath, active: bool)

  /** The `entries.map(...)` of `ManageNav`. */
  function Links(entries: seq<NavPath>, active: NavPath): (links: seq<Link>)
    ensures |links| == |entries|
    ensures forall i :: 0 <= i < |entries| ==>
      (entries[i] == Studio <==> links[i] == StudioLink)
      && (entries[i] != Studio ==>
            (links[i].InternalLink? && links[i].to == entries[i] && (links[i].active <==> entries[i] == active)))
  {
    if |entries| == 0 then []
    else
      var head := if entries[0] == Studio then StudioLink else InternalLink(entries[0], entries[0] == active);
      [head] + Links(entries[1..], active)
  }

  /** The whole list a user sees. */
  method Nav(user: UserState, active: NavPath) returns (links: seq<Link>)
    ensures links == Links(NavEntries(user), active)
    ensures 4 <= |links| <= 7
    ensures links[0] == InternalLink(Dashboard, active == Dashboard)
    ensures StudioLink in links <==> user.RealUser? && user.user.canUseStudio
    ensures forall i :: 0 <= i < |links| && IsActive(links[i]) ==> links[i].to == active
    ensures forall i, j :: 0 <= i < |links| && 0 <= j < |links| && IsActive(links[i]) && IsActive(links[j]) ==> i == j
  {
    var entries := Entries(user);
    links := Links(entries, active);
    NavLinks(user, active);
  }

  lemma NavLinks(user: UserState, active: NavPath)
    ensures var links := Links(NavEntries(user), active);
      && 4 <= |links| <= 7
      && links[0] == InternalLink(Dashboard, active == Dashboard)
      && (StudioLink in links <==> user.RealUser? && user.user.canUseStudio)
      && (forall i :: 0 <= i < |links| && IsActive(links[i]) ==> links[i].to == active)
      && (forall i, j :: 0 <= i < |links| && 0 <= j < |links| && IsActive(links[i]) && IsActive(links[j]) ==> i == j)
  {
    var entries := NavEntries(user);
    NavEntriesShape(user);
    NavEntriesOrder(user);
    assert Studio in entries <==> user.RealUser? && user.user.canUseStudio by {
      NavEntriesPermissions(user);
    }
    LinksOfOrderedEntries(entries, active);
  }

  /** What the map keeps of an ordered list that starts with the dashboard. */
  lemma LinksOfOrderedEntries(entries: seq<NavPath>, active: NavPath)
    requires 4 <= |entries| <= 7 && entries[0] == Dashboard && InOrder(entries)
    ensures var links := Links(entries, active);
      && 4 <= |links| <= 7
      && links[0] == InternalLink(Dashboard, active == Dashboard)
      && (StudioLink in links <==> Studio in entries)
      && (forall i :: 0 <= i < |links| && IsActive(links[i]) ==> links[i].to == active)
      && (forall i, j :: 0 <= i < |links| && 0 <= j < |links| && IsActive(links[i]) && IsActive(links[j]) ==> i == j)
  {
    var links := Links(entries, active);
    StudioLinkIff(entries, active);
    AtMostOneActive(entries, links, active);
  }

  /** The map turns exactly the Studio entry into the Studio link. */
  lemma StudioLinkIff(entries: seq<NavPath>, active: NavPath)
    ensures StudioLink in Links(entries, active) <==> Studio in entries
  {
    var links := Links(entries, active);
    if StudioLink in links {
      var k :| 0 <= k < |links| && links[k] == StudioLink;
      assert entries[k] == Studio;
    }
    if Studio in entries {
      var k :| 0 <= k < |entries| && entries[k] == Studio;
      assert links[k] == StudioLink;
    }
  }

  /** Every entry other than Studio becomes the internal link to it, marked active exactly when it is `active`. */
  lemma LinksTargets(entries: seq<NavPath>, active: NavPath, p: NavPath)
    requires p != Studio
    ensures InternalLink(p, p == active) in Links(entries, active) <==> p in entries
    ensures forall b :: InternalLink(p, b) in Links(entries, active) ==> b == (p == active)
  {
    var links := Links(entries, active);
    if p in entries {
      var k :| 0 <= k < |entries| && entries[k] == p;
      assert links[k] == InternalLink(p, p == active);
    }
    forall b | InternalLink(p, b) in links
      ensures b == (p == active) && p in entries
    {
      var k :| 0 <= k < |links| && links[k] == InternalLink(p, b);
      assert entries[k] == p;
    }
  }

  predicate IsActive(link: Link) {
    link.InternalLink? && link.active
  }

  /** Entries in strictly increasing rank are distinct, so at most one matches `active`. */
  lemma AtMostOneActive(entries: seq<NavPath>, links: seq<Link>, active: NavPath)
    requires InOrder(entries)
    requires links == Links(entries, active)
    ensures forall i, j :: 0 <= i < |links| && 0 <= j < |links| && IsActive(links[i]) && IsActive(links[j]) ==> i == j
  {
    forall i, j | 0 <= i < |links| && 0 <= j < |links| && IsActive(links[i]) && IsActive(links[j])
      ensures i == j
    {
      assert entries[i] == active == entries[j];
    }
  }
}
