# Tobira core rules in Dafny

This project models the rule-like core of Tobira, a video portal for
Opencast, and proves properties about it. The model covers:

- **The ACL editor** (`frontend/src/ui/Access.tsx`). This includes:
  - the group superset DAG, with its reachability search `supersetsOf` and its topological `sort`;
  - the edits of the editor, each made on a fresh copy of the ACL;
  - the subset warning list `supersetList`;
  - the group/user partition `splitAcl`;
  - the role predicates `isValidNewOption` and `getUserRole`.
- **The auth configuration rules** (`backend/src/auth/config.rs`). This includes:
  - the cross-field checks of `AuthConfig::validate`;
  - `find_user_role` and `is_user_role`;
  - the keyword parsers of `AuthSource`, `LoginCredentialsHandler` and `SessionEndpointHandler`, together with their labels.
- **Descriptions** (`frontend/src/ui/metadata.tsx`). This covers trimming, the split into paragraphs and separators, and the placeholder choice.
- **Thumbnails** (`frontend/src/ui/Video.tsx`). This covers duration formatting, the live-event predicates, the choice of replacement icon, and the overlay classification.
- **Route matching.** This covers:
  - video routes and direct video routes, plus the "updated" threshold (`frontend/src/routes/Video.tsx`);
  - the two playlist routes and the playlist page (`frontend/src/routes/Playlist.tsx`);
  - the management dashboard route and its navigation list (`frontend/src/routes/manage/index.tsx`).
- **Realm form rules** (`frontend/src/routes/manage/Realm/util.tsx`).
- **Search index versioning** (`backend/src/search/meta.rs`).

Module layout, one or more modules per source file:

| module | file |
|---|---|
| `Wrappers`, `Text`, `Finding` | shared `Option`/`Result`, string helpers (split, join, decimal digits), first match in a sequence |
| `Roles` | the common role constants and the user state |
| `GroupDag` | the superset DAG and its two queries (`Access.tsx`) |
| `AclRoles` | role predicates, labels, `splitAcl`, DAG construction, `supersetList` (`Access.tsx`) |
| `AclEdit` | the ACL draft class and the edits (`Access.tsx`) |
| `AuthConfig` | `config.rs` |
| `Description` | `metadata.tsx` |
| `Thumbnail` | `ui/Video.tsx` |
| `VideoRoute`, `PlaylistRoute`, `ManageNav`, `RealmValidation` | the route files |
| `SearchMeta` | `meta.rs` |

Conventions:

- **Role constants.** The common roles are the distinct constants `ROLE_ANONYMOUS`, `ROLE_USER`, `ROLE_ADMIN` and `ROLE_USER_ADMIN`. The first two are the keys of the built-in groups.
- **Time.** Clock readings and dates are integer milliseconds passed in as parameters.
- **Foreign predicates.** `isValidPathSegment`, `parse_normal_http_uri`, the translation function `t`, and the Unicode categories `\p{Ll}` and `\p{Nd}` are function parameters.
- **Imperative code stays imperative.** These are methods with loops and invariants:
  - the DAG search;
  - the topological sort;
  - the edits on the copied sets (a class with `modifies` clauses);
  - the conditional pushes of the management navigation.

  Each is proved against a specification function or predicate.

## Model

| member | source | states |
|---|---|---|
| `GroupDag.SupersetsOf` | frontend/src/ui/Access.tsx:676-705 | The result holds exactly the roles that include the start role. An unknown admin role gets `[]`; any other unknown role gets `[ANONYMOUS, USER]`. A known start role is never in its own result, and the result has no duplicates. |
| `GroupDag.Search` | frontend/src/ui/Access.tsx:687-704 | The stack-and-visited-set search returns exactly the roles reachable along superset edges, without duplicates. It terminates because each vertex is expanded at most once. |
| `GroupDag.ReachClosed` | frontend/src/ui/Access.tsx:695-702 | A set holding the direct supersets of the start role, and closed under taking direct supersets, contains every role reachable from the start role. |
| `GroupDag.NoSelfReach` | frontend/src/ui/Access.tsx:657-673 | In a ranked DAG no role reaches itself, so the start role is never its own superset. |
| `GroupDag.BuildInverse` | frontend/src/ui/Access.tsx:712-718 | The inverse-edge map has a key for every vertex. `sub` is listed under `sup` exactly when `sup` is a direct superset of `sub`. Each list is `Inverse(d)`'s, in key order. |
| `GroupDag.SubsetsIn` | frontend/src/ui/Access.tsx:714-718 | The list for `s` holds exactly the keys that have `s` as a direct superset, in key order. |
| `GroupDag.InverseIsInverse` | frontend/src/ui/Access.tsx:712-718 | The lists in key order are duplicate-free, and list exactly the direct subsets. |
| `GroupDag.AddedOnce` | frontend/src/ui/Access.tsx:716 | A set insertion keeps the list duplicate-free and adds exactly the new element. |
| `GroupDag.VisitAll` | frontend/src/ui/Access.tsx:723-743 | The worklist loop, started from anonymous, visits every group of the DAG. It outputs only input options of visited groups, each role at most once, and with distinct input values every such option. Each option comes after every output option whose role is one of its supersets, direct or transitive. The output is the options found along `WalkFrom(d, inverse)`, a walk that does not depend on the options. |
| `GroupDag.WalkStep` | frontend/src/ui/Access.tsx:724-742 | One round of the walk pops the top candidate, visits it, and pushes its ready subsets. |
| `GroupDag.WalkMembers` | frontend/src/ui/Access.tsx:723-743 | The walk visits exactly the known groups not yet visited. |
| `GroupDag.VisitOrder` | frontend/src/ui/Access.tsx:707-743 | The visit order of a DAG lists exactly its known groups. |
| `GroupDag.Found` | frontend/src/ui/Access.tsx:727-730 | Every found option is an input option whose role is in the order. |
| `GroupDag.FoundMembers` | frontend/src/ui/Access.tsx:727-730 | With distinct values, exactly the input options whose role is in the order are found. |
| `GroupDag.AppendUnknown` | frontend/src/ui/Access.tsx:745-750 | Options never visited are appended after the visited ones, in their original relative order. |
| `GroupDag.Sort` | frontend/src/ui/Access.tsx:707-753 | The output is topologically sorted: every option whose role is a superset (direct or transitive) of another option's role comes before it. It ends with the unknown options in input order, and everything before them is known. Every output option comes from the input. For inputs with distinct values, the output is a permutation of the input. The output is `SortedOptions(d, options)`: the options found along `VisitOrder(d)`, then the unknown ones. |
| `GroupDag.AppendUnknownFacts` | frontend/src/ui/Access.tsx:745-752 | After the placed options come exactly the unknown ones. The whole list stays sorted, comes from the input, and is a permutation of distinct input. |
| `GroupDag.SortedSameLookups` | frontend/src/ui/Access.tsx:707-753 | With distinct values, a lookup by role in the sorted list finds the same option as in the input. |
| `GroupDag.UnknownOfKnown` | frontend/src/ui/Access.tsx:745-750 | Options of known groups leave nothing to append. |
| `GroupDag.UnknownAfterKnown` | frontend/src/ui/Access.tsx:745-750 | Known options followed by unknown ones leave exactly the unknown ones to append. |
| `GroupDag.SortIdempotent` | frontend/src/ui/Access.tsx:707-753 | For options with distinct values, sorting a sorted list gives it back unchanged. |
| `GroupDag.SortedAppendUnknown` | frontend/src/ui/Access.tsx:745-750 | Appending options with unknown roles keeps a topologically sorted list sorted, because unknown roles reach and are reached by no group. |
| `GroupDag.SortedDirect` | frontend/src/ui/Access.tsx:723-743 | In a sorted list, a direct superset comes before its subset. |
| `GroupDag.ReachesKnown` | frontend/src/ui/Access.tsx:745-750 | Both ends of a superset relation are known groups. |
| `GroupDag.PermutationAppendUnknown` | frontend/src/ui/Access.tsx:723-750 | Visited options plus unknown options in input order form a permutation of distinct input options. |
| `GroupDag.UnknownMembers` | frontend/src/ui/Access.tsx:745-750 | The unknown tail holds exactly the input options whose role is not a vertex of the DAG. |
| `AclRoles.BuildDag` | frontend/src/ui/Access.tsx:657-673 | The DAG's keys are the group keys in order. Each vertex maps to its built superset list. |
| `AclRoles.DirectSupersets` | frontend/src/ui/Access.tsx:663-670 | Anonymous has no direct supersets, and no other group has an empty list. |
| `AclRoles.BuiltSupersets` | frontend/src/ui/Access.tsx:660-672 | Over the built DAG, anonymous reaches nothing and user reaches only anonymous. Every other group reaches exactly user and anonymous. |
| `AclRoles.BuiltDagValid` | frontend/src/ui/Access.tsx:657-673 | The built table is a valid DAG: closed under edges, distinct and ranked. |
| `AclRoles.BuiltEdgeTargets` | frontend/src/ui/Access.tsx:663-670 | Every edge of the built DAG ends in user or anonymous, and never leaves anonymous. |
| `AclRoles.KnownGroupsValid` | frontend/src/ui/Access.tsx:603-611 | The five built-in group keys are distinct and include anonymous and user, so the built DAG is valid. |
| `AclRoles.IsValidNewOption` | frontend/src/ui/Access.tsx:209-213 | In the user column, input is accepted exactly when it matches `^ROLE_USER_\w+`. In the group column, it is accepted exactly when it matches `^ROLE_\w+` but not the user pattern. |
| `AclRoles.NewOptionColumnsDisjoint` | frontend/src/ui/Access.tsx:209-213 | No typed role is accepted as a new option in both columns. |
| `AclRoles.GetUserRole` | frontend/src/ui/Access.tsx:590-593 | The result is "Unknown" exactly when there is no real user or none of the user's roles matches `^ROLE_USER\w+`. Otherwise it is the first such role. |
| `AclRoles.SplitAcl` | frontend/src/ui/Access.tsx:575-588 | Each of the two sets is split into disjoint group and user parts whose union is the set. The user part is exactly the roles matching `^ROLE_USER_\w+`. |
| `AclRoles.GroupLabelKey` | frontend/src/ui/Access.tsx:603-611 | Exactly the five built-in groups have a translation key, each under "acl.groups.". |
| `AclRoles.KnownUserName` | frontend/src/ui/Access.tsx:613-618 | Exactly the four placeholder users have a name, and it is not empty. |
| `AclRoles.GetLabel` | frontend/src/ui/Access.tsx:567-573 | The user admin role gets the admin label. A known group or user gets its own name. Any other role is shown as itself. |
| `AclRoles.KeepSelected` | frontend/src/ui/Access.tsx:561 | A superset is kept exactly when it has read access and, if the subset role has write access, also write access. Distinct input gives distinct output. The kept roles are a subsequence of the supersets, so the filter keeps their order. |
| `AclRoles.SubsequenceOrder` | frontend/src/ui/Access.tsx:561 | Two elements of a subsequence appear in the original in the same order. |
| `AclRoles.SupersetList` | frontend/src/ui/Access.tsx:557-563 | The warning lists exactly the supersets of the role that are selected with at least the role's level of access, without duplicates. They appear in the order of the superset list, which holds exactly the role's supersets. Each is shown with its group label. |
| `AclEdit.AclDraft.Copy` | frontend/src/ui/Access.tsx:66-69 | The draft starts as a copy of both sets of the ACL. |
| `AclEdit.AclDraft.Value` | frontend/src/ui/Access.tsx:71 | The value handed to `onChange` holds exactly the draft's sets. |
| `AclEdit.AclDraft.Remove` | frontend/src/ui/Access.tsx:155-158 | Removes the role from both sets. Nothing else changes. |
| `AclEdit.AclDraft.AddRead` | frontend/src/ui/Access.tsx:160-162 | Adds the role to the read set. The write set is unchanged. |
| `AclEdit.AclDraft.AddChosen` | frontend/src/ui/Access.tsx:164-168 | Adds to the read set the values of the chosen options that are not yet shown. The write set is unchanged. |
| `AclEdit.AclDraft.AddWrite` | frontend/src/ui/Access.tsx:467-468 | Adds the role to the write set. The read set is unchanged. |
| `AclEdit.AclDraft.DeleteWrite` | frontend/src/ui/Access.tsx:469-470 | Deletes the role from the write set. The read set is unchanged. |
| `AclEdit.Change` | frontend/src/ui/Access.tsx:65-72 | Each edit runs on a fresh copy, and the result equals the edit's specification. The caller's ACL is a value and is left as it was. |
| `AclEdit.OthersUnchanged` | frontend/src/ui/Access.tsx:155-168 | No edit changes the access of a role it does not touch. |
| `AclEdit.TouchedRoles` | frontend/src/ui/Access.tsx:464-473 | Remove takes the role out of both sets. Create and select add to the read set only. The action menu sets write access as chosen and leaves read access as it was. |
| `AclEdit.EditKeepsWriteImpliesRead` | frontend/src/ui/Access.tsx:155-168 | If every writer is also a reader, every edit of a shown row keeps it that way. |
| `AclEdit.SetActionKeepsRow` | frontend/src/ui/Access.tsx:464-473 | Under that invariant, switching a shown row between read and write keeps the row shown. |
| `AclEdit.WriteOnlyRowVanishes` | frontend/src/ui/Access.tsx:469-470 | Without the invariant, a write-only role disappears from the rows when it is switched to read. |
| `AclEdit.ApplyIdempotent` | frontend/src/ui/Access.tsx:155-168 | Repeating an edit changes nothing more. |
| `AclEdit.OfferedKeepsProtectedRoles` | frontend/src/ui/Access.tsx:370 | The edits the rows offer never take access away from the admin role. When a user is required, they never take it from the current user either; that user's write access is fixed at lines 427-429. |
| `AuthConfig.ParseCallback` | backend/src/auth/config.rs:199-201 | A prefixed value parses exactly when the URI parser accepts the remainder, and carries that URI. |
| `AuthConfig.ParseAuthSource` | backend/src/auth/config.rs:192-204 | A `Callback` result comes from a "callback:" value. The value is rejected as invalid exactly when it is none of the keywords and lacks the prefix. A prefixed value parses exactly when the URI parser accepts the rest, and carries that URI; otherwise it gives the invalid-URI error. |
| `AuthConfig.AuthSourceLabel` | backend/src/auth/config.rs:207-215 | The label is never empty, and it is "callback" exactly for `Callback`. |
| `AuthConfig.AuthSourceRoundTrip` | backend/src/auth/config.rs:189-215 | Every keyword label parses back to its variant. "callback:" followed by a URI's text parses back to that URI. |
| `AuthConfig.ParseLoginCredentialsHandler` | backend/src/auth/config.rs:229-239 | A `Callback` result comes from a "login-callback:" value. Any other value that is not a keyword is invalid. A prefixed value parses exactly when the URI parser accepts the rest, and carries that URI; otherwise it gives the invalid-URI error. |
| `AuthConfig.LoginCredentialsHandlerLabel` | backend/src/auth/config.rs:241-249 | The label is never empty, and it is "login-callback" exactly for `Callback`. |
| `AuthConfig.LoginCredentialsHandlerRoundTrip` | backend/src/auth/config.rs:226-249 | Every label parses back to its variant. "login-callback:" followed by a URI's text parses back to that URI. |
| `AuthConfig.ParseSessionEndpointHandler` | backend/src/auth/config.rs:263-273 | A `Callback` result comes from a "callback:" value. Any other value that is not a keyword is invalid. A prefixed value parses exactly when the URI parser accepts the rest, and carries that URI; otherwise it gives the invalid-URI error. |
| `AuthConfig.SessionEndpointHandlerLabel` | backend/src/auth/config.rs:277-283 | The label as written, which is never empty. |
| `AuthConfig.SessionEndpointLabelMismatch` | backend/src/auth/config.rs:263-283 | The label of `Callback` does not parse, and neither does that label followed by ":" and a URI. |
| `AuthConfig.SessionEndpointHandlerKeyword` | backend/src/auth/config.rs:277-283 | The corrected label is never empty. It agrees with the written label except on `Callback`. |
| `AuthConfig.SessionEndpointHandlerRoundTrip` | backend/src/auth/config.rs:260-283 | With the corrected label, every variant round-trips through the parser. |
| `AuthConfig.Validate` | backend/src/auth/config.rs:59-116 | An Ok result means no rule is broken. An error is a broken rule, the first in the source's order. The rules are: `login_link` together with login page texts; no `logout_link` for the callback or header sources; callback data present exactly when a callback is used; `cookie` in the headers together with a cookie list; the session source exactly when a session handler is set. |
| `AuthConfig.AcceptedCallbackData` | backend/src/auth/config.rs:77-113 | In an accepted configuration, headers or cookies are set exactly when a callback is used. The source is the Tobira session exactly when a session handler is set. |
| `AuthConfig.IsUserRole` | backend/src/auth/config.rs:146-148 | Holds exactly when some configured prefix starts the role. |
| `AuthConfig.FindUserRole` | backend/src/auth/config.rs:122-144 | Gives the first role that is a user role, or None exactly when no role is one. |
| `AuthConfig.FindUserRoleIgnoresLater` | backend/src/auth/config.rs:122-144 | Roles after the first match do not change the result. |
| `Finding.Find` | frontend/src/ui/Access.tsx:591 | The found element is in the sequence and satisfies the predicate, and no earlier element does: it is the first match. None means no element does. |
| `Finding.FindAppend` | frontend/src/ui/Access.tsx:591 | A found element stays found when elements are appended. |
| `Description.Trim` | frontend/src/ui/metadata.tsx:145 | The result is empty exactly when the text is all JavaScript whitespace. Otherwise it is the slice of the text between the first and last non-whitespace characters. |
| `Description.SplitParagraphs` | frontend/src/ui/metadata.tsx:159 | Splitting with the capturing `\n{2,}` separator gives an odd number of pieces. |
| `Description.SplitConcat` | frontend/src/ui/metadata.tsx:159 | Concatenating the pieces gives back the text. |
| `Description.SplitShape` | frontend/src/ui/metadata.tsx:159 | Odd pieces are two or more newlines. Even pieces contain no two consecutive newlines. |
| `Description.SplitMaximal` | frontend/src/ui/metadata.tsx:159 | Each separator is a whole run of newlines: the pieces around it neither end nor start with a newline. |
| `Description.SplitEnds` | frontend/src/ui/metadata.tsx:145-159 | For non-empty text that neither starts nor ends with a newline (as trimmed text does), the first and last paragraphs are not empty. |
| `Description.Description` | frontend/src/ui/metadata.tsx:145-150 | The placeholder appears exactly for null, undefined or whitespace-only text. Otherwise there is an odd number of blocks. |
| `Description.DescriptionBlocks` | frontend/src/ui/metadata.tsx:159-172 | Block i is paragraph i of the trimmed text for even i. For odd i it is that separator minus two newlines. |
| `Description.RenderedSeparator` | frontend/src/ui/metadata.tsx:172 | A rendered separator is the separator with exactly two fewer newlines. |
| `Description.DescriptionEnds` | frontend/src/ui/metadata.tsx:145-172 | The first and last blocks are paragraphs. |
| `Description.SmallDescription` | frontend/src/ui/metadata.tsx:115-128 | The placeholder appears exactly when the text is null. Undefined and whitespace text are shown as text. |
| `Description.PlaceholderDiffers` | frontend/src/ui/metadata.tsx:115-150 | The two components disagree on undefined and on whitespace text. |
| `Thumbnail.Pad` | frontend/src/ui/Video.tsx:254 | The result is digits only. Below 100 it is exactly two characters, with a leading zero below 10. |
| `Thumbnail.PadValue` | frontend/src/ui/Video.tsx:254 | The padded text reads back as the number. |
| `Thumbnail.ClockFields` | frontend/src/ui/Video.tsx:249-252 | Seconds and minutes are below 60, and `(h*60 + m)*60 + s` is the total. Without hours, the minutes are the whole minutes. |
| `Thumbnail.FormatDurationRoundTrip` | frontend/src/ui/Video.tsx:248-261 | The text splits at ":" into `H:MM:SS` when hours > 0, and otherwise into `M:SS`. Minutes and seconds are two digits with a value below 60. The first field has no leading zero. The fields read back as the rounded total seconds. |
| `Thumbnail.FormatDuration` | frontend/src/ui/Video.tsx:248-261 | The text is never empty. Its shape and value are stated by `FormatDurationRoundTrip`. |
| `Thumbnail.IsPastLiveEvent` | frontend/src/ui/Video.tsx:263-264 | True only for a live event with an end time, which must be before now. |
| `Thumbnail.IsUpcomingLiveEvent` | frontend/src/ui/Video.tsx:266-267 | True only for a live event with a start time, which must be after now. |
| `Thumbnail.PastAndUpcomingExclusive` | frontend/src/ui/Video.tsx:263-267 | An event that starts no later than it ends is never both past and upcoming. |
| `Thumbnail.AudioOnly` | frontend/src/ui/Video.tsx:60-66 | Gives the `audioOnly` flag when present. Otherwise it is whether every track lacks a resolution, and false without authorized data. |
| `Thumbnail.AllWithoutResolution` | frontend/src/ui/Video.tsx:64 | Holds exactly when no track has a resolution. |
| `Thumbnail.ReplacementIcon` | frontend/src/ui/Video.tsx:138-147 | The icon priority is trash > lock > volume > film, each icon exactly under its condition. |
| `Thumbnail.Render` | frontend/src/ui/Video.tsx:57-114 | The image appears exactly when the event's own thumbnail, or else the fetched one, exists and no deletion is pending. A replacement shows the trash icon when deletion is pending and the lock without authorized data. Pending deletion shows no overlay. A live event gets the live overlay of its start time (the creation time when unknown) and end time, with the red background exactly for "live". Otherwise the formatted duration appears when synced data exists. A replacement without pending deletion but with authorized data shows the volume icon for audio-only events and the film icon otherwise. |
| `Thumbnail.LiveOverlayStates` | frontend/src/ui/Video.tsx:85-105 | The "ended" overlay appears exactly for a past live event. An upcoming event that has not ended shows "upcoming". A live event never shows a duration. |
| `VideoRoute.StripSlashes` | frontend/src/routes/Video.tsx:23 | One leading and one trailing slash are removed, and nothing else. |
| `VideoRoute.AllValid` | frontend/src/routes/Video.tsx:37-41 | Holds exactly when every realm segment is a valid path segment. |
| `VideoRoute.MatchVideoRoute` | frontend/src/routes/Video.tsx:22-45 | Matches exactly these paths: at least two parts; second-to-last part "v"; an id containing a base64url character; only valid realm segments. The id is "ev" + the video id, and the realm path is "/" + the prefix joined with "/". |
| `VideoRoute.VideoPathParts` | frontend/src/routes/Video.tsx:23-24 | A path built from a realm and an id splits back into those parts. |
| `VideoRoute.VideoPathMatches` | frontend/src/routes/Video.tsx:22-45 | Such a path is matched, gives the id "ev" + video id, and gives back the realm path. |
| `VideoRoute.JoinEndsWithLast` | frontend/src/routes/Video.tsx:43 | A join ends with its last part, which is not empty. |
| `VideoRoute.MatchDirectVideoRoute` | frontend/src/routes/Video.tsx:47-56 | Matches exactly `^/!(b64+)/?$`. The realm path is "/" and the id is "ev" + the capture. |
| `VideoRoute.DirectPathId` | frontend/src/routes/Video.tsx:48-54 | The capture of a direct path is unique, and it is the base64url body with at most one trailing slash removed. |
| `VideoRoute.NoDirectPathWithoutPrefix` | frontend/src/routes/Video.tsx:48 | Paths not starting with "/!" never match. |
| `VideoRoute.ManageVideoPath` | frontend/src/routes/Video.tsx:144 | The manage link drops the first two characters of the id. |
| `VideoRoute.ManageLinkRecoversId` | frontend/src/routes/Video.tsx:44-144 | The manage link of "ev" + id links the original id. |
| `VideoRoute.ShowsUpdated` | frontend/src/routes/Video.tsx:113-116 | The update is shown only when it is later than creation. |
| `VideoRoute.UpdatedThreshold` | frontend/src/routes/Video.tsx:113-116 | For every update time, it is shown exactly when the update is more than 300000 ms after creation. |
| `PlaylistRoute.MatchOcRoute` | frontend/src/routes/Playlist.tsx:22-33 | Matches exactly "/!p/:" followed by one or more characters without "/". The path is the URL of the capture. |
| `PlaylistRoute.OcUrl` | frontend/src/routes/Playlist.tsx:23 | The URL is "/!p/:" followed by the Opencast id. |
| `PlaylistRoute.DirectUrl` | frontend/src/routes/Playlist.tsx:57 | The URL is "/!p/" followed by the key. |
| `PlaylistRoute.OcRoundTrip` | frontend/src/routes/Playlist.tsx:23-33 | The URL of a non-empty, slash-free Opencast id is matched and captures that id. |
| `PlaylistRoute.MatchDirectRoute` | frontend/src/routes/Playlist.tsx:56-67 | Matches exactly "/!p/" followed by one or more base64url characters. The path is the URL of the capture. |
| `PlaylistRoute.DirectRoundTrip` | frontend/src/routes/Playlist.tsx:56-67 | The URL of a non-empty base64url key is matched and captures that key. |
| `PlaylistRoute.RoutesDisjoint` | frontend/src/routes/Playlist.tsx:25-59 | No path matches both playlist routes. |
| `PlaylistRoute.Items` | frontend/src/routes/Playlist.tsx:126-137 | Length and order are kept. An authorized event becomes its video, a missing one "missing", and a forbidden one "unauthorized". |
| `PlaylistRoute.ItemsAppend` | frontend/src/routes/Playlist.tsx:126-137 | The mapping works on a list piece by piece. |
| `PlaylistRoute.PlaylistPage` | frontend/src/routes/Playlist.tsx:111-137 | A missing playlist gives "not found" exactly, and a forbidden one gives the error page exactly. Otherwise the page lists the title and the mapped entries. |
| `ManageNav.MatchManageRoute` | frontend/src/routes/manage/index.tsx:35-38 | Matches exactly the path "/~manage". |
| `ManageNav.ManageRouteIsExact` | frontend/src/routes/manage/index.tsx:35-38 | Subpaths and a trailing slash do not match. |
| `ManageNav.PathText` | frontend/src/routes/manage/index.tsx:31-99 | The dashboard is at "/~manage". The user realm is at "/@" + the username. |
| `ManageNav.UserRealmNotDashboard` | frontend/src/routes/manage/index.tsx:31-99 | No user realm path equals the dashboard path. |
| `ManageNav.Entries` | frontend/src/routes/manage/index.tsx:94-112 | The conditional pushes build exactly the specified entry list. |
| `ManageNav.NavEntriesShape` | frontend/src/routes/manage/index.tsx:94-112 | There are 4 to 7 entries. The dashboard is first and "create series" is last. |
| `ManageNav.NavEntriesOrder` | frontend/src/routes/manage/index.tsx:94-112 | The order is dashboard, user realm, videos, upload, studio, series, create. |
| `ManageNav.PushKeepsOrder` | frontend/src/routes/manage/index.tsx:94-112 | Pushing an entry ranked after all earlier ones keeps the order. |
| `ManageNav.NavEntriesUserRealm` | frontend/src/routes/manage/index.tsx:97-99 | The user-realm entry is there exactly for a real user who may create their realm, and it names that user. |
| `ManageNav.NavEntriesPermissions` | frontend/src/routes/manage/index.tsx:101-112 | Upload and Studio are there exactly when a real user has the permission. Videos and both series entries are always there. |
| `ManageNav.Links` | frontend/src/routes/manage/index.tsx:115-148 | Exactly the Studio entry becomes the Studio link. Every other entry becomes an internal link, which is active exactly when its path is the active one. |
| `ManageNav.Nav` | frontend/src/routes/manage/index.tsx:86-151 | There are 4 to 7 links, led by the dashboard. The Studio link is there exactly with Studio permission. Active links point to the active path, and at most one link is active. The links are exactly `Links(NavEntries(user), active)`. |
| `ManageNav.LinksTargets` | frontend/src/routes/manage/index.tsx:115-148 | A non-Studio path has a link exactly when it is an entry, and that link is active exactly when the path is the active one. |
| `ManageNav.NavLinks` | frontend/src/routes/manage/index.tsx:86-151 | The same facts for the specified entry list. |
| `ManageNav.StudioLinkIff` | frontend/src/routes/manage/index.tsx:115-125 | The Studio link appears exactly when the Studio entry does. |
| `ManageNav.AtMostOneActive` | frontend/src/routes/manage/index.tsx:115-148 | Ordered entries are distinct, so at most one link is active. |
| `RealmValidation.ValidateName` | frontend/src/routes/manage/Realm/util.tsx:12-14 | A name is accepted exactly when it is not empty. |
| `RealmValidation.ValidatePath` | frontend/src/routes/manage/Realm/util.tsx:15-25 | A path is accepted exactly when it is at least 2 UTF-16 code units long (two characters, or one outside the Basic Multilingual Plane), and each character is a lowercase letter, a decimal digit or "-". Each error happens exactly under its condition: required, then minimum length, then pattern. |
| `RealmValidation.Utf16Length` | frontend/src/routes/manage/Realm/util.tsx:16-20 | The UTF-16 length lies between the number of characters and twice that. It reaches 2 exactly with two characters or one outside the Basic Multilingual Plane. |
| `RealmValidation.AstralLetterAccepted` | frontend/src/routes/manage/Realm/util.tsx:16-23 | A single lowercase letter outside the Basic Multilingual Plane is accepted. |
| `RealmValidation.EmptyPathOnlyRequired` | frontend/src/routes/manage/Realm/util.tsx:16-23 | The pattern accepts the empty path, so only the required rule rejects it. |
| `RealmValidation.AcceptedJoin` | frontend/src/routes/manage/Realm/util.tsx:21-25 | Two accepted paths joined by "-" are accepted. |
| `RealmValidation.SlashRejected` | frontend/src/routes/manage/Realm/util.tsx:21-25 | A path containing "/" is rejected. |
| `SearchMeta.NeedsRebuild` | backend/src/search/meta.rs:36-38 | No rebuild is needed exactly for clean info carrying the current version. |
| `SearchMeta.RebuildCases` | backend/src/search/meta.rs:36-38 | Missing or broken info, a dirty flag or another version all force a rebuild. |
| `SearchMeta.Fetch` | backend/src/search/meta.rs:45-56 | The outcomes are: no documents gives no info; more than one is an error; one undecodable document is broken info; one decodable document gives its version and dirty flag. |
| `SearchMeta.FetchedNeedsNoRebuild` | backend/src/search/meta.rs:36-56 | A fetched state avoids the rebuild exactly for one decodable, clean document with the current version. |
| `Text.SplitJoin` | frontend/src/routes/Video.tsx:24-43 | Splitting a join of separator-free parts gives back the parts. |
| `Text.SplitPartsNoSeparator` | frontend/src/routes/Video.tsx:24 | No part of a split contains the separator. |
| `Text.NatToString` | frontend/src/ui/Video.tsx:254-259 | Decimal text is digits only, and a single digit exactly below 10. It starts with "0" only for 0, so it has no leading zero. |
| `Text.DecimalValueOfNat` | frontend/src/ui/Video.tsx:254-259 | Decimal text reads back as the number. |

## Left out

- I/O is not modelled. This covers GraphQL queries, the meilisearch `get_documents` call and its errors, `documents.remove(0)`, and serde decoding. `SearchMeta.Fetch` receives the documents already decoded, with `None` for one that does not decode.
- The current index version `VERSION` is defined outside the modelled files, so it is a parameter.
- `decodeURI` and `decodeURIComponent` are left out. The video routes (frontend/src/routes/Video.tsx) match the path after `decodeURI`: the model is given the decoded path, and the error `decodeURI` raises on a malformed escape is not modelled. The playlist routes (frontend/src/routes/Playlist.tsx) match the raw path and then decode the capture with `decodeURIComponent`: the model's captures are the ids before that decoding.
- `parse_normal_http_uri`, `isValidPathSegment`, the translation function and the Unicode categories `\p{Ll}` and `\p{Nd}` are foreign; they are parameters.
- Header names are modelled as lowercase strings.
- `find_user_role` logs warnings about further matches. Logging is not modelled; only the result is.
- React rendering, CSS, icons, tooltips, labels and translations are left out. So are component state and effects: the menu state, `ResizeObserver` and timers.
- The remaining UI code is left out: the row label formatting of `ListEntry`, the admin pseudo-row, the "upcoming" styling of the replacement, and `handlePaste`.
- `AclRoles.SplitAcl`, `AclEdit.AclDraft`: sets are modelled as mathematical sets, so JavaScript's insertion order of a `Set` is not kept.
- The user column of the editor sorts with `Intl.Collator`, a locale comparison. It is not modelled.
- The lazy `groupDAG` singleton is not modelled. The DAG is an explicitly built value.
- `KNOWN_GROUPS` lookups through prototype properties (such as `toString`) are not modelled. Lookups only see the listed keys.
- `AclEdit.AclDraft.AddChosen`: `selection.includes(option)` compares objects by identity. The model compares options by value, so an equal copy of a shown option counts as shown.
- `AclRoles.GetUserRole` follows the code's `^ROLE_USER\w+`, which also matches `ROLE_USER_ADMIN`. The model keeps that.
- `Thumbnail.FormatDuration`: `Math.round(totalMs / 1000)` is floating point. It is modelled as `(ms + 500) / 1000` for non-negative milliseconds only.
- Invalid dates (`NaN` comparisons) are not modelled. Times are integer milliseconds.
- The URLs of the videos, upload, series and create-series routes, and `keyOfId`, are defined in files not part of this model. They appear as constructors of `ManageNav.NavPath` or as plain strings.
- `unreachable()` branches on closed variants become exhaustive matches over datatypes.
- `RealmValidation.ValidatePath` returns only the first failing rule, in the order the form library checks them. The library's own code is not part of this model.
- `frontend/src/routes/manage/Series/Create.tsx`, `frontend/src/routes/manage/Series/SeriesDetails.tsx` and `backend/src/api/mod.rs` are form, mutation and API wiring; they are not part of this model.

## Findings

| source | as written | input that shows it | evidently intended | confidence | as-written member | corrected member |
|---|---|---|---|---|---|---|
| backend/src/auth/config.rs:277-283 | `SessionEndpointHandler::label` gives "login-callback" for `Callback`, but the parser at lines 263-273 only accepts the prefix "callback:" | `SessionEndpointHandler::Callback(uri)`: its label "login-callback", and "login-callback:" followed by the URI, both fail to parse | label "callback", so that the label names the keyword the parser accepts, as the other two handlers' labels do | not executed | `AuthConfig.SessionEndpointLabelMismatch` | `AuthConfig.SessionEndpointHandlerRoundTrip` |
