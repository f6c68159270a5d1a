# LANrurugi: four protocols and their proofs

A Dafny model of the four places in LANrurugi where correctness hangs on more than one function.

- **The cross-origin login handoff.** A browser that opens one of several equivalent origins is sent
  from peer to peer until one of them has a live session; that peer stores a one-time code, and the
  callback at the first origin turns the code into a session there. `Origins`, `BridgeConfig` and
  `BridgeHandlers` model the endpoints as methods over a code store; `BridgeLaws` says what they decide in
  terms of what a request, a session and a code hold; `BridgeRun` follows one redirect chain from beginning to end; `BridgeTrace` lets any number of browsers, origins, sign-outs, waits and
  configuration changes interleave in any order; `BridgeWitness` and `BridgeCommas` hold concrete runs.
- **Archive splitting.** `SplitPlan` (coverage and selection), `SplitZip` (names inside a generated ZIP),
  `SplitJob`, `SplitContents` and `SplitTargets` (writing every group, file by file), `SplitMaps` and `SplitPages` (page numbers,
  bookmarks, stamps), `SplitRun` (all of it composed) and `SplitTree` (the depth-cut view of nested
  archives); `FileNames` holds the name rules they share.
- **The route policy and the API reference.** `PathPattern` and `RouteTemplate` model the path matcher,
  `RoutePolicy` the deny-overrides decision and the dead-rule finder, `PolicyLines` what a policy file says
  line by line, `ApiDocument` the merge, the gates and the emitted security statements.
- **Gallery version history.** `GallerySource` models the URL canonicaliser, `VersionHistory` the two
  bounded walks, `VersionChain` what they report on every link graph and on revision chains.

`Text` has the string functions all of them use. Code that updates state in the program is a method or a
class here, proved against a function on values; the theorems are about those functions.

## Results that differ from what the code or its comments say

Each has a lemma with the exact condition and, beside it, a concrete input. The conditions hold for all
inputs, except that those on renamed names leave out the names that already bear another name's renamed form.

- *The comment on `key_match2` calls the rewriting of `/:x` to `/[^/]+` and of `/*` to `/.*` the same relation.* It
  is, but for empty parameters, exactly on the patterns whose first segment is no wildcard and whose stars end
  the pattern; on such a pattern the two differ on a path exactly when the code matches it with an empty
  segment for a parameter (`PathPattern.AgreesWithDocumentedRegex`, `PathPattern.AgreesInPlace`). Inputs:
  `/a/:id/b` on `/a//b` (`PathPattern.DocumentedRegexIsStricter`), `/*x` on `/yx`
  (`PathPattern.StarInsideSegment`) and `/*/b` on `/x/c` (`PathPattern.StarBeforeMore`).
- *A session granted at an origin was prepared for at that origin.* Only at that host: the state cookie is
  returned to every port. It was prepared at that very origin exactly when the browser's latest `prepare` at
  that host ran there (`BridgeTrace.PreparedHereExactly`; `BridgeWitness.PortsShareTheCookie`).
- *`prepare` only accepts targets its peers will serve.* A loopback target beside a listed origin of
  another server is refused by that peer, which `prepare` puts first (`BridgeRun.NoPeerRefusesExactly`;
  `BridgeWitness.ListedPeerRefusesLoopback`).
- *A callback leads to an origin trusted now.* It does not exactly when it grants a session at an origin that is
  not trusted now; that origin was listed when the code was stored (`BridgeTrace.UntrustedLandingExactly`;
  `BridgeWitness.LandsOnUnlistedOrigin`).
- *A code brought back in time logs the browser in.* Any time up to a minute later, exactly when its session is
  still alive and the return path can stand in a header: with a control character in it, such as `/a%0Ab`
  decoded, every check passes, the code is spent, and the handler panics over the redirect
  (`BridgeRun.LoginCompletes`; `BridgeWitness.LineBreakLosesTheLogin`).
- *A trusted origin can be passed on in a peer list.* Exactly when its host has no comma; hosts are
  percent-decoded, so `http://a%2Cb` has one (`Origins.PeersRoundTrip`, `BridgeConfig.LoadTrusted`;
  `Origins.EncodedCommaIsLost`).
- *A redirect chain ends within one visit more than peers were offered, and visits nobody twice.* So it does when
  no host left to ask has a comma. In every configuration it ends, with no more later visits than there are
  candidates, none of them repeated (`BridgeRun.EveryChainEnds`); with `http://a%2Chttp:8080` listed, two offered
  peers can give four visits, one origin among them twice (`BridgeCommas.CommaHostLengthensTheChain`).
- *A duplicate name is renamed out of the way.* The renamed form is not checked against names already
  given, so a third file of one name clashes, for entries of a ZIP and for the ZIPs themselves; a file
  already on disk counts as one (`SplitZip.WrittenNamesDistinctExactly`, `SplitContents.WritableExactly`,
  `SplitTargets.NothingOverwrittenExactly`; `SplitZip.ThirdClashes`). Outside these conditions, a file that
  already bears the renamed form makes the second of a name clash (`SplitZip.RenamedFormClashes`).
- *Every page of a split is a page again.* A page called just `jpg` or `.jpg` has no extension to keep and
  stops being a page when it is not the first of its name (`SplitMaps.ShownByInputExactly`;
  `SplitMaps.HiddenNamesCollide` with `a/.jpg` and `b/.jpg`).
- *Every stamp follows its page.* Stamp keys name a local page and a time but no archive; a stamp survives
  exactly when no later archive's stamp of the same rank stands on the same local page
  (`SplitPages.StampSurvivesExactly`; `SplitPages.FirstPageStampsCollide`).
- *`validate_coverage` counts what the job selects.* The job also takes a file that bears a group
  directory's own name, so the check is stricter by those (`SplitPlan.AcceptedPlansLoseNothing`;
  `SplitPlan.NamesakeIsTaken`).
- *The emitted operation names exactly the admitted credentials.* Not on a guest-visible route that takes
  only one kind: there the document's default names both (`ApiDocument.StatedSecurityIsExact`;
  `ApiDocument.GuestPageStatesBoth`).
- *`canonicalizeSource` is a normal form.* For galleries it is; other URLs are trimmed once, not until
  nothing is left to trim (`GallerySource.IdempotentExactly`; `GallerySource.NotAlwaysIdempotent`).

## Model

| member | source | states |
|---|---|---|
| Origins.PeersRoundTrip | crates/lanrurugi-api/src/auth_bridge.rs:320-331 | a list of peers survives being sent, left out when empty, else joined with commas and parsed back, exactly when no host in it has a comma |
| Origins.ReadHasNoComma | crates/lanrurugi-api/src/auth_bridge.rs:320-331 | whatever peers are sent, no host that is read back has a comma |
| Origins.CommaHostIsLost | crates/lanrurugi-api/src/auth_bridge.rs:320-331 | a peer with a comma in its host is never among those read back, whatever its scheme and port and whatever it is sent with |
| Origins.CommaHostIsReadAsTwo | crates/lanrurugi-api/src/auth_bridge.rs:320-331 | one peer sent can be two peers read, when both halves of its printed form normalise |
| Origins.EncodedCommaIsLost | crates/lanrurugi-api/src/auth_bridge.rs:320-331 | a trusted entry whose percent-decoded host has a comma does not survive being sent |
| BridgeConfig.LoadTrusted | crates/lanrurugi-api/src/auth_bridge.rs:181-211 | the trusted list holds what the entries of the setting give, each once, in the order of first mention, each reading back from its own spelling; one of them survives being sent as a peer exactly when its host has no comma |
| BridgeConfig.EntriesBetween | crates/lanrurugi-api/src/auth_bridge.rs:189-193 | entries are what stands between commas and line breaks, wherever the setting is cut |
| BridgeConfig.ComputeCandidatePeers | crates/lanrurugi-api/src/auth_bridge.rs:165-178 | the loop over siblings yields the candidate list the theorems speak of |
| BridgeConfig.CandidatesAre | crates/lanrurugi-api/src/auth_bridge.rs:165-178 | candidates are exactly the other trusted origins and the loopback aliases, each once, never the origin itself, all trusted |
| BridgeConfig.CandidatesInOrder | crates/lanrurugi-api/src/auth_bridge.rs:165-178 | candidates keep the order of the list, and aliases that are not listed stand behind all of it |
| BridgeConfig.CandidatesAreNormal | crates/lanrurugi-api/src/auth_bridge.rs:122-178 | every candidate reads back from its own spelling, under every configuration that was loaded |
| BridgeHandlers.HandoffStore.Create | crates/lanrurugi-storage/src/refresh_tokens.rs:593-616 | the code is bound to its record and nothing else in the store changes |
| BridgeHandlers.HandoffStore.Consume | crates/lanrurugi-storage/src/refresh_tokens.rs:621-641 | a code is gone after one attempt, in time or not, and is only handed out within 60 seconds |
| BridgeHandlers.HandoffStore.Issue | crates/lanrurugi-storage/src/refresh_tokens.rs:647-667 | only a known, unexpired family gets a token, inside the same family, with its idle expiry capped by the absolute one |
| BridgeHandlers.PrepareBridge | crates/lanrurugi-api/src/auth_bridge.rs:405-465 | every refusal of `prepare`, and on success the first candidate with the rest of the list behind it |
| BridgeHandlers.StartBridge | crates/lanrurugi-api/src/auth_bridge.rs:467-600 | every branch of `start`, its answer and its effect on the code store |
| BridgeHandlers.PassOnToNextPeer | crates/lanrurugi-api/src/auth_bridge.rs:574-599 | without a session the browser goes to the first peer left, carrying the rest, or back without a session |
| BridgeHandlers.KeepRemaining | crates/lanrurugi-api/src/auth_bridge.rs:579-584 | the peers left are the offered ones that are neither end and that this server would offer itself, in order |
| BridgeHandlers.BridgeCallback | crates/lanrurugi-api/src/auth_bridge.rs:602-708 | every branch of the callback, what it takes from the store and what it grants |
| BridgeLaws.TrustedTargetExactly | crates/lanrurugi-api/src/auth_bridge.rs:107-163 | a target is served exactly when it is listed, or both ends are loopback addresses with one scheme and one port |
| BridgeLaws.SiblingsExactly | crates/lanrurugi-api/src/auth_bridge.rs:122-141 | the siblings of a loopback origin are the other two names of its scheme and port, never `[::1]` |
| BridgeLaws.LoopbackSpellings | crates/lanrurugi-api/src/auth_bridge.rs:131-138 | how the loopback origins are spelled |
| BridgeLaws.ReturnPathExactly | crates/lanrurugi-api/src/auth_bridge.rs:213-219 | the return path is the given one without white space, exactly when that starts with one slash and not two; the root when none is given |
| BridgeLaws.FlagExactly | crates/lanrurugi-api/src/auth_bridge.rs:221-224 | a flag is set exactly by `1`, `true` or `yes` with any white space around |
| BridgeLaws.ErrorExitsExactly | crates/lanrurugi-api/src/auth_bridge.rs:298-318 | a failed navigation leads to where the browser was headed if that is trusted, else to the serving origin if that is, else to a page |
| BridgeLaws.PreparesExactly | crates/lanrurugi-api/src/auth_bridge.rs:405-465 | `prepare` succeeds exactly at a trusted origin with another one to ask and a local return path, and each refusal has its own status |
| BridgeLaws.HandsOverExactly | crates/lanrurugi-api/src/auth_bridge.rs:511-599 | a handoff that passes the checks stores a code for the session's family exactly when there is an access token that has not expired and its family is known and past neither of its ends; else it passes on and stores nothing |
| BridgeLaws.StartRefusals | crates/lanrurugi-api/src/auth_bridge.rs:467-560 | where each refusal of `start` leads: nowhere from an untrusted origin, to the peer itself for a bad target, to the target for everything after |
| BridgeLaws.GrantsExactly | crates/lanrurugi-api/src/auth_bridge.rs:602-708 | the code is spent exactly when it is presented with its cookie, and a login is granted exactly when its record is for this origin and state, at most 60 seconds old, of a family past neither of its ends, with a local return path that is header text |
| BridgeLaws.IssuingKeepsTheEnd | crates/lanrurugi-storage/src/refresh_tokens.rs:255-262 | a token is issued exactly in a known family past neither of its ends, never moves the family's end, and its idle end lies between now and that end, at most the idle lifetime ahead |
| BridgeLaws.NavigationsNeverSeeJson | crates/lanrurugi-api/src/auth_bridge.rs:17-21 | every exit of `start` and of the callback is a redirect or a page, never JSON, except that the callback panics over a return path that is no header text |
| BridgeRun.HopPassesOn | crates/lanrurugi-api/src/auth_bridge.rs:574-596 | a hop keeps target, return path, state and guest flag and goes to the first peer left; the rest is read as it was sent exactly when no host in it has a comma, and none that is read has one |
| BridgeRun.EveryChainEnds | crates/lanrurugi-api/src/auth_bridge.rs:574-596 | from any start URL, under every configuration that was loaded, the chain ends: every later origin is one this server would offer, none comes twice, and there are no more of them than candidates; when no host left to ask has a comma they are peers that were offered and never the first origin, so the visits are at most one more than peers offered |
| BridgeRun.StartAnswers | crates/lanrurugi-api/src/auth_bridge.rs:484-600 | a start step at a trusted origin refuses the target, stores a code for the session's family, or passes on, and when which |
| BridgeRun.SearchesInOrder | crates/lanrurugi-api/src/auth_bridge.rs:467-600 | from any start URL whose peers left to ask have no comma in a host, the browser visits them in order of first mention, each once, up to the first that refuses or is live, and ends as that peer decides |
| BridgeRun.SearchesAfterFirstHop | crates/lanrurugi-api/src/auth_bridge.rs:467-600 | with any hosts left to ask, the chain from the second origin on is that search over what the second origin reads |
| BridgeRun.RunFromPrepare | crates/lanrurugi-api/src/auth_bridge.rs:405-600 | under every configuration that was loaded, the run from `prepare` asks candidates only, the first one first, each once, and ends at the callback from the first live one, at a refusing peer's login page, or without a session; it asks all candidates in their order exactly when none behind the first has a comma in its host |
| BridgeRun.NoPeerRefusesExactly | crates/lanrurugi-api/src/auth_bridge.rs:151-178 | no candidate refuses a target `prepare` accepts exactly when it is listed or every listed origin is a loopback alias of it |
| BridgeRun.LoginCompletes | crates/lanrurugi-api/src/auth_bridge.rs:405-708 | when no candidate refuses and somebody asked is live, the first live one stores a code of its family and the run ends at the callback with it; brought there at any time the code is spent, and it logs in that family exactly within a minute, while the family lives, with a return path that can stand in a header |
| BridgeRun.CallbackTakes | crates/lanrurugi-api/src/auth_bridge.rs:602-708 | a stored code with its own state in the cookie is gone after the callback at any time, and granted exactly when it is at most a minute old, its family is alive and its return path can stand in a header; the answer of each case |
| BridgeCommas.CommaHostLengthensTheChain | crates/lanrurugi-api/src/auth_bridge.rs:574-596 | a configuration and a start URL with two offered peers whose chain makes four visits, the first origin among them twice |
| BridgeTrace.StartStores | crates/lanrurugi-api/src/auth_bridge.rs:484-572 | a start step that stores a code ran at a trusted origin other than the target, for a trusted target, with an access token of that family that had not expired and a family past neither of its ends |
| BridgeTrace.UntakenChangesNothing | crates/lanrurugi-api/src/auth_bridge.rs:602-630 | a callback whose state is not the cookie's leaves codes and families alone and grants nothing |
| BridgeTrace.CallbackTakesOnce | crates/lanrurugi-api/src/auth_bridge.rs:628-707 | a callback that takes a code removes it, and grants only its own target, state and live family, within its lifetime |
| BridgeTrace.StepKeeps | crates/lanrurugi-api/src/auth_bridge.rs:405-708 | every action of any browser, administrator or clock keeps the invariant behind the safety theorem |
| BridgeTrace.RunKeeps | crates/lanrurugi-api/src/auth_bridge.rs:405-708 | the invariant holds after every run |
| BridgeTrace.EverySessionIsBacked | crates/lanrurugi-api/src/auth_bridge.rs:405-708 | over every run: a granted session goes back to the latest `prepare` in that browser at that host, at most 300 seconds earlier, to a code stored for that state and origin at most 60 seconds earlier by another trusted origin, where an unexpired access token named that family and the family had not ended, and that code was stored once and taken once |
| BridgeTrace.EveryFamilySignedIn | crates/lanrurugi-api/src/auth_bridge.rs:505-708 | over every run: grants pass a family on and never make one; behind every granted family there is a sign-in with it |
| BridgeTrace.PreparedHereExactly | crates/lanrurugi-api/src/auth_bridge.rs:405-465 | when a callback logs in after any run, its state was prepared at that very origin exactly when the browser's latest `prepare` at that host ran there |
| BridgeTrace.StartRedirectsAreTrusted | crates/lanrurugi-api/src/auth_bridge.rs:467-600 | every redirect of `start`, its error exits included, leads to a trusted origin |
| BridgeTrace.RedirectsAreTrusted | crates/lanrurugi-api/src/auth_bridge.rs:304-318 | in every reachable state a redirect leads to an origin trusted now or, for a completed login, one that was a trusted target when its code was stored |
| BridgeTrace.UntrustedLandingExactly | crates/lanrurugi-api/src/auth_bridge.rs:643-707 | a redirect leads to an origin that is not trusted now exactly when it is a callback that grants at such an origin; that origin was listed when the code was stored |
| BridgeTrace.EveryRedirectIsTrusted | crates/lanrurugi-api/src/auth_bridge.rs:304-318 | under one configuration no run makes any endpoint redirect to an origin it does not trust |
| BridgeWitness.PortsShareTheCookie | crates/lanrurugi-api/src/auth_bridge.rs:251-256 | a run that grants a session at one port although only another port of the host prepared |
| BridgeWitness.LandsOnUnlistedOrigin | crates/lanrurugi-api/src/auth_bridge.rs:643-707 | a run in which the target is taken off the list after the code was stored and the login still lands there |
| BridgeWitness.LineBreakLosesTheLogin | crates/lanrurugi-api/src/auth_bridge.rs:258-270 | a run in which a line break in the return path passes every check, the code is spent, and the callback panics |
| BridgeWitness.ListedPeerRefusesLoopback | crates/lanrurugi-api/src/auth_bridge.rs:158-178 | a configuration in which `prepare` succeeds and puts first a peer that refuses the target |
| FileNames.PageIsNoArchive | crates/lanrurugi-api/src/archive_split.rs:270-276 | an image name is never taken for a nested archive |
| FileNames.BaseOfPage | crates/lanrurugi-api/src/archive_split.rs:1172-1175 | the last component of a page's path is a page again |
| FileNames.RenamedPage | crates/lanrurugi-api/src/archive_split.rs:901-912 | a renamed file is a page exactly when it was one and had a real extension |
| FileNames.RenamedForm | crates/lanrurugi-api/src/archive_split.rs:901-912 | the renamed form is stem, checksum and extension, or the fallback where there is no extension (`FileNames.RenamedWithout`) |
| FileNames.BaseNameIs | crates/lanrurugi-api/src/archive_split.rs:1172-1175 | the entry's plain name is what follows the last slash |
| FileNames.KindsByExtension | crates/lanrurugi-api/src/archive_split.rs:270-276 | which extensions make a page and which a nested archive, in either case |
| SplitPlan.ValidateCoverage | crates/lanrurugi-api/src/archive_split.rs:638-678 | the plan is refused with exactly the regular files that are under no group's directory and in no group's list |
| SplitPlan.SelectFiles | crates/lanrurugi-api/src/archive_split.rs:1111-1121 | the files the job takes for a group |
| SplitPlan.SelectedInOrder | crates/lanrurugi-api/src/archive_split.rs:1111-1121 | a group's list is the selected positions of the archive, all of them, each once, in archive order |
| SplitPlan.SelectedByComponents | crates/lanrurugi-api/src/archive_split.rs:1111-1121 | a group takes exactly the files it lists and those whose path begins with all components of one of its directories, the directory's own name included; the check counts all but that one |
| SplitPlan.AcceptedPlansLoseNothing | crates/lanrurugi-api/src/archive_split.rs:638-678 | an accepted plan takes every regular file into some group; no file is lost exactly when each is covered or bears a directory's own name |
| SplitPlan.NamesakeIsTaken | crates/lanrurugi-api/src/archive_split.rs:1111-1121 | a plan that is refused although the job would take its one file |
| SplitZip.ThirdClashes | crates/lanrurugi-api/src/archive_split.rs:895-921 | three files of one name always get two equal names |
| SplitZip.WrittenNamesDistinctExactly | crates/lanrurugi-api/src/archive_split.rs:895-921 | written names are distinct exactly when no name occurs three times, where no repeated name's renamed form is another's name |
| SplitZip.RenamedFormClashes | crates/lanrurugi-api/src/archive_split.rs:895-921 | outside that, a file that bears the renamed form makes the second of a name clash, with no name there three times |
| SplitZip.RenamedWhenRepeated | crates/lanrurugi-api/src/archive_split.rs:895-921 | an entry is renamed exactly when its name occurred before, where no repeated name's renamed form is another's name |
| SplitZip.ZipOutput.Write | crates/lanrurugi-api/src/archive_split.rs:895-921 | one entry is appended under its plain or renamed name, or refused when that name is taken too |
| SplitJob.WriteFiles | crates/lanrurugi-api/src/archive_split.rs:1134-1187 | a group's archive holds every readable file flattened to its last component, nested archives unpacked in place, each entry with its source; it fails exactly on an unreadable nested archive or a name given twice |
| SplitContents.EveryFileIsWritten | crates/lanrurugi-api/src/archive_split.rs:1142-1187 | a group's archive is its selected files one after the other: each readable plain file gives one entry, each readable nested archive one for every file in it, in order, with that source, under the plain or the renamed form of the last component; there are no others, and every nested archive was opened |
| SplitContents.JobKeepsFiles | crates/lanrurugi-api/src/archive_split.rs:1106-1187 | so in every group, and every covered file stands whole in some archive |
| SplitContents.WritableExactly | crates/lanrurugi-api/src/archive_split.rs:1134-1187 | a group's archive can be written exactly when its readable nested archives can be opened and no last component occurs three times among its files, those inside nested archives included, where renamed forms stand apart |
| SplitJob.GroupIsWritableExactly | crates/lanrurugi-api/src/archive_split.rs:1134-1187 | a group's archive can be written exactly when its nested archives can be opened and no base name occurs three times, where renamed forms stand apart |
| SplitTargets.NothingOverwrittenExactly | crates/lanrurugi-api/src/archive_split.rs:1092-1104 | every group gets a file of its own and no existing file is overwritten exactly when no ZIP name occurs three times, counting files on disk, where renamed forms stand apart |
| SplitTargets.TargetsAreAssigned | crates/lanrurugi-api/src/archive_split.rs:1092-1104 | target names follow the same rule as entry names, with the folder's files as the names already given |
| SplitTargets.TargetExactly | crates/lanrurugi-api/src/archive_split.rs:1092-1104 | a group's file has the plan's name, or its renamed form exactly when the folder or an earlier group has that name |
| SplitTargets.WriteGroups | crates/lanrurugi-api/src/archive_split.rs:1092-1193 | the job succeeds exactly when every group can be written; then each target not taken by a later group holds its archive and the notes name every entry's source; the folder has its old files and the targets, and the other files stay as they were |
| SplitMaps.ShownExactly | crates/lanrurugi-api/src/archive_split.rs:1106-1187 | a group's archive shows a page exactly when it is selected, readable, and has a real extension or is the first of its name |
| SplitMaps.ShownByInputExactly | crates/lanrurugi-api/src/archive_split.rs:1106-1187 | the same from the input alone: selected, readable, and with a real extension or before every other file of its base name, where renamed forms stand apart |
| SplitMaps.SecondBareNameIsLost | crates/lanrurugi-api/src/archive_split.rs:895-921 | of two covered pages of one bare name in one group the second is no page any more |
| SplitMaps.HiddenNamesCollide | crates/lanrurugi-api/src/archive_split.rs:895-921 | `a/.jpg` and `b/.jpg` are such pages |
| SplitMaps.MapIsExact | crates/lanrurugi-api/src/archive_split.rs:1194-1209 | a local page is mapped to an original page exactly when its entry was written from that very file |
| SplitMaps.MapReaches | crates/lanrurugi-api/src/archive_split.rs:1194-1209 | the original pages an archive's map reaches are exactly those it shows |
| SplitMaps.GroupHoldsOnce | crates/lanrurugi-api/src/archive_split.rs:1106-1187 | a group's archive holds each page of the original at most once, under distinct names |
| SplitMaps.MapIsInjective | crates/lanrurugi-api/src/archive_split.rs:1194-1209 | the page map of an archive that holds each page once is a partial injection |
| SplitPages.NumberPages | crates/lanrurugi-api/src/archive_split.rs:1058-1062 | a page's number is its place in the page list, and every page has one |
| SplitPages.MapPages | crates/lanrurugi-api/src/archive_split.rs:1194-1209 | the local-to-original map holds exactly the composed numbers |
| SplitPages.Reverse | crates/lanrurugi-api/src/archive_split.rs:977-980 | built in any order the reverse map reaches every original page and goes back to it; on an injective map it is the exact inverse |
| SplitPages.InheritBookmarks | crates/lanrurugi-api/src/archive_split.rs:974-997 | every bookmark lands in every archive that has its page, with time and name; nothing stands on another page, whatever ids repeat; no bookmark is lost, and spots no bookmark belongs to keep time and name |
| SplitPages.StampInto | crates/lanrurugi-api/src/archive_split.rs:1004-1032 | each stamp of a page the archive has is created on that page with its content, position, icon and rectangle, in order, and listed; no other record or list changes |
| SplitPages.InheritStamps | crates/lanrurugi-api/src/archive_split.rs:999-1034 | after all archives every stamp key holds the record of the last archive that wrote it, every archive's list grew by its own keys in order; every earlier key still has a record, and no other record or list changed |
| SplitPages.TakenRightly | crates/lanrurugi-api/src/archive_split.rs:1013-1028 | a stamp an archive takes over stands on a local page that shows the stamped page, with the stamp's mark |
| SplitPages.TakenAll | crates/lanrurugi-api/src/archive_split.rs:1013-1028 | every stamp of a page the archive has is taken over |
| SplitPages.StampSurvivesExactly | crates/lanrurugi-api/src/archive_split.rs:999-1034 | a stamp keeps its own record exactly when no later archive's stamp of the same rank is on the same local page |
| SplitPages.FirstPageStampsCollide | crates/lanrurugi-storage/src/repository.rs:1073-1096 | two archives whose first stamps are on their first pages get one key |
| SplitPages.KeyNames | crates/lanrurugi-api/src/archive_split.rs:1009-1031 | a new stamp's key names its local page, and the job's time moved on by that page and by the number of stamps before it |
| SplitRun.Collect | crates/lanrurugi-api/src/archive_split.rs:1292-1302 | the inheritance is given exactly the ingested files that have a page map, ids distinct when files were ingested under their own |
| SplitRun.EveryMapIsInjective | crates/lanrurugi-api/src/archive_split.rs:1194-1209 | every page map of the job is a partial injection, so its inverse is exact in whatever order it is built |
| SplitRun.PagesShownExactly | crates/lanrurugi-api/src/archive_split.rs:1106-1187 | some archive shows a page exactly when it was read and some group selects it with a real extension or as first of its name; a covered, readable page with a real extension is always shown |
| SplitRun.BookmarksArrive | crates/lanrurugi-api/src/archive_split.rs:974-997 | when every bookmark follows into the archives that show its page, each on a covered, readable page with a real extension stands in some archive on a page written from that file |
| SplitRun.ArrivalNeedsPage | crates/lanrurugi-api/src/archive_split.rs:974-997 | a bookmark stands rightly in some archive only if its page was read and taken as a page by some group |
| SplitRun.StampsStandRightly | crates/lanrurugi-api/src/archive_split.rs:999-1034 | every new stamp record stands on a page written from the stamped file, in an archive still on disk, and every earlier key still has a record |
| SplitRun.OthersAreKept | crates/lanrurugi-api/src/archive_split.rs:974-997 | no bookmark is lost, and times and names change only at pages of archives still on disk that were written from a bookmarked file |
| SplitRun.RunSplit | crates/lanrurugi-api/src/archive_split.rs:1037-1304 | the whole job: it succeeds exactly when every group can be written, and then the folder holds the groups' archives and its other files as before, each archive is its group's files entry by entry with nested archives unpacked, and every covered file is in some; no bookmark and no stamp stands on a page written from another file, none that was there is lost, and other bookmarks stay as they were; page maps invert exactly; and with listed archives under their own ids every bookmark on a covered, readable page with a real extension stands in some archive on the page written from that file |
| SplitTree.CollectEntries | crates/lanrurugi-api/src/archive_split.rs:442-503 | on every store, self-containing archives included, the walk ends and appends the preorder of the nesting tree cut at the limit, names prefixed by the enclosing archives |
| SplitTree.SplitTreeOf | crates/lanrurugi-api/src/archive_split.rs:508-549 | the whole view is that preorder from the archive itself, cut at depth six |
| SplitTree.ViewIsExact | crates/lanrurugi-api/src/archive_split.rs:442-503 | the view holds exactly the entries of archives at most the limit deep that lie one inside the other and can be read, each named by the archives around it, outermost first; a nested archive is a folder, and a plain file exactly at the cut |
| SplitTree.ListedInOrder | crates/lanrurugi-api/src/archive_split.rs:442-503 | the lines of the first entries stand before those of the rest |
| SplitTree.SelfContainingEnds | crates/lanrurugi-api/src/archive_split.rs:442-503 | an archive that contains only itself is listed as a folder once per level and once more as a file |
| PathPattern.KeyMatch2 | crates/lanrurugi-api-docgen/src/policy.rs:337-354 | the segment loop accepts exactly the character language of the pattern |
| PathPattern.MatcherAcceptsTheLanguage | crates/lanrurugi-api-docgen/src/policy.rs:337-354 | matching segment by segment equals matching character by character, for every pattern and path |
| PathPattern.AgreesWithDocumentedRegex | crates/lanrurugi-api-docgen/src/policy.rs:331-354 | the documented rewriting accepts exactly the paths the code matches without an empty parameter, on exactly those patterns whose first segment is no wildcard and whose stars end them |
| PathPattern.AgreesInPlace | crates/lanrurugi-api-docgen/src/policy.rs:331-354 | on such a pattern a path is in the rewritten language exactly when the code matches it and no parameter meets an empty segment |
| PathPattern.DocumentedRegexIsStricter | crates/lanrurugi-api-docgen/src/policy.rs:331-354 | `/a/:id/b` matches `/a//b` and its rewriting does not |
| PathPattern.StarInsideSegment | crates/lanrurugi-api-docgen/src/policy.rs:331-354 | `/*x` does not match `/yx` and its rewriting does |
| PathPattern.StarBeforeMore | crates/lanrurugi-api-docgen/src/policy.rs:331-354 | `/*/b` matches `/x/c` and its rewriting does not |
| PathPattern.Normalise | crates/lanrurugi-api-docgen/src/policy.rs:314-329 | the character loop and the trimming loop compute the normal form |
| PathPattern.NormalisedIsStable | crates/lanrurugi-api-docgen/src/policy.rs:314-329 | normalising twice changes nothing more |
| RouteTemplate.SpellingsAgree | crates/lanrurugi-api-docgen/src/policy.rs:314-354 | a rule in the policy's spelling matches a route in the document's spelling exactly when the one template covers the other |
| RoutePolicy.Allows | crates/lanrurugi-api-docgen/src/policy.rs:210-228 | a role is allowed exactly when some matching rule allows it and none denies it |
| RoutePolicy.AccessOf | crates/lanrurugi-api-docgen/src/policy.rs:235-270 | the set loop reports that decision for every role, or nothing when no rule matches |
| RoutePolicy.LoopsAgree | crates/lanrurugi-api-docgen/src/policy.rs:210-270 | the flag loop and the set loop agree, with nothing meaning nobody |
| RoutePolicy.DecisionDependsOnTheRuleSet | crates/lanrurugi-api-docgen/src/policy.rs:210-270 | order, repetition and line numbers of the rules do not matter |
| RoutePolicy.AddingARule | crates/lanrurugi-api-docgen/src/policy.rs:210-228 | what one more rule changes, exactly: a deny admits nobody and takes away its own role, an allow takes nobody away |
| RoutePolicy.UnusedRules | crates/lanrurugi-api-docgen/src/policy.rs:279-297 | the report lists exactly the narrow rules that match no served route, in file order |
| RoutePolicy.PruningIsSafeAndComplete | crates/lanrurugi-api-docgen/src/policy.rs:279-297 | deleting the reported lines leaves every served route's access as it was and nothing more to report |
| RoutePolicy.KeptExactlyWhenUsed | crates/lanrurugi-api-docgen/src/policy.rs:279-297 | a rule survives the deletion exactly when it is wide or matches a served route |
| PolicyLines.DecidedByLines | crates/lanrurugi-api-docgen/src/policy.rs:205-270 | in terms of the file's lines: a role may use a verb, in either case, on a route of the document exactly when a line of its own allows that verb or all on a template that covers the route and none denies it; no verdict exactly when no line concerns the route |
| PolicyLines.OtherVerbsChangeNothing | crates/lanrurugi-api-docgen/src/policy.rs:210-297 | a line for another verb changes no verdict on a route and is not used by it |
| PolicyLines.StaleExactly | crates/lanrurugi-api-docgen/src/policy.rs:279-297 | a line is reported exactly when its template does not end in a wildcard and it concerns no served route |
| ApiDocument.AssignId | crates/lanrurugi-api-docgen/src/merge.rs:307-346 | the wished id if free, else with the path behind it, else with the first free number: always one nothing holds |
| ApiDocument.HandlerWords | crates/lanrurugi-api-docgen/src/scan/handlers.rs:132-153 | `list_archives` becomes `listArchives`: every word but the first gets a capital, and nothing else changes |
| ApiDocument.PathWords | crates/lanrurugi-api-docgen/src/merge.rs:330-338 | what stands behind a taken name are the path's segments with underscores between them |
| ApiDocument.PathParameter | crates/lanrurugi-api-docgen/src/merge.rs:330-338 | of a path that is one parameter its name is left |
| ApiDocument.CleaningKeepsWords | crates/lanrurugi-api-docgen/src/merge.rs:184-200 | a cleaned summary has lost the key marker and kept every word of the text around it, in order, with single spaces between |
| ApiDocument.WithoutIsRest | crates/lanrurugi-api-docgen/src/merge.rs:184-200 | the text without the marker is its pieces between the places where that stood |
| ApiDocument.Merge | crates/lanrurugi-api-docgen/src/merge.rs:77-150 | it fails exactly when both layers define a schema; otherwise exactly the registered routes are described, by the sidecar before the legacy layer, keeping what the layer says but for the key marker; ids are distinct, inherited security is dropped, the counts agree exactly when no route is registered twice; without such, each operation names its place and its one tag, and no id a layer gives is lost |
| ApiDocument.CheckPolicy | crates/lanrurugi-api-docgen/src/validate.rs:95-127 | the policy gate passes exactly when somebody reaches the route and no guest token writes |
| ApiDocument.GuardedExactly | crates/lanrurugi-api-docgen/src/validate.rs:82-127 | by roles and verbs: some role reaches the route, and a guest token none with POST, PUT, PATCH or DELETE |
| ApiDocument.IntegralExactly | crates/lanrurugi-api-docgen/src/validate.rs:43-80 | a whole operation has an absolute path, is an object with a name, and has a response |
| ApiDocument.NamesAreIds | crates/lanrurugi-api-docgen/src/validate.rs:68-78 | the id gate passes exactly when no name is borne twice |
| ApiDocument.RunGates | crates/lanrurugi-api-docgen/src/validate.rs:23-153 | all gates together pass exactly when count, integrity, ids, policy and dead-rule conditions hold |
| ApiDocument.StatedSecurityIsExact | crates/lanrurugi-api-docgen/src/emit.rs:155-196 | the effective requirement names exactly the credential kinds of the roles that reach the route, unless guests see it, it is not open to all and takes one kind only: there it names both |
| ApiDocument.GuestPageStatesBoth | crates/lanrurugi-api-docgen/src/emit.rs:155-196 | a publishable input with a guest-visible route that takes a session only and is emitted with both credentials |
| ApiDocument.EmittedStatesThePolicy | crates/lanrurugi-api-docgen/src/emit.rs:155-196 | a gated operation states that requirement, and none outside `/api` |
| ApiDocument.EmittedMarksTheRoles | crates/lanrurugi-api-docgen/src/emit.rs:155-184 | the role mark is written exactly where an admin token is admitted and a guest token is not, the guest mark exactly where guests are, on every verb; elsewhere both fields stay as they were |
| ApiDocument.EmittedTellsTheNotes | crates/lanrurugi-api-docgen/src/emit.rs:125-143 | notes are a field of their own and stand behind a description that has text, or alone; without notes both fields stay as they were |
| ApiDocument.GatesAreAboutRegistrations | crates/lanrurugi-api-docgen/src/validate.rs:23-153 | the gates on merged operations pass exactly when the registrations, layers and rules meet them |
| ApiDocument.EmissionIsFaithful | crates/lanrurugi-api-docgen/src/emit.rs:41-56 | assembling gated operations keeps routes, ids, places, tags and the layers' own statements, states the policy and both role marks, and adds the notes |
| ApiDocument.Generate | crates/lanrurugi-api-docgen/src/main.rs:97-143 | the run passes exactly when the input is publishable, writes a document exactly when it passes and is no mere check, and then the document is faithful |
| GallerySource.ParsesExactlyThePattern | plugins/download/ehentai.ts:58-70 | the capture groups are found exactly on the strings the gallery pattern describes |
| GallerySource.PrefixesAre | plugins/download/ehentai.ts:66-68 | the prefixes are those of two hosts, bare or under one of two names |
| GallerySource.DigitsAreThese | plugins/download/ehentai.ts:66-68 | which characters make a number and which a token, in either case |
| GallerySource.EveryAliasIsCanonical | plugins/download/ehentai.ts:58-70 | every scheme, `www.`, prefix, host and tail of a gallery's URL gives its one canonical form |
| GallerySource.CanonicalFormIsFixed | plugins/download/ehentai.ts:58-70 | the canonical form is a fixed point and names its gallery |
| GallerySource.NumberStays | plugins/download/ehentai.ts:58-70 | whatever the token, a gallery's value keeps its number whole, followed by a slash or nothing |
| GallerySource.SameValueIffSameGallery | plugins/download/ehentai.ts:58-70 | two URLs get one value exactly when they name one gallery, or none and trim alike |
| GallerySource.IdempotentExactly | plugins/download/ehentai.ts:58-70 | canonicalising twice changes nothing exactly for galleries and for URLs with nothing left to trim |
| GallerySource.NotAlwaysIdempotent | plugins/download/ehentai.ts:58-70 | a URL that changes again |
| VersionHistory.CollectVersionHistory | plugins/download/ehentai.ts:158-226 | the collection for every lookup function, with 50 hops each way, within 101 lookups |
| VersionHistory.ClimbToTip | plugins/download/ehentai.ts:176-186 | the first loop records each newer revision until a link is missing, repeats itself or fails |
| VersionHistory.FollowParents | plugins/download/ehentai.ts:188-202 | the second loop records each parent and stops after a repeat that is not the seed |
| VersionHistory.EmitAll | plugins/download/ehentai.ts:213-225 | exactly the entries with a token and a time the date type can hold are told, once each and in order, under their own address and their own time in whole milliseconds |
| VersionHistory.TellsExactly | plugins/download/ehentai.ts:214-223 | what is told of an entry: the canonical form of its address, and less than a millisecond from a thousand times its seconds, towards zero |
| VersionChain.ReportsATrail | plugins/download/ehentai.ts:158-226 | on every link graph: nothing is reported when the seed is unknown or a lookup of the walk fails; else the report comes from one walk of current links, then parent links, from the seed, that ends only at a missing link or entry, a repeat that is not the seed, or the hop limit, at most 101 long, one entry for each gid |
| VersionChain.ValuesMerge | plugins/download/ehentai.ts:166-169 | the map keeps one entry for each gid, the one met last |
| VersionChain.ChainIsReported | plugins/download/ehentai.ts:171-226 | on a linear chain of any length the report is the seed and the newest 51, the seed first, the others newest down |
| VersionChain.ReportedExactly | plugins/download/ehentai.ts:171-226 | on a chain whose entries have a token and a valid date, a revision is reported, under its own address and time, exactly when it is among the newest 51 or the seed, and no source twice |
| VersionChain.SourceIsCanonical | plugins/download/ehentai.ts:220-223 | an emitted source of a revision with a hexadecimal token is its gallery's canonical form and a fixed point |
| VersionChain.SourcesDiffer | plugins/download/ehentai.ts:220-223 | different galleries are emitted under different sources, whatever their tokens |

## Left out

- URL parsing, percent-encoding and `normalize_origin`: origins are (scheme, host, port) values. Normalisation is assumed to trim, to read back what it wrote, to print ASCII without a percent sign, to keep the loopback aliases, and to give a host a comma only from a comma, a percent sign or a character outside ASCII; a rendered origin is taken to be header text.
- BridgeHandlers.PrepareBridge: the refusal with status 500 when the start URL cannot be built is left out, because a normalised peer with a fixed path always parses.
- BridgeHandlers.StartBridge: the error exit for a callback URL that does not parse is left out for the same reason.
- BridgeHandlers.PassOnToNextPeer: so is the fall-through when the next start URL cannot be built.
- BridgeHandlers.HandoffStore.Issue: token ids and secrets, device data, the last-seen time and key lifetimes are not modelled; a token is its family.
- BridgeHandlers.BridgeCallback: the lookup of the family's device identity between taking the code and issuing the token changes no answer and is not modelled, nor are the cookies of the answer but for the grant itself.
- BridgeTrace: a callback is one atomic step, although the program awaits between taking the code and issuing the token; a sign-out or a change of configuration in between is not modelled.
- Cookies' wire format: a jar is keyed by browser and host, as a cookie without a Domain attribute is; the `Secure` flag is not modelled, so a cookie is returned to either scheme, which allows more runs than browsers do.
- Access and refresh tokens: a session is a family and an expiry; signing, rotation and the SHA-256 of a stored code are not modelled. A failed read of a family counts as no session.
- Redis time-outs of codes and families appear as the actions Evict and SignOut, at any moment.
- HTTP status texts, HTML pages and the login page's query string.
- SplitZip.WrittenNamesDistinctExactly: it does not cover lists in which a repeated name's renamed form is another entry's name; there the order decides, as `SplitZip.RenamedFormClashes` shows.
- SplitZip.RenamedWhenRepeated: the same lists are left out.
- SplitJob.GroupIsWritableExactly: the same lists of base names are left out.
- SplitContents.WritableExactly: the same lists are left out.
- SplitMaps.ShownByInputExactly: the same groups are left out; `SplitMaps.ShownExactly` covers every group, by the names given.
- SplitTargets.NothingOverwrittenExactly: the same holds for ZIP names and files on disk.
- SplitZip.ZipOutput.Write: assumes that the ZIP writer refuses a name it already holds, as version 9 of the zip crate does, and never fails otherwise; reading the original as a whole does not fail either.
- `list_pages` order: pages are the image entries of an archive in some order; natural sorting is not modelled, nor books whose pages are generated, nor names that change when read back.
- SplitJob.WriteFiles: entry bytes are not modelled, so neither is an original that is overwritten while it is read; nested archives are given as the names of their readable files.
- SplitTargets.WriteGroups: ZIP names are plain names in one folder; on failure the theorem says nothing about the targets themselves.
- SplitRun.RunSplit: ingestion is a map from file to id; tags, categories, tankoubons, search indexing, deletion of the original, progress and activity records are left out. Page numbers are unbounded, the program's are 32 bits wide.
- FileNames: `Path::file_name` on names that end in a slash or in `/.` is not modelled; letters outside ASCII are not folded, as in the program.
- Multi-volume archives, suspicious-structure detection and the language-model calls that propose a plan.
- SplitTree.CollectEntries: an archive's identity stands for its temporary file; read, write and listing errors are one outcome, no contents.
- PathPattern.AgreesWithDocumentedRegex: in the rewriting a colon behind a slash is a parameter even without a name, and other characters that mean something in regular expressions stand for themselves.
- YAML, CSV and source scanning in the generator, the coverage report, tags and the schemas themselves, and the exact wording of derived descriptions.
- ApiDocument.Generate: files that fail to load stop the program before the modelled part begins.
- RoutePolicy: methods are upper-cased in ASCII.
- VersionHistory.CollectVersionHistory: a lookup is a function of gid and key, so two lookups of one page agree; a gid is a number, so the guard against entries without one is not modelled; times are whole milliseconds, not ISO text.
- The login form, the archiver and every other plugin, the user interface, packaging and telemetry.
