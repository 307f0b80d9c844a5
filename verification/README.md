# Serene Bach: verified models of its algorithms and protocols

Serene Bach is a blog engine that serves its pages from a database or writes them out as a
static site. This project models the parts of it that are algorithms or protocols rather than
plumbing, in Dafny, and proves what they promise:

- **Static rebuild** (`internal/rebuild/rebuild.go`). A build writes into a staging directory
  inside the output directory and then swaps subtrees, files and flat-page roots, nested in each
  other in any way, into the live tree by rename, backup and restore; roots of the previous build
  that are gone are pruned by its manifest. The file system is a finite map from paths to nodes;
  every call on it may be refused, and map iterations are in any order. Modules `FileTree`,
  `FileSystem`, `Promotion`, `NestedPromotion`, `Pruning`, `PromotionMethods`, `ManagedSubtrees`,
  `Manifest`, `Builds`, `FailedBuilds`, `LiveBuild`, `Staging`, and `Neighbours` for the previous/next index.
- **Ruby notation** (`internal/format/ruby.go`). The one-pass scanner against a matcher that tries
  every start, the reading pattern as a grammar, and the splice into the list of inline nodes.
  Modules `RubyScanner`, `RubyReading`, `RubyMatches`, `RubySplice`.
- **Inline HTML** (`internal/format/inlinehtml.go`). The attribute-value decoder built from a
  text decoder, against section 13.2.5.73 of the WHATWG HTML Standard, and the tag sanitizer.
  Modules `CharacterReferences`, `InlineHtml`, and `TagSpelling`
  for all ways a tag may be written.
- **Concurrent protocols**: the OAuth proxy's codes and tokens (`OAuthProxy`, `OAuthRuns`,
  `OAuthRedemptions`), first-run
  setup raced by many processes (`SetupRace`), and the login limiter (`LoginLimiter`, `LoginRuns`,
  `LoginExtremes`). Each is a machine of atomic steps with any number of actors; the classes whose
  methods the steps stand for are tied to them.
- **Smaller algorithms**: category parents (`Categories`), JSONC comments (`Jsonc`, `JsoncPieces`), webhook
  flattening (`Flatten`, `FlattenOrders`, `FlatPayloads`), SB2 record files and category import (`Sb2`).

Code that changes things step by step is a method over a class or with loops, proved against a
function; what is promised is then proved about that function.

## Where code and comments differ

- `restorePreservedChildren` removes the target before each rename, and `activeChildrenOf` yields
  children in map order. Three roots nested in each other can therefore lose the deepest page:
  `NestedPromotion.ThreeDeepMayLose`. `NestedPromotion.EveryOrderPromotesIff` says exactly when no
  order loses anything. (The admin form refuses page slugs nested in each other,
  `internal/handler/admin/pages.go:242-262`; other ways of making pages are not modelled.)
- `Seed`'s comment says that only the winner of the admin INSERT goes on to write. A run that
  submits the winner's name passes the name check and writes too; with two such runs in
  different processes the default template and the samples can be inserted twice:
  `SetupRace.TemplateDoubles` and `SetupRace.SamplesDouble`, with `SetupRace.TemplateIsSingleIff` and
  `SetupRace.SamplesAreSingleIff` for the exact conditions.
- The manifest goes live last. A build that is refused that rename has live pages no manifest lists,
  and a later build that drops them need not remove them: `FailedBuilds.GhostStays`, and
  `FailedBuilds.AfterRefusedManifest` for the exact condition.
- The comment on `findEmphasis` quotes a pattern that excludes line ends from an emphasized body;
  the code does not look for them. The model follows the code; a run of text ends at a line
  break in any case.
- With attempts in flight the login limiter admits more than the five failures its constant
  names: `LoginRuns.FailuresAreBounded` gives the bound and `LoginExtremes.BoundIsMet` shows that it
  is reached. Pruning for one key can change a decision for another whose clock reading is older:
  `LoginRuns.PruningIsInvisible` says when it cannot, `LoginExtremes.PruningMayShow` how it can.

## Conventions and assumptions

- Paths are relative to the output directory. A rename onto an existing directory always fails,
  as `os.Rename` does. Fresh names of backup directories and staging directories start with a dot.
- Text is a sequence of code points; invalid UTF-8 is not modelled.
- The table of named character references and the decoder of numeric ones are parameters with
  stated properties (`CharacterReferences.Good`); `CharacterReferences.SuchTablesExist` shows that the
  properties can hold together. What counts as an absolute http(s) URL is a parameter.
- SHA-256 is a parameter, random strings never repeat, clocks never go back.
- A login failure counts while it is later than the start of the window, and pruning drops those
  at or before it, as in `internal/storage/repo/login_failures.go`.
- SQL statements and transactions are atomic steps on abstract tables.

## Model

| member | source | states |
|---|---|---|
| FileSystem.Disk.Rename | internal/rebuild/rebuild.go:1310-1319 | A rename moves the whole subtree or changes nothing; it is refused when the tree forbids it or the environment does. |
| FileSystem.Disk.RemoveAll | internal/rebuild/rebuild.go:1326-1328 | Removing a subtree touches nothing outside it, even when it stops half-way. |
| FileSystem.Disk.Remove | internal/rebuild/rebuild.go:1394-1397 | Removes a file or an empty directory, or reports it missing, or is refused. |
| FileSystem.Disk.MkdirAll | internal/rebuild/rebuild.go:1289-1294 | Makes missing directories and nothing else, or fails where a file is in the way. |
| FileSystem.Disk.MkdirTemp | internal/rebuild/rebuild.go:1304-1307 | A new backup directory under a name nothing in the tree uses. |
| Promotion.RestoreAll | internal/rebuild/rebuild.go:1356-1377 | Restoring children ancestors first brings every child subtree back as it was backed up and leaves the rest alone. |
| NestedPromotion.RestoresInAnyOrder | internal/rebuild/rebuild.go:1356-1377 | With no file in the way, restoring succeeds in every order and changes nothing outside the root and its backup. |
| NestedPromotion.DescendantFirstLoses | internal/rebuild/rebuild.go:1369-1374 | Restoring a descendant before its ancestor leaves the descendant neither in place nor in the backup, whatever is restored afterwards. |
| Promotion.PutInPlace | internal/rebuild/rebuild.go:1289-1320 | Setting a root aside and renaming its staged copy in: per path, what is at the root, in the backup and elsewhere. |
| Promotion.StepPromotes | internal/rebuild/rebuild.go:1285-1330 | One promoted root with children restored ancestors first replaces exactly its own subtree by the staged one, deeper roots promoted before included. |
| NestedPromotion.StepSucceeds | internal/rebuild/rebuild.go:1285-1330 | Without a refusal by the environment a root's promotion succeeds if and only if no file stands at or above it. |
| NestedPromotion.RunPromotes | internal/rebuild/rebuild.go:1272-1276 | The rest of a run from any intermediate state: when it succeeds, and that the result is the live tree with every active root replaced by its staged copy. |
| NestedPromotion.AncestorsFirstPromotes | internal/rebuild/rebuild.go:1261-1277 | A whole run over any set of active roots, nested at most two deep or restored ancestors first: it succeeds if and only if no file is in the way of a root, and then every root holds exactly its staged copy and nothing else has changed. |
| NestedPromotion.ThreeDeepMayLose | internal/rebuild/rebuild.go:1338-1374 | For every set of roots with three nested in each other, some order the program may take runs to a successful end with an active page gone. |
| NestedPromotion.EveryOrderPromotesIff | internal/rebuild/rebuild.go:1261-1377 | All orders the program may take give exactly the staged pages if and only if no three active roots are nested in each other. |
| NestedPromotion.SomeOrderPromotes | internal/rebuild/rebuild.go:1261-1377 | However deep the nesting, some order the program may take promotes everything. |
| PromotionMethods.RestorePreservedChildren | internal/rebuild/rebuild.go:1356-1377 | The loop does what the specification of restoring says, refusals included. |
| PromotionMethods.ActiveChildrenOf | internal/rebuild/rebuild.go:1336-1351 | Finds the active roots strictly below that have a directory, once each, in any order. |
| PromotionMethods.SetRootAside | internal/rebuild/rebuild.go:1301-1314 | Backing a root up either succeeds as specified or leaves everything but a temporary directory unchanged. |
| PromotionMethods.PutRootInPlace | internal/rebuild/rebuild.go:1315-1329 | Renaming in, undoing on refusal, restoring the children and dropping the backup. |
| PromotionMethods.PromoteOneExtraDir | internal/rebuild/rebuild.go:1285-1330 | One root: nothing outside the roots is harmed whatever is refused; without a refusal it is a step of the specification. |
| PromotionMethods.RootsByDepth | internal/rebuild/rebuild.go:1262-1270 | The active roots once each, deepest first. |
| PromotionMethods.PromoteRoots | internal/rebuild/rebuild.go:1272-1276 | The loop over the roots is a legal run of the specification, stopping at the first refusal. |
| PromotionMethods.PruneStaleRoots | internal/rebuild/rebuild.go:1384-1405 | Pruning in any order of the old roots is the specified pruning; nothing outside the old roots is harmed. |
| PromotionMethods.PromoteExtraDirs | internal/rebuild/rebuild.go:1261-1279 | Whatever is refused, nothing outside the active and the old roots changes; without a refusal it is a legal run followed by pruning. |
| Pruning.PruneAll | internal/rebuild/rebuild.go:1384-1405 | Pruning fails if and only if a stale root that must survive has a non-empty directory for its page; otherwise exactly the doomed paths go: a stale root's whole subtree, or only its index file when an active root lies below it. |
| Pruning.PruneOrderIrrelevant | internal/rebuild/rebuild.go:1385-1403 | Success and result do not depend on the order of the old roots. |
| Pruning.ActivePageSurvives | internal/rebuild/rebuild.go:1386-1399 | No active page is pruned. |
| ManagedSubtrees.PromoteManagedSubtree | internal/rebuild/rebuild.go:1129-1170 | For every pattern of refusals: success leaves the staged subtree live; an error leaves the old one, unless the undo rename itself was refused, and then nothing is live and the old one is whole in its backup; nothing else is harmed. |
| ManagedSubtrees.PutSubtreeInPlace | internal/rebuild/rebuild.go:1157-1169 | The second half of the swap with its undo rename, and the same three outcomes told apart by what became of the undo. |
| Manifest.ManifestRoundTrip | internal/rebuild/rebuild.go:950-981 | Reading a written manifest gives the roots back if and only if every root is non-empty, trimmed and on one line. |
| Manifest.SlashReadsBack | internal/rebuild/rebuild.go:1286-1287 | The slash form of a page root splits back into its segments. |
| Manifest.SlashPrefix | internal/rebuild/rebuild.go:1342-1345 | The string test for a child (prefix plus slash) is the path relation "strictly below". |
| Manifest.SlashDepth | internal/rebuild/rebuild.go:1419-1424 | Counting slashes counts segments. |
| Manifest.SortedUnique | internal/rebuild/rebuild.go:955-960 | The manifest text of a set of roots is unique, whatever order the map yields them in. |
| Manifest.WritePagesManifest | internal/rebuild/rebuild.go:950-961 | Writes the sorted lines of the set. |
| Manifest.ReadPagesManifest | internal/rebuild/rebuild.go:974-980 | Reads the trimmed non-empty lines. |
| Builds.ManifestReadsPages | internal/rebuild/rebuild.go:950-981 | The manifest written for page roots lists exactly those roots when read. |
| Builds.SwapAllKeepsPages | internal/rebuild/rebuild.go:1097-1101 | Swapping the managed subtrees changes no page, live or staged, and no manifest. |
| Builds.TopFilesKeepPages | internal/rebuild/rebuild.go:1177-1192 | Nor does promoting the top-level files. |
| Builds.PromotedIndex | internal/rebuild/rebuild.go:1261-1277 | After promotion each active root has its new page, other pages below an active root are gone, and all others are as before. |
| Builds.PrunedIndex | internal/rebuild/rebuild.go:1384-1405 | After pruning a page is gone if and only if its root is in the old manifest but not active, or lies below such a root that has no active root below it. |
| Builds.PromotedWellFormed | internal/rebuild/rebuild.go:1261-1277 | Promotion leaves a tree in which everything has its directories above it. |
| Builds.UnfinishedLeaves | internal/rebuild/rebuild.go:1088-1112 | A build up to the last rename, from any tree whose manifest lists pages: for every page path, which index file is there, and the old manifest still stands. |
| Builds.BuildLeaves | internal/rebuild/rebuild.go:1088-1122 | The same for a successful build, whose manifest then lists exactly its roots. |
| Builds.NoGhostsIff | internal/rebuild/rebuild.go:1088-1122 | From any tree, a successful build leaves no page but its own if and only if every other index file lies below one of its roots or where pruning by the old manifest goes. |
| Builds.BuildShowsItsPages | internal/rebuild/rebuild.go:1088-1122 | A successful build over a tree that shows the last build's pages leaves exactly its own pages at all roots ever built, and a manifest of exactly them. |
| Builds.HistoryShowsLast | internal/rebuild/rebuild.go:1088-1122 | So does any run of successful builds; in between anything may change but the manifest and the index files at the roots built so far. |
| Builds.NoGhostPages | internal/rebuild/rebuild.go:1088-1122 | No ghost pages: starting without a manifest, after any run of builds the index files at all roots ever built are exactly the last build's, and the live manifest is its set of roots. |
| LiveBuild.TopFilesGoLive | internal/rebuild/rebuild.go:1177-1192 | Promoting the eight top-level files fails if and only if a staged one has a directory, or being one itself anything at all, in its way; otherwise every staged one is live and no longer staged, and nothing else has changed. |
| LiveBuild.SubtreesGoLive | internal/rebuild/rebuild.go:1097-1170 | After swapping, each of the four managed subtrees is the staged one, or gone where none was staged, and nothing else has changed. |
| LiveBuild.BuildGoesLive | internal/rebuild/rebuild.go:1088-1122 | After a successful build every managed subtree and every top-level file that was staged is live, and the manifest is the staged one. |
| FailedBuilds.AfterRefusedManifest | internal/rebuild/rebuild.go:1198-1211 | A build is refused its manifest and the next one succeeds: no ghost page is left if and only if every page of the failed build lies at or below a root of the next one, or where pruning by the manifest before the failure goes. |
| FailedBuilds.GhostStays | internal/rebuild/rebuild.go:1114-1116 | The failing input, for all names: a site's first page goes live, its manifest is refused, the page is dropped, and after the next, successful build it is still there. |
| Staging.PromoteSubtrees | internal/rebuild/rebuild.go:1097-1101 | Without a refusal the loop fails if and only if a file stands where a staged subtree has to go, and otherwise all four subtrees are the staged ones; with refusals nothing else is harmed. |
| Staging.PromoteTopLevelFiles | internal/rebuild/rebuild.go:1177-1192 | Without a refusal it fails if and only if something is in the way of a staged file, and otherwise every staged one of the eight is live, with whatever is below it, and nothing else has changed. |
| Staging.PromoteOneFile | internal/rebuild/rebuild.go:1198-1211 | The manifest (or one file) goes live by one rename. |
| Staging.OldRoots | internal/rebuild/rebuild.go:965-981 | The roots of the previous build, none without a manifest; fails if and only if the manifest is a directory. |
| Staging.PromoteStaging | internal/rebuild/rebuild.go:1088-1122 | Whatever is refused, only subtrees, files, active and old roots and the manifest are touched. Without a refusal a success is a build in the sense of the theorems above, and with roots nested at most two deep it succeeds if and only if nothing that is live is in the way. When only the last rename is refused the result is an unfinished build. |
| Neighbours.SortNewestFirst | internal/rebuild/rebuild.go:629-634 | A sorted permutation. |
| Neighbours.BuildVisibleIndex | internal/rebuild/rebuild.go:621-640 | The visible entries newest first, and an index that finds each of their ids. |
| Neighbours.AdjacentFromIndex | internal/rebuild/rebuild.go:670-688 | The entries one place on either side. |
| Neighbours.NeighboursAreNearest | internal/rebuild/rebuild.go:660-688 | With unique ids, previous is the greatest visible entry below and next the least above in (posted_at, id) order, none if there is none. |
| Neighbours.HiddenHasNone | internal/rebuild/rebuild.go:660-677 | Hidden entries have no neighbours. |
| Neighbours.PrevUndoesNext | internal/rebuild/rebuild.go:670-688 | Previous and next are inverse to each other. |
| RubyScanner.CountBackslashes | internal/format/ruby.go:285-291 | Counts the backslashes right before a bar. |
| RubyScanner.RubyIsUnique | internal/format/ruby.go:242-275 | A start has at most one match. |
| RubyScanner.MatchRuby | internal/format/ruby.go:242-275 | The match decided by an opening bracket starts before every other match still possible; without one, no match is decided there. |
| RubyScanner.FindReadings | internal/format/ruby.go:177-206 | For every text and every reading pattern the one-pass scan returns exactly the matches of a matcher that tries each start in turn and goes on behind each match. |
| RubyScanner.IndexFrom | internal/format/ruby.go:303-310 | The first occurrence, or -1. |
| RubyScanner.EmphasisDecided | internal/format/ruby.go:220-229 | The scanner's test at a doubled bracket decides whether emphasis starts there. |
| RubyScanner.FindEmphasis | internal/format/ruby.go:210-233 | The emphasis pass is a leftmost, non-overlapping matcher. |
| RubyReading.ReadingIsThePattern | internal/format/ruby.go:235-240 | The reading pattern, spelled out as a grammar, matches up to at most one place, which the scan computes. |
| RubyReading.DoubledBracketsAfterBase | internal/format/ruby.go:151-164 | Behind a bar and a base, doubled brackets are one reading in brackets, not emphasis. |
| RubyReading.KanjiWithReading | internal/format/ruby.go:242-280 | A word of kanji followed by kana in brackets is exactly one match, with the word as base and the kana as reading. |
| RubyMatches.RubiesAreRight | internal/format/ruby.go:155-164 | All matches are sorted, disjoint and in bounds; all readings are among them; and nothing that could match is clear of all of them. |
| RubyMatches.LeftmostIsMaximal | internal/format/ruby.go:168-206 | No reading is missed but for another one in its way. |
| RubyMatches.FindRubies | internal/format/ruby.go:155-164 | Weaves the emphasis between the readings. |
| RubySplice.PiecesSpell | internal/format/ruby.go:107-130 | The nodes put in place of a run spell its source span by span, in order, and end in its line break. |
| RubySplice.RewritingIsLossless | internal/format/ruby.go:58-134 | Rewriting all children keeps whatever they spelled: characters, line breaks and opaque nodes, in order. |
| RubySplice.NewRunReplaces | internal/format/ruby.go:100-134 | What replaces a run: nothing new without a match; else one ruby node per match, in order, each with the base, reading and emphasis of its match, text nodes that show exactly the characters outside the matches, all in source order, and the run's line break on the last one. |
| RubySplice.RewrittenIsWalked | internal/format/ruby.go:58-134 | The walk replaces one whole run after the other in that way and leaves every other node as it is. |
| RubySplice.Parent.InsertPieces | internal/format/ruby.go:107-130 | Inserts the pieces one by one before the run. |
| RubySplice.Parent.CollectRun | internal/format/ruby.go:88-98 | The run of adjacent text nodes up to the first line break. |
| RubySplice.Parent.RewriteTextRun | internal/format/ruby.go:83-134 | Replaces exactly the whole run that starts here by its ruby and text nodes; the siblings before and behind stay. |
| RubySplice.Parent.RewriteChildren | internal/format/ruby.go:71-74 | The walk over the children of one node, run by run. |
| CharacterReferences.TextDecodesLongest | internal/format/inlinehtml.go:196-213 | The text decoder's look-ups decode the longest name in the table, whatever follows. |
| CharacterReferences.RefStaysLiteralIff | internal/format/inlinehtml.go:201-213 | Judging from what the text decoder makes of a name, a reference stays literal if and only if the standard's attribute rule says so. |
| CharacterReferences.ProtectedDecodes | internal/format/inlinehtml.go:168-194 | Protecting ampersands and decoding as text equals decoding in attribute context, for every string and table. |
| CharacterReferences.UnescapeAttrValue | internal/format/inlinehtml.go:173-194 | The loop computes the attribute-context decoding. |
| CharacterReferences.SuchTablesExist | internal/format/inlinehtml.go:196-200 | The stated properties of tables can hold together. |
| InlineHtml.EscapeReadsBack | internal/format/inlinehtml.go:135-135 | Decoding an escaped value gives the value back. |
| InlineHtml.EscapedIsSafe | internal/format/inlinehtml.go:135-135 | An escaped value has no angle brackets and no quotes. |
| InlineHtml.KeptIff | internal/format/inlinehtml.go:116-135 | Exactly the first attribute of each key is kept, if allowed and valid; an invalid first one is not replaced by a later one. |
| InlineHtml.SanitizedIsCanonical | internal/format/inlinehtml.go:83-147 | Every printed tag has an allowed name and distinct allowed attributes, URLs trimmed and checked. |
| InlineHtml.CanonicalReadsBack | internal/format/inlinehtml.go:83-166 | A canonical tag is read back from its print unchanged. |
| InlineHtml.SanitizingIsIdempotent | internal/format/inlinehtml.go:83-139 | Sanitizing what was printed prints the same. |
| InlineHtml.PrintedIsOneTag | internal/format/inlinehtml.go:78-82 | The only angle brackets printed are the tag's own. |
| InlineHtml.ScanTagName | internal/format/inlinehtml.go:219-225 | The tag name, in lower case, and the rest. |
| InlineHtml.ScanAttrName | internal/format/inlinehtml.go:227-238 | The attribute name and the rest. |
| InlineHtml.ScanAttrValue | internal/format/inlinehtml.go:240-259 | A quoted or unquoted value and the rest, or none. |
| InlineHtml.ScanAttr | internal/format/inlinehtml.go:152-166 | One attribute, key in lower case, value decoded in attribute context. |
| InlineHtml.SanitizeClosingTag | internal/format/inlinehtml.go:141-147 | An allowed closing tag without anything else, or nothing. |
| InlineHtml.WriteAttr | internal/format/inlinehtml.go:119-135 | Writes one attribute unless it is a duplicate, not allowed or invalid. |
| InlineHtml.SanitizeInlineTag | internal/format/inlinehtml.go:83-139 | The loop prints the tag that scanning everything first and keeping the first valid attributes gives. |
| TagSpelling.OpenIsSanitized | internal/format/inlinehtml.go:83-166 | Every spelling of an allowed opening tag (any letter case, any spaces around names and `=`, values in double or single quotes, without, or missing) is sanitized to its name and keys in lower case and its decoded values: of each key the first, if allowed on the tag and, where a URL is wanted, an absolute one, in order. |
| TagSpelling.CloseIsSanitized | internal/format/inlinehtml.go:141-147 | The same for closing tags. |
| TagSpelling.SanitizedIff | internal/format/inlinehtml.go:83-147 | A tag is printed if and only if it is spelled as an allowed one. |
| OAuthProxy.Stores.StoreCode | cmd/mcp-oauth-proxy/main.go:269-279 | The code is stored with its redirect, client and challenge, good for 600 seconds. |
| OAuthProxy.Stores.TakeCode | cmd/mcp-oauth-proxy/main.go:349-354 | A code is looked up and removed in one critical section. |
| OAuthProxy.Stores.StoreToken | cmd/mcp-oauth-proxy/main.go:372-378 | The token is stored with its expiry. |
| OAuthProxy.Stores.HandleToken | cmd/mcp-oauth-proxy/main.go:335-388 | An undisturbed redemption: the code is gone whatever happens; a token is stored if and only if grant type, code, expiry, redirect, client and verifier all check, and each failed check has its refusal. |
| OAuthProxy.Stores.SweepExpiredTokens | cmd/mcp-oauth-proxy/main.go:528-537 | Exactly the expired tokens go. |
| OAuthProxy.Stores.Authenticate | cmd/mcp-oauth-proxy/main.go:446-472 | A bearer token passes if and only if it is stored and not expired. |
| OAuthRuns.CodesAreSingleUse | cmd/mcp-oauth-proxy/main.go:349-378 | In every interleaving of any number of requests no code yields two tokens. |
| OAuthRuns.TokensTraceBack | cmd/mcp-oauth-proxy/main.go:205-378 | Every stored token traces to one issued code, unexpired when checked, whose redirect, client and S256 verifier matched and whose redirect was allowed. |
| OAuthRuns.RepliesAreExact | cmd/mcp-oauth-proxy/main.go:459-466 | A bearer request passes if and only if its token had been minted by the look-up and is not expired at the reply. |
| OAuthRuns.SweepsAreInvisible | cmd/mcp-oauth-proxy/main.go:467-537 | Leaving all sweeps out of any run gives a run with the same answers and the same codes. |
| OAuthRuns.StepKeepsInvariant | cmd/mcp-oauth-proxy/main.go:269-537 | Every atomic step keeps the invariant: each code is in the store, in one hand, or spent on one token. |
| OAuthRuns.Perform | cmd/mcp-oauth-proxy/main.go:269-537 | The critical sections of the two stores do to them exactly what the steps of the machine say. |
| OAuthRuns.AloneIsHandled | cmd/mcp-oauth-proxy/main.go:335-388 | Among any other requests, a redemption that is not disturbed does what the whole handler does on its own. |
| OAuthRedemptions.AuthorizationIssuesIff | cmd/mcp-oauth-proxy/main.go:170-279 | A request gets a code if and only if its query names this client with a listed redirect and an S256 challenge and it came by the right method, with the PIN if there is one; the code is bound to the parameters that count and expires 600 seconds later. |
| OAuthRedemptions.IssuedStays | cmd/mcp-oauth-proxy/main.go:269-354 | After any run a code that was issued and never taken is in the store as it was issued. |
| OAuthRedemptions.RedemptionMintsIff | cmd/mcp-oauth-proxy/main.go:335-388 | After any run, an undisturbed redemption of such a code mints a token if and only if redirect and client are those it was issued for, the verifier meets its challenge and at most 600 seconds have passed. |
| LoginLimiter.Limiter.Allow | internal/handler/admin/login_ratelimit.go:60-76 | Allowed if and only if fewer than five failures are in the window (or the database fails); otherwise the wait is positive, the count stays until it ends and drops then. |
| LoginLimiter.Limiter.RecordFailure | internal/handler/admin/login_ratelimit.go:86-93 | Prunes for all keys and inserts, in one transaction. |
| LoginLimiter.Limiter.RecordSuccess | internal/handler/admin/login_ratelimit.go:95-101 | Clears the key. |
| LoginLimiter.PruningKeepsCounts | internal/storage/repo/login_failures.go:20-45 | Pruning changes no count over a later window. |
| LoginLimiter.CountIsPlaces | internal/storage/repo/login_failures.go:8-20 | A count is the number of rows of the key later than the start of the window. |
| LoginRuns.FailuresAreBounded | internal/handler/admin/admin.go:319-352 | With at most k attempts of a key under way, the failures since its last clearing in any 15 minutes number at most 4 + k, plus those let through because the database failed; reading the clock and writing or counting are separate steps. |
| LoginRuns.SequentialBound | internal/handler/admin/login_ratelimit.go:24-27 | One attempt at a time: at most five. |
| LoginRuns.PruningIsInvisible | internal/handler/admin/login_ratelimit.go:60-93 | When no failure stamped after a decision's clock reading has been recorded by its count, the decision is the one the failures of the 15 minutes before the reading call for, pruned or not. In any case a refusal had five of those, and whoever was allowed had fewer in the 15 minutes before the count. |
| LoginExtremes.PruningMayShow | internal/handler/admin/login_ratelimit.go:60-93 | The condition is needed: a run in which such a failure, of another key, prunes five and the attempt is allowed. |
| LoginExtremes.BoundIsMet | internal/handler/admin/admin.go:319-352 | For every k some run records 4 + k failures at once. |
| LoginRuns.Perform | internal/handler/admin/login_ratelimit.go:60-101 | The limiter's methods do to their table exactly what the steps of the machine say. |
| LoginRuns.StepKeepsInvariant | internal/handler/admin/login_ratelimit.go:60-101 | Every step keeps the bound: failures in a window plus the attempts under way that may still fall into it. |
| SetupRace.AtMostOneAdmin | internal/app/seed.go:99-144 | In every interleaving of requests and command-line runs at most one administrator is inserted. |
| SetupRace.LosersSawAnAdmin | internal/app/app.go:243-274 | Being told that setup is done implies that an administrator exists. |
| SetupRace.OnlyWinnersWrite | internal/app/seed.go:60-84 | Only runs that submitted the winner's name write the weblog, the template or the samples. |
| SetupRace.TemplateDoubles | internal/app/seed.go:149-168 | Two runs with one name and no common mutex can insert the template twice. |
| SetupRace.TemplateIsSingleIff | internal/app/seed.go:149-168 | The template is inserted at most once in every interleaving if and only if runs with the same name share a mutex. |
| SetupRace.SamplesDouble | internal/app/seed.go:173-230 | Two runs that write samples under one name without a common mutex can both insert the category. |
| SetupRace.SamplesAreSingleIff | internal/app/seed.go:173-230 | At most one sample category and two sample entries in every interleaving if and only if runs that write samples under the same name share a mutex. |
| SetupRace.GateFollowsDatabase | internal/app/app.go:465-495 | The gate lets a request through if and only if its path is exempt, the database cannot be asked, or an administrator exists; the sticky flag never differs. |
| SetupRace.Database.SeedAdminUser | internal/app/seed.go:99-144 | The conditional insert and its outcomes. |
| SetupRace.Database.SeedSampleContent | internal/app/seed.go:173-230 | Samples only into empty tables. |
| SetupRace.Database.Seed | internal/app/seed.go:60-85 | Either the run is refused and changes nothing, or afterwards there is an administrator of its name, a weblog, a template and, if asked for, samples; whatever was there stays as it was. |
| SetupRace.SeedingAgainChangesNothing | internal/app/seed.go:56-59 | Running it again changes nothing. |
| SetupRace.AloneIsSeeded | internal/app/seed.go:60-85 | In the race, an undisturbed run does exactly what `Seed` does on its own. |
| Categories.FilterParents | internal/handler/admin/categories.go:194-220 | The fixpoint loop returns exactly the categories that are neither the edited one nor below it, in order. |
| Categories.CandidatesIff | internal/handler/admin/categories.go:190-193 | Membership among the candidates. |
| Categories.CandidatesInOrder | internal/handler/admin/categories.go:209-219 | The candidates stand in the order of the table, with exactly the category and those below it left out. |
| Categories.ReparentingIff | internal/handler/admin/categories.go:190-193 | In an acyclic table, giving a category a parent keeps it acyclic if and only if the parent is not the category or below it. |
| Categories.CandidatesAreSafe | internal/handler/admin/categories.go:190-220 | Every offered candidate, and no parent, keeps the tree acyclic. |
| Jsonc.LexOfStripped | internal/handler/admin/ai_compose_prompts.go:109-137 | Lexing the stripped text labels the characters left as before: removal never splices a new opener. |
| Jsonc.StrippingIsIdempotent | internal/handler/admin/ai_compose_prompts.go:109-137 | Stripping twice is stripping once. |
| Jsonc.StringsAreCopied | internal/handler/admin/ai_compose_prompts.go:139-160 | String literals come through to the letter. |
| Jsonc.UnchangedIff | internal/handler/admin/ai_compose_prompts.go:109-137 | The text is unchanged if and only if it has no comment. |
| Jsonc.NewlinesAreKept | internal/handler/admin/ai_compose_prompts.go:162-170 | All newlines outside block comments are kept. |
| JsoncPieces.StrippedIsKept | internal/handler/admin/ai_compose_prompts.go:109-185 | Of a text written as characters of code, string literals and comments, stripping keeps code and literals to the letter and in order and drops the comments, also where a literal or comment lacks its end. |
| JsoncPieces.SomePieces | internal/handler/admin/ai_compose_prompts.go:114-185 | Every text is written in such pieces. |
| Jsonc.CopyString | internal/handler/admin/ai_compose_prompts.go:143-160 | Copies a literal up to its closing quote. |
| Jsonc.SkipLineComment | internal/handler/admin/ai_compose_prompts.go:165-170 | Skips to the newline. |
| Jsonc.SkipBlockComment | internal/handler/admin/ai_compose_prompts.go:177-185 | Skips past the end, or to the end of the text. |
| Jsonc.StripComments | internal/handler/admin/ai_compose_prompts.go:114-137 | The index loops compute what the lexer leaves. |
| Flatten.FlattenInto | internal/webhook/flatten.go:99-119 | The recursive calls are a visit of the tree: fields in some order, items in theirs, every scalar written at its joined path. |
| Flatten.ItoaIsNumeral | internal/webhook/flatten.go:105-108 | The key of an item is the decimal numeral of its index, without leading zeros. |
| Flatten.NumeralIsItoa | internal/webhook/flatten.go:105-108 | A number has one such numeral. |
| Flatten.VisitedIsWritten | internal/webhook/flatten.go:99-119 | After any visit every leaf's key holds the value of a leaf with that key, and no other key has changed. |
| Flatten.FlatIsExact | internal/webhook/flatten.go:94-119 | With distinct keys there is exactly one key for every leaf, with its value. |
| Flatten.OrderDoesNotMatter | internal/webhook/flatten.go:101-104 | Then any two visits give the same map. |
| FlattenOrders.AnyMayStay | internal/webhook/flatten.go:99-119 | For every leaf of every tree, some order of visiting leaves its value at its key, whatever other leaves share the key. |
| FlattenOrders.OrderMattersIff | internal/webhook/flatten.go:99-126 | All visits give the same map if and only if leaves that share a key share their value. |
| FlattenOrders.ClashingKeys | internal/webhook/flatten.go:121-126 | Two fields whose joined names run into one key, and two visits that leave different values there. |
| FlatPayloads.PayloadKeysAreDistinct | internal/webhook/payload.go:41-99 | Entry, comment and image payloads with any number of categories and tags have distinct keys, none of them text or content. |
| FlatPayloads.FlattenPayload | internal/webhook/flatten.go:69-92 | The flat payload key by key: the fields of head, weblog, data and author at their joined names, category and tag i at `data_categories_` and `data_tags_` with the numeral of i, the summary at text and content, and no other key. |
| Sb2.DecodeEscapes | internal/importer/sb2.go:446-470 | The loop, with its shortcut for text without escapes, decodes the escapes. |
| Sb2.EscapesMean | internal/importer/sb2.go:443-470 | A backslash makes a tab of t, a newline of n and any other character itself; a last one stays. |
| Sb2.EscapeReadsBack | internal/importer/sb2.go:443-470 | Decoding undoes escaping for every field. |
| Sb2.ReadRecords | internal/importer/sb2.go:409-441 | The loops over lines and fields. |
| Sb2.PrintedRecordsReadBack | internal/importer/sb2.go:402-441 | Printed records, over any characters, are read back each with one empty field more; only records without fields are lost. |
| Sb2.ReturnsMakeNoDifference | internal/importer/sb2.go:409-432 | Carriage returns at the ends of lines make no difference. |
| Sb2.ImportCategories | internal/importer/sb2.go:521-568 | Both passes: every row's parent is the row of the category its parent column names, wherever it comes, or none. |
| Sb2.TreeIsKept | internal/importer/sb2.go:537-566 | With unique ids the category tree comes over unchanged: at every distance, one row is above another if and only if its category was, whatever the order of the file. |

## Left out

- Writing the staged pages: a build's staging directory is assumed to hold each page's index file, none elsewhere, and the manifest (`Builds.StagedBuild`).
- Builds.NoGhostPages: of each page root only the index file is compared with the build; that the whole staged subtree goes live is what NestedPromotion.AncestorsFirstPromotes states.
- `cleanupLLMs` and `cleanupSEOFiles`, mirrors of images and template assets, feeds and style sheets: between builds anything may change but the manifest and the index files at the roots built so far.
- Builds.BuildLeaves: a manifest that lists anything but page paths, as only an edited one can, is not followed through a build.
- FailedBuilds: of the refusals inside a build, those before the last rename are modelled for safety (`Staging.PromoteStaging`) and by Builds.NoGhostsIff, which starts from any tree they may leave.
- Rendering of pages, ruby and templates, Markdown parsing, `sbtemplate`, OG images, markdown rendering: libraries around the modelled parts.
- RubySplice: nodes are values in a sequence; the identity of node objects in the linked tree is not modelled, nor is the recursion into children of other nodes.
- Invalid UTF-8 in ruby text and attribute values.
- The table of HTML entities itself and `url.Parse`: parameters, see above.
- HTTP handlers, cookies, redirects and form parsing around the OAuth endpoints and the login form.
- OAuthRuns: requests are interleaved at critical sections and clock readings; a data race outside the mutexes is not expressible.
- LoginRuns: sub-second parts of the clock; they are dropped before the database sees them, and the retry time is rounded up by its caller.
- SetupRace: HasAdminUser counts users with the admin role; roles other than admin and users made in the admin panel are not part of this model.
- Categories: the category form's other validation, such as unique slugs.
- Jsonc: bytes above ASCII are characters like any other.
- Sb2: character set detection, the scanner's limit on the length of a line, warnings about missing parents.
- Flatten: the wording of the summary; numbers are integers.
- Configuration, pagination, URL builders, backup manifests and the importer of SB3 data.
