# xyd documentation site: handlers, view helpers and the search-analytics plugin in Dafny

This project models the logic of the xyd documentation website and of its search-analytics plugin:

- **The comment store** (`api/comments`, `api/comments/flag`, `api/admin/moderate-comment`,
  `api/admin/flagged-comments`). It is a forest of comments whose replies nest to any depth. The
  flag and moderation handlers search it depth-first and change the first match in place. The
  moderation listing collects the flagged comments in pre-order and sorts them by latest flag.
- **The approval queue** (`api/approvals`). It is an upsert keyed by an id that is either given or
  derived from the href by replacing every run of non-alphanumeric characters with a dash.
  `api/metrics` counts its pending items and the documents on disk.
- **User profiles** (`api/users`). A reputation is computed from document and comment counters,
  and a level from reputation thresholds. The author card (`AuthorInfo.tsx`) turns levels into
  colours.
- **Document handlers** (`api/docs/new`, `api/docs/edit`, `api/doc-file`, `api/doc-meta`). They
  cover:
  - slug cleaning and sanitising, and the choice of extension;
  - the ordered list of candidate files, where the first that exists wins;
  - writing and stripping front matter;
  - the first-heading title and the bounded excerpt.
- **The documentation index** (`api/docs`). It flattens the sidebar of `docs.json`, maps document
  files to hrefs, and merges the two without repeating an href.
- **The landing page** (`page.tsx`) covers the search results, highlighting and the list of
  approved documents. **The comment thread** (`CommentsList.tsx`) covers relative dates, reply
  depth and likes.
- **The Orama analytics plugin** (`packages/xyd-plugin-orama-livesession/src/index.ts`). It checks
  its options and applies defaults. It binds a collector on index creation and hands it one event
  per search.

How the model is shaped:

- **Stores.** Each JSON store is a class whose field holds the parsed file. Each request handler is
  a method that changes that field in one step. A handler's loops are methods with loop
  invariants, each proved equal to a recursive specification function. The properties are lemmas
  about those functions.
- **Effects.** Environment variables, request bodies, clocks, random ids and the filesystem are
  parameters:
  - file existence, directory tests and file contents are functions passed in;
  - directory listings are a tree of entries.
- **Regular expressions** become character-level functions. The JavaScript white-space and
  line-terminator classes are written out.

A few behaviours of the code are worth knowing when reading the model:

- The edit handler writes the title unquoted into its front matter. A title ending in `---` closes
  the block early, so stripping it no longer gives back the content (`EditDoc.StripEditedDashTitle`).
  The edit handler checks no token and does not sanitise the slug.
- In the new-document handler, collapsing dots before replacing disallowed characters changes
  nothing: `.` is not allowed, so every run of dots becomes `-` anyway. The derived path never ends
  in `.md` or `.mdx`, so the extension is always `.mdx` (`NewDoc.ExtAlwaysMdx`).
- The metadata handler answers 500, not 404, when the slug names a directory. Its `readFile`
  rejects, and the model returns `ReadFailed`.
- During the documentation walk, one unreadable subdirectory makes the whole walk of that root
  throw. No file of that root is merged.
- The metrics handler counts pending approvals as 0 when the store cannot be read. The approvals
  handler would show two pending seed items in that case (`Metrics.SeedNotCounted`).
- A successful comment fetch does not clear an earlier error message (`CommentsList.ThreadView.Fetch`).

## Model

Source paths are relative to the repository root.

| member | source | states |
|---|---|---|
| CommentTree.EditFirstShape | apps/website/src/app/api/comments/flag/route.ts:63-92 | flagging or moderating a comment never changes which comment has how many replies |
| CommentTree.EditFirstNodes | apps/website/src/app/api/admin/moderate-comment/route.ts:47-76 | listed in pre-order, the edited tree differs from the old one only at the first comment with the id, which is replaced by its edit |
| CommentTree.EditFirstIds | apps/website/src/app/api/comments/flag/route.ts:63-92 | the pre-order list of ids is unchanged by an edit |
| CommentTree.EditFirstSkip | apps/website/src/app/api/comments/flag/route.ts:63-92 | comments before the first match are passed over unchanged |
| CommentTree.EditFirstAbsent | apps/website/src/app/api/admin/moderate-comment/route.ts:47-76 | an id found nowhere in the tree leaves the tree unchanged |
| CommentTree.ModerateIdempotent | apps/website/src/app/api/admin/moderate-comment/route.ts:47-76 | moderating the same comment twice with the same action equals moderating it once |
| CommentTree.ApplyModerateTwice | apps/website/src/app/api/admin/moderate-comment/route.ts:51-65 | applying the same moderation to one comment twice equals applying it once |
| CommentsRoute.BySlug | apps/website/src/app/api/comments/route.ts:51 | GET lists top-level comments of the slug only, each from the store, and all of them |
| CommentsRoute.BySlugCounts | apps/website/src/app/api/comments/route.ts:51 | each comment of the page appears as often as it is stored, and no other comment appears |
| CommentsRoute.Get | apps/website/src/app/api/comments/route.ts:41-57 | a missing or empty slug gives 400; otherwise the page's top-level comments in stored order |
| CommentsRoute.ParseRequest | apps/website/src/app/api/comments/route.ts:33-38 | accepted iff slug non-empty, content 1..2000, author 1..100 and parentId absent or a string |
| CommentsRoute.NewComment | apps/website/src/app/api/comments/route.ts:72-79 | the new comment carries the request's fields, 0 likes, no replies, no flags, not flagged |
| CommentsRoute.FindIndex | apps/website/src/app/api/comments/route.ts:83 | the loop returns the first top-level index with the id, or -1 iff there is none |
| CommentsRoute.TopIndex | apps/website/src/app/api/comments/route.ts:83 | first top-level position with the id, -1 iff absent |
| CommentsRoute.Post | apps/website/src/app/api/comments/route.ts:60-106 | 400 iff the body fails the schema; 404 iff the parent is not a top-level comment; otherwise the comment is appended to the parent's replies or to the top level; the store is unchanged on failure |
| CommentsRoute.PostAddsOne | apps/website/src/app/api/comments/route.ts:81-95 | a successful POST adds exactly the new comment's id to the tree's ids |
| CommentsRoute.PostTopLevelListed | apps/website/src/app/api/comments/route.ts:93-95 | a new top-level comment is listed last by GET for its page |
| CommentsRoute.ReplyToReplyRefused | apps/website/src/app/api/comments/route.ts:83-91 | a reply to a reply is refused although the parent exists in the tree |
| CommentsRoute.PostedAnywhereAccepts | apps/website/src/app/api/comments/route.ts:81-91 | with the correction, a reply to any comment in the tree is accepted and adds exactly one comment |
| CommentsRoute.PostedAnywhereAgrees | apps/website/src/app/api/comments/route.ts:81-91 | where the code accepts a reply, the correction gives the same store (ids distinct) |
| FlagRoute.ParseRequest | apps/website/src/app/api/comments/flag/route.ts:30-33 | accepted iff commentId and reason are strings of at least one character |
| FlagRoute.NewFlag | apps/website/src/app/api/comments/flag/route.ts:72-78 | a flag records comment id, reason and time, with status pending |
| FlagRoute.UpdateComment | apps/website/src/app/api/comments/flag/route.ts:63-92 | found iff the id occurs anywhere in the tree; the result flags the first such comment in pre-order |
| FlagRoute.Post | apps/website/src/app/api/comments/flag/route.ts:50-110 | 400 iff the schema fails, 404 iff the id is absent, otherwise the store becomes the flagged tree; unchanged on failure |
| FlagRoute.FlagAddsOne | apps/website/src/app/api/comments/flag/route.ts:63-92 | flagging adds exactly one flag to the store, on the matching comment, which becomes flagged and pending |
| FlagRoute.FlagTotalUpdate | apps/website/src/app/api/comments/flag/route.ts:80-82 | replacing one comment changes the flag total by the difference of that comment's flag counts |
| ModerateRoute.ParseAction | apps/website/src/app/api/admin/moderate-comment/route.ts:26-29 | accepted iff the action is one of approve, reject, dismiss |
| ModerateRoute.ParseActionName | apps/website/src/app/api/admin/moderate-comment/route.ts:26-29 | every action's name parses back to the action |
| ModerateRoute.ModerateComment | apps/website/src/app/api/admin/moderate-comment/route.ts:47-76 | found iff the id occurs in the tree; the result moderates the first such comment in pre-order |
| ModerateRoute.ModerateTarget | apps/website/src/app/api/admin/moderate-comment/route.ts:51-65 | the moderated comment gets the status, every flag is reviewed or dismissed, rejection removes content and clears the flag |
| ModerateRoute.Post | apps/website/src/app/api/admin/moderate-comment/route.ts:78-107 | 400 iff invalid, 404 iff the id is absent, otherwise the tree is moderated and the message is the template's `Comment ${action}d successfully`; unchanged on failure |
| ModerateRoute.MessageAsWrittenMisspells | apps/website/src/app/api/admin/moderate-comment/route.ts:98-101 | the message as written reads "rejectd" and "dismissd" |
| ModerateRoute.SuccessMessage | apps/website/src/app/api/admin/moderate-comment/route.ts:98-101 | the corrected message agrees with the code for approve |
| ModerateRoute.SuccessMessagesDistinct | apps/website/src/app/api/admin/moderate-comment/route.ts:98-101 | the corrected messages tell the three actions apart |
| FlaggedRoute.Flagged | apps/website/src/app/api/admin/flagged-comments/route.ts:40-42 | only comments marked flagged with at least one flag are kept |
| FlaggedRoute.FindFlaggedComments | apps/website/src/app/api/admin/flagged-comments/route.ts:36-51 | the loop collects the reportable comments of the whole tree in pre-order |
| FlaggedRoute.LatestFlagTime | apps/website/src/app/api/admin/flagged-comments/route.ts:60-61 | the key is the last flag's time, or the creation time without flags |
| FlaggedRoute.Get | apps/website/src/app/api/admin/flagged-comments/route.ts:53-68 | the listing is sorted by latest flag, descending, is a permutation of the flagged comments, and total is its length |
| FlaggedRoute.GetStable | apps/website/src/app/api/admin/flagged-comments/route.ts:59-63 | comments with equal latest-flag times keep their pre-order |
| Sorting.SortDesc | apps/website/src/app/api/admin/flagged-comments/route.ts:59-63 | sorted by key, descending, a permutation of the input |
| Sorting.SortDescStable | apps/website/src/app/api/users/route.ts:69 | elements with equal keys keep their relative order |
| Sorting.SortDescOfSorted | apps/website/src/app/api/users/route.ts:69 | an already sorted list is unchanged |
| FlaggedRoute.FlaggedIdListMember | apps/website/src/app/api/admin/flagged-comments/route.ts:36-51 | an id is listed iff some comment with it is reportable |
| FlaggedRoute.ListedIdsFromNodes | apps/website/src/app/api/admin/flagged-comments/route.ts:36-51 | the listed ids are the reportable comments' ids in pre-order |
| FlaggedRoute.FlagLists | apps/website/src/app/api/comments/flag/route.ts:63-92 | after flagging an existing comment, it is in the moderation listing |
| FlaggedRoute.RejectUnlists | apps/website/src/app/api/admin/moderate-comment/route.ts:62-65 | with distinct ids, rejecting a comment takes it off the listing |
| FlaggedRoute.ApproveKeepsListing | apps/website/src/app/api/admin/moderate-comment/route.ts:51-59 | approving or dismissing never changes the listed ids |
| Approvals.Items | apps/website/src/app/api/approvals/route.ts:8-19 | an unreadable store reads as the three seed items |
| Approvals.SeedIdsDistinct | apps/website/src/app/api/approvals/route.ts:13-17 | the seed ids are distinct |
| Approvals.Dashify | apps/website/src/app/api/approvals/route.ts:46 | the result holds only ASCII alphanumerics and single dashes, and keeps every alphanumeric in order |
| Approvals.DashifyJoin | apps/website/src/app/api/approvals/route.ts:46 | between alphanumeric stretches, each non-empty run of other characters becomes exactly one '-'; with DashifyAlnum this fixes the value on every input |
| Approvals.DashifyAlnum | apps/website/src/app/api/approvals/route.ts:46 | letters and digits alone are copied unchanged |
| Approvals.DashifyExample | apps/website/src/app/api/approvals/route.ts:46 | "a b" becomes "a-b", so distinct words stay apart |
| Approvals.DashifyIdempotent | apps/website/src/app/api/approvals/route.ts:46 | dashifying twice equals dashifying once |
| Text.ReplaceRuns | apps/website/src/app/api/approvals/route.ts:46 | only kept characters and dashes remain, no two dashes in a row, the first character kept or turned into a dash, never longer |
| Text.ReplaceRunsAppend | apps/website/src/app/api/approvals/route.ts:46 | after a prefix that is empty or ends in a kept character, the rest is rewritten independently (the rewrite is a homomorphism at kept characters) |
| Text.ReplaceRunsRun | apps/website/src/app/api/approvals/route.ts:46 | a non-empty maximal run of characters outside the class becomes exactly one '-' |
| Text.ReplaceRunsOfKept | apps/website/src/app/api/approvals/route.ts:46 | text made only of kept characters is unchanged |
| Text.ReplaceRunsKept | apps/website/src/app/api/docs/new/route.ts:14 | when '-' is not itself kept, the kept characters survive in order and nothing else is kept |
| Text.ReplaceRunsIdempotent | apps/website/src/app/api/docs/new/route.ts:14 | replacing the runs twice equals replacing them once |
| Approvals.ResolveId | apps/website/src/app/api/approvals/route.ts:46-49 | the given id wins; else "doc-" and the dashified href; none iff neither id nor non-empty href |
| Approvals.ParseRequest | apps/website/src/app/api/approvals/route.ts:37-42 | the schema, with a missing status defaulting to "pending" |
| Approvals.IndexOf | apps/website/src/app/api/approvals/route.ts:50 | first item with the id, or -1 iff absent |
| Approvals.FindIndex | apps/website/src/app/api/approvals/route.ts:50 | the search loop computes IndexOf |
| Approvals.Post | apps/website/src/app/api/approvals/route.ts:31-59 | 401 iff unauthorised, 400 for schema or missing id or missing title/href, otherwise the upserted list is written; unchanged on failure |
| Approvals.Get | apps/website/src/app/api/approvals/route.ts:26-29 | the stored items, or the seed items for an unreadable store |
| Approvals.UpsertExisting | apps/website/src/app/api/approvals/route.ts:51-52 | an existing id has only its status changed |
| Approvals.UpsertNew | apps/website/src/app/api/approvals/route.ts:54-55 | a new id is appended with author defaulting to "system" |
| Approvals.UpsertKeepsIdsDistinct | apps/website/src/app/api/approvals/route.ts:50-55 | distinct ids stay distinct and the resolved id is present afterwards |
| AdminAuth.Authorized | apps/website/src/app/api/approvals/route.ts:32-36 | an unset or empty token allows everything; otherwise exactly "Bearer " + token |
| AdminAuth.TokenRequired | apps/website/src/app/api/approvals/route.ts:32-36 | with a token set, no header or the bare token is refused |
| FsTree.DocCountIsPaths | apps/website/src/app/api/docs/route.ts:49-60 | the metrics count and the index walk agree on the number of documents |
| FsTree.DocPathsAreDocs | apps/website/src/app/api/docs/route.ts:55-56 | every walked path names a .md or .mdx file |
| FsTree.JoinKeepsSuffix | apps/website/src/app/api/docs/route.ts:55-58 | joining a directory to a document name gives a document path |
| Metrics.Walk | apps/website/src/app/api/metrics/route.ts:12-21 | the loop succeeds iff every directory is listable, and then counts the documents |
| Metrics.CountDocs | apps/website/src/app/api/metrics/route.ts:9-26 | the document count, or 0 when any directory cannot be listed |
| Metrics.PendingOf | apps/website/src/app/api/metrics/route.ts:34 | the pending count never exceeds the item count |
| Metrics.CountPendingApprovals | apps/website/src/app/api/metrics/route.ts:28-38 | an unreadable store counts 0; otherwise the items whose status is "pending" |
| Metrics.PendingOfExtremes | apps/website/src/app/api/metrics/route.ts:34 | the count is 0 iff nothing is pending, and the item count iff everything is |
| Metrics.UpsertPendingCount | apps/website/src/app/api/metrics/route.ts:34 | an approval POST moves the pending count by at most one, in the direction of its status change |
| Metrics.PendingOfUpdate | apps/website/src/app/api/metrics/route.ts:34 | replacing one item changes the pending count by the difference of their pending states |
| Metrics.SeedNotCounted | apps/website/src/app/api/metrics/route.ts:31-33 | for an unreadable store the seed has two pending items but the metrics count none |
| Metrics.FetchPlausible | apps/website/src/app/api/metrics/route.ts:40-57 | a result exactly when domain and key are non-empty and the request succeeded; then visitors and pageviews, absent values read as 0 |
| Metrics.Get | apps/website/src/app/api/metrics/route.ts:59-72 | the body combines the document and pending counts, the fetched pageviews and visitors when the fetch succeeds (0 otherwise), and the clock reading |
| Users.CalculateReputation | apps/website/src/app/api/users/route.ts:47-50 | 10 per document plus 2 per comment, even and non-negative for non-negative counters |
| Users.CalculateLevel | apps/website/src/app/api/users/route.ts:39-45 | the five levels by the thresholds 1000, 500, 200, 50 |
| Users.LevelMonotone | apps/website/src/app/api/users/route.ts:39-45 | a higher reputation never gives a lower level |
| Users.IndexOf | apps/website/src/app/api/users/route.ts:99 | first user with the username, or -1 iff absent |
| Users.FindIndex | apps/website/src/app/api/users/route.ts:158 | the search loop computes IndexOf |
| Users.Get | apps/website/src/app/api/users/route.ts:53-74 | with a username, that user or 404; otherwise all users by reputation, descending, a permutation of the store |
| Users.GetStable | apps/website/src/app/api/users/route.ts:68-69 | the listing keeps users of equal reputation in their stored order (the sort is stable) |
| Users.ParseProfile | apps/website/src/app/api/users/route.ts:81-93 | the profile schema's bounds; email and URL verdicts are inputs |
| Users.Overwrite | apps/website/src/app/api/users/route.ts:104-106 | a non-empty given value replaces the stored one, otherwise it stays |
| Users.UpdateProfile | apps/website/src/app/api/users/route.ts:101-107 | only display name, optional fields and last activity change |
| Users.NewUser | apps/website/src/app/api/users/route.ts:109-125 | a new profile starts at reputation 0, "Beginner", zero counters, no badges |
| Users.NewUserConsistent | apps/website/src/app/api/users/route.ts:109-125 | a new profile's reputation and level agree with its counters |
| Users.PostMessage | apps/website/src/app/api/users/route.ts:132 | the corrected message agrees with the code for updates |
| Users.CreationReportedAsUpdate | apps/website/src/app/api/users/route.ts:132 | as written, creating a user reports "User updated successfully" |
| Users.PostedFrame | apps/website/src/app/api/users/route.ts:99-125 | an existing user is updated in place with nobody else changed; a new one is appended |
| Users.Post | apps/website/src/app/api/users/route.ts:77-137 | 400 iff the schema fails; otherwise the store becomes the posted list and the saved record is returned with "User updated successfully", as written, for both update and creation |
| Users.PostedKeepsConsistent | apps/website/src/app/api/users/route.ts:99-128 | profile requests keep every user's reputation and level consistent with the counters |
| Users.UpdateKeepsConsistent | apps/website/src/app/api/users/route.ts:101-107 | replacing one user by a consistent one keeps the whole list consistent |
| Users.ParseStatAction | apps/website/src/app/api/users/route.ts:144-147 | exactly "doc_created" and "comment_posted" are accepted |
| Users.Bump | apps/website/src/app/api/users/route.ts:165-174 | one counter goes up by one, reputation and level are recomputed, nothing else changes |
| Users.BumpGain | apps/website/src/app/api/users/route.ts:165-173 | a consistent user gains 10 for a document and 2 for a comment, and never drops a level |
| Users.Put | apps/website/src/app/api/users/route.ts:140-185 | 400 iff invalid, 404 iff the user is unknown, otherwise that user is bumped; unchanged on failure |
| Users.BumpKeepsConsistent | apps/website/src/app/api/users/route.ts:165-173 | a stats update keeps every user consistent |
| AuthorInfo.GetLevelColor | apps/website/src/app/components/AuthorInfo.tsx:27-35 | each level name, ignoring case, has its colour, and anything else is gray |
| AuthorInfo.LevelColorIgnoresCase | apps/website/src/app/components/AuthorInfo.tsx:27-35 | names equal up to case get the same colour |
| AuthorInfo.GetLevelIcon | apps/website/src/app/components/AuthorInfo.tsx:37-45 | a star exactly for the levels with a colour other than gray |
| AuthorInfo.BadgeTextColor | apps/website/src/app/components/AuthorInfo.tsx:181 | black text exactly on gold, white otherwise |
| AuthorInfo.AvatarInitial | apps/website/src/app/components/AuthorInfo.tsx:153 | no placeholder with an avatar, else the upper-cased first character |
| AuthorInfo.ComputedLevelColor | apps/website/src/app/components/AuthorInfo.tsx:122 | computed levels get their colours in rank order, "Beginner" gray |
| AuthorInfo.BlackBadgeForExperts | apps/website/src/app/components/AuthorInfo.tsx:181 | for a consistent user the badge text is black iff reputation >= 1000 |
| DocPaths.CleanSlug | apps/website/src/app/api/doc-file/route.ts:9 | leading slashes and then one "docs/" prefix are removed, and nothing else |
| DocPaths.DocExt | apps/website/src/app/api/docs/edit/route.ts:28 | no extension iff the name already ends in .md or .mdx; the result always does |
| DocPaths.StripFrontMatter | apps/website/src/app/api/doc-file/route.ts:53 | a suffix of the text; shorter exactly when a block opens with "---" and closes at the first later "---\n" |
| DocPaths.StripWithoutBlock | apps/website/src/app/api/doc-file/route.ts:53 | text not starting with "---" is unchanged |
| DocPaths.StripWritten | apps/website/src/app/api/doc-file/route.ts:53 | stripping removes exactly a block written around a body without its own closer |
| DocPaths.QuotedLine | apps/website/src/app/api/docs/new/route.ts:37-45 | a front-matter entry ends in its closing quote |
| DocPaths.QuotedLineNoCloser | apps/website/src/app/api/docs/new/route.ts:37-45 | a quoted entry of single-line key and value never closes the block |
| DocPaths.Candidates | apps/website/src/app/api/doc-file/route.ts:19-23 | three candidates per base: .mdx, .md, bare |
| DocPaths.FirstPresent | apps/website/src/app/api/doc-file/route.ts:18-35 | the first existing path, none iff no candidate exists |
| DocPaths.FirstPresentAppend | apps/website/src/app/api/doc-file/route.ts:18-35 | a later base is consulted only when no earlier candidate exists |
| DocPaths.Locate | apps/website/src/app/api/doc-meta/route.ts:17-19 | the loop finds FirstPresent |
| NewDoc.CollapseDots | apps/website/src/app/api/docs/new/route.ts:14 | no two adjacent dots remain, first character and dot-free text kept |
| NewDoc.SanitizeSlug | apps/website/src/app/api/docs/new/route.ts:13-15 | only allowed characters, no leading slash, no dot |
| NewDoc.SanitizeIdempotent | apps/website/src/app/api/docs/new/route.ts:13-15 | sanitising twice equals sanitising once |
| NewDoc.DropTrailingSlash | apps/website/src/app/api/docs/new/route.ts:31 | removes one trailing slash or nothing |
| NewDoc.Relative | apps/website/src/app/api/docs/new/route.ts:31 | the docs/ and /docs/ prefixes are removed from the trailing-slash-free slug |
| NewDoc.ExtAlwaysMdx | apps/website/src/app/api/docs/new/route.ts:32 | the extension chosen is always ".mdx" |
| NewDoc.Metadata | apps/website/src/app/api/docs/new/route.ts:37-45 | title line, author line only when given, createdAt line |
| NewDoc.MetadataNoCloser | apps/website/src/app/api/docs/new/route.ts:37-45 | single-line values never close the block early |
| NewDoc.StripCreated | apps/website/src/app/api/docs/new/route.ts:37-47 | stripping a created document gives back its content |
| NewDoc.ParseRequest | apps/website/src/app/api/docs/new/route.ts:6-11 | accepted iff title, slug and content are non-empty strings and author absent or a string |
| NewDoc.Post | apps/website/src/app/api/docs/new/route.ts:17-69 | 401 iff unauthorised, 400 iff invalid, otherwise the file at the derived path holds the document text and the href is returned |
| EditDoc.EditMeta | apps/website/src/app/api/docs/edit/route.ts:44 | the block starts with the unquoted title line |
| EditDoc.TitleLineNoCloser | apps/website/src/app/api/docs/edit/route.ts:44 | a single-line title not ending in "---" does not close the block |
| EditDoc.EditText | apps/website/src/app/api/docs/edit/route.ts:44-48 | the document starts with the block and ends with the content |
| EditDoc.StripEdited | apps/website/src/app/api/docs/edit/route.ts:44-48 | for a single-line title not ending in "---", stripping gives back a blank line and the content |
| EditDoc.StripEditedDashTitle | apps/website/src/app/api/docs/edit/route.ts:44 | a title ending in "---" makes stripping cut the block short |
| EditDoc.ParseRequest | apps/website/src/app/api/docs/edit/route.ts:6-11 | accepted iff id, title, slug and content are non-empty strings |
| EditDoc.Post | apps/website/src/app/api/docs/edit/route.ts:13-56 | 400 iff invalid; otherwise the file is overwritten and the href returned |
| DocFile.AllCandidates | apps/website/src/app/api/doc-file/route.ts:18-24 | three candidates per base, in base order |
| DocFile.Locate | apps/website/src/app/api/doc-file/route.ts:18-35 | the nested loops find the first existing candidate over all bases |
| DocFile.StaticFirst | apps/website/src/app/api/doc-file/route.ts:12-15 | a file under the static base shadows the user base |
| DocFile.Get | apps/website/src/app/api/doc-file/route.ts:5-59 | 404 without a candidate, 400 for a directory, otherwise the stripped text |
| DocMeta.GroupAt | apps/website/src/app/api/doc-meta/route.ts:24 | a heading match at a line start, with its non-empty, backtracked group |
| DocMeta.HeadingFrom | apps/website/src/app/api/doc-meta/route.ts:24 | the group of the first heading from a line on, empty iff there is none |
| DocMeta.FirstHeading | apps/website/src/app/api/doc-meta/route.ts:24 | the first heading's text, empty iff none, never spanning lines |
| DocMeta.TitleLineHeading | apps/website/src/app/api/doc-meta/route.ts:24 | a document starting "# t" has title t |
| DocMeta.BlankThenTitle | apps/website/src/app/api/doc-meta/route.ts:23-24 | a leading blank line does not hide the title |
| DocMeta.CreatedDocTitle | apps/website/src/app/api/doc-meta/route.ts:23-24 | a document created with "# t" as its first line reports title t |
| DocMeta.HashLine | apps/website/src/app/api/doc-meta/route.ts:25 | the first line starting with '#' |
| DocMeta.Excerpt | apps/website/src/app/api/doc-meta/route.ts:25 | at most 160 characters, a prefix of the trimmed text without its first '#' line, whole when shorter |
| DocMeta.ExcerptSkipsTitle | apps/website/src/app/api/doc-meta/route.ts:25 | the excerpt of "# t" + rest is taken from rest |
| DocMeta.Get | apps/website/src/app/api/doc-meta/route.ts:5-31 | 404 without a candidate, 500 when unreadable, otherwise time, title and excerpt |
| DocMeta.ReadMeta | apps/website/src/app/api/doc-meta/route.ts:21-28 | a directory cannot be read (500); a file gives its time, first heading and excerpt of the body after front matter |
| DocsIndex.PathPage | apps/website/src/app/api/docs/route.ts:19 | href is "/" + path; a non-empty path gives a non-empty title |
| DocsIndex.RefPagesWellLinked | apps/website/src/app/api/docs/route.ts:25-29 | each page ref gives at most one page, its href "/" + a path |
| DocsIndex.GroupRefsWellLinked | apps/website/src/app/api/docs/route.ts:22-30 | a group yields at most one page per ref |
| DocsIndex.SectionWellLinked | apps/website/src/app/api/docs/route.ts:16-31 | every page of a section links to "/" + its path |
| DocsIndex.SidebarWellLinked | apps/website/src/app/api/docs/route.ts:13-32 | every sidebar page links to "/" + its path |
| DocsIndex.FlattenGroup | apps/website/src/app/api/docs/route.ts:22-30 | the loop over one group's pages computes its specification |
| DocsIndex.FlattenSection | apps/website/src/app/api/docs/route.ts:16-31 | the loop over a section's groups computes its specification |
| DocsIndex.Flatten | apps/website/src/app/api/docs/route.ts:13-32 | the sidebar loops compute SidebarPages |
| DocsIndex.StripDocExt | apps/website/src/app/api/docs/route.ts:63 | removes one .md or .mdx ending, any case, and nothing else |
| DocsIndex.ForwardSlashes | apps/website/src/app/api/docs/route.ts:64 | every backslash becomes '/', every other character stays |
| DocsIndex.FilePage | apps/website/src/app/api/docs/route.ts:62-66 | href "/docs/" + the path without extension, no group |
| DocsIndex.FilePages | apps/website/src/app/api/docs/route.ts:62-66 | one page per file, in order |
| DocsIndex.Walk | apps/website/src/app/api/docs/route.ts:49-60 | the walk succeeds iff everything is listable, and then lists the document paths |
| DocsIndex.Merge | apps/website/src/app/api/docs/route.ts:67-74 | existing pages stay a prefix; appended pages come from the files with hrefs new so far; every file href ends up present |
| DocsIndex.MergeUnique | apps/website/src/app/api/docs/route.ts:67-74 | the seen-set loop computes Merge |
| DocsIndex.IndexKeepsBase | apps/website/src/app/api/docs/route.ts:41-78 | the sidebar or fallback pages stay first, unchanged |
| DocsIndex.IndexAppendsNew | apps/website/src/app/api/docs/route.ts:41-78 | every page after them has an href not seen before it |
| DocsIndex.Get | apps/website/src/app/api/docs/route.ts:6-79 | the handler's loops compute Index |
| HomePage.Highlight | apps/website/src/app/page.tsx:120-131 | the text shown is the text; unmarked iff the query is empty or absent ignoring case; else the mark has the query's length and starts at the first occurrence |
| Text.FindFrom | apps/website/src/app/page.tsx:122 | the first occurrence from a position on, none iff there is none |
| HomePage.HighlightIgnoresQueryCase | apps/website/src/app/page.tsx:122 | queries equal up to case highlight alike |
| HomePage.Filtered | apps/website/src/app/page.tsx:66-71 | a blank trimmed query shows the first 10 pages; otherwise at most 20 matches, a prefix of the matcher's results |
| Text.Trim | apps/website/src/app/page.tsx:67 | no white space at either end, and only white space was removed, from the two ends |
| HomePage.Entry | apps/website/src/app/page.tsx:43-53 | id and href from the item, title falling back to href; when metadata is fetched, its mtime and excerpt, otherwise neither |
| HomePage.ApprovedList | apps/website/src/app/page.tsx:56 | sorted by modification time, descending, a permutation of the entries |
| HomePage.ApprovedListMembers | apps/website/src/app/page.tsx:43 | a document is listed iff an item with status "approved" produces it |
| HomePage.ApprovedListStable | apps/website/src/app/page.tsx:56 | equal times keep queue order |
| HomePage.NoMetaBelowDated | apps/website/src/app/page.tsx:56 | a document without metadata is never above one with a positive time |
| HomePage.Home.SetQuery | apps/website/src/app/page.tsx:80 | only the query changes |
| HomePage.Home.LoadPages | apps/website/src/app/page.tsx:19-28 | pages replaced on success, kept on refusal, loading cleared |
| HomePage.Home.LoadApproved | apps/website/src/app/page.tsx:36-60 | approved becomes ApprovedList on success, unchanged on refusal, loading cleared |
| CommentsList.FormatDate | apps/website/src/app/components/CommentsList.tsx:37-47 | "Just now" iff under an hour (future included), hours for 1..23, days 1..6 under a week, a date beyond; each bracketing the elapsed milliseconds |
| CommentsList.FormatDateOrder | apps/website/src/app/components/CommentsList.tsx:40-46 | as time passes the label only gets coarser and the day count never drops |
| CommentsList.TopLevel | apps/website/src/app/components/CommentsList.tsx:374 | exactly the comments whose parent id is absent or the empty string (`!comment.parentId`) |
| CommentsList.RowsDepth | apps/website/src/app/components/CommentsList.tsx:179 | every row is at the list's depth or deeper, with a reply button iff depth < 2 |
| CommentsList.RowsHeads | apps/website/src/app/components/CommentsList.tsx:257-264 | the rows at a list's depth are exactly its comments; replies render one level deeper |
| CommentsList.ViewShape | apps/website/src/app/components/CommentsList.tsx:373-385 | the top level shows exactly the parentless comments in order; reply buttons iff depth < 2 |
| CommentsList.RepliesOneDeeper | apps/website/src/app/components/CommentsList.tsx:255-266 | a comment's replies render right after it, one level deeper |
| CommentsList.CommentItem.HandleLike | apps/website/src/app/components/CommentsList.tsx:49-52 | the shown count goes up by exactly one |
| CommentsList.CommentItem.HandleReply | apps/website/src/app/components/CommentsList.tsx:54-56 | the reply form toggles, likes unchanged |
| CommentsList.ThreadView.Fetch | apps/website/src/app/components/CommentsList.tsx:277-294 | comments replaced on success (absent as []); the server or failure message on error; loading cleared |
| AnalyticsPlugin.OrString | packages/xyd-plugin-orama-livesession/src/index.ts:38-39 | a present non-empty string, else the default |
| AnalyticsPlugin.OrNumber | packages/xyd-plugin-orama-livesession/src/index.ts:36-37 | a present non-zero number, else the default |
| AnalyticsPlugin.Configure | packages/xyd-plugin-orama-livesession/src/index.ts:25-39 | disabled iff enabled is false; apiKey checked before indexId; otherwise settings with defaults |
| AnalyticsPlugin.DisabledIgnoresOptions | packages/xyd-plugin-orama-livesession/src/index.ts:26-31 | a disabled plugin does not depend on any other option |
| AnalyticsPlugin.ZeroTakesDefault | packages/xyd-plugin-orama-livesession/src/index.ts:36-37 | a zero flush interval or size takes the default, as a missing one does |
| AnalyticsPlugin.RoundTripMs | packages/xyd-plugin-orama-livesession/src/index.ts:51 | the result is within half a millisecond of the nanoseconds, halves rounding up |
| AnalyticsPlugin.RoundTripNearest | packages/xyd-plugin-orama-livesession/src/index.ts:51 | the rounding is the unique nearest millisecond |
| AnalyticsPlugin.Reported | packages/xyd-plugin-orama-livesession/src/index.ts:55 | hits in engine order with only id and score; absent when hits are absent |
| AnalyticsPlugin.SearchEvent | packages/xyd-plugin-orama-livesession/src/index.ts:49-56 | query = params, count, rounded time, never cached, raw term, reported hits |
| AnalyticsPlugin.Collector.Add | packages/xyd-plugin-orama-livesession/src/index.ts:49 | the collector records the event after the earlier ones |
| AnalyticsPlugin.Plugin.CollectorConfigFor | packages/xyd-plugin-orama-livesession/src/index.ts:60-69 | the collector gets the settings, the index id and version (default when empty) |
| AnalyticsPlugin.Plugin.AfterCreate | packages/xyd-plugin-orama-livesession/src/index.ts:59-70 | a fresh, empty collector replaces the previous one |
| AnalyticsPlugin.Plugin.AfterSearch | packages/xyd-plugin-orama-livesession/src/index.ts:42-57 | before any afterCreate nothing is delivered; otherwise the current collector receives the event |
| AnalyticsPlugin.PluginAnalytics | packages/xyd-plugin-orama-livesession/src/index.ts:25-76 | an error exactly when a check fails; otherwise a plugin named "plugin-analytics", hooked iff enabled |
| AnalyticsPlugin.SearchAfterRecreate | packages/xyd-plugin-orama-livesession/src/index.ts:40-70 | after a second afterCreate, searches reach only the newest collector |

## Left out

- Filesystem, network, clock and randomness: reads, writes, directory listings, `Date.now()`, ISO
  dates, random ids and HTTP calls are parameters or omitted. Failures that reach a handler's outer
  `catch` and answer 500 are not modelled, except the read failure in the metadata handler.
- JSON parsing: bodies are given as fields (missing, string, other). A malformed file is one
  case (unreadable) and a non-array `items` is another (empty). Other malformed shapes are not
  modelled, such as a sidebar entry of the wrong type or a non-string page.
- Validation-library verdicts on email and URL syntax are boolean parameters (`Users.ParseProfile`).
  String lengths count characters, not UTF-16 code units.
- `toLowerCase` is modelled for ASCII letters only (`HomePage.Highlight`, `AuthorInfo.GetLevelColor`,
  `DocsIndex.StripDocExt`).
- AvatarInitial: `toUpperCase` is modelled for ASCII letters only (`Text.UpperChar`), because
  Unicode case mapping is not modelled; "émile" gives "é" where JavaScript gives "É", and "ß" stays
  one character where JavaScript gives "SS".
- `path.join` is modelled as joining with '/' for relative segments; its normalisation of `..` and
  repeated separators is not.
- The new-document handler's call to the user-stats endpoint is left out. It is a request to
  another handler and its result is ignored.
- `NaN` dates and numbers: a missing `flaggedAt` or an unparsable date are not modelled. Times are
  integers.
- The fuzzy matcher (Fuse.js) is a parameter of `HomePage.Filtered`, not modelled.
- React rendering, styling, alerts, the cancellation flag of effects and the comment form are
  not modelled. The report button's request is the flag handler, modelled on its own.
- The analytics `Collector` (buffering, flushing, sending) and the `./const` default values are not
  part of this model. The collector is a sink with a ghost record of received events. The defaults
  are a parameter record.
- The `navigator.sendBeacon` wrapper in `pollyfills.ts` has no logic: its fallback is commented out.
- The document-delete and test handlers are not part of this model.
- AnalyticsPlugin.SearchEvent: the scores are kept as given (real numbers); floating-point rounding
  of `raw / 1_000_000` is modelled exactly, which agrees with `Math.round` for integer nanoseconds
  within the safe-integer range.

## Findings

| source | as written | input that shows it | evidently intended | confidence | as-written member | corrected member |
|---|---|---|---|---|---|---|
| apps/website/src/app/api/comments/route.ts:83 | a reply's parent is searched among top-level comments only | replying to a reply (the thread shows a reply button on replies, depth 1 < 2) answers 404 | a reply can be attached to any comment in the tree | not executed | CommentsRoute.ReplyToReplyRefused | CommentsRoute.PostedAnywhereAccepts |
| apps/website/src/app/api/admin/moderate-comment/route.ts:98-101 | the message appends "d" to the action name | action "reject" gives "Comment rejectd successfully" | the past tense of each action | not executed | ModerateRoute.MessageAsWrittenMisspells | ModerateRoute.SuccessMessagesDistinct |
| apps/website/src/app/api/users/route.ts:132 | the message tests `user`, which is always set at that point | posting a new username reports "User updated successfully" | "User created successfully" for a new user | not executed | Users.CreationReportedAsUpdate | Users.PostMessage |

The moderation and profile handlers (`ModerateRoute.Post`, `Users.Post`) return the messages as
written ("Comment rejectd successfully", "User updated successfully" after a creation); the
corrected wording is `ModerateRoute.SuccessMessage` and `Users.PostMessage`, proved beside them.
The comment handler `CommentsRoute.Post` keeps the top-level search as written, because
its 404 is observable behaviour. `CommentsRoute.PostedAnywhere` is the corrected store update.
`CommentsRoute.PostedAnywhereAgrees` shows that the two agree wherever the handler accepts a reply.
