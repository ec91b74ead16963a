# A verified model of olareg

olareg is an OCI registry. Its state is a content-addressed blob store and one editable `index.json` per
repository. This project models the parts of it that carry state or decide what is kept, in Dafny, and proves what
they promise: for every input, in every reachable state, over whole runs.

| module | what it holds |
|---|---|
| `Types`, `Store` | descriptors, blobs, media types; one repository and its blob store |
| `Layout`, `LayoutLaws` | the index: adding, removing and finding entries, the tag history; a tag map and a digest set as its meaning |
| `Gc`, `GcLaws`, `CollectionLaws` | garbage collection: roots, mark, sweep; exactness, idempotence, what survives; what is kept, from the settings, the clock and the content alone |
| `Ingest`, `RestartLaws` | loading a saved index; what a restart keeps; removing duplicates from a referrers list |
| `Manifests`, `Requests`, `PushLaws`, `ReferrerLaws`, `RepositoryLaws` | pushing and deleting manifests, what lookups find, referrers responses, whole runs of a repository |
| `Pages` | splitting a referrers response into pages |
| `TagList` | the paged tag listing |
| `Uploads`, `UploadLaws` | chunked upload sessions |
| `RepoTokens` | the token protocol between requests and garbage collection |
| `Cache`, `CacheLaws` | the cache with an age timer and a count limit |
| `Auth` | nested groups and access lists |

`dafny verify dfyconfig.toml` checks everything.

## How the code is modelled

- Objects that the program updates in place are classes (`LayoutIndex`, `BlobStore`, `AuthConf`, `Cache`,
  `MemRepoUpload`), and loops that update variables are methods with loops. Each such method is proved equal to a
  function of the old state, or to a predicate where a map iteration leaves the order open. The laws are proved
  about those functions and predicates and so hold of the methods. Long Go functions are split at their comment
  boundaries into helper methods; `RepoGarbageCollect` calls them in the order of the source.
- A blob is its size, its storing time, and what it decodes to when read as an index, as an image and as a manifest
  with a subject. Content may be cyclic and blobs may be missing.
- The three annotations the registry itself interprets (created, tag, subject) are descriptor fields; every other
  annotation is kept in `other`. A created annotation is an instant or a text that is not a time.
- The order in which Go iterates a map is arbitrary: sweeping and cache loops pick any next key, and the contracts
  hold for all orders.
- The clock, the session ids, the hash functions and the JSON encoding are parameters.
- *Content addressing*: laws about runs that compare bodies assume a map `content` from digests to bodies, such that
  every body a request brings, and every response the server stores in the run, is the content of its digest, and
  that such a response decodes to the list it was encoded from (`Requests.BodiesMatch`). Nothing is assumed of lists
  that do not occur, and a client may push an index with the very bytes of a response.
- *Single role*: an added descriptor has no annotation besides the created time and at most one of tag and subject.
  Everything the server itself adds is of this form, so the laws about whole runs of requests do not assume it.
  `TaggedResponseNotLogged` shows what fails otherwise.
- *Consistent kinds*: each digest is always named with one media type, and never both as a manifest and as a config
  or layer. Only descriptors in entries, indexes and images count; a blob that nothing uses as an index or image may
  hold any bytes. It is a hypothesis, written as a map `kinds`, exactly where content reached through the graph matters:
  one map serves both walked manifests and noted layers (internal/store/store.go:460, 486-489).
  `MixedKindsLoseConfig` shows that a collection can otherwise delete part of a tagged image.
- Durations of the cache are in nanoseconds, and Go's integer division on the non-negative age is Dafny's.

## Where code and comments disagree

- The comment of `AddDesc` says an existing descriptor is updated when a referrer annotation is added
  (types/layout.go:97). The code replaces the entry of the same subject or appends one, and leaves a plain entry of
  the same digest alone (types/layout.go:132-142).
- The comment of `referrerSplit` says it fails if a single entry exceeds the limit (referrer.go:231). The code
  returns the error together with the pages of every other entry (referrer.go:265-279).
- `pruneAge` says of two branches that they "shouldn't be possible" (internal/cache/cache.go:226-233). With an age of
  at least 10 ns both are unreachable (`FireValid`); with an age of 1 to 9 ns the maximum age equals the minimum age
  and the first one is reached (`ShortAgeFires`), so that in a run an entry outlives its maximum age (`ShortAgeOutlived`).
- The configuration describes the grace period as preserving recently pushed manifests and blobs (config/config.go:68).
  A recent referrers response is deleted all the same when responses live only with their subject and the subject
  was not walked (`RecentResponseDeleted`, `NewBlobsProtected`); `CollectionExact` and `BlobDeletedIff` give the exact condition.
- A delete by tag also takes the manifest off the referrers list of its subject, although the digest goes on
  resolving (manifest.go:67-98); `DeleteByTag` says exactly when the lists stay correct. A delete by digest of a
  digest that is itself a current response empties that list (manifest.go:58-103); `DeleteDigestExact` says when.
- A rejected upload step normally adds nothing, but a PATCH or PUT whose body breaks off keeps the bytes that arrived,
  and a PUT whose digest matches the content but not the digest the session was opened for keeps its body
  (`RejectedPatchAdds`, `RejectedPutAdds`).

## Model

| member | source | states |
|---|---|---|
| `LayoutLaws.RunRefines` | types/layout.go:93-257 | After every run of single-role adds and removes from the empty index, the list surgery implements a map from tags to digests, the index invariant holds (one entry per tag, one per subject, a plain entry alone for its digest, children duplicate-free and disjoint), and a tag resolves to a digest exactly when its last history item is not a deletion and names it. |
| `LayoutLaws.RunResolves` | types/layout.go:100-257 | After every single-role run, with responses or not, each digest that is never added as a response resolves (by `GetDesc`, children included) exactly when the abstract digest set holds it, and is the response of no subject. |
| `LayoutLaws.AddRefines` | types/layout.go:100-183 | Adding a manifest moves its own tag only, makes its own digest resolvable in addition to what resolved before, and changes no response, whatever children it lists. |
| `LayoutLaws.AddResponseRefines` | types/layout.go:132-142 | Adding a referrers response changes the response of its own subject only, moves no tag, writes no history, and loses at most the digest of the response it replaces: exactly the digests still named otherwise resolve. |
| `LayoutLaws.RmTagRefines` | types/layout.go:225-245 | Removing a tagged descriptor drops that tag if it names this digest and nothing else; every digest keeps resolving. |
| `LayoutLaws.RmDigestRefines` | types/layout.go:246-256 | Removing a digest drops that digest, every tag naming it and every response stored under it, and nothing else. |
| `LayoutLaws.UntagKeeps` | types/layout.go:144-164 | The backward untagging loop takes the tag away from every other digest and keeps every other tag, every response, every digest and the index invariant. |
| `LayoutLaws.MoveChildrenKeeps` | types/layout.go:117-127 | Moving listed plain entries to the children is invisible to lookups and keeps the index invariant. |
| `LayoutLaws.PutEntryKeeps` | types/layout.go:166-179 | Finding or appending the compatible entry sets exactly the new tag and digest and keeps the invariant. |
| `LayoutLaws.PutResponseKeeps` | types/layout.go:132-142 | The replace-or-append step leaves one response per subject, the new one for its subject and the old ones for all others. |
| `LayoutLaws.AddFaithful` | types/layout.go:181-182 | An add keeps the history a faithful log of every tag, including re-adds and tag moves. |
| `LayoutLaws.RmFaithful` | types/layout.go:224-286 | A removal by tag or by digest keeps the history a faithful log of every tag. |
| `LayoutLaws.AddHistoryItem` | types/layout.go:181-182 | An add appends one item, with the right time and content, to the history of its own tag and changes no other history. |
| `LayoutLaws.RemoveHistoryItem` | types/layout.go:224-286 | A removal appends exactly one deletion, describing the dropped entry, to the history of each tag it drops, and changes no other history. |
| `LayoutLaws.ReAddKeeps` | types/layout.go:166-179 | Adding again what is already listed, under the same tag or untagged, leaves the entries and their creation times as they are. |
| `LayoutLaws.DeleteFuncConcat` | types/layout.go:246-256 | Deleting entries by a test keeps the order of those that are left. |
| `LayoutLaws.RmTagKept` | types/layout.go:225-245 | Removing a tag leaves every entry as it was but for its tag. |
| `LayoutLaws.FindView` | types/layout.go:185-219 | `GetDesc` finds a tag exactly when the abstract map has it, with that digest and its entry; finds a digest exactly when an entry or child names it, describes it from an entry if there is one, and strips every annotation; and rejects what is neither. |
| `LayoutLaws.TaggedResponseNotLogged` | types/layout.go:132-142 | Single role is needed: a descriptor that is both tagged and a response resolves by its tag although the history never mentions it. |
| `Layout.LayoutIndex.constructor` | types/layout.go:38-46 | A new index is empty. |
| `Layout.LayoutIndex.AddChildren` | types/layout.go:67-70 | Appends children and changes nothing else. |
| `Layout.LayoutIndex.AddDesc` | types/layout.go:93-183 | The in-place steps in their order (stamp, move children, drop from children, response or untag, put, log) produce the index of `AfterAdd`, which the laws above characterise. |
| `Layout.LayoutIndex.MoveListed` | types/layout.go:117-127 | The loop over the listed children moves, one after another, the first plain entry of each digest. |
| `Layout.LayoutIndex.UntagOthers` | types/layout.go:144-164 | The loop with deletions during the backward scan visits every position exactly as the index-based definition does, and stays in bounds. |
| `Layout.LayoutIndex.UntagEntry` | types/layout.go:147-157 | One position: delete the entry if another keeps its digest, else strip its tag. |
| `Layout.LayoutIndex.RmDesc` | types/layout.go:221-257 | The in-place removal produces the index of `AfterRemove`, which the laws above characterise. |
| `Layout.LayoutIndex.DeleteEntries` | types/layout.go:229-237 | Deletes exactly the matching entries in order, and logs each deleted tag once, in that order. |
| `Layout.LayoutIndex.AddHistory` | types/layout.go:259-286 | Appends one item to the history of the descriptor's tag, stamped with its creation time unless it is a deletion; no tag, no item. |
| `Layout.LayoutIndex.GetDesc` | types/layout.go:185-219 | Lookup by tag, then by digest in entries before children, without annotations. |
| `GcLaws.MarkExact` | internal/store/store.go:453-501 | Under consistent kinds the stored digests that are marked are exactly the least set that holds the stored roots and is closed under index children, the edge from a readable subject to its response, and the config and layers of images; the noted digests are exactly those of entries and of targets of marked manifests. |
| `GcLaws.CollectTwice` | internal/store/store.go:401-535 | A second collection with the same settings and cutoff leaves blobs, entries, children and history exactly as the first left them, for every policy, in any removal order. |
| `GcLaws.SecondSweepEmpty` | internal/store/store.go:502-533 | The second collection condemns no blob, and whatever it still unindexes (missing children of a kept index) does not resolve. |
| `GcLaws.SameReach` | internal/store/store.go:453-501 | What is marked after a collection equals what was marked before it. |
| `GcLaws.RoleStable` | internal/store/store.go:410-452 | An entry that survives a collection keeps its role as a root, and keeps any role as long as its subject is stored. |
| `GcLaws.SubjectStable` | internal/store/store.go:410-452 | The response chosen for a surviving subject is chosen again after the collection. |
| `GcLaws.EntriesStored` | internal/store/store.go:502-533 | After a collection every index entry is an old one, names a stored blob, and was marked; every marked blob is still stored. |
| `GcLaws.TagsSurvive` | internal/store/store.go:410-534 | A collection keeps the index valid and the history faithful, keeps every tag whose manifest is stored on the same digest, and drops every other tag. |
| `GcLaws.TaggedContentSurvives` | internal/store/store.go:410-526 | Under consistent kinds everything stored that a stored tagged manifest reaches is still stored, unchanged. |
| `CollectionLaws.CollectionExact` | internal/store/store.go:401-535 | From the settings, the clock and the content alone, exactly what a collection leaves: the blobs of the least set that holds what entries keep, what kept manifests contain and the responses that follow kept subjects, plus blobs within the grace period that no entry names; the entries of kept blobs; and which children. |
| `CollectionLaws.MarkedLeast` | internal/store/store.go:406-501 | That least set exists, and it is what the walk marks. |
| `CollectionLaws.RoleMeaning` | internal/store/store.go:410-452 | Which entries are walked from, and which wait for their subject, as a table over the settings, the tag, the subject and whether the blob is within the grace period. |
| `CollectionLaws.GraceMeaning` | internal/store/store.go:402-405 | With a grace period, a blob stored after now minus that period and named by no entry is kept; a blob stored at or before it stays exactly if an entry or a kept manifest keeps it; a negative period protects nothing. |
| `CollectionLaws.NewBlobsProtected` | internal/store/store.go:410-452 | A blob within the grace period is deleted only if every entry naming it (and there is one) is a response, under the setting that responses live with their subject, whose stored subject is not kept as a readable manifest. |
| `CollectionLaws.RecentResponseDeleted` | internal/store/store.go:427-436 | Such a deletion happens: the response of a stored subject that nothing keeps goes, however recent it is. |
| `CollectionLaws.BlobDeletedIff` | internal/store/store.go:410-526 | Exactly which stored blobs a collection deletes, for every policy and clock: those that no entry keeps and no kept manifest names, unless the blob is within the grace period and no entry names it. |
| `CollectionLaws.NoChangeReported` | internal/store/store.go:503-534 | A collection that reports no change leaves the index as it was. |
| `GcLaws.MarkGrows` | internal/store/store.go:453-501 | Whatever the kinds of the content, every stored digest on the stack ends up marked and nothing marked is forgotten. |
| `GcLaws.RemoveAllView` | internal/store/store.go:519-533 | Unindexing any list of digests in any order drops exactly the tags that named them and keeps the index valid. |
| `GcLaws.RemoveAllFaithful` | internal/store/store.go:519-533 | Unindexing any list of digests keeps the history a faithful log. |
| `GcLaws.MixedKindsLoseConfig` | internal/store/store.go:460-489 | Without consistent kinds the config of a stored, tagged image is swept when another image, walked first, lists that image as a layer. |
| `Gc.RepoGarbageCollect` | internal/store/store.go:398-535 | One collection does what `Collected` allows, whatever the iteration order, terminates on every finite content graph, and reports a change exactly when some entry had to be unindexed. |
| `Gc.ListRoots` | internal/store/store.go:406-452 | The roots are exactly the entries whose role is root; the response of a subject is the last one that waits for it; every entry is noted. |
| `Gc.MarkManifests` | internal/store/store.go:453-501 | The stack walk computes the mark and terminates on cyclic content and missing blobs: each round marks a further stored blob or shortens the stack. |
| `Gc.MarkRepository` | internal/store/store.go:406-501 | Roots and walk together compute the mark that `MarkExact` characterises. |
| `Gc.SweepBlobs` | internal/store/store.go:502-526 | Deletes exactly the blobs that are neither marked nor new and unindexed, in any order, and unindexes exactly those of them that resolve, although the index changes during the loop. |
| `Gc.SweepMissing` | internal/store/store.go:527-533 | Unindexes every noted digest that had no blob before the sweep. |
| `Gc.Sweep` | internal/store/store.go:502-534 | Both loops together leave the blobs and the index a collection may leave. |
| `Gc.RemoveAllFinds` | internal/store/store.go:519-523 | Unindexing other digests does not change whether a digest is found, so the check inside the loop equals the check before it. |
| `RestartLaws.RestartKeeps` | types/layout.go:117-130 | After any run of uploads and pushes, with or without subjects, with any sparse settings and cyclic content, dropping the children and rebuilding them from the saved entries keeps every tag, every response and every resolvable digest, and yields a valid index. |
| `RestartLaws.ReloadExact` | internal/store/store.go:289-308 | A reloaded index resolves exactly the digests that the saved entries reach through nested indexes, and it is valid if the saved entries are. |
| `RestartLaws.ReloadBrings` | internal/store/store.go:289-308 | A reload keeps entries and history, and every child it builds is a descriptor as a stored index has it. |
| `RestartLaws.OrphanLost` | types/layout.go:246-256 | With deletes a restart can lose a digest: push a manifest untagged, push an index that lists it, delete the index; the manifest resolves until the restart and not after it. |
| `RestartLaws.RunSound` | types/layout.go:117-130 | In every state of a run of pushes each child is listed, directly or nested, by an index among the entries. |
| `RestartLaws.AddEntryNames` | types/layout.go:100-183 | An add keeps the digest of every entry unless the added index lists it, and brings no child that is not listed. |
| `RestartLaws.AddCovered` | types/layout.go:117-130 | Pushing an index keeps every child listed from the entries, even when the children form a cycle. |
| `RestartLaws.StoreResponseCovered` | referrer.go:315-353 | Replacing a response by one that still names every digest of the old one keeps every child listed from the entries. |
| `Ingest.LoadChildren` | internal/store/store.go:289-308 | The queue loop rebuilds exactly the children of the breadth-first scan, skips unreadable indexes and terminates on cycles. |
| `Ingest.ListEntries` | internal/store/store.go:178-196 | Every entry is noted as seen and exactly the index entries are queued, in order. |
| `Ingest.NoteListed` | internal/store/store.go:296-306 | Exactly the listed descriptors not seen before become children, once each, and the indexes among them are queued. |
| `Ingest.ReferrerListDedup` | internal/store/store.go:379-396 | The in-place removal leaves distinct digests, only entries of the input, and every digest of the input. |
| `ReferrerLaws.ReferrersExact` | referrer.go:284-427 | After any run of uploads, pushes and deletes (by digest of anything but a current, non-empty response, by tag of anything but a live manifest), the response of each subject lists exactly the manifests pushed with that subject and not deleted since, one entry per digest, with the media type, size, artifact type and annotations of its last push, and each listed digest resolves. |
| `ReferrerLaws.EntryMeaning` | manifest.go:331-342 | The listed entry has the pushed media type, digest, size and annotations, and the artifact type of the manifest or else, for an image, the name of its config's media type. |
| `ReferrerLaws.WithReferrerOrder` | referrer.go:308-314 | A digest that is listed has its entry replaced in place, and a new one is listed last. |
| `Types.NameRoundTrip` | types/mediatype.go:93-123 | Every media type name is read and written back unchanged, and is read as an index, an image or a foreign layer exactly when it is one of the names of those. |
| `ReferrerLaws.RunSound` | referrer.go:284-427 | The invariant of all such runs: valid index, stored and readable responses, exact lists, live manifests stored and resolvable. |
| `ReferrerLaws.PutSound` | manifest.go:310-434 | A push, accepted or rejected, keeps every list exact, also a push of an index with the bytes of a response. |
| `ReferrerLaws.DeleteExact` | manifest.go:58-103 | A delete by digest or by tag keeps every list exact if and only if it deletes no current response that lists something and no tag of a live manifest. |
| `ReferrerLaws.DeleteDigestExact` | manifest.go:58-103 | A delete by digest takes the manifest off its subject's list, and all lists are exact afterwards if and only if the digest is not a current response with something in it. |
| `ReferrerLaws.StoreResponseSound` | referrer.go:315-353 | Storing a list makes it the response of its subject, leaves every other response readable as before and loses no manifest with a subject. |
| `ReferrerLaws.DeleteByTag` | manifest.go:67-98 | After a delete by tag the digest still resolves, and all lists are exact if and only if the tag did not name a live manifest. |
| `RepositoryLaws.RunSound` | manifest.go:310-434 | In every state of every run of uploads, pushes, deletes by tag or digest and collections, the index is valid, the history is faithful, and each entry names a stored blob. |
| `RepositoryLaws.CollectionKeepsTags` | internal/store/store.go:401-535 | In every such run, under every policy, a collection changes no tag and keeps the blob of every tagged manifest. |
| `RepositoryLaws.TaggedComplete` | manifest.go:310-434 | In every state of every run of uploads, pushes, deletes and collections, under content addressing and consistent kinds, every tagged manifest still passes the checks of a push: it decodes and, unless sparse content is allowed, everything it names is stored. |
| `RepositoryLaws.TaggedImageStored` | manifest.go:449-478 | In particular, unless sparse images are allowed, every tagged image has its config and every layer without an external source stored. |
| `RepositoryLaws.PushMeaning` | manifest.go:310-434 | An accepted push, with or without a subject, moves exactly its tags to its digest, stores its body and changes no stored blob; a rejected push changes nothing. |
| `RepositoryLaws.PushServed` | manifest.go:398-424 | In every run, after every accepted push, lookups by its digest and by each of its tags find the media type and the size that were pushed. |
| `RepositoryLaws.TagServed` | types/layout.go:185-219 | In every state of every run a lookup by tag finds the media type of the digest's kind and the true size of its content. |
| `PushLaws.PushedTagFound` | manifest.go:398-424 | After any accepted push a lookup by each pushed tag finds an entry with the pushed media type, digest and size, that tag, created now and nothing else; only a tag that already named the digest keeps its earlier entry. |
| `PushLaws.PushedDigestFound` | manifest.go:398-424 | After an accepted push that stores no response, a lookup by digest finds the pushed media type and size if the digest had no entry, or a plain one that the push tags; otherwise it finds what the first earlier entry says. |
| `PushLaws.PushedFound` | manifest.go:310-434 | After any accepted push, with or without a subject, a lookup by digest finds the pushed media type and size, if the earlier entries of the digest say the same. |
| `PushLaws.StampMeaning` | types/layout.go:111-115 | A descriptor without a creation time gets the time of the add; otherwise nothing changes. |
| `PushLaws.ListedMoved` | types/layout.go:117-127 | After an untagged push of an index the plain entries of the manifests it lists have become children. |
| `PushLaws.AcceptedMeaning` | manifest.go:310-375 | Which pushes are accepted, spelled out: media type, decoding, and stored or external content unless sparse content is allowed. |
| `PushLaws.ResponseStored` | referrer.go:315-353 | Storing a list answers its subject with an OCI index of the list's digest and encoded size, and stores the encoded list as of now unless it was there. |
| `RepositoryLaws.DeleteMeaning` | manifest.go:58-103 | A delete by tag drops that tag only; a delete by digest drops every tag of the digest and no other and ends its resolution; no blob is deleted; an unknown argument changes nothing. |
| `Manifests.ManifestPut` | manifest.go:310-434 | Rejected exactly when the media type is not supported, the body does not decode or, unless sparse content is allowed, something it names is missing; then nothing changes. Accepted, the state is that of `AfterPut`, which `PutSound` and `ReferrersExact` characterise. |
| `Manifests.ManifestDelete` | manifest.go:58-103 | Accepted exactly when the argument is found; the list is rewritten before the entry is removed. |
| `Manifests.InsertEntries` | manifest.go:398-424 | One entry for each tag in order, or one untagged entry if there is none. |
| `Manifests.VerifyImage` | manifest.go:449-478 | Reports nothing missing exactly when sparse images are allowed or the config and every layer without an external source are stored. |
| `Manifests.VerifyIndex` | manifest.go:480-497 | Reports nothing missing exactly when sparse indexes are allowed or every listed manifest is stored. |
| `Manifests.ReferrerAdd` | referrer.go:284-354 | Reads the old response, replaces or appends the entry of the digest, stores the new response; an unreadable response counts as empty. |
| `Manifests.ReferrerDelete` | referrer.go:357-427 | Rewrites the response without the digest; without a readable response nothing changes. |
| `Manifests.ReferrerStore` | referrer.go:315-353 | The response blob is stored unless it exists, and the new response replaces that of its subject in the index. |
| `Pages.ReferrerSplit` | referrer.go:230-281 | The loop produces the greedy pages, and its errors name exactly the descriptors that exceed the limit alone. |
| `Pages.SizeSum` | referrer.go:250-255 | The encoded size of a page is that of its frame, of every descriptor's text, and of a comma between neighbours. |
| `Pages.PagesExact` | referrer.go:249-275 | The pages concatenate, in order, to the input minus exactly the oversized descriptors. |
| `Pages.PagesWithinLimit` | referrer.go:255-275 | No page is empty and every page fits the limit. |
| `Pages.PagesFewest` | referrer.go:249-275 | However a list is cut, in order, into pages that fit and oversized descriptors that are dropped, the cut has at least as many pages. |
| `Pages.RunsFewest` | referrer.go:249-275 | For a list with any number of oversized descriptors the pages are those of the runs between them, the runs hold exactly the descriptors that fit, and each run gets the fewest pages of any split of it into pages that fit. |
| `Pages.PagesBreak` | referrer.go:264-269 | The pages before and after an oversized descriptor are independent. |
| `Pages.Exchange` | referrer.go:249-275 | Starting with a shorter page needs no more pages, and at most one less. |
| `TagList.ListTags` | tag.go:50-73 | One request returns the page defined by the sorted tags after the cursor, and a next cursor exactly when tags were cut off. |
| `TagList.PageMeaning` | tag.go:56-72 | A page is increasing, has at most n tags, lists only tags present after the cursor, and skips none before its next cursor. |
| `TagList.WalkComplete` | tag.go:50-73 | A completed walk that follows the next links returns a strictly increasing list with every tag present throughout and only tags present at some time, whatever was added or removed between the requests. |
| `TagList.PageCountExact` | tag.go:61-73 | On a fixed set of m > 0 tags a walk takes m/n pages, rounded up. |
| `TagList.FixedWalkTags` | tag.go:61-73 | The pages of a fixed repository concatenate to its sorted tags. |
| `TagList.SortIncreasing` | tag.go:61 | Sorting distinct tags gives a strictly increasing list in byte order. |
| `TagList.SortMembers` | tag.go:61 | Sorting neither loses nor adds a tag. |
| `TagList.LessIff` | tag.go:57-61 | Tags are ordered by their characters: by the first place where they differ, or the shorter one first if it is the beginning of the other. |
| `UploadLaws.RunSound` | internal/store/mem.go:561-664 | In every run, with broken bodies, changes of algorithm and re-hashing under another one, each stored blob hashes to its digest. |
| `UploadLaws.RunHeld` | blob.go:411-560 | In every run, whatever bodies break off, each open session holds the bytes of its admitted steps, in order. |
| `UploadLaws.RunLogged` | blob.go:411-466 | Where bodies arrive whole, that is the concatenation of the bodies of the accepted steps, and the last offset issued is its length. |
| `UploadLaws.CreatedContent` | blob.go:491-560 | In every run a blob created by the final PUT is what the session held plus the last body, stored under the requested digest, which is its hash; the session ends. |
| `UploadLaws.OffsetAccepted` | blob.go:411-466 | In every run a PATCH with a whole body, an offset, and no range or one from there is accepted if and only if the session holds exactly that many bytes, and rejected otherwise. |
| `UploadLaws.PutOutcome` | blob.go:484-576 | In every run a PUT on an open session creates its blob if and only if it names a digest, its range is absent or starts at the held length, its state is that length, its body arrives whole, the digest is the hash of what is held plus the body, and it is the digest the session was opened for, if any; a wrong hash ends the session, every other failure keeps it. |
| `UploadLaws.PatchOutcome` | blob.go:411-466 | In every run a PATCH adds its bytes exactly if it comes at the end of what is held, and is accepted, with the new length, exactly if they also arrive whole. |
| `UploadLaws.PostOutcome` | blob.go:243-290 | A POST opens an empty session for the digest it expects, unless that blob is already there. |
| `UploadLaws.Untouched` | internal/store/mem.go:363-409 | A request touches its own session only, an open session keeps the digest it was opened for, and blobs change only when a PUT creates one. |
| `UploadLaws.IssuedOffsetAccepted` | blob.go:411-466 | Where bodies arrive whole, the last issued offset is accepted. |
| `UploadLaws.PutStepSound` | blob.go:491-560 | A PUT creates a blob only with the exact state and for a digest that its content hashes to, and that agrees with the digest the session was opened for. |
| `UploadLaws.RejectedPatchAdds` | blob.go:411-449 | A rejected PATCH adds bytes if and only if it passed its checks and its body broke off after some bytes. |
| `UploadLaws.RejectedPutAdds` | blob.go:491-560 | A rejected PUT that keeps its session adds bytes if and only if it passed its checks with some bytes and its body broke off or its digest is not the one the session was opened for. |
| `Uploads.BlobUploadPatch` | blob.go:404-466 | The handler refuses an unknown session, a wrong range and a wrong state before it writes, and issues the new length. |
| `Uploads.BlobUploadPut` | blob.go:484-560 | The handler ends in exactly one of: session kept, session cancelled without a blob, session closed with the blob stored. |
| `Uploads.MemRepoUpload.constructor` | internal/store/mem.go:396-405 | A new session is empty and hashes under its algorithm. |
| `Uploads.MemRepoUpload.Write` | internal/store/mem.go:561-569 | Appends to the buffer and to what is hashed together, unless the session expired. |
| `Uploads.MemRepoUpload.ChangeAlgorithm` | internal/store/mem.go:611-626 | Succeeds exactly when the algorithm stays or nothing was written. |
| `Uploads.MemRepoUpload.Verify` | internal/store/mem.go:638-664 | Succeeds exactly when the content hashes to the digest, hashing the buffer again if the algorithm differs. |
| `Uploads.MemRepoUpload.Cancel` | internal/store/mem.go:597-601 | Ends the session and stores nothing. |
| `Uploads.MemRepoUpload.Close` | internal/store/mem.go:571-594 | Stores the content under its computed digest and ends the session, unless the expected digest differs. |
| `RepoTokens.ExclusiveWork` | internal/store/mem.go:541-558 | In every interleaving, from the moment the wait of a collection or close returns until it gives the token back, the wait group is empty, nobody else has the token, nobody holds the repository and nobody is about to, repositories just created included. |
| `RepoTokens.RunInv` | internal/store/mem.go:99-198 | In every reachable state one token exists per repository and the wait group counts exactly the callers. |
| `RepoTokens.StepInv` | internal/store/mem.go:99-198 | Every single action of `RepoGet`, `Done`, `gc` and `Close` keeps that invariant. |
| `RepoTokens.WaitDrains` | internal/store/mem.go:541-545 | While the group drains nobody can join it, and if it is not empty some holder can finish: the wait never depends on a process that waits for the token. |
| `RepoTokens.NeverBlocks` | internal/store/mem.go:116-120 | Returning the token never blocks, and `Done` never takes the count below zero. |
| `RepoTokens.NoDeadlock` | internal/store/mem.go:99-198 | In every reachable state a process that has the token, holds a repository or works on it can go on at once, except for one that waits for the group to drain, and then some holder can finish. |
| `RepoTokens.WorkFinishes` | internal/store/mem.go:541-558 | Work that is done can be finished at once: the token goes back, a collection ends, and a close goes on to drop the repository. |
| `RepoTokens.TokenTaken` | internal/store/mem.go:116-120 | A token in the channel can be taken by any request or work that waits for it. |
| `RepoTokens.StoppedRefuses` | internal/store/mem.go:108-112 | Once the store is stopped no new request gets as far as a repository. |
| `RepoTokens.RequestStarts` | internal/store/mem.go:99-161 | Until then a request waits for the repository registered under its name, or creates one with its token in the channel and itself as the only caller. |
| `CacheLaws.RunWithinAge` | internal/cache/cache.go:175-241 | With an age of at least 10 ns and ideal timers, at every point of every run no entry is older than the age and a tenth of it, and a non-empty cache has a timer due by then for every entry. |
| `CacheLaws.LimitsMeaning` | internal/cache/cache.go:61-77 | The minimum age is the age, and the maximum age exceeds it by a tenth of it, rounded down. |
| `CacheLaws.TimerStarted` | internal/cache/cache.go:175-192 | The first entry starts the timer for a whole maximum age, later ones leave it alone, and without an age there is none. |
| `CacheLaws.JustUsedSurvives` | internal/cache/cache.go:135-148 | An entry that was just set or read holds its value, and no firing of the timer within the age removes it. |
| `CacheLaws.FireValid` | internal/cache/cache.go:225-240 | Whenever the timer fires with such an age, the computed delay is positive and the timer is set, so the branches marked as not possible are not reached, and the new deadline respects every entry. |
| `CacheLaws.ShortAgeFires` | internal/cache/cache.go:226-230 | When the maximum age is the minimum age, an entry exactly that old survives the timer with no delay left, and the delay is replaced by a millisecond. |
| `CacheLaws.ShortAgeOutlived` | internal/cache/cache.go:61-77 | For every age of 1 to 9 ns there is a run, from the empty cache, in which an entry outlives its maximum age. |
| `CacheLaws.AgePrunedOnlyOld` | internal/cache/cache.go:201-223 | An entry is removed by age if and only if it is older than the minimum age and not refused; a refused one is renewed; every other is unchanged. |
| `CacheLaws.NextValid` | internal/cache/cache.go:80-241 | Every operation and every passing of time keeps the timer invariant. |
| `CacheLaws.CountPrunedUnique` | internal/cache/cache.go:244-284 | With distinct times the surviving keys do not depend on the order of the map or the sort. |
| `Cache.Cache.PruneCount` | internal/cache/cache.go:244-284 | If enough prune calls succeed exactly the minimum count remains, otherwise exactly the refused entries remain; no removed entry was used after a survivor that was not refused. |
| `Cache.Cache.PruneAge` | internal/cache/cache.go:195-241 | The loop, in any order, leaves the survivors and sets the timer from the oldest of them, or clears it. |
| `Cache.Cache.SortedKeys` | internal/cache/cache.go:250-261 | Lists each key once, in the order of last use. |
| `Cache.Cache.constructor` | internal/cache/cache.go:61-77 | A new cache is empty and has no timer. |
| `Cache.Cache.Set` | internal/cache/cache.go:175-192 | Stores the entry as just used, starts a timer only if none runs, and asks for pruning exactly above the maximum count. |
| `Cache.Cache.Get` | internal/cache/cache.go:135-148 | Returns the value and renews its entry, or reports that there is none. |
| `Cache.Cache.Delete` | internal/cache/cache.go:80-101 | Removes the entry unless it is refused, and stops the timer with the last entry. |
| `Cache.Cache.DeleteAll` | internal/cache/cache.go:104-132 | Exactly the refused entries remain, and it fails exactly if there are any. |
| `Auth.AuthConf.MapGroups` | config/auth.go:227-229 | After mapping every group, a user's groups are exactly the groups from which the user is reachable by member edges through members that are not users, cycles included. |
| `Auth.AuthConf.GroupMap` | config/auth.go:502-525 | The recursion terminates on cyclic groups, records only true memberships, and records the whole path for every user below it on a walk that repeats no group. |
| `Auth.AuthConf.Record` | config/auth.go:510-519 | Recording a path for a member adds all its groups, and each is one the user belongs to. |
| `Auth.SimpleChain` | config/auth.go:502-505 | Skipping cycles loses nothing: a user reachable by any walk is reachable by one that repeats no group. |
| `Auth.BelowStep` | config/auth.go:509-524 | A user below a group is its member or is below a nested group on a walk that avoids it. |
| `Auth.AuthConf.CheckAccess` | config/auth.go:469-499 | After the groups are mapped: access is that of the last access list among the longest patterns that cover the repository (its own name, or a stem of it and a star) and admit the user (named directly or through any nesting of groups; the anonymous user only by the anonymous flag), which grants what it names, and everything if it names All; none if no list applies. |
| `Auth.PatternMeaning` | config/auth.go:473-476 | A pattern that does not end in a star matches its own name only; a stem and a star match that literal name and exactly the names that begin with the stem. |
| `Auth.VerdictRules` | config/auth.go:469-499 | The verdict of the scan is that ruling. |
| `Auth.VerdictUnique` | config/auth.go:469-499 | There is exactly one such verdict. |
| `Auth.OrderIrrelevant` | config/auth.go:469-499 | If the matching patterns differ in length, permuting the access lists never changes the verdict. |

## Left out

- HTTP routing, headers and status codes, JSON, base64 and YAML, logging, the command line and the templates.
- The directory store (internal/store/dir.go): file input and output; its token protocol publishes a repository
  before it is counted (internal/store/dir.go:172-182) and is not the one proved here.
- The conversion of fallback tags in `indexIngest` and `indexValidReferrer` (internal/store/store.go:198-287, 318-365):
  the model starts from a converted index. Of that branch only `referrerListDedup` is modelled.
- RestartLaws.RestartKeeps: covers runs of uploads and pushes. With deletes the property is false (`OrphanLost`), and
  `ReloadExact` says for every repository which digests a reload resolves.
- ReferrerLaws.ReferrersExact: sequential runs only, since the program reads, changes and writes a response without a
  lock across the steps, and no collections inside the run, since a collection may delete a response. The deletes
  that break a list are excluded by the exact condition of `DeleteExact`.
- LayoutLaws.RunResolves: says nothing of a digest that is added both as a manifest and as a response, since replacing
  the response may then take the digest away; `AddResponseRefines` gives the exact effect of each such step.
- An annotation that is present with an empty value; two creation texts of the same instant count as equal.
- Gc.RepoGarbageCollect: deleting a blob always succeeds, listing blobs does not fail, and the subject annotation of a
  response always parses as a digest.
- GcLaws.CollectTwice: about blobs, entries, children and history; the returned flag may be true again when a kept
  index lists a missing child.
- Uploads.BlobUploadPatch: the session does not expire between its lookup and the write; the range header is given as
  its parsed start. The same holds for `BlobUploadPut`. Monolithic uploads and mounts are not modelled, and a blob
  deleted through the blob API is not either.
- UploadLaws.RunLogged: supposes bodies that arrive whole, as does UploadLaws.IssuedOffsetAccepted; `RunHeld`,
  `OffsetAccepted`, `RejectedPatchAdds` and `RejectedPutAdds` say exactly what happens otherwise.
- TagList.ListTags: page sizes below 1 are outside its domain (the source then slices or indexes out of range), and the
  library sort is modelled as an insertion sort, which gives the same list.
- Pages.ReferrerSplit: the encoding of a page is a parameter: a text before and after its list and a text per
  descriptor, the same on every page.
- `referrerFilter` (easy) and the cached pages of `referrerGet`, whose second lookup uses the page number without
  comparing the digest (referrer.go:118-137), so that no walk over them is claimed.
- CacheLaws.RunWithinAge: each operation is one atomic step and a timer fires exactly at its deadline; the lock that
  `Delete` and `DeleteAll` give up during the prune function is not split out, and the prune function is a predicate
  that tells which keys it refuses. The count kept by pruning is a parameter, since it is computed in floating point.
- RepoTokens.ExclusiveWork: steps of the memory store only; the scheduling of collections (`gcTicker`) and the
  directory behind a memory store are not part of the model.
- Passwords, tokens and the parsing of access names in config/auth.go.
