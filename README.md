# Crawl bookkeeping of the Bilibili comment helper

This project models the comment-crawling bookkeeping of the content script
`contents/content-ui.tsx` of a browser extension that downloads the comments
of a Bilibili video, and proves properties of it in Dafny.

The script keeps one session of state:

- `commentInfoMap`: an insertion-ordered map from a comment's `rpid` to its
  record, which carries a `_child_loaded` flag;
- `commentsListMap`: the replies gathered for each comment;
- the shared failure counter `global_data.errorReplyCount`, with its
  threshold `errorReplyMaxCount = 5`;
- the top-level crawl's `extract_config.mainReplyCount` (-1 when idle) and
  `onMainChange` (whether the handler is installed).

The model covers these operations on that state:

- `uniArr` (de-duplication by `rpid`);
- the data assembly of `downloadComments` (records in insertion order with
  de-duplicated children, cut by `slice(0, maxCount)`);
- `getReplyList` and its failure counter;
- the page-by-page crawl of `downloadNestedCommentByAPI`;
- the stop rule of the handler installed by `downloadTopComments`;
- root selection and the nested phase of `downloadCommentsWithNestedByPage`;
- `getDownloadFileName`, and the name handed to the Excel writer.

Layout:

- `replies.dfy` (`Replies`): the reply record and identity sets.
- `uni_arr.dfy` (`UniArr`): the reference definition `Dedup`, the loop
  `UniArr` proved equal to it, and its properties.
- `comment_store.dfy` (`CommentStore`): the store as a value. It provides
  `Map.set`, the net effect of `onNestedReply`, marking a record loaded, and
  the writing of a page of top-level replies.
- `nested.dfy` (`Nested`): `getReplyList` on one response, one page of
  `handler`, the whole crawl `Paginate`/`DownloadNested`, and what a crawl
  requests, accumulates, counts and stores.
- `top_level.dfy` (`TopLevel`): the stop rule and the top-level crawl over a
  sequence of handler calls.
- `export.dfy` (`Export`): the exported list and the store after an export.
- `batch.dfy` (`Batch`): root selection and the nested phase.
- `file_name.dfy` (`FileName`): the download file name.
- `session.dfy` (`Crawl`): `class Session`, whose fields are the session
  state. Its methods are the imperative operations, each proved against the
  specification function its row below names.

Inputs the script reads from the page or the network are parameters:

- a nested crawl consumes a sequence of `Response`s, the i-th answering the
  request for page i + 1;
- a top-level crawl consumes a sequence of `Event`s. Each event holds the
  replies the page's own listener stored before calling the handler, and
  whether the end-of-list marker `.reply-end` is present.

The model follows the code in these places:

- A failed response below the threshold resolves an empty page but does not
  `return`. Its replies still reach `onNestedReply`, and its count can still
  fix `totalCount` (lines 203-222).
- The counter is never reset by a successful page.
- After an error the crawl goes on to the next page; it does not retry.
- The stop test counts raw pushed items, not distinct ones.
- A rejected page is not handled by `handler`'s `.then`, so the crawl's
  promise never settles (outcome `Tripped`). A `fetch` or JSON failure is
  swallowed by `.catch`, so that page's promise never settles either
  (outcome `Stalled`). Neither ends the crawl by rejecting.
- A root without a record is paged through all the same. Only the empty
  root and a root already marked loaded short-circuit (lines 247-255).
- `downloadTopComments` does not resolve on its own when the target is
  already met. It resolves only at a handler call.

## Model

| member | source | states |
|---|---|---|
| UniArr.UniArr | contents/content-ui.tsx:80-93 | the one-pass loop with its `seen` set returns exactly the reference de-duplication `Dedup(list)` |
| UniArr.DedupKeys | contents/content-ui.tsx:84-92 | every identity of the input appears in the output, and no other |
| UniArr.DedupUnique | contents/content-ui.tsx:84-92 | no two output items share an `rpid` |
| UniArr.DedupKeepsFirst | contents/content-ui.tsx:84-92 | each kept item is the first input item with its `rpid`, and kept items follow the order of those first positions (a subsequence of the input) |
| UniArr.DedupOfUnique | contents/content-ui.tsx:84-92 | a list without repeated identities is returned unchanged |
| UniArr.DedupIdempotent | contents/content-ui.tsx:80-93 | `uniArr` applied to its own output returns that output |
| CommentStore.Set | contents/content-ui.tsx:236 | `Map.set`: a new key goes to the end of the order, an existing key keeps its place, only that key's value changes |
| CommentStore.SetAll | contents/content-ui.tsx:160 | writing a page of replies keeps the store well formed and leaves child lists and counter alone |
| CommentStore.SetAllGrows | contents/content-ui.tsx:160 | writing replies keeps every earlier key in its place, so `commentInfoMap.size` never shrinks |
| CommentStore.SetAllKeys | contents/content-ui.tsx:160 | writing replies adds exactly their identities to the store's keys |
| CommentStore.SetAllFresh | contents/content-ui.tsx:160 | distinct replies new to the store grow `commentInfoMap.size` by exactly their number |
| CommentStore.OnNestedReply | contents/content-ui.tsx:211-214 | a page's replies are appended to the root's child list, and nothing else changes |
| CommentStore.MarkLoaded | contents/content-ui.tsx:233-237 | the root's record, when present, gets `_child_loaded` set; no other record changes, and nothing changes without a record |
| Nested.Done | contents/content-ui.tsx:232 | a `totalCount` of 0 is falsy and never stops the crawl; a negative one always does; a positive one stops only with a non-empty `result` |
| Nested.GetReplyList | contents/content-ui.tsx:195-224 | a failed response adds exactly 1 to the counter; it rejects iff the new count reaches 5, else resolves an empty page; a success resolves its replies and count and leaves the counter; a broken response never settles; `totalCount` keeps its first non-zero value |
| Nested.Step | contents/content-ui.tsx:227-244 | a page that stops the crawl (rejected, never settled, or the stop test met) requests no further page, and the crawl does not end as out of responses |
| Nested.Paginate | contents/content-ui.tsx:227-244 | a crawl requests at most one page per response, and exactly one per response when it runs out of responses before stopping |
| Nested.PaginateRequestsInOrder | contents/content-ui.tsx:227-244 | pages are requested one per consumed response, in increasing order from the start page; only a crawl that ran out of responses consumed all of them |
| Nested.PaginateCountsFailures | contents/content-ui.tsx:203-209 | the counter grows by the number of failed responses consumed; the crawl is rejected exactly at the failure that reaches the threshold, and every earlier failure left it below |
| Nested.PaginateAccumulates | contents/content-ui.tsx:229-231 | `result` is the concatenation of the lists of every settled page, duplicates included |
| Nested.PaginateFixesTotal | contents/content-ui.tsx:216-218 | `totalCount` is the first non-zero count a settled page reported |
| Nested.PaginateStopsAtFirstDone | contents/content-ui.tsx:232-243 | the crawl finishes iff `totalCount` is non-zero and `result` has reached it, and the test failed after every earlier page |
| Nested.PaginateStallsAtBroken | contents/content-ui.tsx:199-223 | a crawl that never settles stopped at a broken response (a `fetch` or JSON failure swallowed by `.catch`), the last response it consumed; a broken response always ends the crawl there, so every earlier page settled before the next was requested |
| Nested.PaginateChildren | contents/content-ui.tsx:211-214 | the root's child list gains the replies of every settled page, in page order |
| Nested.PaginateRecords | contents/content-ui.tsx:232-237 | no record appears or disappears; other records and child lists are unchanged; the root is marked loaded iff the crawl finished |
| Nested.DownloadNested | contents/content-ui.tsx:246-255 | an empty root or one already marked loaded finishes with no request and no change |
| Nested.DownloadNestedKeeps | contents/content-ui.tsx:192-260 | a crawl requests pages 1, 2, ... at most one per response; marks its root loaded when it finishes; never clears a flag; touches no other record or child list; never lowers the counter |
| Nested.DownloadNestedValid | contents/content-ui.tsx:192-260 | a nested crawl keeps `commentInfoMap` an insertion-ordered map |
| TopLevel.MainStop | contents/content-ui.tsx:164 | with no target (-1) the handler stops iff the end marker shows; a target of 0 or less stops at once; the end marker always stops |
| TopLevel.FirstStop | contents/content-ui.tsx:159-176 | the armed handler, called once per observation, makes at most one call per observation; a crawl that resolved made at least one; one that did not used them all and reports no size |
| TopLevel.FirstStopIsFirst | contents/content-ui.tsx:159-176 | the handler resolves at the first call whose size and end marker meet the stop rule, with that size; with no such call it never resolves |
| TopLevel.FirstStopUnderSteadyGrowth | contents/content-ui.tsx:164 | when every call finds the same number of new replies, the crawl stops at the first call that reaches the target |
| TopLevel.TargetFiveTwoPerCall | contents/content-ui.tsx:164 | from an empty store with target 5 and 2 new replies per call, the third call stops with size 6 |
| TopLevel.DownloadTop | contents/content-ui.tsx:155-190 | a finished crawl stopped within the given calls, an unfinished one used them all; earlier keys keep their order; child lists and the counter are untouched; the store stays well formed |
| TopLevel.DownloadTopObserves | contents/content-ui.tsx:155-190 | the top-level crawl over a sequence of events stops where the stop rule first holds of the sizes observed |
| TopLevel.ObservedSizesGrow | contents/content-ui.tsx:160 | the sizes the handler sees never fall below the starting size and never decrease, and each call sees its own end marker |
| TopLevel.ObservationsOfFreshEvents | contents/content-ui.tsx:160 | events that each bring `count` fresh replies make the observed size grow by exactly `count` per call |
| Export.SliceLength | contents/content-ui.tsx:105 | `slice(0, end)` keeps min(end, length) items for a non-negative end, and drops `-end` items from the back for a negative one |
| Export.Slice | contents/content-ui.tsx:105 | the slice is the prefix of that length |
| Export.Row | contents/content-ui.tsx:99-102 | a record is exported as stored, except that with `withChildren` its children are replaced |
| Export.Rows | contents/content-ui.tsx:97-103 | one row per stored key, in insertion order, each the stored record with at most its children replaced |
| Export.AttachAll | contents/content-ui.tsx:97-104 | the loop over `commentInfoMap.entries()` pushes exactly `Export.Rows` and leaves the map as `Export.Attached` says |
| Export.Exported | contents/content-ui.tsx:95-105 | the export holds as many rows as `slice(0, maxCount)` keeps, and they are a prefix of the rows in insertion order |
| Export.Attached | contents/content-ui.tsx:101 | attaching children changes no key and no child list, and keeps the store well formed |
| Export.ExportedInStoreOrder | contents/content-ui.tsx:95-105 | the export holds min(`maxCount`, size) records for `maxCount` >= 0, the stored records in insertion order |
| Export.ExportedWithoutChildren | contents/content-ui.tsx:99-103 | without `withChildren` the exported records are the stored ones and the store is unchanged |
| Export.ExportedChildren | contents/content-ui.tsx:99-102 | with `withChildren` each record's children hold no repeated identity, lose none, come from the stored list, are each the first stored child with their identity, follow the order in which identities were first seen, are empty when nothing is stored, and equal the stored list when it has no repeats |
| Export.ExportIsRepeatable | contents/content-ui.tsx:98-105 | exporting a second time leaves the store as the first export left it and gives the same list |
| FileName.DownloadFileName | contents/content-ui.tsx:72-78 | the name ends in `.html`; a non-empty title is its prefix with exactly the extension added; an empty title gives `Bilibili_Helper.html` |
| FileName.FirstOccurrence | contents/content-ui.tsx:114 | -1 when the pattern occurs nowhere, otherwise the first position where it occurs |
| FileName.ReplaceFirst | contents/content-ui.tsx:114 | `replace` with a string pattern removes the first occurrence of the pattern and nothing else, and returns the string unchanged when the pattern does not occur |
| FileName.StripExtension | contents/content-ui.tsx:114 | a name ending in `.html` loses exactly that suffix; any other is unchanged |
| FileName.StripExtensionRecoversTitle | contents/content-ui.tsx:114 | taking the extension off the download name gives back the title (or `Bilibili_Helper`) |
| FileName.ReplaceFirstRecoversPlainTitle | contents/content-ui.tsx:114 | as written, `replace('.html', '')` gives back the title when no `.html` occurs before the extension |
| FileName.ReplaceFirstMangledTitle | contents/content-ui.tsx:114 | as written, the title `x.htmly` gives the Excel name `xy.html` |
| Batch.RootCount | contents/content-ui.tsx:272-279 | the loop takes min(`topNum`, size) keys, and none for `topNum` <= 0 |
| Batch.Roots | contents/content-ui.tsx:275-281 | the selected roots are the first keys of the store, in insertion order |
| Batch.RunAll | contents/content-ui.tsx:281-284 | one outcome per selected root |
| Batch.RunAllPreserves | contents/content-ui.tsx:271-284 | the nested phase adds or removes no record; clears no flag; marks every root whose crawl finished; leaves records and lists of other keys alone; never lowers the counter |
| Batch.AllFinished | contents/content-ui.tsx:283-284 | `await Promise.all` returns iff no crawl was rejected, never settled or ran out of responses; with no crawls it returns at once |
| Batch.NestedPhase | contents/content-ui.tsx:271-284 | one outcome per selected root; no key or record appears or disappears; the counter never falls |
| Batch.WithNestedByPage | contents/content-ui.tsx:262-284 | the store stays well formed; existing keys keep their order; with at least `topNum` comments no key is added; when every crawl resolved there is one outcome per root of the final store |
| Batch.NestedPhaseCrawlsFirstKeys | contents/content-ui.tsx:271-282 | exactly min(`topNum`, size) crawls start, one for each of the first keys, and no key is crawled twice |
| Batch.CompleteMeansLoaded | contents/content-ui.tsx:283-284 | when every crawl resolved, every selected non-empty root is marked loaded, and no flag was cleared |
| Crawl.Session.constructor | contents/content-ui.tsx:22-46 | the session starts with empty maps, counter 0, `mainReplyCount` -1 and no handler |
| Crawl.Session.OnNestedReply | contents/content-ui.tsx:211-214 | the session changes as `CommentStore.OnNestedReply` says |
| Crawl.Session.MarkLoaded | contents/content-ui.tsx:233-237 | the session changes as `CommentStore.MarkLoaded` says |
| Crawl.Session.GetReplyList | contents/content-ui.tsx:195-224 | the fall-through code gives the promise, counter and `totalCount` of `Nested.GetReplyList`, and appends to the child list iff the promise resolves |
| Crawl.Session.DownloadNestedCommentByAPI | contents/content-ui.tsx:192-260 | the page loop leaves the outcome, store, requested pages, `result` and `totalCount` of `Nested.DownloadNested`, and keeps the store well formed |
| Crawl.Session.MainHandler | contents/content-ui.tsx:159-176 | the handler stops iff (`mainReplyCount` != -1 and size >= it) or the end marker shows; on stopping it resets `mainReplyCount` to -1 and uninstalls itself; otherwise it changes neither |
| Crawl.Session.DownloadTopComments | contents/content-ui.tsx:155-190 | the crawl leaves the result and store of `TopLevel.DownloadTop`; a finished crawl is idle and uninstalled, an unfinished one keeps the target armed |
| Crawl.Session.SelectRoots | contents/content-ui.tsx:271-282 | the loop with its `index`/`maxIndex` break selects exactly `Batch.Roots` |
| Crawl.Session.RunCrawls | contents/content-ui.tsx:275-284 | running the crawls of the given roots one after another leaves the outcomes and store of `Batch.RunAll`, and keeps the store well formed |
| Crawl.Session.CrawlNested | contents/content-ui.tsx:271-284 | the crawls of the selected roots leave the outcomes and store of `Batch.NestedPhase`, and keep the store well formed |
| Crawl.Session.DownloadCommentsWithNestedByPage | contents/content-ui.tsx:262-284 | the whole function leaves the state of `Batch.WithNestedByPage`: it tops up the store when it holds fewer than `topNum` comments, and stops there if the top-level crawl never stops; the store stays well formed; with enough comments `mainReplyCount` and `onMainChange` are untouched, otherwise they end at -1 and uninstalled when the top-level crawl stopped, and at `topNum` and installed when it did not |
| Crawl.Session.DownloadComments | contents/content-ui.tsx:95-105 | the loop returns `Export.Exported` and leaves the store as `Export.Attached` says, since the records are shared with the export; the store stays well formed |

## Left out

- The React panel, the buttons, `useState`, logging, `setLoading`,
  `setTip` and `updateCount`: user interface only.
- DOM access (`getVideoInfo`, `noMoreComment`, `noMoreCommentPromise`,
  `getStyle`): the title and the end-of-list marker are inputs.
- `fetch`, the URL and JSON parsing: a page response is an abstract
  `Response`. A failed body is represented with whatever replies and count
  it carries.
- Malformed bodies are not modelled. A body with code 0 but no `replies`
  resolves `{list: undefined}`. Then `result.push(...list)` in `handler`'s
  `.then` (lines 230-231) throws, nothing catches it, and that crawl never
  settles. A failed body without `data` has already resolved an empty page
  at line 209 before the throw, so its crawl goes on. A code-0 body without
  `data` throws before resolving, and `.catch` (line 223) swallows it: that
  page never settles, as for a broken response.
- Timers, `setTimeout` pacing (`getInterval`), `scrollToTop` and
  `scrollToBottom`: only the order of events matters here.
- `Promise.all` and concurrent nested crawls: the crawls are run one after
  another in key order, sharing the store and the counter. Interleavings of
  their pages are not modelled.
- The page's own reply listener and `onNestedReply` live in other files:
  they are not part of this model. Only their net effect on the store is
  modelled.
- `downloadCommentsWithNested`, the DOM click-through crawler: page
  navigation only, and never invoked.
- `writeToHTML`, `getHTML`, `exportTableToExcel` and the timestamp: the
  export stops at the assembled list and the name handed to the writer.
- `parseInt` of the input fields, and non-numeric `topNum` or `maxCount`:
  numbers are integers.
- Nested.Paginate: the source keeps requesting pages forever while the
  total stays 0, or while `result` stays below a non-zero total
  (lines 232, 240-242). Here a crawl ends with `Unanswered` once the given
  responses run out.
- UniArr.UniArr: identities are compared as plain strings. The source's
  `map` is a plain object (lines 81, 85), so an `rpid` such as
  `constructor`, `toString` or `__proto__` reads as already seen and its
  item is dropped. Real `rpid`s are numeric, and this quirk is not
  modelled.
- Crawl.Session.DownloadTopComments: the handler is armed before the first
  call. In the source arming happens after a 100 ms timer, and an early
  end-marker call could run first. The size of an unfinished crawl is
  reported as 0, although the source never resolves then. A further
  handler call after the crawl has stopped (the end-marker watcher firing
  late) is not modelled.

## Findings

| source | as written | input that shows it | evidently intended | confidence | as-written member | corrected member |
|---|---|---|---|---|---|---|
| contents/content-ui.tsx:114 | `title.replace('.html', '')` removes the first `.html` anywhere in the download name | video title `x.htmly`: the name `x.htmly.html` becomes the Excel name `xy.html` | remove the trailing extension, giving `x.htmly` | medium, not executed | FileName.ReplaceFirstMangledTitle | FileName.StripExtensionRecoversTitle |
