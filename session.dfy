/**
 * The crawl session as the content script keeps it: the two module-level
 * maps `commentInfoMap` and `commentsListMap`, the failure counter of
 * `global_data`, and the two fields of `extract_config` the top-level crawl
 * uses, `mainReplyCount` (-1 when idle) and `onMainChange` (whether the
 * top-level handler is installed).
 *
 * Every method is proved against the specification function of the same
 * operation in the modules it imports.
 */
module Crawl {
  import opened Replies
  import CommentStore
  import UniArr
  import opened Nested
  import opened TopLevel
  import opened Export
  import opened Batch

  class Session {
    var keys: seq<Rpid>                       // iteration order of commentInfoMap
    var commentInfo: map<Rpid, Reply>         // commentInfoMap
    var commentsList: map<Rpid, seq<Reply>>   // commentsListMap
    var errorReplyCount: int                  // global_data.errorReplyCount
    var mainReplyCount: int                   // extract_config.mainReplyCount
    var onMainChange: bool                    // extract_config.onMainChange !== null

    /** The store part of the session, as a value. */
    function Snapshot(): CommentStore.Store
      reads this
    {
      CommentStore.Store(keys, commentInfo, commentsList, errorReplyCount)
    }

    /** `commentInfoMap` is an insertion-ordered map. */
    ghost predicate Valid()
      reads this
    {
      CommentStore.Valid(Snapshot())
    }

    /** The state the script starts in: empty maps, counter 0, idle and no handler. */
    constructor()
      ensures Valid()
      ensures Snapshot() == CommentStore.Store([], map[], map[], 0)
      ensures mainReplyCount == -1 && !onMainChange
    {
      keys, commentInfo, commentsList := [], map[], map[];
      errorReplyCount := 0;
      mainReplyCount := -1;
      onMainChange := false;
    }

    /** The net effect of `onNestedReply(data, {oid, root})`: the page's replies join the root's child list. */
    method OnNestedReply(root: Rpid, replies: seq<Reply>)
      modifies this`commentsList
      ensures Snapshot() == CommentStore.OnNestedReply(old(Snapshot()), root, replies)
    {
      var children := if root in commentsList then commentsList[root] else [];
      commentsList := commentsList[root := children + replies];
    }

    /** `const item = commentInfoMap.get(root); if (item) { item._child_loaded = true; ... }` */
    method MarkLoaded(root: Rpid)
      modifies this`commentInfo
      ensures Snapshot() == CommentStore.MarkLoaded(old(Snapshot()), root)
    {
      if root in commentInfo {
        var item := commentInfo[root];
        commentInfo := commentInfo[root := item.(childLoaded := true)];
      }
    }

    /**
     * `getReplyList(page)` on the response to that page, with `totalCount`
     * the crawl's closure variable before and after.  A failed response
     * below the threshold resolves an empty page and then goes on as a
     * successful one would: its replies reach `onNestedReply` and its count
     * can fix `totalCount`; the later `resolve` has no effect.
     */
    method GetReplyList(root: Rpid, r: Response, totalCount: int) returns (fetch: Fetch, totalCount': int)
      modifies this`errorReplyCount, this`commentsList
      ensures var p := Nested.GetReplyList(old(errorReplyCount), totalCount, r);
        fetch == p.fetch && totalCount' == p.total && errorReplyCount == p.errors
      ensures commentsList ==
        if fetch.Resolved? then CommentStore.OnNestedReply(old(Snapshot()), root, r.replies).lists
        else old(commentsList)
    {
      match r
      case Broken =>
        fetch, totalCount' := Pending, totalCount;
      case Response(code, replies, count) =>
        var settled := false;
        if code != 0 {
          errorReplyCount := errorReplyCount + 1;
          if errorReplyCount >= ErrorReplyMaxCount {
            return Rejected, totalCount;
          }
          fetch := Resolved([], 0);
          settled := true;
        }
        OnNestedReply(root, replies);
        totalCount' := if totalCount != 0 then totalCount else count;
        if !settled {
          fetch := Resolved(replies, count);
        }
    }

    /**
     * `downloadNestedCommentByAPI(root)` over the responses to pages 1, 2, ...:
     * `handler(page)` requests the page, pushes what it resolves into
     * `result`, and either marks the root loaded and resolves, or goes on to
     * the next page.  A rejected or never-settling page ends the crawl with
     * its promise unsettled.
     */
    method DownloadNestedCommentByAPI(root: Rpid, responses: seq<Response>)
      returns (outcome: Outcome, requested: seq<nat>, result: seq<Reply>, totalCount: int)
      requires Valid()
      modifies this`errorReplyCount, this`commentsList, this`commentInfo
      ensures Valid()
      ensures Run(outcome, Snapshot(), requested, result, totalCount) == DownloadNested(old(Snapshot()), root, responses)
    {
      DownloadNestedValid(Snapshot(), root, responses);
      requested, result, totalCount := [], [], 0;
      if root == "" {
        return Finished, requested, result, totalCount;
      }
      if root in commentInfo && commentInfo[root].childLoaded {
        return Finished, requested, result, totalCount;
      }
      ghost var st0 := Snapshot();
      var page := 1;
      var i := 0;
      while i < |responses|
        invariant 0 <= i <= |responses| && page == i + 1
        invariant Paginate(st0, root, responses, 1, [], [], 0) ==
          Paginate(Snapshot(), root, responses[i..], page, requested, result, totalCount)
      {
        requested := requested + [page];
        var fetch;
        fetch, totalCount := GetReplyList(root, responses[i], totalCount);
        match fetch {
          case Rejected =>
            return Tripped, requested, result, totalCount;
          case Pending =>
            return Stalled, requested, result, totalCount;
          case Resolved(list, _) =>
            result := result + list;
            if totalCount != 0 && |result| >= totalCount {
              MarkLoaded(root);
              return Finished, requested, result, totalCount;
            }
        }
        assert responses[i..][1..] == responses[i + 1..];
        page := page + 1;
        i := i + 1;
      }
      outcome := Unanswered;
    }

    /**
     * The handler `downloadTopComments` installs: it stops, uninstalls itself
     * and goes idle when the target is set and reached or the end of the
     * list shows; otherwise it asks for another page and changes nothing.
     */
    method MainHandler(endMarker: bool) returns (finished: bool, size: nat)
      modifies this`mainReplyCount, this`onMainChange
      ensures size == |keys|
      ensures finished == MainStop(size, old(mainReplyCount), endMarker)
      ensures finished ==> mainReplyCount == -1 && !onMainChange
      ensures !finished ==> mainReplyCount == old(mainReplyCount) && onMainChange == old(onMainChange)
    {
      size := |keys|;
      if (mainReplyCount != -1 && size >= mainReplyCount) || endMarker {
        onMainChange := false;
        mainReplyCount := -1;
        finished := true;
      } else {
        finished := false;
      }
    }

    /**
     * `downloadTopComments(topNum)`: install the handler with the target,
     * then for each page of top-level replies that arrives, store it and run
     * the handler, until the handler stops.  When it never stops, the
     * promise never resolves and no size is reported.
     */
    method DownloadTopComments(topNum: int, events: seq<Event>) returns (finished: bool, calls: nat, size: nat)
      requires Valid()
      modifies this`keys, this`commentInfo, this`mainReplyCount, this`onMainChange
      ensures Valid()
      ensures var r := DownloadTop(old(Snapshot()), topNum, events);
        TopResult(finished, calls, size) == r.0 && Snapshot() == r.1
      ensures finished ==> mainReplyCount == -1 && !onMainChange
      ensures !finished ==> mainReplyCount == topNum && onMainChange
    {
      onMainChange := true;
      mainReplyCount := topNum;
      finished, calls, size := false, 0, 0;
      var store := Snapshot();
      ghost var whole := DownloadTop(store, topNum, events);
      var i := 0;
      while i < |events|
        invariant 0 <= i <= |events| && calls == i
        invariant CommentStore.Valid(store) && store == Snapshot()
        invariant mainReplyCount == topNum && onMainChange
        invariant var r := DownloadTop(store, topNum, events[i..]);
          whole.0.finished == r.0.finished && whole.0.calls == r.0.calls + i &&
          whole.0.size == r.0.size && whole.1 == r.1
      {
        assert events[i..][1..] == events[i + 1..];
        DownloadTopStep(store, topNum, events[i..]);
        // the page interceptor writes the replies, one `commentInfoMap.set` each
        store := CommentStore.SetAll(store, events[i].replies);
        keys, commentInfo := store.keys, store.info;
        calls := calls + 1;
        finished, size := MainHandler(events[i].endMarker);
        if finished {
          return;
        }
        i := i + 1;
      }
      size := 0;
    }

    /**
     * The loop over `commentInfoMap.entries()` in `downloadCommentsWithNestedByPage`:
     * it counts `index` up and breaks once `index >= maxIndex`.
     */
    method SelectRoots(topNum: int) returns (roots: seq<Rpid>)
      ensures roots == Roots(keys, topNum)
    {
      roots := [];
      var maxIndex := topNum;
      var index := 0;
      while index < |keys|
        invariant 0 <= index <= RootCount(|keys|, topNum)
        invariant roots == keys[..index]
      {
        if index >= maxIndex {
          break;
        }
        roots := roots + [keys[index]];
        index := index + 1;
      }
    }

    /**
     * `downloadCommentsWithNestedByPage(topNum)`: top up the store when it
     * holds fewer than `topNum` comments, then crawl the nested replies of
     * the first `topNum` keys.  `complete` says whether the function gets
     * past its `await`s: not when the top-level crawl never stops, and only
     * when every nested crawl resolved.
     */
    method DownloadCommentsWithNestedByPage(topNum: int, events: seq<Event>, responses: seq<seq<Response>>)
      returns (complete: bool, outcomes: seq<Outcome>)
      requires Valid()
      modifies this
      ensures Valid()
      ensures var c := WithNestedByPage(old(Snapshot()), topNum, events, responses);
        complete == c.complete && outcomes == c.outcomes && Snapshot() == c.store
      ensures |old(keys)| >= topNum ==>
        mainReplyCount == old(mainReplyCount) && onMainChange == old(onMainChange)
      ensures |old(keys)| < topNum ==>
        var top := DownloadTop(old(Snapshot()), topNum, events);
        && (top.0.finished ==> mainReplyCount == -1 && !onMainChange)
        && (!top.0.finished ==> mainReplyCount == topNum && onMainChange)
    {
      if |keys| < topNum {
        var finished, calls, size := DownloadTopComments(topNum, events);
        if !finished {
          return false, [];
        }
      }
      complete, outcomes := CrawlNested(topNum, responses);
    }

    /**
     * The second half of `downloadCommentsWithNestedByPage`: one nested crawl
     * per selected root, then `await Promise.all(promiseList)`.
     */
    method CrawlNested(topNum: int, responses: seq<seq<Response>>) returns (complete: bool, outcomes: seq<Outcome>)
      requires Valid()
      modifies this`errorReplyCount, this`commentsList, this`commentInfo
      ensures Valid()
      ensures var c := NestedPhase(old(Snapshot()), topNum, responses);
        complete == c.complete && outcomes == c.outcomes && Snapshot() == c.store
    {
      var roots := SelectRoots(topNum);
      outcomes := RunCrawls(roots, responses);
      complete := forall i :: 0 <= i < |outcomes| ==> outcomes[i] == Finished;
    }

    /**
     * The loop that starts one `downloadNestedCommentByAPI(key)` per root, the
     * j-th crawl answered by the j-th response list.
     */
    method RunCrawls(roots: seq<Rpid>, responses: seq<seq<Response>>) returns (outcomes: seq<Outcome>)
      requires Valid()
      modifies this`errorReplyCount, this`commentsList, this`commentInfo
      ensures Valid()
      ensures Tasks(outcomes, Snapshot()) == RunAll(old(Snapshot()), roots, responses, 0)
    {
      ghost var st1 := Snapshot();
      ghost var cur := st1;
      outcomes := [];
      var j := 0;
      while j < |roots|
        invariant 0 <= j <= |roots|
        invariant cur == Snapshot() && CommentStore.Valid(cur)
        invariant var rest := RunAll(cur, roots[j..], responses, j);
          RunAll(st1, roots, responses, 0) == Tasks(outcomes + rest.outcomes, rest.store)
      {
        assert roots[j..][1..] == roots[j + 1..];
        RunAllStep(cur, roots[j..], responses, j);
        DownloadNestedValid(cur, roots[j], ResponsesFor(responses, j));
        var outcome, requested, result, totalCount := DownloadNestedCommentByAPI(roots[j], ResponsesFor(responses, j));
        cur := DownloadNested(cur, roots[j], ResponsesFor(responses, j)).store;
        outcomes := outcomes + [outcome];
        j := j + 1;
      }
      assert roots[j..] == [] && outcomes + [] == outcomes;
    }

    /**
     * The data assembly of `downloadComments(title, maxCount, withChildren)`:
     * each stored record, in insertion order, gets `children` set to its
     * de-duplicated child list (in place, so the stored record changes too)
     * and is pushed; the list is then cut by `slice(0, maxCount)`.
     */
    method DownloadComments(maxCount: int, withChildren: bool) returns (data: seq<Reply>)
      requires Valid()
      modifies this`commentInfo
      ensures Valid()
      ensures data == Exported(old(Snapshot()), maxCount, withChildren)
      ensures Snapshot() == Attached(old(Snapshot()), withChildren)
    {
      var store := Snapshot();
      var info, rows := AttachAll(store, withChildren);
      commentInfo := info;
      data := Slice(rows, maxCount);
    }
  }
}
