/**
 * `downloadNestedCommentByAPI(root)`: page through the nested replies of one
 * root comment.  `getReplyList(page)` turns one response of the reply-listing
 * API into a page result and keeps the shared failure counter; `handler`
 * requests pages 1, 2, 3, ... and stops once the accumulated item count
 * reaches the first non-zero total the API reported.
 *
 * The network is abstracted: the run consumes a given sequence of responses,
 * the i-th one answering the request for page i + 1.
 */
module Nested {
  import opened Replies
  import opened CommentStore

  /** `global_data.errorReplyMaxCount` */
  const ErrorReplyMaxCount := 5

  /** One answer to a reply-listing request. */
  datatype Response =
    | Response(code: int, replies: seq<Reply>, count: int)  // a parsed body: `code`, `data.replies`, `data.page.count` (0 when `page` is absent)
    | Broken                                                // `fetch` or JSON parsing failed

  /** What the promise of `getReplyList` does. */
  datatype Fetch =
    | Resolved(list: seq<Reply>, count: int)
    | Rejected   // the failure counter reached the threshold
    | Pending    // the failure was swallowed by `.catch`: the promise never settles

  /** One call of `getReplyList`: its promise, the new counter and the new `totalCount`. */
  datatype PageStep = PageStep(fetch: Fetch, errors: int, total: int)

  /** A response the API flagged as failed (`res.code !== 0`). */
  predicate IsError(r: Response)
  {
    r.Response? && r.code != 0
  }

  /** The total a response reports, as `totalCount || count` reads it. */
  function CountOf(r: Response): int
  {
    if r.Response? then r.count else 0
  }

  /**
   * `getReplyList` on one response, given the counter and `totalCount`
   * before it.  A failed response still falls through to the success path
   * after resolving, so its `count` can still fix `totalCount`.
   */
  function GetReplyList(errors: int, total: int, r: Response): (p: PageStep)
    ensures p.errors == if IsError(r) then errors + 1 else errors
    ensures p.fetch.Rejected? <==> IsError(r) && errors + 1 >= ErrorReplyMaxCount
    ensures IsError(r) && !p.fetch.Rejected? ==> p.fetch == Resolved([], 0)
    ensures r.Response? && r.code == 0 ==> p.fetch == Resolved(r.replies, r.count)
    ensures r.Broken? <==> p.fetch.Pending?
    ensures total != 0 ==> p.total == total
    ensures total == 0 ==> p.total == if p.fetch.Resolved? then CountOf(r) else 0
  {
    match r
    case Broken => PageStep(Pending, errors, total)
    case Response(code, replies, count) =>
      var total' := if total != 0 then total else count;
      if code != 0 then
        if errors + 1 >= ErrorReplyMaxCount then PageStep(Rejected, errors + 1, total)
        else PageStep(Resolved([], 0), errors + 1, total')
      else PageStep(Resolved(replies, count), errors, total')
  }

  /** How a nested crawl ends. */
  datatype Outcome =
    | Finished    // the promise resolved
    | Tripped     // a page was rejected; nothing handles it, so the task never settles
    | Stalled     // a page promise never settled
    | Unanswered  // the given responses ran out before the crawl finished

  /** The end state of a nested crawl. */
  datatype Run = Run(outcome: Outcome, store: Store, requested: seq<nat>, result: seq<Reply>, total: int)

  /**
   * The stop test of `handler`: `totalCount && result.length >= totalCount`.
   * A total of 0 is falsy and never stops the crawl; a negative one always
   * does.
   */
  function Done(total: int, result: seq<Reply>): (done: bool)
    ensures total == 0 ==> !done
    ensures total < 0 ==> done
    ensures done && 0 < total ==> result != []
  {
    total != 0 && |result| >= total
  }

  /** After one page, `handler` either stops or goes on to the next page. */
  datatype Next = Stop(run: Run) | Continue(store: Store, result: seq<Reply>, total: int)

  /**
   * One page of `handler`: `getReplyList` on the response `r`, then, when its
   * promise resolves, the items pushed into `result` and the stop test, which
   * on success marks the root as loaded.  `requested` already lists the page.
   */
  function Step(st: Store, root: Rpid, r: Response, requested: seq<nat>, result: seq<Reply>, total: int): (n: Next)
    ensures n.Stop? ==> n.run.requested == requested && n.run.outcome != Unanswered
  {
    var p := GetReplyList(st.errorReplyCount, total, r);
    var counted := st.(errorReplyCount := p.errors);
    match p.fetch
    case Rejected => Stop(Run(Tripped, counted, requested, result, p.total))
    case Pending => Stop(Run(Stalled, counted, requested, result, p.total))
    case Resolved(list, _) =>
      var st' := OnNestedReply(counted, root, r.replies);
      var result' := result + list;
      if Done(p.total, result') then Stop(Run(Finished, MarkLoaded(st', root), requested, result', p.total))
      else Continue(st', result', p.total)
  }

  /**
   * `handler(page)` and its successors, as they consume the responses `rs`
   * with the closure state `result` and `totalCount` built so far.  Pages are
   * requested whatever the previous page returned, error or not.
   */
  function Paginate(st: Store, root: Rpid, rs: seq<Response>, page: nat,
                    requested: seq<nat>, result: seq<Reply>, total: int): (r: Run)
    ensures |requested| <= |r.requested| <= |requested| + |rs|
    ensures r.outcome == Unanswered ==> |r.requested| == |requested| + |rs|
    decreases |rs|
  {
    if rs == [] then Run(Unanswered, st, requested, result, total)
    else
      match Step(st, root, rs[0], requested + [page], result, total)
      case Stop(run) => run
      case Continue(st', result', total') => Paginate(st', root, rs[1..], page + 1, requested + [page], result', total')
  }

  /** A run with a response left is one page, then (unless it stopped) the run from the next page. */
  lemma PaginateStep(st: Store, root: Rpid, rs: seq<Response>, page: nat,
                     requested: seq<nat>, result: seq<Reply>, total: int)
    requires rs != []
    ensures var n := Step(st, root, rs[0], requested + [page], result, total);
      Paginate(st, root, rs, page, requested, result, total) ==
        if n.Stop? then n.run
        else Paginate(n.store, root, rs[1..], page + 1, requested + [page], n.result, n.total)
  {
  }

  /** The settled state after one page: the pushed items and `totalCount`. */
  lemma StepAccumulates(st: Store, root: Rpid, r: Response, requested: seq<nat>, result: seq<Reply>, total: int)
    ensures match Step(st, root, r, requested, result, total)
      case Stop(run) =>
        if run.outcome == Tripped then run.result == result && run.total == total
        else run.result == result + ListOf(r) && run.total == TotalStep(total, r)
      case Continue(_, result', total') =>
        result' == result + ListOf(r) && total' == TotalStep(total, r)
  {
  }

  /** The failure counter after one page, and when the page is rejected. */
  lemma StepCounts(st: Store, root: Rpid, r: Response, requested: seq<nat>, result: seq<Reply>, total: int)
    ensures var errors := st.errorReplyCount + if IsError(r) then 1 else 0;
      match Step(st, root, r, requested, result, total)
      case Stop(run) =>
        && run.store.errorReplyCount == errors
        && (run.outcome == Tripped <==> IsError(r) && errors >= ErrorReplyMaxCount)
      case Continue(st', _, _) =>
        && st'.errorReplyCount == errors
        && (IsError(r) ==> errors < ErrorReplyMaxCount)
  {
  }

  /** The stop test after one page decides between finishing and going on. */
  lemma StepStops(st: Store, root: Rpid, r: Response, requested: seq<nat>, result: seq<Reply>, total: int)
    requires !Done(total, result)
    ensures match Step(st, root, r, requested, result, total)
      case Stop(run) => run.outcome == Finished <==> Done(run.total, run.result)
      case Continue(_, result', total') => !Done(total', result')
  {
  }

  /** The store after one page. */
  lemma StepStore(st: Store, root: Rpid, r: Response, requested: seq<nat>, result: seq<Reply>, total: int)
    ensures var n := Step(st, root, r, requested, result, total);
      var st' := if n.Stop? then n.run.store else n.store;
      var tripped := n.Stop? && n.run.outcome == Tripped;
      var finished := n.Stop? && n.run.outcome == Finished;
      && st'.keys == st.keys && st'.info.Keys == st.info.Keys
      && ChildrenOf(st', root) == ChildrenOf(st, root) + (if tripped then [] else StoredOf(r))
      && (forall j :: j != root ==> ChildrenOf(st', j) == ChildrenOf(st, j))
      && (forall j :: j in st.info && j != root ==> st'.info[j] == st.info[j])
      && (root in st.info ==>
            st'.info[root] == (if finished then st.info[root].(childLoaded := true) else st.info[root]))
  {
  }

  // ---------------------------------------------------------------------
  // Closed forms over the responses a run consumed.

  /** The items `handler` pushes into `result` for one response. */
  function ListOf(r: Response): seq<Reply>
  {
    if r.Response? && r.code == 0 then r.replies else []
  }

  /** The replies handed to `onNestedReply` for one response. */
  function StoredOf(r: Response): seq<Reply>
  {
    if r.Response? then r.replies else []
  }

  /** `totalCount || count` after one response. */
  function TotalStep(total: int, r: Response): int
  {
    if total != 0 then total else CountOf(r)
  }

  /** How many responses of `rs` were flagged as failed. */
  function ErrorsIn(rs: seq<Response>): nat
  {
    if rs == [] then 0 else (if IsError(rs[0]) then 1 else 0) + ErrorsIn(rs[1..])
  }

  /** The items `handler` pushes into `result` for these responses. */
  function Listed(rs: seq<Response>): seq<Reply>
  {
    if rs == [] then [] else ListOf(rs[0]) + Listed(rs[1..])
  }

  /** The replies handed to `onNestedReply` for these responses. */
  function Stored(rs: seq<Response>): seq<Reply>
  {
    if rs == [] then [] else StoredOf(rs[0]) + Stored(rs[1..])
  }

  /** The first non-zero total reported, 0 if there is none. */
  function FirstNonZero(rs: seq<Response>): int
  {
    if rs == [] then 0 else if CountOf(rs[0]) != 0 then CountOf(rs[0]) else FirstNonZero(rs[1..])
  }

  /** `totalCount` after these responses when it was `total` before. */
  function Fixed(total: int, rs: seq<Response>): int
  {
    if total != 0 then total else FirstNonZero(rs)
  }

  /** How many responses a run consumed. */
  function Consumed(r: Run, requested: seq<nat>): int
  {
    |r.requested| - |requested|
  }

  /** How many of them were settled (the rejected last one was not). */
  function Settled(r: Run, requested: seq<nat>): int
  {
    if r.outcome == Tripped then Consumed(r, requested) - 1 else Consumed(r, requested)
  }

  /** A non-empty prefix splits into its first response and a prefix of the rest. */
  lemma PrefixCons(rs: seq<Response>, n: nat)
    requires 0 < n <= |rs|
    ensures rs[..n] == [rs[0]] + rs[1..][..n - 1]
  {
  }

  lemma ErrorsCons(rs: seq<Response>, n: nat)
    requires 0 < n <= |rs|
    ensures ErrorsIn(rs[..n]) == (if IsError(rs[0]) then 1 else 0) + ErrorsIn(rs[1..][..n - 1])
  {
    PrefixCons(rs, n);
  }

  lemma ListedCons(rs: seq<Response>, n: nat)
    requires 0 < n <= |rs|
    ensures Listed(rs[..n]) == ListOf(rs[0]) + Listed(rs[1..][..n - 1])
  {
    PrefixCons(rs, n);
  }

  lemma StoredCons(rs: seq<Response>, n: nat)
    requires 0 < n <= |rs|
    ensures Stored(rs[..n]) == StoredOf(rs[0]) + Stored(rs[1..][..n - 1])
  {
    PrefixCons(rs, n);
  }

  lemma FixedCons(rs: seq<Response>, n: nat, total: int)
    requires 0 < n <= |rs|
    ensures Fixed(total, rs[..n]) == Fixed(TotalStep(total, rs[0]), rs[1..][..n - 1])
  {
    PrefixCons(rs, n);
  }

  lemma Associative(a: seq<Reply>, b: seq<Reply>, c: seq<Reply>)
    ensures (a + b) + c == a + (b + c)
  {
  }

  lemma EmptyPrefix(rs: seq<Response>, total: int)
    ensures ErrorsIn(rs[..0]) == 0 && Listed(rs[..0]) == [] && Stored(rs[..0]) == []
    ensures Fixed(total, rs[..0]) == total
  {
    assert rs[..0] == [];
  }

  // ---------------------------------------------------------------------
  // What a run does.

  /**
   * Pages are requested one at a time in increasing order, starting at
   * `page`, one request per consumed response; only a run that ran out of
   * responses has consumed them all without ending.
   */
  lemma {:induction false} PaginateRequestsInOrder(st: Store, root: Rpid, rs: seq<Response>, page: nat,
                                                   requested: seq<nat>, result: seq<Reply>, total: int)
    ensures var r := Paginate(st, root, rs, page, requested, result, total);
      && |requested| <= |r.requested| <= |requested| + |rs|
      && r.requested[..|requested|] == requested
      && (forall i :: |requested| <= i < |r.requested| ==> r.requested[i] == page + (i - |requested|))
      && (r.outcome == Unanswered ==> |r.requested| == |requested| + |rs|)
      && (r.outcome != Unanswered ==> |r.requested| > |requested|)
    decreases |rs|
  {
    if rs != [] {
      var n := Step(st, root, rs[0], requested + [page], result, total);
      PaginateStep(st, root, rs, page, requested, result, total);
      var now := requested + [page];
      assert now[..|requested|] == requested && now[|requested|] == page;
      if n.Continue? {
        var r := Paginate(n.store, root, rs[1..], page + 1, now, n.result, n.total);
        PaginateRequestsInOrder(n.store, root, rs[1..], page + 1, now, n.result, n.total);
        assert r.requested[..|now|] == now;
        assert r.requested[..|requested|] == now[..|requested|];
        forall i | |requested| <= i < |r.requested| ensures r.requested[i] == page + (i - |requested|) {
          if i == |requested| {
            assert r.requested[i] == r.requested[..|now|][i];
          }
        }
      }
    }
  }

  /**
   * The failure counter grows by one per failed response consumed and by
   * nothing else; the run is rejected exactly at the failed response that
   * brings it to the threshold, and every earlier failure left it below.
   */
  lemma {:induction false} PaginateCountsFailures(st: Store, root: Rpid, rs: seq<Response>, page: nat,
                                                  requested: seq<nat>, result: seq<Reply>, total: int)
    ensures var r := Paginate(st, root, rs, page, requested, result, total);
      var k := Consumed(r, requested);
      && 0 <= k <= |rs|
      && r.store.errorReplyCount == st.errorReplyCount + ErrorsIn(rs[..k])
      && (r.outcome == Tripped ==>
            k > 0 && IsError(rs[k - 1]) && r.store.errorReplyCount >= ErrorReplyMaxCount)
      && (forall j :: 0 <= j < Settled(r, requested) && IsError(rs[j]) ==>
            st.errorReplyCount + ErrorsIn(rs[..j + 1]) < ErrorReplyMaxCount)
    decreases |rs|
  {
    ConsumedBounds(st, root, rs, page, requested, result, total);
    EmptyPrefix(rs, total);
    if rs != [] {
      var r := Paginate(st, root, rs, page, requested, result, total);
      StepCounts(st, root, rs[0], requested + [page], result, total);
      var n := Step(st, root, rs[0], requested + [page], result, total);
      PaginateStep(st, root, rs, page, requested, result, total);
      if n.Stop? {
        ErrorsCons(rs, 1);
        EmptyPrefix(rs[1..], total);
      } else {
        PaginateCountsFailures(n.store, root, rs[1..], page + 1, requested + [page], n.result, n.total);
        ErrorsCons(rs, Consumed(r, requested));
        forall j | 0 <= j < Settled(r, requested) && IsError(rs[j])
          ensures st.errorReplyCount + ErrorsIn(rs[..j + 1]) < ErrorReplyMaxCount
        {
          ErrorsCons(rs, j + 1);
          if j > 0 {
            assert rs[1..][j - 1] == rs[j];
          } else {
            EmptyPrefix(rs[1..], total);
          }
        }
      }
    }
  }

  /** A run consumes at least one response when there is one, and at most all of them. */
  lemma {:induction false} ConsumedBounds(st: Store, root: Rpid, rs: seq<Response>, page: nat,
                                          requested: seq<nat>, result: seq<Reply>, total: int)
    ensures var r := Paginate(st, root, rs, page, requested, result, total);
      && (if rs == [] then Consumed(r, requested) == 0 else 1 <= Consumed(r, requested) <= |rs|)
      && 0 <= Settled(r, requested) <= |rs|
    decreases |rs|
  {
    if rs != [] {
      match Step(st, root, rs[0], requested + [page], result, total)
      case Stop(run) =>
      case Continue(st', result', total') =>
        ConsumedBounds(st', root, rs[1..], page + 1, requested + [page], result', total');
    }
  }

  /**
   * What the run accumulated: every item of every settled response, counted
   * raw (duplicates included).
   */
  lemma {:induction false} PaginateAccumulates(st: Store, root: Rpid, rs: seq<Response>, page: nat,
                                               requested: seq<nat>, result: seq<Reply>, total: int)
    ensures var r := Paginate(st, root, rs, page, requested, result, total);
      var n := Settled(r, requested);
      && 0 <= n <= |rs|
      && r.result == result + Listed(rs[..n])
    decreases |rs|
  {
    ConsumedBounds(st, root, rs, page, requested, result, total);
    EmptyPrefix(rs, total);
    if rs != [] {
      var r := Paginate(st, root, rs, page, requested, result, total);
      StepAccumulates(st, root, rs[0], requested + [page], result, total);
      var n := Step(st, root, rs[0], requested + [page], result, total);
      PaginateStep(st, root, rs, page, requested, result, total);
      if n.Stop? {
        if n.run.outcome != Tripped {
          ListedCons(rs, 1);
          EmptyPrefix(rs[1..], total);
          assert ListOf(rs[0]) + [] == ListOf(rs[0]);
        }
      } else {
        PaginateAccumulates(n.store, root, rs[1..], page + 1, requested + [page], n.result, n.total);
        var k := Settled(r, requested);
        ListedCons(rs, k);
        Associative(result, ListOf(rs[0]), Listed(rs[1..][..k - 1]));
      }
    }
  }

  /** `totalCount` is fixed to the first non-zero total reported by a settled response. */
  lemma {:induction false} PaginateFixesTotal(st: Store, root: Rpid, rs: seq<Response>, page: nat,
                                              requested: seq<nat>, result: seq<Reply>, total: int)
    ensures var r := Paginate(st, root, rs, page, requested, result, total);
      var n := Settled(r, requested);
      && 0 <= n <= |rs|
      && r.total == Fixed(total, rs[..n])
    decreases |rs|
  {
    ConsumedBounds(st, root, rs, page, requested, result, total);
    EmptyPrefix(rs, total);
    if rs != [] {
      var r := Paginate(st, root, rs, page, requested, result, total);
      StepAccumulates(st, root, rs[0], requested + [page], result, total);
      match Step(st, root, rs[0], requested + [page], result, total)
      case Stop(run) =>
        if run.outcome != Tripped {
          FixedCons(rs, 1, total);
          EmptyPrefix(rs[1..], TotalStep(total, rs[0]));
        }
      case Continue(st', result', total') =>
        PaginateFixesTotal(st', root, rs[1..], page + 1, requested + [page], result', total');
        FixedCons(rs, Settled(r, requested), total);
    }
  }

  /**
   * A run that starts short of its stop test ends as finished exactly when
   * the stop test holds at its end, and the stop test failed after every
   * earlier page consumed: a page after which the test held is never
   * followed by a further request.
   */
  lemma {:induction false} PaginateStopsAtFirstDone(st: Store, root: Rpid, rs: seq<Response>, page: nat,
                                                    requested: seq<nat>, result: seq<Reply>, total: int)
    requires !Done(total, result)
    ensures var r := Paginate(st, root, rs, page, requested, result, total);
      && 0 <= Consumed(r, requested) <= |rs|
      && (r.outcome == Finished <==> Done(r.total, r.result))
      && (forall j :: 1 <= j < Consumed(r, requested) ==>
            !Done(Fixed(total, rs[..j]), result + Listed(rs[..j])))
    decreases |rs|
  {
    ConsumedBounds(st, root, rs, page, requested, result, total);
    if rs != [] {
      var r := Paginate(st, root, rs, page, requested, result, total);
      StepStops(st, root, rs[0], requested + [page], result, total);
      match Step(st, root, rs[0], requested + [page], result, total)
      case Stop(run) =>
      case Continue(st', result', total') =>
        StepAccumulates(st, root, rs[0], requested + [page], result, total);
        PaginateStopsAtFirstDone(st', root, rs[1..], page + 1, requested + [page], result', total');
        forall j | 1 <= j < Consumed(r, requested)
          ensures !Done(Fixed(total, rs[..j]), result + Listed(rs[..j]))
        {
          ListedCons(rs, j);
          FixedCons(rs, j, total);
          EmptyPrefix(rs[1..], total');
        }
    }
  }

  /**
   * A run that never settles without being rejected ended at a response whose
   * fetch or parsing failed, and a broken response always ends the run there:
   * every response consumed before the last one settled its page, so page
   * n + 1 is requested only once page n has settled.
   */
  lemma {:induction false} PaginateStallsAtBroken(st: Store, root: Rpid, rs: seq<Response>, page: nat,
                                                  requested: seq<nat>, result: seq<Reply>, total: int)
    ensures var r := Paginate(st, root, rs, page, requested, result, total);
      var k := Consumed(r, requested);
      && (r.outcome == Stalled ==> 0 < k <= |rs| && rs[k - 1].Broken?)
      && (forall j :: 0 <= j < k && j < |rs| ==> (rs[j].Broken? <==> j == k - 1 && r.outcome == Stalled))
    decreases |rs|
  {
    ConsumedBounds(st, root, rs, page, requested, result, total);
    if rs != [] {
      var n := Step(st, root, rs[0], requested + [page], result, total);
      PaginateStep(st, root, rs, page, requested, result, total);
      if n.Continue? {
        var r := Paginate(n.store, root, rs[1..], page + 1, requested + [page], n.result, n.total);
        PaginateStallsAtBroken(n.store, root, rs[1..], page + 1, requested + [page], n.result, n.total);
        var k := Consumed(r, requested);
        if r.outcome == Stalled {
          assert rs[1..][k - 2] == rs[k - 1];
        }
        forall j | 1 <= j < k && j < |rs| ensures rs[j].Broken? <==> j == k - 1 && r.outcome == Stalled {
          assert rs[1..][j - 1] == rs[j];
        }
      }
    }
  }

  /**
   * The root's child list after a run: the replies of every settled page are
   * appended to it, in page order.
   */
  lemma {:induction false} PaginateChildren(st: Store, root: Rpid, rs: seq<Response>, page: nat,
                                            requested: seq<nat>, result: seq<Reply>, total: int)
    ensures var r := Paginate(st, root, rs, page, requested, result, total);
      var n := Settled(r, requested);
      && 0 <= n <= |rs|
      && ChildrenOf(r.store, root) == ChildrenOf(st, root) + Stored(rs[..n])
    decreases |rs|
  {
    ConsumedBounds(st, root, rs, page, requested, result, total);
    EmptyPrefix(rs, total);
    if rs != [] {
      var n := Step(st, root, rs[0], requested + [page], result, total);
      PaginateStep(st, root, rs, page, requested, result, total);
      StepStore(st, root, rs[0], requested + [page], result, total);
      var before := ChildrenOf(st, root);
      if n.Stop? {
        if n.run.outcome != Tripped {
          StoredCons(rs, 1);
          EmptyPrefix(rs[1..], total);
          assert Stored(rs[..1]) == StoredOf(rs[0]);
        } else {
          assert before + [] == before;
        }
      } else {
        var r := Paginate(n.store, root, rs[1..], page + 1, requested + [page], n.result, n.total);
        PaginateChildren(n.store, root, rs[1..], page + 1, requested + [page], n.result, n.total);
        var k := Settled(r, requested);
        assert Settled(r, requested + [page]) == k - 1;
        var later := Stored(rs[1..][..k - 1]);
        assert ChildrenOf(r.store, root) == (before + StoredOf(rs[0])) + later;
        StoredCons(rs, k);
        Associative(before, StoredOf(rs[0]), later);
      }
    }
  }

  /**
   * The rest of the store after a run: no record appears or disappears, no
   * other child list changes, and the only record that changes is the
   * root's, whose `_child_loaded` flag is set on a finished run and
   * otherwise left alone.
   */
  lemma {:induction false} PaginateRecords(st: Store, root: Rpid, rs: seq<Response>, page: nat,
                                           requested: seq<nat>, result: seq<Reply>, total: int)
    ensures var r := Paginate(st, root, rs, page, requested, result, total);
      && r.store.keys == st.keys && r.store.info.Keys == st.info.Keys
      && (forall j :: j != root ==> ChildrenOf(r.store, j) == ChildrenOf(st, j))
      && (forall j :: j in st.info && j != root ==> r.store.info[j] == st.info[j])
      && (root in st.info ==>
            r.store.info[root] == (if r.outcome == Finished then st.info[root].(childLoaded := true) else st.info[root]))
    decreases |rs|
  {
    if rs != [] {
      var n := Step(st, root, rs[0], requested + [page], result, total);
      PaginateStep(st, root, rs, page, requested, result, total);
      StepStore(st, root, rs[0], requested + [page], result, total);
      if n.Continue? {
        PaginateRecords(n.store, root, rs[1..], page + 1, requested + [page], n.result, n.total);
      }
    }
  }

  // ---------------------------------------------------------------------
  // The whole task.

  /**
   * `downloadNestedCommentByAPI(root)`: nothing is requested for the empty
   * root or for a root whose record is already marked loaded; otherwise
   * pages are requested from 1 on, with an empty `result` and `totalCount`
   * 0.  A root without a record is paged through all the same.
   */
  function DownloadNested(st: Store, root: Rpid, rs: seq<Response>): (r: Run)
    ensures root == "" || (root in st.info && st.info[root].childLoaded) ==>
      r.outcome == Finished && r.requested == [] && r.store == st
  {
    if root == "" || (root in st.info && st.info[root].childLoaded) then Run(Finished, st, [], [], 0)
    else Paginate(st, root, rs, 1, [], [], 0)
  }

  /**
   * A nested crawl requests pages 1, 2, ... and at most one per response;
   * it never adds or removes a record, sets the root's `_child_loaded` when
   * it resolves, never clears a flag, touches no other record or child list,
   * and never lowers the failure counter.
   */
  lemma DownloadNestedKeeps(st: Store, root: Rpid, rs: seq<Response>)
    ensures var r := DownloadNested(st, root, rs);
      && |r.requested| <= |rs|
      && (forall i :: 0 <= i < |r.requested| ==> r.requested[i] == i + 1)
      && r.store.keys == st.keys && r.store.info.Keys == st.info.Keys
      && (r.outcome == Finished && root != "" && root in st.info ==> r.store.info[root].childLoaded)
      && (forall j :: j in st.info && st.info[j].childLoaded ==> r.store.info[j].childLoaded)
      && (forall j :: j in st.info && j != root ==> r.store.info[j] == st.info[j])
      && (forall j :: j != root ==> ChildrenOf(r.store, j) == ChildrenOf(st, j))
      && st.errorReplyCount <= r.store.errorReplyCount
  {
    if !(root == "" || (root in st.info && st.info[root].childLoaded)) {
      PaginateRequestsInOrder(st, root, rs, 1, [], [], 0);
      PaginateChildren(st, root, rs, 1, [], [], 0);
      PaginateRecords(st, root, rs, 1, [], [], 0);
      PaginateCountsFailures(st, root, rs, 1, [], [], 0);
    }
  }

  /** A nested crawl keeps `commentInfoMap` an insertion-ordered map. */
  lemma DownloadNestedValid(st: Store, root: Rpid, rs: seq<Response>)
    requires Valid(st)
    ensures Valid(DownloadNested(st, root, rs).store)
  {
    DownloadNestedKeeps(st, root, rs);
  }
}
