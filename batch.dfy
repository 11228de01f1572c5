/**
 * `downloadCommentsWithNestedByPage(topNum)`: make sure the store holds
 * enough top-level comments, then start one nested crawl for each of the
 * first `topNum` keys of `commentInfoMap` and wait for all of them.
 *
 * The crawls share the store and the failure counter; they are run here one
 * after the other, in key order.  The responses for the crawl of the j-th
 * root are the j-th list of `responses` (none when it is missing).
 */
module Batch {
  import opened Replies
  import opened CommentStore
  import opened Nested
  import opened TopLevel

  /** The number of roots the loop takes: `index` counts up to `maxIndex = topNum`. */
  function RootCount(size: nat, topNum: int): (n: nat)
    ensures n <= size
    ensures topNum <= 0 ==> n == 0
    ensures 0 <= topNum <= size ==> n == topNum
    ensures size <= topNum ==> n == size
  {
    if topNum <= 0 then 0 else if topNum < size then topNum else size
  }

  /** The keys the loop over `commentInfoMap.entries()` starts a crawl for. */
  function Roots(keys: seq<Rpid>, topNum: int): (roots: seq<Rpid>)
    ensures |roots| == RootCount(|keys|, topNum)
    ensures roots == keys[..|roots|]
  {
    keys[..RootCount(|keys|, topNum)]
  }

  /** The responses of the crawl for the j-th root (an empty list when none is given). */
  function ResponsesFor(responses: seq<seq<Response>>, j: nat): seq<Response>
  {
    if j < |responses| then responses[j] else []
  }

  /** The outcome of every crawl and the store after all of them. */
  datatype Tasks = Tasks(outcomes: seq<Outcome>, store: Store)

  /**
   * The crawls of `roots`, from the `from`-th response list on, one after the
   * other, each on the store the previous one left.
   */
  function RunAll(st: Store, roots: seq<Rpid>, responses: seq<seq<Response>>, from: nat): (b: Tasks)
    ensures |b.outcomes| == |roots|
    decreases |roots|
  {
    if roots == [] then Tasks([], st)
    else
      var r := DownloadNested(st, roots[0], ResponsesFor(responses, from));
      var rest := RunAll(r.store, roots[1..], responses, from + 1);
      Tasks([r.outcome] + rest.outcomes, rest.store)
  }

  /**
   * Every root is crawled once; the keys of the store never change, a loaded
   * record stays loaded, every crawl that resolved leaves its root loaded,
   * records and child lists of other keys are left alone and the failure
   * counter only grows.
   */
  lemma {:induction false} RunAllPreserves(st: Store, roots: seq<Rpid>, responses: seq<seq<Response>>, from: nat)
    ensures var b := RunAll(st, roots, responses, from);
      && b.store.keys == st.keys && b.store.info.Keys == st.info.Keys
      && (forall j :: j in st.info && st.info[j].childLoaded ==> b.store.info[j].childLoaded)
      && (forall j :: j in st.info && j !in roots ==> b.store.info[j] == st.info[j])
      && (forall j :: j !in roots ==> ChildrenOf(b.store, j) == ChildrenOf(st, j))
      && st.errorReplyCount <= b.store.errorReplyCount
      && (forall i :: 0 <= i < |roots| && b.outcomes[i] == Finished && roots[i] != "" && roots[i] in st.info ==>
            b.store.info[roots[i]].childLoaded)
    decreases |roots|
  {
    if roots != [] {
      var r := DownloadNested(st, roots[0], ResponsesFor(responses, from));
      var rest := RunAll(r.store, roots[1..], responses, from + 1);
      RunAllStep(st, roots, responses, from);
      DownloadNestedKeeps(st, roots[0], ResponsesFor(responses, from));
      RunAllPreserves(r.store, roots[1..], responses, from + 1);
      assert forall j :: j in roots[1..] ==> j in roots;
      var b := RunAll(st, roots, responses, from);
      forall i | 1 <= i < |roots| ensures b.outcomes[i] == rest.outcomes[i - 1] && roots[i] == roots[1..][i - 1] {
      }
    }
  }

  /** One crawl of the batch: the first root's, then the rest on the store it leaves. */
  lemma RunAllStep(st: Store, roots: seq<Rpid>, responses: seq<seq<Response>>, from: nat)
    requires roots != []
    ensures var r := DownloadNested(st, roots[0], ResponsesFor(responses, from));
      var rest := RunAll(r.store, roots[1..], responses, from + 1);
      RunAll(st, roots, responses, from) == Tasks([r.outcome] + rest.outcomes, rest.store)
  {
  }

  /** `await Promise.all(promiseList)` returns only when every crawl resolved. */
  function AllFinished(outcomes: seq<Outcome>): (all: bool)
    ensures outcomes == [] ==> all
    ensures all <==> Tripped !in outcomes && Stalled !in outcomes && Unanswered !in outcomes
  {
    forall i :: 0 <= i < |outcomes| ==> outcomes[i] == Finished
  }

  /** What the whole crawl leaves: whether its `await`s returned, the outcome of each crawl, the store. */
  datatype Crawl = Crawl(complete: bool, outcomes: seq<Outcome>, store: Store)

  /** The nested phase on a store: pick the roots, crawl them, wait for all. */
  function NestedPhase(st: Store, topNum: int, responses: seq<seq<Response>>): (c: Crawl)
    ensures |c.outcomes| == RootCount(|st.keys|, topNum)
    ensures c.store.keys == st.keys && c.store.info.Keys == st.info.Keys
    ensures st.errorReplyCount <= c.store.errorReplyCount
  {
    RunAllPreserves(st, Roots(st.keys, topNum), responses, 0);
    var b := RunAll(st, Roots(st.keys, topNum), responses, 0);
    Crawl(AllFinished(b.outcomes), b.outcomes, b.store)
  }

  /**
   * `downloadCommentsWithNestedByPage(topNum)`: with fewer than `topNum`
   * stored comments, the top-level crawl runs first over `events`; if it
   * never stops, the `await` never returns and no nested crawl starts.
   */
  function WithNestedByPage(st: Store, topNum: int, events: seq<Event>, responses: seq<seq<Response>>): (c: Crawl)
    requires Valid(st)
    ensures Valid(c.store)
    ensures |st.keys| <= |c.store.keys| && c.store.keys[..|st.keys|] == st.keys
    ensures topNum <= Size(st) ==> c.store.keys == st.keys
    ensures c.complete ==> |c.outcomes| == RootCount(Size(c.store), topNum)
  {
    if Size(st) < topNum then
      var top := DownloadTop(st, topNum, events);
      if top.0.finished then NestedPhase(top.1, topNum, responses)
      else Crawl(false, [], top.1)
    else NestedPhase(st, topNum, responses)
  }

  /**
   * Root selection starts exactly min(topNum, size) crawls, one per key, for
   * the first keys in insertion order, and the keys are distinct.
   */
  lemma NestedPhaseCrawlsFirstKeys(st: Store, topNum: int, responses: seq<seq<Response>>)
    requires Valid(st)
    ensures var c := NestedPhase(st, topNum, responses);
      var roots := Roots(st.keys, topNum);
      && |c.outcomes| == |roots| == RootCount(Size(st), topNum)
      && roots == st.keys[..|roots|]
      && Distinct(roots)
  {
  }

  /**
   * When the whole crawl completes, every selected root that has a record
   * (all of them, since the roots are stored keys) and a non-empty identity
   * is marked loaded, and no record was loaded before that is not now.
   */
  lemma CompleteMeansLoaded(st: Store, topNum: int, responses: seq<seq<Response>>)
    requires Valid(st)
    ensures var c := NestedPhase(st, topNum, responses);
      var roots := Roots(st.keys, topNum);
      && c.store.keys == st.keys && c.store.info.Keys == st.info.Keys
      && (c.complete ==> forall i :: 0 <= i < |roots| && roots[i] != "" ==> c.store.info[roots[i]].childLoaded)
      && (forall j :: j in st.info && st.info[j].childLoaded ==> c.store.info[j].childLoaded)
  {
    var roots := Roots(st.keys, topNum);
    RunAllPreserves(st, roots, responses, 0);
    assert forall i :: 0 <= i < |roots| ==> roots[i] in st.info by {
      forall i | 0 <= i < |roots| ensures roots[i] in st.info {
        assert roots[i] == st.keys[i];
      }
    }
  }
}
