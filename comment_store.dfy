/**
 * The crawl session's shared store as a value: `commentInfoMap` (an
 * insertion-ordered `Map` from rpid to reply record, kept here as its key
 * order plus a map), `commentsListMap` (rpid to the child list gathered for
 * it) and the shared failure counter `global_data.errorReplyCount`.
 */
module CommentStore {
  import opened Replies

  datatype Store = Store(
    keys: seq<Rpid>,                // iteration order of commentInfoMap
    info: map<Rpid, Reply>,         // commentInfoMap
    lists: map<Rpid, seq<Reply>>,   // commentsListMap
    errorReplyCount: int)           // global_data.errorReplyCount

  /** An insertion-ordered map: each key once in the order, and exactly the map's keys. */
  ghost predicate Valid(st: Store)
  {
    Distinct(st.keys) && forall k :: k in st.info <==> k in st.keys
  }

  /** `commentInfoMap.size` */
  function Size(st: Store): nat
  {
    |st.keys|
  }

  /**
   * `commentInfoMap.set(k, v)`: a new key goes to the end of the iteration
   * order, an existing key keeps its place and only its value changes.
   */
  function Set(st: Store, k: Rpid, v: Reply): (r: Store)
    requires Valid(st)
    ensures Valid(r)
    ensures |r.keys| == if k in st.info then |st.keys| else |st.keys| + 1
    ensures r.keys[..|st.keys|] == st.keys
    ensures r.info.Keys == st.info.Keys + {k} && r.info[k] == v
    ensures forall j :: j in st.info && j != k ==> j in r.info && r.info[j] == st.info[j]
    ensures r.lists == st.lists && r.errorReplyCount == st.errorReplyCount
  {
    if k in st.info then st.(info := st.info[k := v])
    else
      var r := st.(keys := st.keys + [k], info := st.info[k := v]);
      assert r.keys[..|st.keys|] == st.keys;
      r
  }

  /** `commentsListMap.get(k) || []` */
  function ChildrenOf(st: Store, k: Rpid): seq<Reply>
  {
    if k in st.lists then st.lists[k] else []
  }

  /**
   * Net effect of `onNestedReply` (its source is not part of this model): the
   * replies of a nested page are added to the child list of their root.
   */
  function OnNestedReply(st: Store, root: Rpid, replies: seq<Reply>): (r: Store)
    ensures ChildrenOf(r, root) == ChildrenOf(st, root) + replies
    ensures forall j :: j != root ==> ChildrenOf(r, j) == ChildrenOf(st, j)
    ensures r.keys == st.keys && r.info == st.info && r.errorReplyCount == st.errorReplyCount
  {
    st.(lists := st.lists[root := ChildrenOf(st, root) + replies])
  }

  /**
   * The completion step of a nested crawl: when the root has a record, its
   * `_child_loaded` flag is set and the record is written back in place.
   */
  function MarkLoaded(st: Store, root: Rpid): (r: Store)
    ensures r.keys == st.keys && r.info.Keys == st.info.Keys
    ensures root in st.info ==> r.info[root] == st.info[root].(childLoaded := true)
    ensures forall j :: j in st.info && j != root ==> r.info[j] == st.info[j]
    ensures root !in st.info ==> r == st
    ensures r.lists == st.lists && r.errorReplyCount == st.errorReplyCount
  {
    if root in st.info then st.(info := st.info[root := st.info[root].(childLoaded := true)]) else st
  }

  /** Every reply of the list written into commentInfoMap under its rpid, in list order. */
  function SetAll(st: Store, replies: seq<Reply>): (r: Store)
    requires Valid(st)
    ensures Valid(r)
    ensures r.lists == st.lists && r.errorReplyCount == st.errorReplyCount
    decreases |replies|
  {
    if replies == [] then st
    else SetAll(Set(st, replies[0].rpid, replies[0]), replies[1..])
  }

  /**
   * Writing replies into the store keeps it well formed, keeps the earlier
   * keys in their places, adds every written identity, and changes nothing
   * else.
   */
  lemma {:induction false} SetAllGrows(st: Store, replies: seq<Reply>)
    requires Valid(st)
    ensures var r := SetAll(st, replies);
      && Valid(r)
      && |st.keys| <= |r.keys| && r.keys[..|st.keys|] == st.keys
      && r.lists == st.lists && r.errorReplyCount == st.errorReplyCount
    decreases |replies|
  {
    if replies != [] {
      var st1 := Set(st, replies[0].rpid, replies[0]);
      SetAllGrows(st1, replies[1..]);
      var r := SetAll(st, replies);
      assert r.keys[..|st1.keys|][..|st.keys|] == r.keys[..|st.keys|];
    }
  }

  /** Writing replies into the store adds exactly their identities to its keys. */
  lemma {:induction false} SetAllKeys(st: Store, replies: seq<Reply>)
    requires Valid(st)
    ensures SetAll(st, replies).info.Keys == st.info.Keys + KeysOf(replies)
    decreases |replies|
  {
    if replies != [] {
      var st1 := Set(st, replies[0].rpid, replies[0]);
      SetAllKeys(st1, replies[1..]);
      KeysOfFirst(replies);
    }
  }

  /**
   * Replies whose identities are new to the store and distinct from each
   * other grow `commentInfoMap.size` by exactly their number.
   */
  lemma {:induction false} SetAllFresh(st: Store, replies: seq<Reply>)
    requires Valid(st)
    requires UniqueKeys(replies)
    requires forall x :: x in replies ==> x.rpid !in st.info
    ensures Size(SetAll(st, replies)) == Size(st) + |replies|
    decreases |replies|
  {
    if replies != [] {
      var st1 := Set(st, replies[0].rpid, replies[0]);
      forall x | x in replies[1..] ensures x.rpid !in st1.info {
        var i :| 0 <= i < |replies[1..]| && replies[1..][i] == x;
        assert replies[i + 1] == x;
      }
      SetAllFresh(st1, replies[1..]);
    }
  }
}
