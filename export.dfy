/**
 * The data assembly of `downloadComments(title, maxCount, withChildren)`: the
 * records of `commentInfoMap` in insertion order, each with its de-duplicated
 * children attached when `withChildren` holds, cut to `maxCount` entries.
 * The record objects are shared between the store and the exported list, so
 * attaching the children also changes the stored records.
 */
module Export {
  import opened Replies
  import opened CommentStore
  import opened UniArr

  /**
   * `data.slice(0, end)` as JavaScript defines it: a negative end counts back
   * from the length, and the end is clamped to `0 .. |data|`.
   */
  function Slice(data: seq<Reply>, end: int): (r: seq<Reply>)
    ensures |r| == SliceLength(|data|, end)
    ensures r == data[..|r|]
  {
    data[..SliceLength(|data|, end)]
  }

  /** The number of items `slice(0, end)` keeps from a list of `len` items. */
  function SliceLength(len: nat, end: int): (n: nat)
    ensures n <= len
    ensures 0 <= end ==> n == if end < len then end else len
    ensures end < 0 ==> n == if len + end < 0 then 0 else len + end
  {
    if end < 0 then (if len + end < 0 then 0 else len + end)
    else if end < len then end
    else len
  }

  /**
   * The record exported for key `k`: with `withChildren`, its `children`
   * replaced by `uniArr(commentsListMap.get(k) || [], 'rpid')`.
   */
  function Row(st: Store, k: Rpid, withChildren: bool): (row: Reply)
    requires k in st.info
    ensures row == st.info[k].(children := row.children)
    ensures !withChildren ==> row == st.info[k]
  {
    if withChildren then st.info[k].(children := Dedup(ChildrenOf(st, k))) else st.info[k]
  }

  /** The records in insertion order, before the cut. */
  function Rows(st: Store, withChildren: bool): (rows: seq<Reply>)
    requires Valid(st)
    ensures |rows| == |st.keys|
    ensures forall i :: 0 <= i < |rows| ==> rows[i] == st.info[st.keys[i]].(children := rows[i].children)
  {
    seq(|st.keys|, i requires 0 <= i < |st.keys| => Row(st, st.keys[i], withChildren))
  }

  /** The store after the export: every record carries its attached children. */
  function Attached(st: Store, withChildren: bool): (r: Store)
    requires Valid(st)
    ensures Valid(r)
    ensures r.keys == st.keys && r.info.Keys == st.info.Keys
    ensures r.lists == st.lists && r.errorReplyCount == st.errorReplyCount
  {
    st.(info := map k | k in st.info :: Row(st, k, withChildren))
  }

  /** `data` once the first `n` records have been pushed. */
  function RowsFirst(st: Store, n: nat, withChildren: bool): (rows: seq<Reply>)
    requires Valid(st) && n <= |st.keys|
    ensures |rows| == n
  {
    if n == 0 then [] else RowsFirst(st, n - 1, withChildren) + [Row(st, st.keys[n - 1], withChildren)]
  }

  /** The pushed records are the first `n` rows of the export, in key order. */
  lemma {:induction false} RowsFirstIsPrefix(st: Store, n: nat, withChildren: bool)
    requires Valid(st) && n <= |st.keys|
    ensures RowsFirst(st, n, withChildren) == Rows(st, withChildren)[..n]
  {
    if n > 0 {
      RowsFirstIsPrefix(st, n - 1, withChildren);
      assert Rows(st, withChildren)[..n] == Rows(st, withChildren)[..n - 1] + [Rows(st, withChildren)[n - 1]];
    }
  }

  /** `commentInfoMap` once the first `n` records have had their children attached. */
  function AttachFirst(st: Store, n: nat, withChildren: bool): map<Rpid, Reply>
    requires Valid(st) && n <= |st.keys|
  {
    if n == 0 then st.info
    else AttachFirst(st, n - 1, withChildren)[st.keys[n - 1] := Row(st, st.keys[n - 1], withChildren)]
  }

  /** Attaching children replaces records and adds none. */
  lemma {:induction false} AttachFirstKeys(st: Store, n: nat, withChildren: bool)
    requires Valid(st) && n <= |st.keys|
    ensures AttachFirst(st, n, withChildren).Keys == st.info.Keys
  {
    if n > 0 {
      AttachFirstKeys(st, n - 1, withChildren);
    }
  }

  /** After `n` steps, the record of the `m`-th key carries its children exactly when `m < n`. */
  lemma {:induction false} AttachFirstAt(st: Store, n: nat, withChildren: bool, m: nat)
    requires Valid(st) && n <= |st.keys| && m < |st.keys|
    ensures st.keys[m] in AttachFirst(st, n, withChildren)
    ensures AttachFirst(st, n, withChildren)[st.keys[m]] ==
      if m < n then Row(st, st.keys[m], withChildren) else st.info[st.keys[m]]
  {
    AttachFirstKeys(st, n, withChildren);
    if n > 0 && m != n - 1 {
      assert st.keys[m] != st.keys[n - 1];
      AttachFirstAt(st, n - 1, withChildren, m);
    }
  }

  /** Without `withChildren` no record is replaced. */
  lemma {:induction false} AttachFirstWithoutChildren(st: Store, n: nat)
    requires Valid(st) && n <= |st.keys|
    ensures AttachFirst(st, n, false) == st.info
  {
    if n > 0 {
      AttachFirstWithoutChildren(st, n - 1);
      assert st.keys[n - 1] in st.info;
    }
  }

  /** Once every key has been visited, the map is the one of `Attached`. */
  lemma AttachFirstAll(st: Store, withChildren: bool)
    requires Valid(st)
    ensures AttachFirst(st, |st.keys|, withChildren) == Attached(st, withChildren).info
  {
    var done := AttachFirst(st, |st.keys|, withChildren);
    AttachFirstKeys(st, |st.keys|, withChildren);
    forall k | k in st.info ensures done[k] == Row(st, k, withChildren) {
      var m :| 0 <= m < |st.keys| && st.keys[m] == k;
      AttachFirstAt(st, |st.keys|, withChildren, m);
    }
  }

  /**
   * The loop of the export: each record in insertion order gets its
   * de-duplicated children (when asked for) and is pushed onto `data`.
   */
  method AttachAll(st: Store, withChildren: bool) returns (info: map<Rpid, Reply>, rows: seq<Reply>)
    requires Valid(st)
    ensures st.(info := info) == Attached(st, withChildren)
    ensures rows == Rows(st, withChildren)
  {
    info := st.info;
    rows := [];
    var i := 0;
    while i < |st.keys|
      invariant 0 <= i <= |st.keys|
      invariant info == AttachFirst(st, i, withChildren)
      invariant rows == RowsFirst(st, i, withChildren)
    {
      AttachFirstAt(st, i, withChildren, i);
      var key := st.keys[i];
      var reply := info[key];
      if withChildren {
        var children := UniArr.UniArr(ChildrenOf(st, key));
        reply := reply.(children := children);
        info := info[key := reply];
      } else {
        AttachFirstWithoutChildren(st, i + 1);
      }
      rows := rows + [reply];
      i := i + 1;
    }
    RowsFirstIsPrefix(st, |st.keys|, withChildren);
    assert Rows(st, withChildren)[..|st.keys|] == Rows(st, withChildren);
    AttachFirstAll(st, withChildren);
  }

  /** The exported list: `data.slice(0, maxCount)`. */
  function Exported(st: Store, maxCount: int, withChildren: bool): (data: seq<Reply>)
    requires Valid(st)
    ensures |data| == SliceLength(Size(st), maxCount)
    ensures data == Rows(st, withChildren)[..|data|]
  {
    Slice(Rows(st, withChildren), maxCount)
  }

  /**
   * The exported list holds min(maxCount, size) records for a non-negative
   * `maxCount` (a negative one drops that many from the end), and they are
   * the stored records in insertion order.
   */
  lemma ExportedInStoreOrder(st: Store, maxCount: int, withChildren: bool)
    requires Valid(st)
    ensures var data := Exported(st, maxCount, withChildren);
      && |data| == SliceLength(Size(st), maxCount)
      && (0 <= maxCount ==> |data| == if maxCount < Size(st) then maxCount else Size(st))
      && forall i :: 0 <= i < |data| ==>
           var stored := st.info[st.keys[i]];
           && data[i].rpid == stored.rpid
           && data[i].childLoaded == stored.childLoaded
           && data[i].content == stored.content
  {
  }

  /** Without `withChildren` the exported records are the stored ones, untouched. */
  lemma ExportedWithoutChildren(st: Store, maxCount: int)
    requires Valid(st)
    ensures var data := Exported(st, maxCount, false);
      forall i :: 0 <= i < |data| ==> data[i] == st.info[st.keys[i]]
    ensures Attached(st, false) == st
  {
    var a := Attached(st, false);
    assert a.info == st.info;
  }

  /**
   * With `withChildren` every exported record's children are its stored child
   * list without repeated identities, keeping every identity: each kept
   * child is the first one stored under its identity, and the kept children
   * appear in the order their identities were first seen; the list is empty when nothing is stored for the record.
   */
  lemma ExportedChildren(st: Store, maxCount: int, i: int)
    requires Valid(st)
    requires 0 <= i < |Exported(st, maxCount, true)|
    ensures var data := Exported(st, maxCount, true);
      var k := st.keys[i];
      && UniqueKeys(data[i].children)
      && KeysOf(data[i].children) == KeysOf(ChildrenOf(st, k))
      && (forall j :: 0 <= j < |data[i].children| ==> data[i].children[j] in ChildrenOf(st, k))
      && (forall j :: 0 <= j < |data[i].children| ==>
            data[i].children[j].rpid in KeysOf(ChildrenOf(st, k)) &&
            data[i].children[j] == ChildrenOf(st, k)[FirstIndex(ChildrenOf(st, k), data[i].children[j].rpid)])
      && (forall j, j' :: 0 <= j < j' < |data[i].children| ==>
            FirstIndex(ChildrenOf(st, k), data[i].children[j].rpid) < FirstIndex(ChildrenOf(st, k), data[i].children[j'].rpid))
      && (k !in st.lists ==> data[i].children == [])
      && (UniqueKeys(ChildrenOf(st, k)) ==> data[i].children == ChildrenOf(st, k))
  {
    var k := st.keys[i];
    var children := ChildrenOf(st, k);
    DedupUnique(children);
    DedupKeys(children);
    DedupKeepsFirst(children);
    if UniqueKeys(children) {
      DedupOfUnique(children);
    }
  }

  /**
   * Exporting twice gives the same list: the second export attaches the
   * same de-duplicated child lists again, over the ones the first attached.
   */
  lemma ExportIsRepeatable(st: Store, maxCount: int, withChildren: bool)
    requires Valid(st)
    ensures Attached(Attached(st, withChildren), withChildren) == Attached(st, withChildren)
    ensures Exported(Attached(st, withChildren), maxCount, withChildren) == Exported(st, maxCount, withChildren)
  {
    var a := Attached(st, withChildren);
    assert Valid(a);
    assert forall k :: k in st.info ==> Row(a, k, withChildren) == Row(st, k, withChildren);
    assert Attached(a, withChildren).info == a.info;
    assert Rows(a, withChildren) == Rows(st, withChildren);
  }
}
