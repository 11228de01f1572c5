/**
 * `uniArr(list, 'rpid')`: de-duplicate a list of replies by identity, keeping
 * the first occurrence of every identity and the relative order of the list.
 */
module UniArr {
  import opened Replies

  /**
   * The reference definition: the de-duplicated prefix grows by the next item
   * exactly when its identity has not been seen yet.
   */
  function Dedup(s: seq<Reply>): seq<Reply>
    decreases |s|
  {
    if s == [] then []
    else
      var kept := Dedup(s[..|s| - 1]);
      if s[|s| - 1].rpid in KeysOf(kept) then kept else kept + [s[|s| - 1]]
  }

  /** The position of the first reply of `s` whose identity is `k`. */
  function FirstIndex(s: seq<Reply>, k: Rpid): (i: nat)
    requires k in KeysOf(s)
    ensures i < |s| && s[i].rpid == k
    ensures forall j :: 0 <= j < i ==> s[j].rpid != k
    decreases |s|
  {
    var p := s[..|s| - 1];
    assert s == p + [s[|s| - 1]];
    KeysOfSnoc(p, s[|s| - 1]);
    if k in KeysOf(p) then FirstIndex(p, k)
    else
      assert forall j :: 0 <= j < |p| ==> p[j].rpid in KeysOf(p) by {
        forall j | 0 <= j < |p| { KeysOfIndex(p, j); }
      }
      |s| - 1
  }

  /** Appending a reply does not move the first position of an identity already present. */
  lemma FirstIndexSnoc(p: seq<Reply>, x: Reply, k: Rpid)
    requires k in KeysOf(p)
    ensures k in KeysOf(p + [x]) && FirstIndex(p + [x], k) == FirstIndex(p, k)
  {
    KeysOfSnoc(p, x);
    assert (p + [x])[..|p + [x]| - 1] == p;
  }

  /**
   * The loop of `uniArr`: a `seen` set (the object `map` of the source) and
   * the result list, filled in one pass.
   */
  method UniArr(list: seq<Reply>) returns (result: seq<Reply>)
    ensures result == Dedup(list)
  {
    var seen: set<Rpid> := {};
    result := [];
    var i := 0;
    while i < |list|
      invariant 0 <= i <= |list|
      invariant result == Dedup(list[..i])
      invariant seen == KeysOf(result)
    {
      var item := list[i];
      assert list[..i + 1][..i] == list[..i];
      if item.rpid !in seen {
        KeysOfSnoc(result, item);
        result := result + [item];
        seen := seen + {item.rpid};
      }
      i := i + 1;
    }
    assert list[..|list|] == list;
  }

  /** Every identity of the input survives, and no other appears. */
  lemma {:induction false} DedupKeys(s: seq<Reply>)
    ensures KeysOf(Dedup(s)) == KeysOf(s)
    decreases |s|
  {
    if s != [] {
      var p, x := s[..|s| - 1], s[|s| - 1];
      assert s == p + [x];
      DedupKeys(p);
      KeysOfSnoc(p, x);
      if x.rpid !in KeysOf(Dedup(p)) {
        KeysOfSnoc(Dedup(p), x);
      }
    }
  }

  /** No two kept replies share an identity. */
  lemma {:induction false} DedupUnique(s: seq<Reply>)
    ensures UniqueKeys(Dedup(s))
    decreases |s|
  {
    if s != [] {
      var p, x := s[..|s| - 1], s[|s| - 1];
      DedupUnique(p);
      var kept := Dedup(p);
      if x.rpid !in KeysOf(kept) {
        forall i | 0 <= i < |kept| ensures kept[i].rpid != x.rpid {
          KeysOfIndex(kept, i);
        }
      }
    }
  }

  /**
   * Each kept reply is the first input reply with its identity, and the kept
   * replies appear in the order of those first positions: the result is a
   * subsequence of the input.
   */
  lemma {:induction false} DedupKeepsFirst(s: seq<Reply>)
    ensures forall i :: 0 <= i < |Dedup(s)| ==>
      Dedup(s)[i].rpid in KeysOf(s) && Dedup(s)[i] == s[FirstIndex(s, Dedup(s)[i].rpid)]
    ensures forall i, j :: 0 <= i < j < |Dedup(s)| ==>
      FirstIndex(s, Dedup(s)[i].rpid) < FirstIndex(s, Dedup(s)[j].rpid)
    decreases |s|
  {
    if s != [] {
      var p, x := s[..|s| - 1], s[|s| - 1];
      assert s == p + [x];
      KeysOfSnoc(p, x);
      DedupKeepsFirst(p);
      DedupKeys(p);
      var kept, d := Dedup(p), Dedup(s);
      forall i | 0 <= i < |kept| ensures FirstIndex(s, kept[i].rpid) == FirstIndex(p, kept[i].rpid) {
        FirstIndexSnoc(p, x, kept[i].rpid);
      }
      if x.rpid !in KeysOf(kept) {
        assert d == kept + [x];
        assert FirstIndex(s, x.rpid) == |s| - 1;
      }
    }
  }

  /** A list without repeated identities is its own de-duplication. */
  lemma {:induction false} DedupOfUnique(s: seq<Reply>)
    requires UniqueKeys(s)
    ensures Dedup(s) == s
    decreases |s|
  {
    if s != [] {
      var p, x := s[..|s| - 1], s[|s| - 1];
      assert s == p + [x];
      DedupOfUnique(p);
    }
  }

  /** `uniArr` applied to its own output returns that output. */
  lemma DedupIdempotent(s: seq<Reply>)
    ensures Dedup(Dedup(s)) == Dedup(s)
  {
    DedupUnique(s);
    DedupOfUnique(Dedup(s));
  }
}
