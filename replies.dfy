/**
 * The reply records the crawler stores and exports.  A reply is identified by
 * its `rpid`; the rest of the record (author, text, time, ...) is opaque to the
 * crawl bookkeeping and kept as `content`.
 */
module Replies {

  /** A comment identity.  The empty string plays the falsy `''` root. */
  type Rpid = string

  /**
   * One reply record: `childLoaded` is the `_child_loaded` flag set once its
   * nested replies have been paged through, `children` the list attached to it
   * at export time.
   */
  datatype Reply = Reply(rpid: Rpid, childLoaded: bool, children: seq<Reply>, content: string)

  /** The identities occurring in a list of replies. */
  function KeysOf(s: seq<Reply>): set<Rpid>
  {
    set r | r in s :: r.rpid
  }

  /** No two replies of the list share an identity. */
  predicate UniqueKeys(s: seq<Reply>)
  {
    forall i, j :: 0 <= i < j < |s| ==> s[i].rpid != s[j].rpid
  }

  /** No identity occurs twice in a list of identities. */
  predicate Distinct(s: seq<Rpid>)
  {
    forall i, j :: 0 <= i < j < |s| ==> s[i] != s[j]
  }

  lemma KeysOfSnoc(s: seq<Reply>, x: Reply)
    ensures KeysOf(s + [x]) == KeysOf(s) + {x.rpid}
  {
    assert forall r :: r in s + [x] <==> r in s || r == x;
  }

  lemma KeysOfFirst(s: seq<Reply>)
    requires s != []
    ensures KeysOf(s) == {s[0].rpid} + KeysOf(s[1..])
  {
    assert forall r :: r in s <==> r == s[0] || r in s[1..];
  }

  lemma KeysOfIndex(s: seq<Reply>, i: int)
    requires 0 <= i < |s|
    ensures s[i].rpid in KeysOf(s)
  {
    assert s[i] in s;
  }
}
