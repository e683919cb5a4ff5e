/**
 * The key index (`keyToBundleMap`): every key of every configured bundle's
 * en_US file, mapped to the bundle that defines it.
 */
module KeyIndex {
  import opened Catalog

  /** Bundle `b` lists key `k` in its en_US file. */
  predicate Lists(msgs: Messages, b: BundleId, k: MessageKey) {
    b in msgs.keys && k in msgs.keys[b]
  }

  /** Every bundle of `bs` can be loaded. */
  predicate Loadable(msgs: Messages, bs: seq<BundleId>) {
    forall i :: 0 <= i < |bs| ==> bs[i] in msgs.keys
  }

  /**
   * `put(key, b)` for each key of `ks` in turn: the keys of `ks` now belong
   * to `b`, every other entry is kept.
   */
  function AddKeys(m: map<MessageKey, BundleId>, b: BundleId, ks: seq<MessageKey>): (r: map<MessageKey, BundleId>)
    ensures forall k :: k in r <==> k in m || k in ks
    ensures forall k :: k in r ==> r[k] == if k in ks then b else m[k]
  {
    if ks == [] then m
    else
      var m' := AddKeys(m, b, ks[..|ks| - 1]);
      assert forall k :: k in ks <==> k in ks[..|ks| - 1] || k == ks[|ks| - 1] by {
        assert ks == ks[..|ks| - 1] + [ks[|ks| - 1]];
      }
      m'[ks[|ks| - 1] := b]
  }

  /** The index after the bundles `bs` have been added in order. */
  function BuildIndex(msgs: Messages, bs: seq<BundleId>): (r: map<MessageKey, BundleId>)
    requires Loadable(msgs, bs)
    ensures forall k :: k in r ==> r[k] in bs && Lists(msgs, r[k], k)
  {
    if bs == [] then map[]
    else
      var n := |bs| - 1;
      assert forall x :: x in bs[..n] ==> x in bs;
      AddKeys(BuildIndex(msgs, bs[..n]), bs[n], msgs.keys[bs[n]])
  }

  /** A key is in the index exactly when some configured bundle lists it. */
  lemma {:induction false} BuildIndexDomain(msgs: Messages, bs: seq<BundleId>, k: MessageKey)
    requires Loadable(msgs, bs)
    ensures k in BuildIndex(msgs, bs) <==> exists i :: 0 <= i < |bs| && Lists(msgs, bs[i], k)
  {
    var r := BuildIndex(msgs, bs);
    if k in r {
      var i :| 0 <= i < |bs| && bs[i] == r[k];
      assert Lists(msgs, bs[i], k);
    }
    if exists i :: 0 <= i < |bs| && Lists(msgs, bs[i], k) {
      var i :| 0 <= i < |bs| && Lists(msgs, bs[i], k);
      BuildIndexListed(msgs, bs, i, k);
    }
  }

  /** A key listed by one of the bundles is in the index. */
  lemma {:induction false} BuildIndexListed(msgs: Messages, bs: seq<BundleId>, i: nat, k: MessageKey)
    requires Loadable(msgs, bs)
    requires i < |bs| && Lists(msgs, bs[i], k)
    ensures k in BuildIndex(msgs, bs)
  {
    var n := |bs| - 1;
    if i < n {
      var init := bs[..n];
      assert init[i] == bs[i];
      BuildIndexListed(msgs, init, i, k);
    }
  }

  /** `bs[i]` is the last bundle of `bs` that lists `k`. */
  predicate LastLister(msgs: Messages, bs: seq<BundleId>, i: int, k: MessageKey) {
    0 <= i < |bs| && Lists(msgs, bs[i], k) && forall j :: i < j < |bs| ==> !Lists(msgs, bs[j], k)
  }

  /** The last lister stays the last one when a bundle that does not list the key is appended. */
  lemma LastListerSnoc(msgs: Messages, bs: seq<BundleId>, i: int, k: MessageKey)
    requires bs != [] && !Lists(msgs, bs[|bs| - 1], k)
    requires LastLister(msgs, bs[..|bs| - 1], i, k)
    ensures LastLister(msgs, bs, i, k)
  {
    var n := |bs| - 1;
    forall j | i < j < |bs| ensures !Lists(msgs, bs[j], k) {
      if j < n { assert bs[j] == bs[..n][j]; }
    }
  }

  /**
   * A key of the index belongs to the last bundle of `bs` that lists it: a
   * later `put` overwrites an earlier one.
   */
  lemma {:induction false} BuildIndexOwner(msgs: Messages, bs: seq<BundleId>, k: MessageKey)
    requires Loadable(msgs, bs)
    requires k in BuildIndex(msgs, bs)
    ensures exists i :: LastLister(msgs, bs, i, k) && BuildIndex(msgs, bs)[k] == bs[i]
  {
    var n := |bs| - 1;
    var r := BuildIndex(msgs, bs);
    if Lists(msgs, bs[n], k) {
      assert r[k] == bs[n] && LastLister(msgs, bs, n, k);
    } else {
      var init := bs[..n];
      BuildIndexStep(msgs, bs, n);
      assert bs[..n + 1] == bs;
      var prev := BuildIndex(msgs, init);
      assert k in prev && r[k] == prev[k];
      BuildIndexOwner(msgs, init, k);
      var i :| LastLister(msgs, init, i, k) && prev[k] == init[i];
      LastListerSnoc(msgs, bs, i, k);
      assert r[k] == bs[i];
    }
  }

  /**
   * The position of the first bundle that cannot be loaded, or |bs| when all
   * can: the loop of `initService` stops there with a LocalizationException.
   */
  function FirstUnloadable(msgs: Messages, bs: seq<BundleId>): (n: nat)
    ensures n <= |bs|
    ensures Loadable(msgs, bs[..n])
    ensures n < |bs| ==> bs[n] !in msgs.keys
  {
    if bs == [] || bs[0] !in msgs.keys then 0
    else
      var n := 1 + FirstUnloadable(msgs, bs[1..]);
      assert forall i :: 1 <= i < n ==> bs[..n][i] == bs[1..][..n - 1][i - 1];
      n
  }

  /** The bundle loop goes on past position `i` exactly when `i` is before the first unloadable bundle. */
  lemma FirstUnloadableAt(msgs: Messages, bs: seq<BundleId>, i: nat)
    requires i <= FirstUnloadable(msgs, bs) && i < |bs|
    ensures bs[i] in msgs.keys <==> i < FirstUnloadable(msgs, bs)
  {
    var n := FirstUnloadable(msgs, bs);
    if i < n {
      assert bs[..n][i] == bs[i];
    }
  }

  /** One step of the bundle loop. */
  lemma BuildIndexStep(msgs: Messages, bs: seq<BundleId>, i: nat)
    requires i < |bs| && Loadable(msgs, bs[..i + 1])
    ensures Loadable(msgs, bs[..i])
    ensures BuildIndex(msgs, bs[..i + 1]) == AddKeys(BuildIndex(msgs, bs[..i]), bs[i], msgs.keys[bs[i]])
  {
    assert bs[..i + 1][..i] == bs[..i];
    assert forall j :: 0 <= j < i ==> bs[..i][j] == bs[..i + 1][j];
  }
}
