/**
 * A Ruby `Hash` from header names to header values as the dispatcher uses
 * its response headers: keys are unique, iteration follows insertion order,
 * and `h[k] = v` overwrites an existing key in place or appends a new one.
 */
module Hashes {
  import opened Wrappers

  type Entry = (string, string)

  predicate UniqueKeys(h: seq<Entry>) {
    forall i, j :: 0 <= i < j < |h| ==> h[i].0 != h[j].0
  }

  type Hash = h: seq<Entry> | UniqueKeys(h)

  /** The position of key `k` in `h`, or `|h|` when `k` is absent. */
  function KeyIndex(h: seq<Entry>, k: string): (i: nat)
    ensures i <= |h|
    ensures i < |h| ==> h[i].0 == k
    ensures forall j :: 0 <= j < i ==> h[j].0 != k
  {
    if h == [] then 0
    else if h[0].0 == k then 0
    else 1 + KeyIndex(h[1..], k)
  }

  predicate HasKey(h: seq<Entry>, k: string) {
    exists i :: 0 <= i < |h| && h[i].0 == k
  }

  /** `h[k]`: the value stored under `k`, or nothing. */
  function Get(h: Hash, k: string): (r: Option<string>)
    ensures r.Some? <==> HasKey(h, k)
    ensures r.Some? ==> (k, r.value) in h
    ensures forall v :: (k, v) in h ==> r == Some(v)
  {
    var i := KeyIndex(h, k);
    if i < |h| then Some(h[i].1) else None
  }

  /** The entry `h[k] = v` appends: none when `k` is already present. */
  function Added(h: seq<Entry>, k: string, v: string): seq<Entry> {
    if HasKey(h, k) then [] else [(k, v)]
  }

  /** `h[k] = v`. */
  function Store(h: Hash, k: string, v: string): (r: Hash)
    ensures Get(r, k) == Some(v)
    ensures forall k' :: k' != k ==> Get(r, k') == Get(h, k')
    ensures HasKey(h, k) ==> |r| == |h|
    ensures !HasKey(h, k) ==> r == h + [(k, v)]
    ensures forall i :: 0 <= i < |h| ==> r[i].0 == h[i].0
    ensures forall i :: 0 <= i < |h| && h[i].0 != k ==> r[i] == h[i]
    ensures |h| <= |r| && r[|h|..] == Added(h, k, v)
  {
    var i := KeyIndex(h, k);
    if i < |h| then
      StoreInPlace(h, i, k, v);
      h[i := (k, v)]
    else
      StoreAppended(h, k, v);
      h + [(k, v)]
  }

  /** Entries from position `n` on that do not hold `k` survive `h[k] = v` unchanged, followed by what it appends. */
  lemma StoreTail(h: Hash, k: string, v: string, n: nat)
    requires n <= |h| && forall i :: n <= i < |h| ==> h[i].0 != k
    ensures Store(h, k, v)[n..] == h[n..] + Added(h, k, v)
  {
    var r := Store(h, k, v);
    assert r[n..|h|] == h[n..];
    assert r[n..] == r[n..|h|] + r[|h|..];
  }

  /** Storing under a present key replaces its entry where it stands. */
  lemma StoreInPlace(h: Hash, i: nat, k: string, v: string)
    requires i < |h| && h[i].0 == k
    ensures var r := h[i := (k, v)];
      && UniqueKeys(r)
      && Get(r, k) == Some(v)
      && (forall k' :: k' != k ==> Get(r, k') == Get(h, k'))
      && HasKey(h, k) && r[|h|..] == [] == Added(h, k, v)
  {
    var r := h[i := (k, v)];
    assert UniqueKeys(r);
    assert r[i] == (k, v);
    forall k' | k' != k ensures Get(r, k') == Get(h, k') {
      var j := KeyIndex(h, k');
      if j < |h| {
        assert r[j] == h[j];
      }
    }
  }

  /** Storing under an absent key appends one entry. */
  lemma StoreAppended(h: Hash, k: string, v: string)
    requires KeyIndex(h, k) == |h|
    ensures var r := h + [(k, v)];
      && UniqueKeys(r)
      && Get(r, k) == Some(v)
      && (forall k' :: k' != k ==> Get(r, k') == Get(h, k'))
      && !HasKey(h, k) && r[|h|..] == [(k, v)] == Added(h, k, v)
  {
    var r := h + [(k, v)];
    assert UniqueKeys(r);
    assert r[|h|] == (k, v);
    forall k' | k' != k ensures Get(r, k') == Get(h, k') {
      var j := KeyIndex(h, k');
      if j < |h| {
        assert r[j] == h[j];
      }
    }
  }
}
