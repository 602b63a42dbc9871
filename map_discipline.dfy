/** The discipline the device context expects of the map and unmap calls on
    one dynamic buffer: they alternate, starting with a map (no double map, no
    unmap of a buffer that is not mapped). A buffer's call history is written
    as a sequence of booleans, `true` for a map and `false` for an unmap. */
module MapDiscipline {

  /** Map, unmap, map, unmap, ... */
  ghost predicate Alternates(h: seq<bool>)
  {
    forall k :: 0 <= k < |h| ==> h[k] == (k % 2 == 0)
  }

  /** The number of maps in a call history. */
  function MapCount(h: seq<bool>): nat
    decreases |h|
  {
    if h == [] then 0 else MapCount(h[..|h| - 1]) + (if h[|h| - 1] then 1 else 0)
  }

  /** A map is allowed exactly when the buffer is not mapped (even history),
      an unmap exactly when it is (odd history). */
  lemma AlternatesExtend(h: seq<bool>, call: bool)
    requires Alternates(h)
    ensures Alternates(h + [call]) <==> (call <==> |h| % 2 == 0)
  {
    assert (h + [call])[|h|] == call;
    assert forall k :: 0 <= k < |h| ==> (h + [call])[k] == h[k];
  }

  /** The lazy-map discipline: in an alternating history, any stretch without
      an unmap holds at most one map. Between two `unmap_buffers` calls,
      however many writes target a buffer, it is mapped at most once. */
  lemma {:induction false} AtMostOneMapPerEpoch(h: seq<bool>, i: nat, j: nat)
    requires Alternates(h) && i <= j <= |h|
    requires forall k :: i <= k < j ==> h[k]
    ensures MapCount(h[i..j]) <= 1
    ensures MapCount(h[i..j]) == 1 ==> j % 2 == 1
    decreases j - i
  {
    if j > i {
      AtMostOneMapPerEpoch(h, i, j - 1);
      assert h[i..j][..j - 1 - i] == h[i..j - 1];
      assert h[j - 1] == ((j - 1) % 2 == 0);
    }
  }
}
