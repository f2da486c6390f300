/** Picking the first position of a maximal key, which is what `np.argmax`,
    Python's `max(..., key=...)` and the head of a stable descending
    `sorted(..., reverse=True)` all return. */
module Select {

  /** `k` holds a maximal key and no earlier position holds one as large. */
  predicate IsFirstMax(keys: seq<real>, k: nat) {
    && k < |keys|
    && (forall i :: 0 <= i < |keys| ==> keys[i] <= keys[k])
    && (forall i :: 0 <= i < k ==> keys[i] < keys[k])
  }

  method FirstMax(keys: seq<real>) returns (k: nat)
    requires |keys| > 0
    ensures IsFirstMax(keys, k)
  {
    k := 0;
    var i := 1;
    while i < |keys|
      invariant 1 <= i <= |keys|
      invariant k < i
      invariant forall j :: 0 <= j < i ==> keys[j] <= keys[k]
      invariant forall j :: 0 <= j < k ==> keys[j] < keys[k]
    {
      if keys[i] > keys[k] {
        k := i;
      }
      i := i + 1;
    }
  }
}
