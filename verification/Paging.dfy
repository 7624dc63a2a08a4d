/**
  What both kinds of listings do with the sequences they read and return.
 */
module Paging {
  import opened Strings

  /** What a listing says about an entry it has been given. */
  datatype FilterResult = FILTER_ACCEPT | FILTER_SKIP | FILTER_END

  /** The first `maxKeys` items. */
  function Page<T>(items: seq<T>, maxKeys: int): seq<T> {
    if maxKeys <= 0 then [] else if |items| <= maxKeys then items else items[..maxKeys]
  }

  /** The first position from `p` on whose key is not less than `target`. */
  method FindFrom<E>(stream: seq<E>, keyOf: E -> Str, p: nat, target: Str) returns (q: nat)
    requires p <= |stream|
    ensures p <= q <= |stream|
    ensures forall j :: p <= j < q ==> Lt(keyOf(stream[j]), target)
    ensures q < |stream| ==> Le(target, keyOf(stream[q]))
  {
    q := p;
    while q < |stream| && Lt(keyOf(stream[q]), target)
      invariant p <= q <= |stream|
      invariant forall j :: p <= j < q ==> Lt(keyOf(stream[j]), target)
    {
      q := q + 1;
    }
  }
}
