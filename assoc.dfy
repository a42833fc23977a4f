/**
 * A JavaScript `Map<string, V>` as an insertion-ordered association list:
 * `set` on a present key replaces the value in place, on an absent key it
 * appends; iteration follows the list.
 */
module AssocList {
  import opened Wrappers

  type Assoc<V> = seq<(string, V)>

  /** Position of key `k`, if present. */
  function Find<V>(m: Assoc<V>, k: string): (r: Option<nat>)
    ensures r.Some? ==> r.value < |m| && m[r.value].0 == k
    ensures r.Some? ==> forall j :: 0 <= j < r.value ==> m[j].0 != k
    ensures r.None? ==> forall j :: 0 <= j < |m| ==> m[j].0 != k
    decreases |m|
  {
    if |m| == 0 then None
    else if m[0].0 == k then Some(0)
    else match Find(m[1..], k)
      case None => None
      case Some(i) => Some(i + 1)
  }

  /** `map.has(k)`. */
  predicate Has<V>(m: Assoc<V>, k: string) {
    Find(m, k).Some?
  }

  /** `map.get(k)`, `None` standing for `undefined`. */
  function Get<V>(m: Assoc<V>, k: string): Option<V> {
    match Find(m, k)
    case None => None
    case Some(i) => Some(m[i].1)
  }

  /** `map.set(k, v)`. */
  function Set<V>(m: Assoc<V>, k: string, v: V): Assoc<V> {
    match Find(m, k)
    case None => m + [(k, v)]
    case Some(i) => m[i := (k, v)]
  }

  function Keys<V>(m: Assoc<V>): (r: seq<string>)
    ensures |r| == |m| && forall i :: 0 <= i < |m| ==> r[i] == m[i].0
  {
    seq(|m|, i requires 0 <= i < |m| => m[i].0)
  }

  predicate UniqueKeys<V>(m: Assoc<V>) {
    forall i, j :: 0 <= i < j < |m| ==> m[i].0 != m[j].0
  }

  lemma HasIffGet<V>(m: Assoc<V>, k: string)
    ensures Has(m, k) <==> Get(m, k).Some?
    ensures Has(m, k) <==> exists i :: 0 <= i < |m| && m[i].0 == k
  {
  }

  /** After `set(k, v)`, `get(k)` is `v` and every other key reads as before. */
  lemma SetGet<V>(m: Assoc<V>, k: string, v: V, k': string)
    ensures Get(Set(m, k, v), k') == if k' == k then Some(v) else Get(m, k')
  {
    var m' := Set(m, k, v);
    match Find(m, k)
    case None =>
      assert forall j :: 0 <= j < |m| ==> m'[j] == m[j];
      assert m'[|m|].0 == k;
      if k' != k {
        match Find(m, k')
        case None =>
        case Some(i) => assert m'[i].0 == k';
      }
    case Some(i) =>
      assert m'[i].0 == k;
      assert forall j :: 0 <= j < |m| && j != i ==> m'[j] == m[j];
      if k' != k {
        match Find(m, k')
        case None =>
          assert forall j :: 0 <= j < |m'| ==> m'[j].0 != k';
        case Some(i') => assert m'[i'].0 == k';
      }
  }

  /** `set` keeps keys unique and records a key's position at its first insertion. */
  lemma SetKeys<V>(m: Assoc<V>, k: string, v: V)
    requires UniqueKeys(m)
    ensures UniqueKeys(Set(m, k, v))
    ensures Keys(Set(m, k, v)) == if Has(m, k) then Keys(m) else Keys(m) + [k]
  {
    var m' := Set(m, k, v);
    if Has(m, k) {
      assert Keys(m') == Keys(m);
    } else {
      assert Keys(m') == Keys(m) + [k];
    }
  }
}
