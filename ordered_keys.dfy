/** The key order of a JavaScript Map.
  *
  * `map.set(k, v)` on a new key appends k to the Map's iteration order; on a
  * key already present it keeps k where it is. After setting the keys
  * s[0], s[1], ..., s[|s|-1] in turn, the Map iterates over FirstSeen(s).
  */
module OrderedKeys {

  /** The distinct elements of s, each kept at its first occurrence. */
  function FirstSeen<T(==, !new)>(s: seq<T>): (r: seq<T>)
    ensures |r| <= |s|
    ensures forall x :: x in r <==> x in s
    ensures forall i, j :: 0 <= i < j < |r| ==> r[i] != r[j]
  {
    if s == [] then []
    else
      var prev := FirstSeen(s[..|s| - 1]);
      if s[|s| - 1] in prev then prev else prev + [s[|s| - 1]]
  }

  /** The position of the first occurrence of x in s. */
  function FirstIndex<T(==, !new)>(s: seq<T>, x: T): (i: nat)
    requires x in s
    ensures i < |s| && s[i] == x
    ensures forall j :: 0 <= j < i ==> s[j] != x
  {
    if s[0] == x then 0 else 1 + FirstIndex(s[1..], x)
  }

  /** Appending to s does not move the first occurrence of an element of s. */
  lemma FirstIndexAppend<T(!new)>(s: seq<T>, y: T, x: T)
    requires x in s
    ensures x in s + [y] && FirstIndex(s + [y], x) == FirstIndex(s, x)
  {
    var a, b := FirstIndex(s + [y], x), FirstIndex(s, x);
    assert (s + [y])[b] == x;
    assert s[a] == x;
  }

  /** Setting a key that is already present leaves the key order as it was. */
  lemma FirstSeenRepeat<T(!new)>(s: seq<T>, y: T)
    requires y in s
    ensures FirstSeen(s + [y]) == FirstSeen(s)
  {
    assert (s + [y])[..|s|] == s;
  }

  /** Setting a new key appends it to the key order. */
  lemma FirstSeenFresh<T(!new)>(s: seq<T>, y: T)
    requires y !in s
    ensures FirstSeen(s + [y]) == FirstSeen(s) + [y]
  {
    assert (s + [y])[..|s|] == s;
  }

  /** The keys come out in the order of their first occurrence in s. */
  lemma {:induction false} FirstSeenOrder<T(!new)>(s: seq<T>, i: int, j: int)
    requires 0 <= i < j < |FirstSeen(s)|
    ensures FirstIndex(s, FirstSeen(s)[i]) < FirstIndex(s, FirstSeen(s)[j])
  {
    var n := |s| - 1;
    var init, last := s[..n], s[n];
    assert s == init + [last];
    var prev := FirstSeen(init);
    var x, y := FirstSeen(s)[i], FirstSeen(s)[j];
    if last in init {
      FirstSeenRepeat(init, last);
      FirstSeenOrder(init, i, j);
      FirstIndexAppend(init, last, x);
      FirstIndexAppend(init, last, y);
    } else {
      FirstSeenFresh(init, last);
      FirstIndexAppend(init, last, x);
      if j < |prev| {
        FirstSeenOrder(init, i, j);
        FirstIndexAppend(init, last, y);
      } else {
        assert y == last;
        assert FirstIndex(s, y) == n;
      }
    }
  }
}
