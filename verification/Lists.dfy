/** std::list and std::multimap as sequences of nodes; an iterator is a reference to
    a node. */
module Lists {

  /** erase, given an iterator. */
  function Erased<T(==)>(s: seq<T>, x: T): (r: seq<T>)
    ensures |r| <= |s|
  {
    if |s| == 0 then []
    else if s[0] == x then Erased(s[1..], x)
    else [s[0]] + Erased(s[1..], x)
  }

  lemma {:induction false} ErasedMember<T>(s: seq<T>, x: T, y: T)
    ensures y in Erased(s, x) <==> y in s && y != x
  {
    if |s| > 0 {
      ErasedMember(s[1..], x, y);
      assert s == [s[0]] + s[1..];
    }
  }
}
