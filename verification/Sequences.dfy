/** Sequences put in the opposite order. */
module Sequences {

  function Rev<T>(s: seq<T>): seq<T>
  {
    if s == [] then [] else Rev(s[1..]) + [s[0]]
  }

  lemma {:induction false} RevAt<T>(s: seq<T>, i: nat)
    ensures |Rev(s)| == |s|
    ensures i < |s| ==> Rev(s)[i] == s[|s| - 1 - i]
  {
    if s != [] {
      RevAt(s[1..], if i < |s| - 1 then i else 0);
    }
  }

  lemma {:induction false} RevPush<T>(s: seq<T>, x: T)
    ensures Rev([x] + s) == Rev(s) + [x]
  {
    assert ([x] + s)[1..] == s;
  }

  lemma {:induction false} RevAppend<T>(s: seq<T>, x: T)
    ensures Rev(s + [x]) == [x] + Rev(s)
  {
    if s != [] {
      RevAppend(s[1..], x);
      assert (s + [x])[1..] == s[1..] + [x];
    }
  }

  lemma {:induction false} RevIn<T>(s: seq<T>, x: T)
    ensures x in Rev(s) <==> x in s
  {
    if s != [] {
      RevIn(s[1..], x);
      assert s == [s[0]] + s[1..];
    }
  }
}
