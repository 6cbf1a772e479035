/** Facts about slices and concatenations that the solver should not have to rediscover. */
module Seqs {

  function Last<T>(s: seq<T>): T
    requires |s| > 0
  {
    s[|s| - 1]
  }

  function Init<T>(s: seq<T>): seq<T>
    requires |s| > 0
  {
    s[..|s| - 1]
  }

  lemma SliceOfPrefix<T>(s: seq<T>, k: nat, i: nat, j: nat)
    requires i <= j <= k <= |s|
    ensures s[..k][i..j] == s[i..j]
  {
  }

  lemma SliceOfDrop<T>(s: seq<T>, k: nat, i: nat, j: nat)
    requires k <= i <= j <= |s|
    ensures s[k..][i - k..j - k] == s[i..j]
  {
  }

  lemma Assoc<T>(a: seq<T>, b: seq<T>, c: seq<T>)
    ensures a + (b + c) == a + b + c
  {
  }

  lemma PatchPrefix<T>(s: seq<T>, at: nat, p: seq<T>, n: nat)
    requires at + |p| <= n <= |s|
    ensures (s[..at] + p + s[at + |p|..])[..n] == s[..at] + p + s[at + |p|..n]
  {
  }

  /** The pieces of an iovec, one after another. */
  function Concat<T>(pieces: seq<seq<T>>): seq<T>
  {
    if |pieces| == 0 then [] else pieces[0] + Concat(pieces[1..])
  }

  lemma ConcatNone<T>()
    ensures Concat<T>([]) == []
  {
  }

  lemma ConcatOne<T>(x: seq<T>)
    ensures Concat([x]) == x
  {
    assert Concat([x]) == x + Concat([x][1..]);
  }

  lemma TwoPieces<T>(a: seq<T>, b: seq<T>)
    ensures Concat([a, b]) == a + b
  {
    assert [a, b][1..] == [b];
    ConcatOne(b);
  }

  lemma ThreePieces<T>(a: seq<T>, b: seq<T>, c: seq<T>)
    ensures Concat([a, b, c]) == a + (b + c)
  {
    assert [a, b, c][1..] == [b, c];
    TwoPieces(b, c);
  }

  lemma {:induction false} ConcatAppend<T>(a: seq<seq<T>>, b: seq<seq<T>>)
    ensures Concat(a + b) == Concat(a) + Concat(b)
  {
    if |a| == 0 {
      assert a + b == b;
    } else {
      assert (a + b)[1..] == a[1..] + b;
      ConcatAppend(a[1..], b);
    }
  }

  lemma {:induction false} ConcatSnoc<T>(a: seq<seq<T>>, x: seq<T>)
    ensures Concat(a + [x]) == Concat(a) + x
  {
    ConcatAppend(a, [x]);
    assert Concat([x]) == x by { assert [x][1..] == []; }
  }

  lemma ConcatTake<T>(a: seq<seq<T>>, i: nat)
    requires i < |a|
    ensures Concat(a[..i + 1]) == Concat(a[..i]) + a[i]
  {
    assert a[..i + 1] == a[..i] + [a[i]];
    ConcatSnoc(a[..i], a[i]);
  }

  lemma {:induction false} ConcatPrefix<T>(a: seq<seq<T>>, i: nat)
    requires i <= |a|
    ensures |Concat(a[..i])| <= |Concat(a)| && Concat(a)[..|Concat(a[..i])|] == Concat(a[..i])
    ensures Concat(a)[|Concat(a[..i])|..] == Concat(a[i..])
  {
    assert a == a[..i] + a[i..];
    ConcatAppend(a[..i], a[i..]);
  }
}
