/** Facts about sequences and numbers that several modules share. */
module Sequences {
  function Least(a: nat, b: nat): nat {
    if a < b then a else b
  }

  lemma Associate<T>(a: seq<T>, b: seq<T>, c: seq<T>)
    ensures (a + b) + c == a + (b + c)
  {
  }

  lemma HeadAndTail<T>(s: seq<T>)
    requires s != []
    ensures [s[0]] + s[1..] == s
  {
  }

  lemma DropTwice<T>(s: seq<T>, i: nat, j: nat)
    requires i + j <= |s|
    ensures s[i..][j..] == s[i + j..]
  {
  }

  /** `t` is what is left of `s` from `i` on. */
  ghost predicate Tail<T>(s: seq<T>, i: nat, t: seq<T>) {
    i <= |s| && s[i..] == t
  }

  lemma TailStep<T>(s: seq<T>, i: nat, t: seq<T>)
    requires Tail(s, i, t) && i < |s|
    ensures t == [s[i]] + t[1..] && Tail(s, i + 1, t[1..])
  {
  }

  /** Where `c` first occurs in `s`, or the length of `s`. */
  function IndexOf(s: string, c: char): (r: nat)
    ensures r <= |s|
  {
    if s == [] || s[0] == c then 0 else 1 + IndexOf(s[1..], c)
  }

  lemma {:induction false} IndexIsFirst(s: string, c: char)
    ensures var r := IndexOf(s, c); (r < |s| ==> s[r] == c) && c !in s[..r]
  {
    if s != [] && s[0] != c {
      IndexIsFirst(s[1..], c);
      assert s[..IndexOf(s, c)] == [s[0]] + s[1..][..IndexOf(s[1..], c)];
    }
  }

  lemma {:induction false} IndexInside(s: string, c: char)
    requires c in s
    ensures IndexOf(s, c) < |s|
  {
    if s[0] != c {
      IndexInside(s[1..], c);
    }
  }

  lemma {:induction false} IndexIs(s: string, c: char, k: nat)
    requires k <= |s| && (k < |s| ==> s[k] == c) && forall j :: 0 <= j < k ==> s[j] != c
    ensures IndexOf(s, c) == k
  {
    if k > 0 {
      IndexIs(s[1..], c, k - 1);
    }
  }
}
