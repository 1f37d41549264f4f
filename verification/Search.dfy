/**
  Searching a text for a non-empty pattern, and what more text does to the answer.
 */
module Search {

  /** Where `s` first occurs in `t`, or |t| when it does not occur. */
  function Find(t: string, s: string): (r: nat)
    requires s != []
    ensures r <= |t|
  {
    if |s| > |t| then |t|
    else if s <= t then 0
    else 1 + Find(t[1..], s)
  }

  predicate Contains(t: string, s: string)
    requires s != []
  {
    Find(t, s) < |t|
  }

  predicate OccursAt(t: string, s: string, i: nat) {
    i <= |t| && s <= t[i..]
  }

  /** `Find` is the first occurrence, and the length of the text exactly when there is none. */
  lemma {:induction false} FindIsFirst(t: string, s: string)
    requires s != []
    ensures Find(t, s) < |t| ==> OccursAt(t, s, Find(t, s))
    ensures forall i: nat :: i < Find(t, s) ==> !OccursAt(t, s, i)
    ensures Find(t, s) == |t| ==> forall i: nat :: !OccursAt(t, s, i)
  {
    if |s| <= |t| && !(s <= t) {
      FindIsFirst(t[1..], s);
      assert t[1..][Find(t[1..], s)..] == t[Find(t, s)..];
      forall i: nat | 0 < i <= |t|
        ensures OccursAt(t, s, i) == OccursAt(t[1..], s, i - 1)
      {
        assert t[1..][i - 1..] == t[i..];
      }
      assert t[0..] == t;
    } else {
      assert t[0..] == t;
    }
  }

  lemma FindFits(t: string, s: string)
    requires s != [] && Contains(t, s)
    ensures Find(t, s) + |s| <= |t|
  {
    FindIsFirst(t, s);
  }

  lemma CutAfter(first: string, rest: string, k: nat, n: nat)
    requires k + n <= |rest|
    ensures (first + rest)[..|first| + k] == first + rest[..k]
    ensures (first + rest)[|first| + k + n..] == rest[k + n..]
  {
  }

  lemma CutBefore(t: string, b: string, k: nat, n: nat)
    requires k + n <= |t|
    ensures (t + b)[..k] == t[..k] && (t + b)[k + n..] == t[k + n..] + b
  {
  }

  lemma FindIs(t: string, s: string, k: nat)
    requires s != [] && OccursAt(t, s, k) && forall i: nat :: i < k ==> !OccursAt(t, s, i)
    ensures Find(t, s) == k
  {
    FindIsFirst(t, s);
  }

  /** An occurrence that is already there stays the first one when text is appended. */
  lemma {:induction false} FindInLonger(t: string, s: string, b: string)
    requires s != [] && Contains(t, s)
    ensures Find(t + b, s) == Find(t, s)
  {
    if s <= t {
      assert s <= t + b;
    } else {
      FindInLonger(t[1..], s, b);
      assert (t + b)[1..] == t[1..] + b;
      assert |s| <= |t| && t[..|s|] == (t + b)[..|s|];
    }
  }

  /** Text that does not contain the pattern can be dropped up to the last |s| - 1 characters before
      searching on. */
  lemma {:induction false} FindPastAbsence(t: string, s: string, k: nat, b: string)
    requires s != [] && !Contains(t, s) && (k == 0 || k + |s| <= |t| + 1)
    ensures k <= |t| && Find(t + b, s) == k + Find(t[k..] + b, s)
  {
    if k == 0 {
      assert t[0..] == t;
    } else {
      FindPastAbsence(t[1..], s, k - 1, b);
      assert (t + b)[1..] == t[1..] + b;
      assert t[1..][k - 1..] == t[k..];
      assert t[..|s|] == (t + b)[..|s|];
    }
  }

  lemma FindPastPrefix(first: string, tail: string, s: string, b: string)
    requires s != [] && !Contains(first + tail, s) && |s| <= |tail| + 1
    ensures Find(first + (tail + b), s) == |first| + Find(tail + b, s)
  {
    FindPastAbsence(first + tail, s, |first|, b);
    assert (first + tail)[|first|..] == tail;
    assert (first + tail) + b == first + (tail + b);
  }

  /** Searching on from any point before the first occurrence finds it. */
  lemma {:induction false} FindSkips(a: string, b: string, s: string)
    requires s != [] && Find(a + b, s) >= |a|
    ensures Find(a + b, s) == |a| + Find(b, s)
  {
    if a == [] {
      assert a + b == b;
    } else {
      assert (a + b)[1..] == a[1..] + b;
      if |s| <= |a + b| {
        FindSkips(a[1..], b, s);
      }
    }
  }

  /** A pattern whose first character does not come again cannot overlap itself, so after a text without
      it the first occurrence is the one that was put there. */
  lemma FirstAfter(t: string, s: string, rest: string)
    requires s != [] && s[0] !in s[1..] && !Contains(t, s)
    ensures Find(t + (s + rest), s) == |t|
  {
    var all := t + (s + rest);
    FindIsFirst(t, s);
    assert all[|t|..] == s + rest;
    forall i: nat | i < |t|
      ensures !OccursAt(all, s, i)
    {
      assert all[i..][|t| - i] == all[|t|] == s[0];
      if i + |s| <= |t| {
        assert all[i..][..|s|] == t[i..][..|s|];
        assert !OccursAt(t, s, i);
      } else {
        FirstComesOnce(s, |t| - i);
      }
    }
    FindIs(all, s, |t|);
  }

  lemma FirstComesOnce(s: string, k: nat)
    requires s != [] && s[0] !in s[1..] && 0 < k < |s|
    ensures s[k] != s[0]
  {
    assert s[k] == s[1..][k - 1];
  }

  /** Text without the first character of the pattern adds no occurrence in front. */
  lemma {:induction false} AbsentAfterPrefix(a: string, t: string, s: string)
    requires s != [] && s[0] !in a && !Contains(t, s)
    ensures !Contains(a + t, s)
  {
    if a == [] {
      assert a + t == t;
    } else {
      assert (a + t)[1..] == a[1..] + t;
      AbsentAfterPrefix(a[1..], t, s);
    }
  }

  /** Where `c` first occurs between `off` and `epos`, or `epos`. */
  method FindCharacter(a: string, off: nat, epos: nat, c: char) returns (pos: nat)
    requires off <= epos <= |a|
    ensures off <= pos <= epos && (pos < epos ==> a[pos] == c)
    ensures forall k :: off <= k < pos ==> a[k] != c
  {
    pos := off;
    while pos != epos
      invariant off <= pos <= epos
      invariant forall k :: off <= k < pos ==> a[k] != c
    {
      if a[pos] == c {
        return;
      }
      pos := pos + 1;
    }
  }
}
