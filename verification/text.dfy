/** The handful of Go `strings` operations the sampler uses, over strings whose
    characters stand for the bytes of a Go string. */
module Text {
  import opened Wrappers

  /** `t` occurs in `s` starting at index `i`. */
  predicate OccursAt(s: string, t: string, i: int)
  {
    0 <= i && i + |t| <= |s| && s[i..i + |t|] == t
  }

  /** Occurrences in `s[1..]` are the occurrences in `s` after index 0, one place earlier. */
  lemma OccursShift(s: string, t: string, j: int)
    requires |s| > 0 && j >= 1
    ensures OccursAt(s, t, j) <==> OccursAt(s[1..], t, j - 1)
  {
    if j + |t| <= |s| {
      assert s[1..][j - 1..j - 1 + |t|] == s[j..j + |t|];
    }
  }

  /** `strings.Index`: the position of the first occurrence of `t` in `s`, None where Go returns -1. */
  function Find(s: string, t: string): (r: Option<nat>)
    ensures r.Some? ==> OccursAt(s, t, r.value)
    ensures r.Some? ==> forall j :: 0 <= j < r.value ==> !OccursAt(s, t, j)
    ensures r.None? ==> forall j :: !OccursAt(s, t, j)
    decreases |s|
  {
    if |s| < |t| then None
    else if s[..|t|] == t then Some(0)
    else
      assert !OccursAt(s, t, 0);
      assert forall j :: j >= 1 ==> (OccursAt(s, t, j) <==> OccursAt(s[1..], t, j - 1)) by {
        forall j | j >= 1 ensures OccursAt(s, t, j) <==> OccursAt(s[1..], t, j - 1) {
          OccursShift(s, t, j);
        }
      }
      match Find(s[1..], t)
      case Some(i) => Some(i + 1)
      case None => None
  }

  /** Any occurrence with none before it is the one `Find` reports. */
  lemma FindFirst(s: string, t: string, i: nat)
    requires OccursAt(s, t, i)
    requires forall j :: 0 <= j < i ==> !OccursAt(s, t, j)
    ensures Find(s, t) == Some(i)
  {
  }

  /** `strings.Contains`. */
  predicate Contains(s: string, t: string)
  {
    Find(s, t).Some?
  }

  lemma ContainsIff(s: string, t: string)
    ensures Contains(s, t) <==> exists i :: OccursAt(s, t, i)
  {
    if Contains(s, t) {
      assert OccursAt(s, t, Find(s, t).value);
    }
  }

  /** A string in which the token's first character never appears cannot contain the token. */
  lemma NoLeadCharNoToken(s: string, t: string)
    requires |t| > 0 && t[0] !in s
    ensures !Contains(s, t)
  {
  }

  /** When the token's first character is absent from `a`, searching `a + b`
      finds the first occurrence inside `b`, shifted by `|a|`. */
  lemma {:induction false} FindAfterPrefix(a: string, b: string, t: string)
    requires |t| > 0 && t[0] !in a
    ensures Find(b, t).Some? ==> Find(a + b, t) == Some(|a| + Find(b, t).value)
    ensures Find(b, t).None? ==> Find(a + b, t).None?
  {
    if Find(b, t).Some? {
      FindAfterPrefixSome(a, b, t, Find(b, t).value);
    } else {
      FindAfterPrefixNone(a, b, t);
    }
  }

  lemma {:induction false} FindAfterPrefixSome(a: string, b: string, t: string, j: nat)
    requires |t| > 0 && t[0] !in a && Find(b, t) == Some(j)
    ensures Find(a + b, t) == Some(|a| + j)
  {
    var s := a + b;
    forall i | 0 <= i < |a| + j
      ensures !OccursAt(s, t, i)
    {
      if i < |a| {
        NotOccursInPrefix(a, b, t, i);
      } else {
        OccursInSuffix(a, b, t, i);
      }
    }
    OccursInSuffix(a, b, t, |a| + j);
    FindFirst(s, t, |a| + j);
  }

  lemma {:induction false} FindAfterPrefixNone(a: string, b: string, t: string)
    requires |t| > 0 && t[0] !in a && Find(b, t).None?
    ensures Find(a + b, t).None?
  {
    var s := a + b;
    forall i
      ensures !OccursAt(s, t, i)
    {
      if 0 <= i < |a| {
        NotOccursInPrefix(a, b, t, i);
      } else if |a| <= i {
        OccursInSuffix(a, b, t, i);
      }
    }
    FindNone(s, t);
  }

  /** With no occurrence anywhere, `Find` reports none. */
  lemma FindNone(s: string, t: string)
    requires forall j :: !OccursAt(s, t, j)
    ensures Find(s, t) == None
  {
  }

  lemma NotOccursInPrefix(a: string, b: string, t: string, i: nat)
    requires |t| > 0 && t[0] !in a && i < |a|
    ensures !OccursAt(a + b, t, i)
  {
  }

  lemma OccursInSuffix(a: string, b: string, t: string, i: int)
    requires |a| <= i
    ensures OccursAt(a + b, t, i) <==> OccursAt(b, t, i - |a|)
  {
    if i + |t| <= |a + b| {
      assert (a + b)[i..i + |t|] == b[i - |a|..i - |a| + |t|];
    }
  }

  /** An occurrence inside `b` is an occurrence inside `a + b + c`. */
  lemma ContainsInfix(a: string, b: string, c: string, t: string)
    requires Contains(b, t)
    ensures Contains(a + b + c, t)
  {
    var j := Find(b, t).value;
    var s := a + b + c;
    assert s[|a| + j..|a| + j + |t|] == b[j..j + |t|];
    assert OccursAt(s, t, |a| + j);
    ContainsIff(s, t);
  }

  /** The concatenation of a sequence of strings. */
  function Concat(parts: seq<string>): string
  {
    if |parts| == 0 then [] else parts[0] + Concat(parts[1..])
  }

  /** `p` ends with `sep`, and that is the first place `sep` occurs in `p`. */
  predicate EndsAtFirst(p: string, sep: string)
  {
    |p| >= |sep| && Find(p, sep) == Some(|p| - |sep|)
  }

  /** Cutting `s` just after its first `t` keeps that occurrence first. */
  lemma FindInPrefix(s: string, t: string, n: nat)
    requires Find(s, t).Some? && Find(s, t).value + |t| <= n <= |s|
    ensures Find(s[..n], t) == Find(s, t)
  {
    var m := Find(s, t).value;
    OccursInPrefix(s, t, n, m);
    forall j | 0 <= j < m
      ensures !OccursAt(s[..n], t, j)
    {
      OccursInPrefix(s, t, n, j);
    }
    FindFirst(s[..n], t, m);
  }

  lemma OccursInPrefix(s: string, t: string, n: nat, j: nat)
    requires j + |t| <= n <= |s|
    ensures OccursAt(s[..n], t, j) <==> OccursAt(s, t, j)
  {
    assert s[..n][j..j + |t|] == s[j..j + |t|];
  }

  /** `strings.SplitAfter(s, sep)` with no limit: `s` cut after every occurrence
      of `sep`, found left to right. Joining the pieces gives `s` back, and the
      last piece holds no `sep`; `SplitAfterPieces` gives the shape of the others. */
  function SplitAfter(s: string, sep: string): (parts: seq<string>)
    requires |sep| > 0
    ensures |parts| >= 1
    ensures Concat(parts) == s
    ensures !Contains(parts[|parts| - 1], sep)
    decreases |s|
  {
    match Find(s, sep)
    case None => [s]
    case Some(m) =>
      var head := s[..m + |sep|];
      var rest := s[m + |sep|..];
      var tail := SplitAfter(rest, sep);
      ConcatCons(head, tail);
      assert s == head + rest;
      [head] + tail
  }

  lemma ConcatCons(head: string, tail: seq<string>)
    requires |tail| >= 1
    ensures Concat([head] + tail) == head + Concat(tail)
    ensures ([head] + tail)[|tail|] == tail[|tail| - 1]
  {
    assert ([head] + tail)[1..] == tail;
  }

  /** Every piece of a split but the last ends with `sep`, and that is the first
      place `sep` occurs in it. */
  lemma {:induction false} SplitAfterPieces(s: string, sep: string)
    requires |sep| > 0
    ensures forall i :: 0 <= i < |SplitAfter(s, sep)| - 1 ==> EndsAtFirst(SplitAfter(s, sep)[i], sep)
    decreases |s|
  {
    match Find(s, sep)
    case None =>
    case Some(m) =>
      var rest := s[m + |sep|..];
      FindInPrefix(s, sep, m + |sep|);
      SplitAfterPieces(rest, sep);
      var parts := SplitAfter(s, sep);
      var tail := SplitAfter(rest, sep);
      assert parts == [s[..m + |sep|]] + tail;
      forall i | 0 <= i < |parts| - 1
        ensures EndsAtFirst(parts[i], sep)
      {
        if i > 0 {
          assert parts[i] == tail[i - 1];
        }
      }
  }

  /** `strings.Replace(s, [c], "", -1)`: every `c` removed, all else kept in order. */
  function RemoveChar(s: string, c: char): (r: string)
    ensures c !in r
    ensures multiset(r) == multiset(s)[c := 0]
    ensures c !in s ==> r == s
    decreases |s|
  {
    if |s| == 0 then []
    else
      assert s == [s[0]] + s[1..];
      (if s[0] == c then [] else [s[0]]) + RemoveChar(s[1..], c)
  }

  /** Removal distributes over concatenation. */
  lemma {:induction false} RemoveCharConcat(a: string, b: string, c: char)
    ensures RemoveChar(a + b, c) == RemoveChar(a, c) + RemoveChar(b, c)
    decreases |a|
  {
    if |a| > 0 {
      assert (a + b)[0] == a[0];
      assert (a + b)[1..] == a[1..] + b;
      RemoveCharConcat(a[1..], b, c);
    } else {
      assert a + b == b;
    }
  }
}
