/** The Python string operations used by the card helpers and the favourite-author choice
    of app.py: `str.strip()`, `str.replace(c, "")`, `str.split(", ")` and `<=` on str. */
module Strings {

  /** Python's `str.isspace()` on one character. */
  predicate IsSpace(c: char)
  {
    || c == ' ' || ('\t' <= c <= '\r') || ('\U{1c}' <= c <= '\U{1f}')
    || c == '\U{85}' || c == '\U{a0}' || c == '\U{1680}' || ('\U{2000}' <= c <= '\U{200a}')
    || c == '\U{2028}' || c == '\U{2029}' || c == '\U{202f}' || c == '\U{205f}' || c == '\U{3000}'
  }

  /** Every character of `s` at positions `lo .. hi-1` is white space. */
  predicate SpaceBetween(s: string, lo: int, hi: int)
    requires 0 <= lo <= hi <= |s|
  {
    forall k :: lo <= k < hi ==> IsSpace(s[k])
  }

  /** Where `s.lstrip()` starts: the length of the white-space run at the front. */
  function LeadingSpace(s: string, from: nat): (i: nat)
    requires from <= |s|
    ensures from <= i <= |s| && SpaceBetween(s, from, i)
    ensures i == |s| || !IsSpace(s[i])
    decreases |s| - from
  {
    if from == |s| || !IsSpace(s[from]) then from else LeadingSpace(s, from + 1)
  }

  /** Where `rstrip()` ends on `s[lo..hi]`: `hi` less the white-space run before it. */
  function StripEnd(s: string, lo: nat, hi: nat): (j: nat)
    requires lo <= hi <= |s|
    ensures lo <= j <= hi && SpaceBetween(s, j, hi)
    ensures j == lo || !IsSpace(s[j - 1])
  {
    if hi == lo || !IsSpace(s[hi - 1]) then hi else StripEnd(s, lo, hi - 1)
  }

  /** `s.strip()`: the infix of `s` left after removing white space at both ends. */
  function Strip(s: string): (r: string)
    ensures exists i, j :: 0 <= i <= j <= |s| && r == s[i..j] && SpaceBetween(s, 0, i) && SpaceBetween(s, j, |s|)
    ensures r == [] || (!IsSpace(r[0]) && !IsSpace(r[|r| - 1]))
  {
    var i := LeadingSpace(s, 0);
    var j := StripEnd(s, i, |s|);
    assert SpaceBetween(s, 0, i) && SpaceBetween(s, j, |s|);
    s[i..j]
  }

  /** `s.replace(c, "")`: `s` with every occurrence of `c` removed, order kept. */
  function RemoveChar(s: string, c: char): (r: string)
    ensures c !in r
    ensures forall x :: x in r <==> x in s && x != c
    ensures c !in s ==> r == s
    ensures multiset(r) == multiset(s)[c := 0]
  {
    if s == [] then []
    else
      assert s == [s[0]] + s[1..];
      if s[0] == c then RemoveChar(s[1..], c)
      else [s[0]] + RemoveChar(s[1..], c)
  }

  /** Removal works piece by piece, so the kept characters stay in their order. */
  lemma {:induction false} RemoveCharAppend(a: string, b: string, c: char)
    ensures RemoveChar(a + b, c) == RemoveChar(a, c) + RemoveChar(b, c)
  {
    if a != [] {
      assert (a + b)[1..] == a[1..] + b;
      RemoveCharAppend(a[1..], b, c);
    } else {
      assert a + b == b;
    }
  }

  /** No ", " occurs in `t`. */
  predicate NoSeparator(t: string)
  {
    forall k :: 0 <= k < |t| - 1 ==> !(t[k] == ',' && t[k + 1] == ' ')
  }

  /** `s.split(", ")`: the pieces between non-overlapping separators, found left to right. */
  function SplitCommaSpace(s: string): (parts: seq<string>)
    ensures |parts| >= 1 && parts[0] <= s
    ensures forall i :: 0 <= i < |parts| ==> NoSeparator(parts[i])
    ensures forall i, k :: 0 <= i < |parts| && 0 <= k < |parts[i]| ==> parts[i][k] in s
    decreases |s|
  {
    if |s| < 2 then [s]
    else if s[..2] == ", " then
      var rest := SplitCommaSpace(s[2..]);
      assert forall x :: x in s[2..] ==> x in s;
      [""] + rest
    else
      var rest := SplitCommaSpace(s[1..]);
      var first := [s[0]] + rest[0];
      assert forall x :: x in s[1..] ==> x in s;
      assert forall k :: 1 <= k < |first| ==> first[k] == rest[0][k - 1];
      assert |rest[0]| > 0 ==> first[1] == s[1];
      [first] + rest[1..]
  }

  /** A string without a separator splits into itself alone. */
  lemma {:induction false} SplitOfSeparatorFree(s: string)
    requires NoSeparator(s)
    ensures SplitCommaSpace(s) == [s]
    decreases |s|
  {
    if |s| >= 2 {
      assert s[..2] != ", " by {
        assert !(s[0] == ',' && s[1] == ' ');
      }
      assert NoSeparator(s[1..]) by {
        forall k | 0 <= k < |s[1..]| - 1 ensures !(s[1..][k] == ',' && s[1..][k + 1] == ' ') {
          assert s[1..][k] == s[k + 1] && s[1..][k + 1] == s[k + 2];
        }
      }
      SplitOfSeparatorFree(s[1..]);
      assert s == [s[0]] + s[1..];
    }
  }

  /** A separator-free piece followed by ", " is split off as the first piece. */
  lemma {:induction false} SplitAfterPiece(p: string, t: string)
    requires NoSeparator(p)
    ensures SplitCommaSpace(p + ", " + t) == [p] + SplitCommaSpace(t)
    decreases |p|
  {
    var s := p + ", " + t;
    if p == [] {
      assert s[..2] == ", " && s[2..] == t;
    } else {
      assert s[..2] != ", " by {
        if |p| >= 2 {
          assert s[0] == p[0] && s[1] == p[1];
          assert !(p[0] == ',' && p[1] == ' ');
        } else {
          assert s[1] == ',';
        }
      }
      assert NoSeparator(p[1..]) by {
        forall k | 0 <= k < |p[1..]| - 1 ensures !(p[1..][k] == ',' && p[1..][k + 1] == ' ') {
          assert p[1..][k] == p[k + 1] && p[1..][k + 1] == p[k + 2];
        }
      }
      assert s[1..] == p[1..] + ", " + t;
      SplitAfterPiece(p[1..], t);
      assert p == [s[0]] + p[1..];
    }
  }

  /** The split is the only way to cut a string into separator-free pieces that join back
      to it: splitting a join of such pieces gives the pieces back. */
  lemma {:induction false} SplitUnique(parts: seq<string>)
    requires |parts| >= 1 && forall i :: 0 <= i < |parts| ==> NoSeparator(parts[i])
    ensures SplitCommaSpace(JoinCommaSpace(parts)) == parts
    decreases |parts|
  {
    if |parts| == 1 {
      SplitOfSeparatorFree(parts[0]);
    } else {
      SplitAfterPiece(parts[0], JoinCommaSpace(parts[1..]));
      SplitUnique(parts[1..]);
      assert parts == [parts[0]] + parts[1..];
    }
  }

  /** `", ".join(parts)`. */
  function JoinCommaSpace(parts: seq<string>): string
    requires |parts| >= 1
  {
    if |parts| == 1 then parts[0] else parts[0] + ", " + JoinCommaSpace(parts[1..])
  }

  /** Joining the pieces of a split with the separator gives the string back. */
  lemma {:induction false} SplitJoinRoundTrip(s: string)
    ensures JoinCommaSpace(SplitCommaSpace(s)) == s
    decreases |s|
  {
    if |s| >= 2 {
      if s[..2] == ", " {
        SplitJoinRoundTrip(s[2..]);
        assert s == ", " + s[2..];
      } else {
        var rest := SplitCommaSpace(s[1..]);
        SplitJoinRoundTrip(s[1..]);
        JoinConsChar(s[0], rest);
        assert s == [s[0]] + s[1..];
      }
    }
  }

  /** Putting a character in front of the first piece puts it in front of the join. */
  lemma JoinConsChar(c: char, parts: seq<string>)
    requires |parts| >= 1
    ensures JoinCommaSpace([[c] + parts[0]] + parts[1..]) == [c] + JoinCommaSpace(parts)
  {
    var moved := [[c] + parts[0]] + parts[1..];
    if |parts| > 1 {
      assert moved[1..] == parts[1..];
    }
  }

  /** Joining the first `k` pieces gives a prefix of joining them all. */
  lemma {:induction false} JoinPrefix(parts: seq<string>, k: nat)
    requires 1 <= k <= |parts|
    ensures JoinCommaSpace(parts[..k]) <= JoinCommaSpace(parts)
  {
    if k < |parts| {
      var head := parts[0] + ", ";
      var whole := JoinCommaSpace(parts[1..]);
      assert JoinCommaSpace(parts) == head + whole;
      if k == 1 {
        assert parts[..1] == [parts[0]];
        assert JoinCommaSpace(parts[..k]) == parts[0] == (head + whole)[..|parts[0]|];
      } else {
        var front := JoinCommaSpace(parts[1..][..k - 1]);
        JoinPrefix(parts[1..], k - 1);
        assert parts[..k][1..] == parts[1..][..k - 1];
        assert JoinCommaSpace(parts[..k]) == head + front;
        assert front == whole[..|front|];
        assert head + front == (head + whole)[..|head| + |front|];
      }
    } else {
      assert parts[..k] == parts;
    }
  }

  /** Python's `a <= b` on str: code-point lexicographic order. */
  predicate LexLe(a: string, b: string)
  {
    |a| == 0 || (|b| > 0 && (a[0] < b[0] || (a[0] == b[0] && LexLe(a[1..], b[1..]))))
  }

  lemma {:induction false} LexLeReflexive(a: string)
    ensures LexLe(a, a)
  {
    if |a| > 0 { LexLeReflexive(a[1..]); }
  }

  lemma {:induction false} LexLeTotal(a: string, b: string)
    ensures LexLe(a, b) || LexLe(b, a)
  {
    if |a| > 0 && |b| > 0 && a[0] == b[0] { LexLeTotal(a[1..], b[1..]); }
  }

  lemma {:induction false} LexLeAntisymmetric(a: string, b: string)
    requires LexLe(a, b) && LexLe(b, a)
    ensures a == b
  {
    if |a| > 0 {
      LexLeAntisymmetric(a[1..], b[1..]);
      assert a == [a[0]] + a[1..] && b == [b[0]] + b[1..];
    }
  }

  lemma {:induction false} LexLeTransitive(a: string, b: string, c: string)
    requires LexLe(a, b) && LexLe(b, c)
    ensures LexLe(a, c)
  {
    if |a| > 0 && a[0] == b[0] && b[0] == c[0] { LexLeTransitive(a[1..], b[1..], c[1..]); }
  }
}
