/**
 * The two Python string operations the table parser relies on:
 * `str.strip()` with no argument and `str.split(sep)` with an explicit
 * one-character separator.
 */
module Text {

  /** The characters for which Python's `str.isspace` holds: the ones `str.strip()` removes. */
  const Whitespace: set<char> := {
    '\U{9}', '\U{A}', '\U{B}', '\U{C}', '\U{D}', '\U{1C}', '\U{1D}', '\U{1E}', '\U{1F}', ' ',
    '\U{85}', '\U{A0}', '\U{1680}',
    '\U{2000}', '\U{2001}', '\U{2002}', '\U{2003}', '\U{2004}', '\U{2005}',
    '\U{2006}', '\U{2007}', '\U{2008}', '\U{2009}', '\U{200A}',
    '\U{2028}', '\U{2029}', '\U{202F}', '\U{205F}', '\U{3000}'
  }

  predicate IsSpace(c: char)
  {
    c in Whitespace
  }

  predicate AllSpace(s: string)
  {
    forall k :: 0 <= k < |s| ==> IsSpace(s[k])
  }

  /** No whitespace at either end. */
  predicate Trimmed(t: string)
  {
    t == [] || (!IsSpace(t[0]) && !IsSpace(t[|t| - 1]))
  }

  /** How many whitespace characters `s` starts with: all of them up to there, and the next one is not whitespace. */
  function LeadingSpaces(s: string): (n: nat)
    ensures n <= |s|
    ensures forall k :: 0 <= k < n ==> IsSpace(s[k])
    ensures n < |s| ==> !IsSpace(s[n])
  {
    if |s| > 0 && IsSpace(s[0]) then 1 + LeadingSpaces(s[1..]) else 0
  }

  /** How many whitespace characters `s` ends with: all of them from there on, and the one before is not whitespace. */
  function TrailingSpaces(s: string): (n: nat)
    ensures n <= |s|
    ensures forall k :: |s| - n <= k < |s| ==> IsSpace(s[k])
    ensures n < |s| ==> !IsSpace(s[|s| - 1 - n])
  {
    if |s| > 0 && IsSpace(s[|s| - 1]) then 1 + TrailingSpaces(s[..|s| - 1]) else 0
  }

  /** Python's `s.strip()`: removes all leading and trailing whitespace, tabs and line ends included. */
  function Strip(s: string): (r: string)
    ensures |r| <= |s|
    ensures Trimmed(r)
  {
    var a := LeadingSpaces(s);
    var b := TrailingSpaces(s[a..]);
    s[a..|s| - b]
  }

  /**
   * Strip is exactly "remove whitespace from both ends": any string made of
   * whitespace, a trimmed core and whitespace strips to that core.
   */
  lemma StripOfSpaced(a: string, t: string, b: string)
    requires AllSpace(a) && AllSpace(b) && Trimmed(t)
    ensures Strip(a + t + b) == t
  {
    var s := a + t + b;
    var n := LeadingSpaces(s);
    if t == [] {
      assert forall k :: 0 <= k < |s| ==> IsSpace(s[k]) by {
        forall k | 0 <= k < |s| ensures IsSpace(s[k]) {
          if k < |a| { assert s[k] == a[k]; } else { assert s[k] == b[k - |a|]; }
        }
      }
      assert n == |s|;
    } else {
      assert s[|a|] == t[0];
      assert n == |a|;
      var rest := s[n..];
      assert rest == t + b;
      var m := TrailingSpaces(rest);
      assert rest[|t| - 1] == t[|t| - 1];
      assert m == |b|;
      assert s[n..|s| - m] == t;
    }
  }

  /** Python's `sep.join(fields)`. */
  function Join(fields: seq<string>, sep: char): string
  {
    if |fields| == 0 then []
    else if |fields| == 1 then fields[0]
    else fields[0] + [sep] + Join(fields[1..], sep)
  }

  /** Position of the first `sep` in `s`, or `|s|` when there is none. */
  function IndexOf(s: string, sep: char): (i: nat)
    ensures i <= |s|
    ensures i < |s| ==> s[i] == sep
  {
    if |s| == 0 then 0
    else if s[0] == sep then 0
    else 1 + IndexOf(s[1..], sep)
  }

  /** IndexOf finds the first separator: none occurs before it. */
  lemma {:induction false} IndexOfFirst(s: string, sep: char)
    ensures sep !in s[..IndexOf(s, sep)]
    decreases |s|
  {
    if |s| > 0 && s[0] != sep {
      IndexOfFirst(s[1..], sep);
      assert s[..IndexOf(s, sep)] == [s[0]] + s[1..][..IndexOf(s[1..], sep)];
    }
  }

  /** Python's `s.split(sep)`: the pieces between separators, left to right; never empty (`"".split(sep)` is `[""]`). */
  function Split(s: string, sep: char): (r: seq<string>)
    ensures |r| >= 1
    decreases |s|
  {
    var i := IndexOf(s, sep);
    if i == |s| then [s] else [s[..i]] + Split(s[i + 1..], sep)
  }

  /** No field of a split holds the separator. */
  lemma {:induction false} SplitFieldsFree(s: string, sep: char)
    ensures forall k :: 0 <= k < |Split(s, sep)| ==> sep !in Split(s, sep)[k]
    decreases |s|
  {
    var i := IndexOf(s, sep);
    var r := Split(s, sep);
    IndexOfFirst(s, sep);
    if i < |s| {
      var rest := Split(s[i + 1..], sep);
      SplitFieldsFree(s[i + 1..], sep);
      assert r == [s[..i]] + rest;
      forall k | 0 <= k < |r| ensures sep !in r[k] {
        if k > 0 {
          assert r[k] == rest[k - 1];
        }
      }
    } else {
      assert s[..i] == s;
    }
  }

  /**
   * What makes Split a split: the fields hold no separator, and joining them
   * back with the separator gives the string again.
   */
  lemma {:induction false} JoinSplit(s: string, sep: char)
    ensures forall k :: 0 <= k < |Split(s, sep)| ==> sep !in Split(s, sep)[k]
    ensures Join(Split(s, sep), sep) == s
    decreases |s|
  {
    SplitFieldsFree(s, sep);
    var i := IndexOf(s, sep);
    if i < |s| {
      var rest := Split(s[i + 1..], sep);
      JoinSplit(s[i + 1..], sep);
      assert Split(s, sep) == [s[..i]] + rest;
      assert ([s[..i]] + rest)[1..] == rest;
      assert Join(Split(s, sep), sep) == s[..i] + [sep] + Join(rest, sep);
      assert s == s[..i] + [sep] + s[i + 1..];
    }
  }

  /** The other direction of the round trip: a split recovers the fields that were joined. */
  lemma {:induction false} SplitJoin(fields: seq<string>, sep: char)
    requires |fields| >= 1
    requires forall k :: 0 <= k < |fields| ==> sep !in fields[k]
    ensures Split(Join(fields, sep), sep) == fields
    decreases |fields|
  {
    var s := Join(fields, sep);
    if |fields| == 1 {
      assert IndexOf(s, sep) == |s|;
    } else {
      var tail := Join(fields[1..], sep);
      assert s == fields[0] + [sep] + tail;
      IndexOfPrefix(fields[0], sep, tail);
      assert s[..|fields[0]|] == fields[0];
      assert s[|fields[0]| + 1..] == tail;
      SplitJoin(fields[1..], sep);
    }
  }

  lemma {:induction false} IndexOfPrefix(a: string, sep: char, b: string)
    requires sep !in a
    ensures IndexOf(a + [sep] + b, sep) == |a|
    decreases |a|
  {
    if a != [] {
      assert (a + [sep] + b)[1..] == a[1..] + [sep] + b;
      IndexOfPrefix(a[1..], sep, b);
    }
  }

  lemma {:induction false} IndexOfAppend(s: string, sep: char, x: string)
    ensures IndexOf(s, sep) < |s| ==> IndexOf(s + x, sep) == IndexOf(s, sep)
    ensures IndexOf(s, sep) == |s| && x != [] && x[0] == sep ==> IndexOf(s + x, sep) == |s|
    decreases |s|
  {
    if s != [] {
      assert (s + x)[1..] == s[1..] + x;
      IndexOfAppend(s[1..], sep, x);
    }
  }

  /** A separator at the very end gives one more, empty, field: `"a\t".split("\t") == ["a", ""]`. */
  lemma {:induction false} SplitTrailingSeparator(s: string, sep: char)
    ensures Split(s + [sep], sep) == Split(s, sep) + [[]]
    decreases |s|
  {
    var i := IndexOf(s, sep);
    var t := s + [sep];
    IndexOfAppend(s, sep, [sep]);
    if i < |s| {
      assert t[..i] == s[..i];
      assert t[i + 1..] == s[i + 1..] + [sep];
      SplitTrailingSeparator(s[i + 1..], sep);
    } else {
      assert t[..i] == s;
      assert t[i + 1..] == [];
      assert Split([], sep) == [[]];
    }
  }
}
