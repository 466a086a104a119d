/** Values shared by every module: optional values, the errors the system
    raises, timestamps, Python's ordering on strings, SQLite's NOCASE
    folding and Python's str.strip(). */
module Basics {

  datatype Option<T> = None | Some(value: T)

  /** The exceptions the core raises: FileExistsError, FileNotFoundError,
      sqlite3.IntegrityError (a primary-key, foreign-key or CHECK violation),
      ValueError, and AttributeError for an attribute never assigned. */
  datatype Error = FileExists | NotFound | Integrity | InvalidValue | Unset

  datatype Result<T> = Ok(value: T) | Err(error: Error)

  /** A state reached by a run that may stop at the first exception: the
      state when it stopped and the exception, if any. */
  datatype Outcome<T> = Outcome(state: T, error: Option<Error>)

  /** A value of datetime.now().isoformat(): never the empty string. */
  type IsoTime = s: string | s != [] witness "0"

  /** Python's `a < b` on str: lexicographic order by code point. */
  predicate Less(a: string, b: string)
  {
    if b == [] then false
    else if a == [] then true
    else if a[0] != b[0] then a[0] < b[0]
    else Less(a[1..], b[1..])
  }

  /** The empty string is below every other string, so a timestamp is never
      "newer" than ''. */
  lemma {:induction false} LessEmpty(a: string)
    ensures !Less(a, "")
    ensures Less("", a) <==> a != ""
  {
  }

  lemma {:induction false} LessIrreflexive(a: string)
    ensures !Less(a, a)
  {
    if a != [] {
      LessIrreflexive(a[1..]);
    }
  }

  lemma {:induction false} LessAsymmetric(a: string, b: string)
    ensures Less(a, b) ==> !Less(b, a)
  {
    if a != [] && b != [] && a[0] == b[0] {
      LessAsymmetric(a[1..], b[1..]);
    }
  }

  lemma {:induction false} LessTransitive(a: string, b: string, c: string)
    requires Less(a, b) && Less(b, c)
    ensures Less(a, c)
  {
    if a != [] && a[0] == b[0] && b[0] == c[0] {
      LessTransitive(a[1..], b[1..], c[1..]);
    }
  }

  /** Two distinct strings are always ordered one way or the other. */
  lemma {:induction false} LessTotal(a: string, b: string)
    ensures a == b || Less(a, b) || Less(b, a)
  {
    if a != [] && b != [] && a[0] == b[0] {
      LessTotal(a[1..], b[1..]);
      if a[1..] == b[1..] {
        assert a == [a[0]] + a[1..] && b == [b[0]] + b[1..];
      }
    }
  }

  /** Two strings that first differ at position i are ordered by the
      characters there. */
  lemma {:induction false} LessAt(a: string, b: string, i: nat)
    requires i < |a| && i < |b| && a[..i] == b[..i] && a[i] < b[i]
    ensures Less(a, b)
  {
    if i > 0 {
      assert a[0] == a[..i][0] && b[0] == b[..i][0];
      assert a[1..][..i - 1] == a[..i][1..] && b[1..][..i - 1] == b[..i][1..];
      LessAt(a[1..], b[1..], i - 1);
    }
  }

  /** The order a loop over a Python set visits its elements in: each
      element once, and nothing else. */
  ghost predicate Enumerates(xs: seq<string>, s: set<string>)
  {
    && (forall x :: x in xs <==> x in s)
    && (forall i, j :: 0 <= i < j < |xs| ==> xs[i] != xs[j])
  }

  /** An empty set is visited by the empty sequence and no other. */
  lemma EnumeratesEmpty(xs: seq<string>, s: set<string>)
    requires Enumerates(xs, s)
    ensures xs == [] <==> s == {}
  {
    if xs != [] {
      assert xs[0] in s;
    }
  }

  /** `for x in s` over a set: the elements in some order. */
  method Elements(s: set<string>) returns (xs: seq<string>)
    ensures Enumerates(xs, s)
  {
    xs := [];
    var rest := s;
    while rest != {}
      invariant rest <= s
      invariant forall x :: x in xs <==> x in s - rest
      invariant forall i, j :: 0 <= i < j < |xs| ==> xs[i] != xs[j]
      decreases rest
    {
      var x :| x in rest;
      assert x !in xs;
      xs := xs + [x];
      rest := rest - {x};
    }
  }

  /** SQLite's NOCASE collation folds only the ASCII letters A-Z. */
  function FoldAscii(c: char): char
  {
    if 'A' <= c <= 'Z' then (c as int + 32) as char else c
  }

  /** The key under which NOCASE compares a string. */
  function NoCase(s: string): (r: string)
    ensures |r| == |s|
  {
    if s == [] then [] else [FoldAscii(s[0])] + NoCase(s[1..])
  }

  lemma {:induction false} NoCaseIdempotent(s: string)
    ensures NoCase(NoCase(s)) == NoCase(s)
  {
    if s != [] {
      NoCaseIdempotent(s[1..]);
    }
  }

  /** Folding case loses nothing but the case of ASCII letters: strings that
      are not letters are their own key. */
  lemma {:induction false} NoCaseAt(s: string, i: nat)
    requires i < |s|
    ensures NoCase(s)[i] == FoldAscii(s[i])
  {
    if i > 0 {
      NoCaseAt(s[1..], i - 1);
    }
  }

  /** The key holds no ASCII capital and keeps every other character. */
  lemma NoCaseLower(s: string)
    ensures forall i :: 0 <= i < |s| ==> !('A' <= NoCase(s)[i] <= 'Z')
    ensures forall i :: 0 <= i < |s| && !('A' <= s[i] <= 'Z') ==> NoCase(s)[i] == s[i]
  {
    forall i | 0 <= i < |s|
      ensures NoCase(s)[i] == FoldAscii(s[i])
    {
      NoCaseAt(s, i);
    }
  }

  predicate EndsWith(s: string, suffix: string)
  {
    |suffix| <= |s| && s[|s| - |suffix|..] == suffix
  }

  /** The characters Python's str.isspace() accepts. */
  predicate IsSpace(c: char)
  {
    c == ' ' || '\t' <= c <= '\r' || '\U{1c}' <= c <= '\U{1f}' || c == '\U{85}'
    || c == '\U{a0}' || c == '\U{1680}' || '\U{2000}' <= c <= '\U{200a}'
    || c == '\U{2028}' || c == '\U{2029}' || c == '\U{202f}' || c == '\U{205f}'
    || c == '\U{3000}'
  }

  /** The index of the first character at or after i that is not white
      space. */
  function SkipSpace(s: string, i: nat): (n: nat)
    requires i <= |s|
    ensures i <= n <= |s| && (n == |s| || !IsSpace(s[n]))
    ensures forall j :: i <= j < n ==> IsSpace(s[j])
    decreases |s| - i
  {
    if i < |s| && IsSpace(s[i]) then SkipSpace(s, i + 1) else i
  }

  /** The end of s[lo..hi] once its trailing white space is cut off. */
  function TextEnd(s: string, lo: nat, hi: nat): (n: nat)
    requires lo <= hi <= |s|
    ensures lo <= n <= hi && (n == lo || !IsSpace(s[n - 1]))
    ensures forall j :: n <= j < hi ==> IsSpace(s[j])
    decreases hi
  {
    if lo < hi && IsSpace(s[hi - 1]) then TextEnd(s, lo, hi - 1) else hi
  }

  /** Python's str.strip() with no argument: the leading white space goes,
      then the trailing white space of what is left. */
  function Strip(s: string): string
  {
    var lo := SkipSpace(s, 0);
    s[lo..TextEnd(s, lo, |s|)]
  }

  /** strip() removes exactly the white space at both ends: what is left is
      a contiguous piece of the input that neither starts nor ends with white
      space, and everything cut off was white space. */
  lemma StripSpec(s: string)
    ensures var r, lo := Strip(s), SkipSpace(s, 0);
      && (r == [] || (!IsSpace(r[0]) && !IsSpace(r[|r| - 1])))
      && lo + |r| <= |s| && r == s[lo..lo + |r|]
      && (forall i :: 0 <= i < lo ==> IsSpace(s[i]))
      && (forall i :: lo + |r| <= i < |s| ==> IsSpace(s[i]))
  {
    var lo := SkipSpace(s, 0);
    var hi := TextEnd(s, lo, |s|);
    var r := s[lo..hi];
    if r != [] {
      assert r[0] == s[lo] && r[|r| - 1] == s[hi - 1];
    }
  }

  /** A string strips to '' exactly when it is all white space. */
  lemma StripEmpty(s: string)
    ensures Strip(s) == [] <==> forall i :: 0 <= i < |s| ==> IsSpace(s[i])
  {
    var lo := SkipSpace(s, 0);
    var hi := TextEnd(s, lo, |s|);
    if forall i :: 0 <= i < |s| ==> IsSpace(s[i]) {
      assert lo == |s|;
    } else {
      var i :| 0 <= i < |s| && !IsSpace(s[i]);
      assert lo <= i < hi;
      assert Strip(s)[i - lo] == s[i];
    }
  }

  lemma StripIdempotent(s: string)
    ensures Strip(Strip(s)) == Strip(s)
  {
    var r := Strip(s);
    StripSpec(s);
    assert SkipSpace(r, 0) == 0;
    assert TextEnd(r, 0, |r|) == |r|;
    assert r[0..|r|] == r;
  }
}
