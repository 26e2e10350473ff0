/**
 * The Python `str` operations the report builder relies on: the substring test
 * `sub in s`, `s.split(sep)`, `sep.join(parts)` and `filter` over a list of
 * strings, each written out over `seq<char>`.
 */
module Strings {
  /** `sub` occurs in `s` starting at position `i`. */
  predicate OccursAt(s: string, sub: string, i: nat) {
    i + |sub| <= |s| && s[i..i + |sub|] == sub
  }

  /** Python's `sub in s`. */
  predicate Contains(s: string, sub: string) {
    exists i: nat | i <= |s| :: OccursAt(s, sub, i)
  }

  /**
   * Python's `s.split(sep)`: the pieces between the leftmost non-overlapping
   * occurrences of `sep`, scanning from the left. There is always at least one
   * piece.
   */
  function Split(s: string, sep: string): (parts: seq<string>)
    requires |sep| > 0
    ensures |parts| >= 1
    decreases |s|
  {
    if |s| < |sep| then [s]
    else if s[..|sep|] == sep then [""] + Split(s[|sep|..], sep)
    else
      var rest := Split(s[1..], sep);
      [[s[0]] + rest[0]] + rest[1..]
  }

  /** Python's `sep.join(parts)`. */
  function Join(parts: seq<string>, sep: string): string
  {
    if |parts| == 0 then ""
    else if |parts| == 1 then parts[0]
    else parts[0] + sep + Join(parts[1..], sep)
  }

  /** Joining a non-empty tail behind one more part puts the separator between them. */
  lemma JoinCons(x: string, tail: seq<string>, sep: string)
    requires |tail| >= 1
    ensures Join([x] + tail, sep) == x + sep + Join(tail, sep)
  {
    assert ([x] + tail)[1..] == tail;
  }

  /** Putting a character in front of the first part puts it in front of the join. */
  lemma JoinPrepend(c: char, parts: seq<string>, sep: string)
    requires |parts| >= 1
    ensures Join([[c] + parts[0]] + parts[1..], sep) == [c] + Join(parts, sep)
  {
    var q := [[c] + parts[0]] + parts[1..];
    if |parts| > 1 {
      assert q[1..] == parts[1..];
    }
  }

  /** Joining the pieces of a split with the same separator gives back the original string. */
  lemma {:induction false} JoinSplit(s: string, sep: string)
    requires |sep| > 0
    ensures Join(Split(s, sep), sep) == s
    decreases |s|
  {
    if |s| < |sep| {
    } else if s[..|sep|] == sep {
      var rest := s[|sep|..];
      assert Split(s, sep) == [""] + Split(rest, sep);
      JoinSplit(rest, sep);
      JoinCons("", Split(rest, sep), sep);
      assert s == s[..|sep|] + rest;
    } else {
      var rest := Split(s[1..], sep);
      assert Split(s, sep) == [[s[0]] + rest[0]] + rest[1..];
      JoinSplit(s[1..], sep);
      JoinPrepend(s[0], rest, sep);
      assert s == [s[0]] + s[1..];
    }
  }

  /** The first piece of a split is a prefix of the string. */
  lemma {:induction false} SplitFirstIsPrefix(s: string, sep: string)
    requires |sep| > 0
    ensures Split(s, sep)[0] <= s
    decreases |s|
  {
    if |s| >= |sep| && s[..|sep|] != sep {
      SplitFirstIsPrefix(s[1..], sep);
      assert s == [s[0]] + s[1..];
    }
  }

  /** A character in front of a string that avoids `sep` keeps it avoiding `sep`, unless the result starts with `sep`. */
  lemma PrependAvoids(c: char, p: string, sep: string)
    requires |sep| > 0 && !Contains(p, sep)
    requires !OccursAt([c] + p, sep, 0)
    ensures !Contains([c] + p, sep)
  {
    var u := [c] + p;
    forall j: nat | 1 <= j <= |u|
      ensures !OccursAt(u, sep, j)
    {
      if j + |sep| <= |u| {
        assert u[j..j + |sep|] == p[j - 1..j - 1 + |sep|];
        assert !OccursAt(p, sep, j - 1);
      }
    }
  }

  /** No piece of a split contains the separator. */
  lemma {:induction false} SplitPiecesAvoidSeparator(s: string, sep: string)
    requires |sep| > 0
    ensures forall p | p in Split(s, sep) :: !Contains(p, sep)
    decreases |s|
  {
    if |s| < |sep| {
      assert forall j: nat | j <= |s| :: !OccursAt(s, sep, j);
    } else if s[..|sep|] == sep {
      SplitPiecesAvoidSeparator(s[|sep|..], sep);
      assert !OccursAt("", sep, 0);
    } else {
      var rest := Split(s[1..], sep);
      SplitPiecesAvoidSeparator(s[1..], sep);
      SplitFirstIsPrefix(s[1..], sep);
      var u := [s[0]] + rest[0];
      assert u <= s by {
        assert s == [s[0]] + s[1..];
      }
      assert !OccursAt(u, sep, 0) by {
        if |sep| <= |u| {
          assert u[..|sep|] == s[..|sep|];
        }
      }
      assert rest[0] in rest;
      PrependAvoids(s[0], rest[0], sep);
      forall p | p in rest[1..]
        ensures p in rest
      {
      }
    }
  }

  /** Python's `filter(lambda x: marker not in x, parts)`. */
  function Without(parts: seq<string>, marker: string): (kept: seq<string>)
    ensures |kept| <= |parts|
  {
    if parts == [] then []
    else (if Contains(parts[0], marker) then [] else [parts[0]]) + Without(parts[1..], marker)
  }

  /** The filter keeps exactly the parts that do not contain the marker. */
  lemma {:induction false} WithoutMembers(parts: seq<string>, marker: string, p: string)
    ensures p in Without(parts, marker) <==> p in parts && !Contains(p, marker)
  {
    if parts != [] {
      WithoutMembers(parts[1..], marker, p);
      assert parts == [parts[0]] + parts[1..];
    }
  }

  /** The filter keeps the original order: it distributes over concatenation. */
  lemma {:induction false} WithoutAppend(a: seq<string>, b: seq<string>, marker: string)
    ensures Without(a + b, marker) == Without(a, marker) + Without(b, marker)
  {
    if a == [] {
      assert a + b == b;
    } else {
      assert (a + b)[0] == a[0];
      assert (a + b)[1..] == a[1..] + b;
      WithoutAppend(a[1..], b, marker);
    }
  }

  /** When no part contains the marker, the filter drops nothing. */
  lemma {:induction false} WithoutNothing(parts: seq<string>, marker: string)
    requires forall p | p in parts :: !Contains(p, marker)
    ensures Without(parts, marker) == parts
  {
    if parts != [] {
      assert forall p | p in parts[1..] :: p in parts;
      WithoutNothing(parts[1..], marker);
    }
  }

  /**
   * No occurrence of `sub` in `a + sep + b` can start at `i` when `sub` occurs
   * in neither `a` nor `b` and shares no character with `sep`: such an
   * occurrence would lie wholly in `a`, wholly in `b`, or cover a character of
   * `sep`.
   */
  lemma NoOccurrenceAround(a: string, sep: string, b: string, sub: string, i: nat)
    requires !Contains(a, sub) && !Contains(b, sub)
    requires |sep| > 0
    requires forall c | c in sub :: c !in sep
    ensures !OccursAt(a + sep + b, sub, i)
  {
    var x := a + sep + b;
    if i + |sub| <= |x| {
      assert OccursAt(a, sub, 0) ==> Contains(a, sub);
      if i + |sub| <= |a| {
        assert x[i..i + |sub|] == a[i..i + |sub|];
        assert !OccursAt(a, sub, i);
      } else if i >= |a| + |sep| {
        var k: nat := i - |a| - |sep|;
        assert x[|a| + |sep|..] == b;
        assert x[i..i + |sub|] == b[k..k + |sub|];
        assert !OccursAt(b, sub, k);
      } else {
        var p := if i < |a| then |a| else i;
        assert x[p] == sep[p - |a|];
        assert sub[p - i] in sub;
        assert x[i..i + |sub|][p - i] != sub[p - i];
      }
    }
  }

  /** A string built around a separator that shares no character with `sub` avoids `sub` if both sides do. */
  lemma NotContainsAround(a: string, sep: string, b: string, sub: string)
    requires !Contains(a, sub) && !Contains(b, sub)
    requires |sep| > 0
    requires forall c | c in sub :: c !in sep
    ensures !Contains(a + sep + b, sub)
  {
    forall i: nat | i <= |a + sep + b|
      ensures !OccursAt(a + sep + b, sub, i)
    {
      NoOccurrenceAround(a, sep, b, sub, i);
    }
  }

  /** A join of parts that avoid `sub`, with a separator sharing no character with `sub`, avoids `sub`. */
  lemma {:induction false} JoinAvoids(parts: seq<string>, sep: string, sub: string)
    requires |sub| > 0 && |sep| > 0
    requires forall p | p in parts :: !Contains(p, sub)
    requires forall c | c in sub :: c !in sep
    ensures !Contains(Join(parts, sep), sub)
  {
    if |parts| == 0 {
    } else if |parts| == 1 {
      assert parts[0] in parts;
    } else {
      assert parts[0] in parts;
      assert forall p | p in parts[1..] :: p in parts;
      JoinAvoids(parts[1..], sep, sub);
      NotContainsAround(parts[0], sep, Join(parts[1..], sep), sub);
    }
  }
}
