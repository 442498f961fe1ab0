/**
  String helpers shared by the models: Python's `str.split` with a
  one-character separator and its `join` partner, `splitlines()[0]`,
  `replace(pattern, '')`, and ASCII `lower` / `capitalize`.
 */
module Strings {

  /** Python's `s.split(sep)` for a one-character `sep`: every occurrence
      splits, empty pieces are kept, and the empty string splits to `[""]`. */
  function Split(s: string, sep: char): (r: seq<string>)
    ensures |r| >= 1
    ensures forall i :: 0 <= i < |r| ==> sep !in r[i]
    ensures |r| == 1 <==> sep !in s
    ensures sep !in s ==> r == [s]
    decreases |s|
  {
    if |s| == 0 then [""]
    else
      var rest := Split(s[1..], sep);
      assert s == [s[0]] + s[1..];
      if s[0] == sep then [""] + rest
      else [[s[0]] + rest[0]] + rest[1..]
  }

  /** Python's `sep.join(parts)`; the empty list joins to "". */
  function Join(parts: seq<string>, sep: char): (r: string)
    ensures |parts| == 0 ==> r == ""
    ensures |parts| >= 1 ==> |r| >= |parts[0]| && r[..|parts[0]|] == parts[0]
    ensures |parts| >= 2 ==> |r| > |parts[0]| && r[|parts[0]|] == sep
    decreases |parts|
  {
    if |parts| == 0 then ""
    else if |parts| == 1 then parts[0]
    else parts[0] + [sep] + Join(parts[1..], sep)
  }

  /** No piece contains the separator, so joining loses no boundary. */
  ghost predicate SeparatorFree(parts: seq<string>, sep: char)
  {
    forall i :: 0 <= i < |parts| ==> sep !in parts[i]
  }

  lemma {:induction false} SplitPrefix(a: string, t: string, sep: char)
    requires sep !in a
    ensures Split(a + t, sep) == [a + Split(t, sep)[0]] + Split(t, sep)[1..]
    decreases |a|
  {
    if |a| == 0 {
      var st := Split(t, sep);
      assert a + t == t;
      assert a + st[0] == st[0];
      assert st == [st[0]] + st[1..];
    } else {
      assert (a + t)[1..] == a[1..] + t;
      SplitPrefix(a[1..], t, sep);
      assert [a[0]] + (a[1..] + Split(t, sep)[0]) == a + Split(t, sep)[0];
    }
  }

  /** Splitting a joined list gives the list back when no piece holds the separator. */
  lemma {:induction false} SplitJoin(parts: seq<string>, sep: char)
    requires |parts| >= 1
    requires SeparatorFree(parts, sep)
    ensures Split(Join(parts, sep), sep) == parts
    decreases |parts|
  {
    if |parts| == 1 {
      SplitPrefix(parts[0], "", sep);
      assert parts[0] + "" == parts[0];
    } else {
      var tail := Join(parts[1..], sep);
      SplitJoin(parts[1..], sep);
      assert parts[0] + [sep] + tail == parts[0] + ([sep] + tail);
      SplitPrefix(parts[0], [sep] + tail, sep);
      assert ([sep] + tail)[1..] == tail;
      assert Split([sep] + tail, sep) == [""] + parts[1..];
      assert parts[0] + "" == parts[0];
      assert parts == [parts[0]] + parts[1..];
    }
  }

  /** Joining the pieces of a split restores the original string. */
  lemma {:induction false} JoinSplit(s: string, sep: char)
    ensures Join(Split(s, sep), sep) == s
    decreases |s|
  {
    if |s| > 0 {
      var rest := Split(s[1..], sep);
      JoinSplit(s[1..], sep);
      if s[0] == sep {
        assert ([""] + rest)[1..] == rest;
        assert s == [s[0]] + s[1..];
      } else {
        var r := [[s[0]] + rest[0]] + rest[1..];
        if |rest| == 1 {
          assert s == [s[0]] + s[1..];
        } else {
          assert r[1..] == rest[1..];
          assert Join(rest, sep) == rest[0] + [sep] + Join(rest[1..], sep);
          assert s == [s[0]] + s[1..];
        }
      }
    }
  }

  /** The first piece is the prefix of `s` before its first separator. */
  lemma {:induction false} SplitFirstIsPrefix(s: string, sep: char)
    ensures |Split(s, sep)[0]| <= |s|
    ensures Split(s, sep)[0] == s[..|Split(s, sep)[0]|]
    ensures |Split(s, sep)[0]| < |s| ==> s[|Split(s, sep)[0]|] == sep
    decreases |s|
  {
    if |s| > 0 {
      SplitFirstIsPrefix(s[1..], sep);
      assert s == [s[0]] + s[1..];
    }
  }

  /** The last element of a non-empty sequence. */
  function Last<T>(xs: seq<T>): T
    requires |xs| > 0
  {
    xs[|xs| - 1]
  }

  /** Python's `s.split(sep)[-1]`: the piece after the final separator. */
  function LastPiece(s: string, sep: char): (r: string)
    ensures sep !in r
  {
    Last(Split(s, sep))
  }

  /** The last piece is the suffix of `s` after its final separator, or all
      of `s` when the separator does not occur. */
  lemma {:induction false} LastPieceIsSuffix(s: string, sep: char)
    ensures |LastPiece(s, sep)| <= |s|
    ensures LastPiece(s, sep) == s[|s| - |LastPiece(s, sep)|..]
    ensures sep in s ==> s[|s| - |LastPiece(s, sep)| - 1] == sep
    ensures sep !in s ==> LastPiece(s, sep) == s
    decreases |s|
  {
    if |s| > 0 {
      LastPieceIsSuffix(s[1..], sep);
      var rest := Split(s[1..], sep);
      if s[0] == sep {
        assert Split(s, sep) == [""] + rest;
        assert LastPiece(s, sep) == LastPiece(s[1..], sep);
      } else if |rest| == 1 {
        assert s == [s[0]] + s[1..];
        assert LastPiece(s, sep) == s;
      } else {
        assert LastPiece(s, sep) == LastPiece(s[1..], sep);
      }
    }
  }

  /** The piece after a separator that is followed only by
      separator-free text is that text. */
  lemma LastPieceAfter(a: string, b: string, sep: char)
    requires sep !in b
    ensures LastPiece(a + [sep] + b, sep) == b
  {
    var s := a + [sep] + b;
    LastPieceIsSuffix(s, sep);
    var k := |LastPiece(s, sep)|;
    assert s[|s| - 1 - |b|] == sep;
    assert s[|s| - |b|..] == b;
  }

  /** The line boundaries Python's `str.splitlines` recognises. */
  predicate IsLineBreak(c: char)
  {
    c in {'\n', '\r', '\U{000B}', '\U{000C}', '\U{001C}', '\U{001D}', '\U{001E}', '\U{0085}', '\U{2028}', '\U{2029}'}
  }

  /** Python's `s.splitlines()[0]` for a non-empty `s`: the text before the
      first line boundary. */
  function FirstLine(s: string): (r: string)
    ensures |r| <= |s| && r == s[..|r|]
    ensures forall i :: 0 <= i < |r| ==> !IsLineBreak(r[i])
    ensures |r| < |s| ==> IsLineBreak(s[|r|])
    decreases |s|
  {
    if |s| == 0 || IsLineBreak(s[0]) then ""
    else [s[0]] + FirstLine(s[1..])
  }

  /** The first line of a line followed by a line break is that line. */
  lemma {:induction false} FirstLineOfLine(a: string, b: string)
    requires forall i :: 0 <= i < |a| ==> !IsLineBreak(a[i])
    requires |b| > 0 && IsLineBreak(b[0])
    ensures FirstLine(a + b) == a
    decreases |a|
  {
    if |a| > 0 {
      assert (a + b)[0] == a[0];
      assert (a + b)[1..] == a[1..] + b;
      FirstLineOfLine(a[1..], b);
      assert a == [a[0]] + a[1..];
    } else {
      assert a + b == b;
    }
  }

  /** Text without a line boundary is its own first line. */
  lemma {:induction false} FirstLineWhole(s: string)
    requires forall i :: 0 <= i < |s| ==> !IsLineBreak(s[i])
    ensures FirstLine(s) == s
    decreases |s|
  {
    if |s| > 0 {
      FirstLineWhole(s[1..]);
      assert s == [s[0]] + s[1..];
    }
  }

  /** `pat` occurs in `s` at position `i`. */
  predicate OccursAt(s: string, pat: string, i: nat)
  {
    i + |pat| <= |s| && s[i..i + |pat|] == pat
  }

  /** Python's `s.replace(pat, '')` for a non-empty `pat`: occurrences are
      removed left to right without overlapping. */
  function RemoveAll(s: string, pat: string): (r: string)
    requires |pat| > 0
    ensures |r| <= |s|
    ensures forall c :: c in r ==> c in s
    decreases |s|
  {
    if |s| < |pat| then s
    else if s[..|pat|] == pat then RemoveAll(s[|pat|..], pat)
    else [s[0]] + RemoveAll(s[1..], pat)
  }

  /** Removing a pattern that never occurs leaves the string unchanged. */
  lemma {:induction false} RemoveAllAbsent(s: string, pat: string)
    requires |pat| > 0
    requires forall i: nat :: !OccursAt(s, pat, i)
    ensures RemoveAll(s, pat) == s
    decreases |s|
  {
    if |s| >= |pat| {
      assert !OccursAt(s, pat, 0);
      forall i: nat ensures !OccursAt(s[1..], pat, i) {
        assert !OccursAt(s, pat, i + 1);
        if i + |pat| <= |s[1..]| {
          assert s[1..][i..i + |pat|] == s[i + 1..i + 1 + |pat|];
        }
      }
      RemoveAllAbsent(s[1..], pat);
      assert s == [s[0]] + s[1..];
    }
  }

  /** A prefix in which no occurrence of `pat` starts is kept as it is. */
  lemma {:induction false} RemoveAllKeepsPrefix(x: string, y: string, pat: string)
    requires |pat| > 0
    requires forall i :: 0 <= i < |x| ==> !OccursAt(x + y, pat, i)
    ensures RemoveAll(x + y, pat) == x + RemoveAll(y, pat)
    decreases |x|
  {
    if |x| == 0 {
      assert x + y == y;
    } else {
      var s := x + y;
      if |s| >= |pat| {
        assert !OccursAt(s, pat, 0);
        assert s[1..] == x[1..] + y;
        forall i | 0 <= i < |x[1..]|
          ensures !OccursAt(x[1..] + y, pat, i)
        {
          assert !OccursAt(s, pat, i + 1);
          if i + |pat| <= |s[1..]| {
            assert s[1..][i..i + |pat|] == s[i + 1..i + 1 + |pat|];
          }
        }
        RemoveAllKeepsPrefix(x[1..], y, pat);
        assert x == [x[0]] + x[1..];
      }
    }
  }

  /** No occurrence of `pat` starts inside `x` in `x + y` when none lies
      wholly in `x` and no proper suffix of `pat` is a prefix of `y`. */
  lemma NoStraddle(x: string, y: string, pat: string)
    requires |pat| > 0
    requires forall i: nat :: !OccursAt(x, pat, i)
    requires forall k :: 0 < k < |pat| && |pat| - k <= |y| ==> pat[k..] != y[..|pat| - k]
    ensures forall i :: 0 <= i < |x| ==> !OccursAt(x + y, pat, i)
  {
    forall i | 0 <= i < |x|
      ensures !OccursAt(x + y, pat, i)
    {
      if i + |pat| <= |x| {
        assert (x + y)[i..i + |pat|] == x[i..i + |pat|];
        assert !OccursAt(x, pat, i);
      } else if i + |pat| <= |x + y| {
        var k := |x| - i;
        assert (x + y)[i..i + |pat|][k..] == y[..|pat| - k];
        assert pat[k..] != y[..|pat| - k];
      }
    }
  }

  /** A leading occurrence is dropped and the rest is processed as usual. */
  lemma RemoveAllLeading(pat: string, t: string)
    requires |pat| > 0
    ensures RemoveAll(pat + t, pat) == RemoveAll(t, pat)
  {
    assert (pat + t)[..|pat|] == pat;
    assert (pat + t)[|pat|..] == t;
  }

  predicate IsUpper(c: char)
  {
    'A' <= c <= 'Z'
  }

  predicate IsLower(c: char)
  {
    'a' <= c <= 'z'
  }

  function LowerChar(c: char): (r: char)
    ensures !IsUpper(r)
    ensures IsUpper(c) <==> IsLower(r) && r != c
  {
    if IsUpper(c) then (c as int + 32) as char else c
  }

  function UpperChar(c: char): (r: char)
    ensures !IsLower(r)
    ensures IsLower(c) <==> IsUpper(r) && r != c
  {
    if IsLower(c) then (c as int - 32) as char else c
  }

  /** Python's `s.lower()` restricted to ASCII letters. */
  function Lower(s: string): (r: string)
    ensures |r| == |s|
    ensures forall i :: 0 <= i < |r| ==> !IsUpper(r[i])
    ensures forall i :: 0 <= i < |s| && !IsUpper(s[i]) ==> r[i] == s[i]
    ensures forall i :: 0 <= i < |s| && IsUpper(s[i]) ==> IsLower(r[i]) && r[i] == (s[i] as int + 32) as char
  {
    seq(|s|, i requires 0 <= i < |s| => LowerChar(s[i]))
  }

  /** Python's `s.capitalize()` restricted to ASCII letters: the first
      character upper-cased, every other one lower-cased. */
  function Capitalize(s: string): (r: string)
    ensures |r| == |s|
    ensures |s| > 0 ==> !IsLower(r[0])
    ensures |s| > 0 && IsLower(s[0]) ==> r[0] == (s[0] as int - 32) as char
    ensures |s| > 0 && !IsLower(s[0]) ==> r[0] == s[0]
    ensures forall i :: 1 <= i < |r| ==> !IsUpper(r[i])
    ensures forall i :: 1 <= i < |s| && IsUpper(s[i]) ==> r[i] == (s[i] as int + 32) as char
    ensures forall i :: 1 <= i < |s| && !IsUpper(s[i]) ==> r[i] == s[i]
  {
    if |s| == 0 then "" else [UpperChar(s[0])] + Lower(s[1..])
  }

  /** Lower-casing a string without upper-case letters changes nothing. */
  lemma LowerNoUpper(s: string)
    requires forall i :: 0 <= i < |s| ==> !IsUpper(s[i])
    ensures Lower(s) == s
  {
  }
}
