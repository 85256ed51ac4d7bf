/**
 The two string operations the to-do list relies on: JavaScript's
 `String.prototype.trim`, used by the submit handler to reject blank titles,
 and `String.prototype.split` with a one-character separator, used by the
 renderer to cut the date out of an ISO timestamp.
 */
module Text {

  /** The code points `trim` removes: the ECMAScript WhiteSpace production
      (tab, vertical tab, form feed, space, no-break space, byte order mark and
      every other Unicode "Zs" space) and the LineTerminator production
      (line feed, carriage return, line and paragraph separators). */
  predicate IsWhite(c: char) {
    || c == '\t' || c == '\n' || c == '\U{000B}' || c == '\U{000C}' || c == '\r'
    || c == ' ' || c == '\U{00A0}' || c == '\U{1680}'
    || ('\U{2000}' <= c <= '\U{200A}')
    || c == '\U{2028}' || c == '\U{2029}' || c == '\U{202F}' || c == '\U{205F}'
    || c == '\U{3000}' || c == '\U{FEFF}'
  }

  /** True iff every character of `s` is whitespace (in particular for ""). */
  predicate IsBlank(s: string) {
    forall k :: 0 <= k < |s| ==> IsWhite(s[k])
  }

  /** How many whitespace characters `s` starts with. */
  function LeadingWhite(s: string): (n: nat)
    ensures n <= |s|
    ensures forall k :: 0 <= k < n ==> IsWhite(s[k])
    ensures n < |s| ==> !IsWhite(s[n])
  {
    if s != [] && IsWhite(s[0]) then 1 + LeadingWhite(s[1..]) else 0
  }

  /** How many whitespace characters `s` ends with. */
  function TrailingWhite(s: string): (n: nat)
    ensures n <= |s|
    ensures forall k :: |s| - n <= k < |s| ==> IsWhite(s[k])
    ensures n < |s| ==> !IsWhite(s[|s| - n - 1])
  {
    if s != [] && IsWhite(s[|s| - 1]) then 1 + TrailingWhite(s[..|s| - 1]) else 0
  }

  /** `r` is the slice of `s` starting at `i` that `trim` keeps: everything
      before and after it is white, and it neither starts nor ends white. */
  ghost predicate TrimmedAt(s: string, r: string, i: int) {
    && 0 <= i && i + |r| <= |s|
    && r == s[i..i + |r|]
    && (forall k :: 0 <= k < i ==> IsWhite(s[k]))
    && (forall k :: i + |r| <= k < |s| ==> IsWhite(s[k]))
    && (r != [] ==> !IsWhite(r[0]) && !IsWhite(r[|r| - 1]))
  }

  /** `String.prototype.trim`: the text between the leading and the trailing
      whitespace. */
  function Trim(s: string): (r: string)
    ensures exists i :: TrimmedAt(s, r, i)
    ensures r == [] <==> IsBlank(s)
  {
    var i := LeadingWhite(s);
    if i == |s| then
      assert TrimmedAt(s, [], i);
      []
    else
      var j := |s| - TrailingWhite(s);
      assert i < j by {
        assert !IsWhite(s[i]);
      }
      var r := s[i..j];
      assert TrimmedAt(s, r, i) by {
        assert r[0] == s[i] && r[|r| - 1] == s[j - 1];
      }
      TrimmedAtBlank(s, r, i);
      r
  }

  /** What `trim` keeps is empty exactly when the input is all whitespace. */
  lemma TrimmedAtBlank(s: string, r: string, i: int)
    requires TrimmedAt(s, r, i)
    ensures r == [] <==> IsBlank(s)
  {
    if r != [] {
      assert s[i] == r[0];
    }
  }

  /** There is only one slice `trim` can keep, so any slice with the
      `TrimmedAt` property is the result of `Trim`. */
  lemma TrimmedAtUnique(s: string, r: string, i: int)
    requires TrimmedAt(s, r, i)
    ensures r == Trim(s)
  {
    var t := Trim(s);
    var i' :| TrimmedAt(s, t, i');
    TrimmedAtBlank(s, r, i);
    TrimmedAtBlank(s, t, i');
  }

  /** Trimming twice trims nothing more. */
  lemma TrimIdempotent(s: string)
    ensures Trim(Trim(s)) == Trim(s)
  {
    var r := Trim(s);
    assert TrimmedAt(r, r, 0) by {
      assert r[0..0 + |r|] == r;
    }
    TrimmedAtUnique(r, r, 0);
  }

  /** Padding a title with whitespace on either side does not change what
      `trim` returns. */
  lemma TrimIgnoresPadding(before: string, s: string, after: string)
    requires IsBlank(before) && IsBlank(after)
    ensures Trim(before + s + after) == Trim(s)
  {
    var padded := before + s + after;
    var r := Trim(s);
    var i :| TrimmedAt(s, r, i);
    var i' := |before| + i;
    assert padded[i'..i' + |r|] == s[i..i + |r|];
    assert forall k :: 0 <= k < i' ==> IsWhite(padded[k]) by {
      forall k | 0 <= k < i' ensures IsWhite(padded[k]) {
        if k < |before| {
          assert padded[k] == before[k];
        } else {
          assert padded[k] == s[k - |before|];
        }
      }
    }
    assert forall k :: i' + |r| <= k < |padded| ==> IsWhite(padded[k]) by {
      forall k | i' + |r| <= k < |padded| ensures IsWhite(padded[k]) {
        if k < |before| + |s| {
          assert padded[k] == s[k - |before|];
        } else {
          assert padded[k] == after[k - |before| - |s|];
        }
      }
    }
    assert TrimmedAt(padded, r, i');
    TrimmedAtUnique(padded, r, i');
  }

  /** Glues `parts` back together with `sep` between consecutive parts; the
      inverse of `Split`. */
  function Join(parts: seq<string>, sep: char): string
    requires |parts| >= 1
  {
    if |parts| == 1 then parts[0] else parts[0] + [sep] + Join(parts[1..], sep)
  }

  /** `s.split(sep)` for a one-character separator: the maximal runs of
      non-separator characters, in order, with an empty part wherever two
      separators are adjacent or a separator starts or ends `s`; "" splits
      into one empty part. */
  function Split(s: string, sep: char): (parts: seq<string>)
    ensures |parts| >= 1
    ensures forall i :: 0 <= i < |parts| ==> sep !in parts[i]
    ensures Join(parts, sep) == s
  {
    if s == [] then [[]]
    else
      var rest := Split(s[1..], sep);
      if s[0] == sep then
        assert s == [sep] + s[1..];
        [[]] + rest
      else
        var parts := [[s[0]] + rest[0]] + rest[1..];
        assert parts[1..] == rest[1..];
        assert s == [s[0]] + s[1..];
        parts
  }

  /** A decomposition of `s` into separator-free parts joined by `sep` is
      exactly `Split(s, sep)`: splitting and joining are inverse both ways. */
  lemma {:induction false} SplitUnique(s: string, sep: char, parts: seq<string>)
    requires |parts| >= 1
    requires forall i :: 0 <= i < |parts| ==> sep !in parts[i]
    requires Join(parts, sep) == s
    ensures parts == Split(s, sep)
    decreases |s|
  {
    if s != [] && parts[0] == [] {
      assert |parts| > 1;
      assert s[0] == sep;
      assert s[1..] == Join(parts[1..], sep);
      SplitUnique(s[1..], sep, parts[1..]);
      assert parts == [[]] + parts[1..];
    } else if s != [] {
      var head := parts[0];
      var rest := [head[1..]] + parts[1..];
      assert rest[1..] == parts[1..];
      assert s[0] == head[0];
      assert s[0] != sep by { assert head[0] in head; }
      assert Join(rest, sep) == s[1..];
      forall i | 0 <= i < |rest|
        ensures sep !in rest[i]
      {
        if i == 0 {
          assert forall c :: c in head[1..] ==> c in head;
        }
      }
      SplitUnique(s[1..], sep, rest);
      assert head == [s[0]] + rest[0];
      assert parts == [head] + parts[1..];
    }
  }

  /** The first part of a split is the longest prefix free of `sep`: it is a
      prefix of `s`, and either it is all of `s` or `sep` comes right after it. */
  lemma FirstPartIsPrefix(s: string, sep: char)
    ensures Split(s, sep)[0] <= s
    ensures sep !in Split(s, sep)[0]
    ensures |Split(s, sep)[0]| < |s| ==> s[|Split(s, sep)[0]|] == sep
  {
    var parts := Split(s, sep);
    if |parts| > 1 {
      assert s == parts[0] + [sep] + Join(parts[1..], sep);
    }
  }
}
