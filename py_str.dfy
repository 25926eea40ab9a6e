/**
 * The Python `str` operations the cleaner script relies on, stated on
 * `seq<char>`: `startswith`, `endswith`, `strip()`, `split(sep)` and
 * `os.path.splitext` (POSIX flavour).
 */
module PyStr {
  import opened Wrappers

  /** `s.startswith(prefix)` */
  predicate StartsWith(s: string, prefix: string) {
    prefix <= s
  }

  /** `s.endswith(suffix)` */
  predicate EndsWith(s: string, suffix: string) {
    |suffix| <= |s| && s[|s| - |suffix|..] == suffix
  }

  /** `s` ends with `suffix` exactly when it is some stem followed by `suffix`. */
  lemma EndsWithIsConcat(s: string, suffix: string)
    ensures EndsWith(s, suffix) <==> exists stem :: s == stem + suffix
  {
    if EndsWith(s, suffix) {
      assert s == s[..|s| - |suffix|] + suffix;
    }
    if exists stem :: s == stem + suffix {
      var stem :| s == stem + suffix;
      assert s[|s| - |suffix|..] == suffix;
    }
  }

  /** The characters Python's `str.isspace()` accepts, which `strip()` removes. */
  predicate IsSpace(c: char) {
    c == ' ' || '\t' <= c <= '\r' || '\U{1C}' <= c <= '\U{1F}' || c == '\U{85}' || c == '\U{A0}'
    || c == '\U{1680}' || '\U{2000}' <= c <= '\U{200A}' || c == '\U{2028}' || c == '\U{2029}'
    || c == '\U{202F}' || c == '\U{205F}' || c == '\U{3000}'
  }

  /** `s.lstrip()`: the longest suffix of `s` that does not start with whitespace. */
  function TrimLeft(s: string): (r: string)
    ensures |r| <= |s| && r == s[|s| - |r|..]
    ensures forall k :: 0 <= k < |s| - |r| ==> IsSpace(s[k])
    ensures r == [] || !IsSpace(r[0])
  {
    if s != [] && IsSpace(s[0]) then TrimLeft(s[1..]) else s
  }

  /** `s.rstrip()`: the longest prefix of `s` that does not end with whitespace. */
  function TrimRight(s: string): (r: string)
    ensures |r| <= |s| && r == s[..|r|]
    ensures forall k :: |r| <= k < |s| ==> IsSpace(s[k])
    ensures r == [] || !IsSpace(r[|r| - 1])
  {
    if s != [] && IsSpace(s[|s| - 1]) then TrimRight(s[..|s| - 1]) else s
  }

  /** `s.strip()` */
  function Strip(s: string): (r: string)
    ensures |r| <= |s|
    ensures r == [] || (!IsSpace(r[0]) && !IsSpace(r[|r| - 1]))
  {
    TrimRight(TrimLeft(s))
  }

  predicate AllSpace(s: string) {
    forall k :: 0 <= k < |s| ==> IsSpace(s[k])
  }

  /** `lstrip` removes exactly an all-whitespace prefix in front of text that does not start with whitespace. */
  lemma TrimLeftPadded(before: string, rest: string)
    requires AllSpace(before) && (rest == [] || !IsSpace(rest[0]))
    ensures TrimLeft(before + rest) == rest
  {
    var s := before + rest;
    var r := TrimLeft(s);
    assert |r| <= |rest| by {
      if |r| > 0 {
        assert r[0] == s[|s| - |r|];
      }
    }
    assert |r| >= |rest| by {
      if rest != [] {
        assert s[|before|] == rest[0];
      }
    }
    assert r == s[|before|..];
  }

  /** `rstrip` removes exactly an all-whitespace suffix behind text that does not end with whitespace. */
  lemma TrimRightPadded(rest: string, after: string)
    requires AllSpace(after) && (rest == [] || !IsSpace(rest[|rest| - 1]))
    ensures TrimRight(rest + after) == rest
  {
    var s := rest + after;
    var r := TrimRight(s);
    assert |r| <= |rest| by {
      if |r| > 0 {
        assert r[|r| - 1] == s[|r| - 1];
      }
    }
    assert |r| >= |rest| by {
      if rest != [] {
        assert s[|rest| - 1] == rest[|rest| - 1];
      }
    }
    assert r == s[..|rest|];
  }

  /** `strip()` removes exactly the whitespace padding around a text that is not itself padded. */
  lemma StripPadded(before: string, text: string, after: string)
    requires AllSpace(before) && AllSpace(after)
    requires text == [] || (!IsSpace(text[0]) && !IsSpace(text[|text| - 1]))
    ensures Strip(before + text + after) == text
  {
    assert before + text + after == before + (text + after);
    if text == [] {
      assert text + after == after;
      TrimLeftPadded(before + after, []);
      assert before + after + [] == before + after;
      TrimRightPadded([], []);
    } else {
      assert (text + after)[0] == text[0];
      TrimLeftPadded(before, text + after);
      TrimRightPadded(text, after);
    }
  }

  /** `s.split(sep)` for a one-character separator: the pieces between separators, empty ones included. */
  function Split(s: string, sep: char): (pieces: seq<string>)
    ensures |pieces| >= 1
    ensures forall i :: 0 <= i < |pieces| ==> sep !in pieces[i]
    decreases |s|
  {
    if s == [] then [[]]
    else
      var rest := Split(s[1..], sep);
      if s[0] == sep then [[]] + rest else [[s[0]] + rest[0]] + rest[1..]
  }

  /** `sep.join(pieces)` */
  function Join(pieces: seq<string>, sep: char): string
    decreases |pieces|
  {
    if pieces == [] then []
    else if |pieces| == 1 then pieces[0]
    else pieces[0] + [sep] + Join(pieces[1..], sep)
  }

  /** Prefixing a character to the first piece prefixes it to the join. */
  lemma JoinPrepend(c: char, pieces: seq<string>, sep: char)
    requires |pieces| >= 1
    ensures Join([[c] + pieces[0]] + pieces[1..], sep) == [c] + Join(pieces, sep)
  {
    var ps := [[c] + pieces[0]] + pieces[1..];
    assert ps[0] == [c] + pieces[0] && ps[1..] == pieces[1..];
  }

  /** Joining the pieces of a split gives back the original text. */
  lemma {:induction false} JoinSplit(s: string, sep: char)
    ensures Join(Split(s, sep), sep) == s
    decreases |s|
  {
    if s != [] {
      var rest := Split(s[1..], sep);
      JoinSplit(s[1..], sep);
      if s[0] == sep {
        var ps := [[]] + rest;
        assert ps[1..] == rest;
        assert Join(ps, sep) == [sep] + Join(rest, sep);
      } else {
        JoinPrepend(s[0], rest, sep);
      }
      assert s == [s[0]] + s[1..];
    }
  }

  /** A text without the separator is followed by the pieces of what comes after the separator. */
  lemma {:induction false} SplitAfterPiece(p: string, sep: char, t: string)
    requires sep !in p
    ensures Split(p + [sep] + t, sep) == [p] + Split(t, sep)
    decreases |p|
  {
    if p == [] {
      assert p + [sep] + t == [sep] + t;
      assert ([sep] + t)[1..] == t;
    } else {
      SplitAfterPiece(p[1..], sep, t);
      assert (p + [sep] + t)[1..] == p[1..] + [sep] + t;
      assert [p[0]] + p[1..] == p;
    }
  }

  /** A text without the separator splits into itself. */
  lemma {:induction false} SplitNoSeparator(p: string, sep: char)
    requires sep !in p
    ensures Split(p, sep) == [p]
    decreases |p|
  {
    if p != [] {
      SplitNoSeparator(p[1..], sep);
      assert [p[0]] + p[1..] == p;
    }
  }

  /** Splitting a join recovers the pieces, when no piece holds the separator. */
  lemma {:induction false} SplitJoin(pieces: seq<string>, sep: char)
    requires |pieces| >= 1
    requires forall i :: 0 <= i < |pieces| ==> sep !in pieces[i]
    ensures Split(Join(pieces, sep), sep) == pieces
    decreases |pieces|
  {
    if |pieces| == 1 {
      SplitNoSeparator(pieces[0], sep);
    } else {
      SplitJoin(pieces[1..], sep);
      SplitAfterPiece(pieces[0], sep, Join(pieces[1..], sep));
      assert [pieces[0]] + pieces[1..] == pieces;
    }
  }

  /** `s.split(sep)[1]`: `None` where Python raises `IndexError`. */
  function SecondField(s: string, sep: char): Option<string> {
    var pieces := Split(s, sep);
    if |pieces| >= 2 then Some(pieces[1]) else None
  }

  /** With the separator present, `split(sep)[1]` is the text between its first and second occurrence (or the end). */
  lemma SecondFieldSpec(first: string, sep: char, field: string, rest: string)
    requires sep !in first && sep !in field
    requires rest == [] || rest[0] == sep
    ensures SecondField(first + [sep] + field + rest, sep) == Some(field)
  {
    var t := field + rest;
    assert first + [sep] + field + rest == first + [sep] + t;
    SplitAfterPiece(first, sep, t);
    if rest == [] {
      assert t == field;
      SplitNoSeparator(field, sep);
    } else {
      assert t == field + [sep] + rest[1..];
      SplitAfterPiece(field, sep, rest[1..]);
    }
  }

  /** Without the separator there is no second field. */
  lemma SecondFieldMissing(s: string, sep: char)
    requires sep !in s
    ensures SecondField(s, sep) == None
  {
    SplitNoSeparator(s, sep);
  }

  /** With the separator present there is a second field: with `SecondFieldMissing`, `split(sep)[1]` raises exactly when the separator is absent. */
  lemma SecondFieldPresent(s: string, sep: char)
    requires sep in s
    ensures SecondField(s, sep).Some?
  {
    var pieces := Split(s, sep);
    JoinSplit(s, sep);
    assert Join(pieces[..1], sep) == pieces[0];
  }

  /** `s.rfind(c)`: the index of the last `c`, or -1. */
  function RFind(s: string, c: char): (r: int)
    ensures -1 <= r < |s|
    decreases |s|
  {
    if s == [] then -1
    else if s[|s| - 1] == c then |s| - 1
    else RFind(s[..|s| - 1], c)
  }

  /** `rfind` finds the last occurrence: `c` is at the index found (when there is one) and nowhere after it. */
  lemma {:induction false} RFindLast(s: string, c: char)
    ensures var r := RFind(s, c);
      (r >= 0 ==> s[r] == c) && forall k :: r < k < |s| ==> s[k] != c
    decreases |s|
  {
    if s != [] && s[|s| - 1] != c {
      var init := s[..|s| - 1];
      RFindLast(init, c);
      assert forall k :: 0 <= k < |init| ==> init[k] == s[k];
    }
  }

  /** Some character of `s` is not a dot. */
  predicate HasNonDot(s: string) {
    exists k :: 0 <= k < |s| && s[k] != '.'
  }

  /** Scanning `p[lo..hi]` from the right, some character is not a dot. */
  predicate HasNonDotIn(p: string, lo: nat, hi: nat)
    requires hi <= |p|
    decreases hi
  {
    lo < hi && (p[hi - 1] != '.' || HasNonDotIn(p, lo, hi - 1))
  }

  lemma {:induction false} HasNonDotInIff(p: string, lo: nat, hi: nat)
    requires hi <= |p|
    ensures HasNonDotIn(p, lo, hi) <==> exists k :: lo <= k < hi && p[k] != '.'
    decreases hi
  {
    if lo < hi {
      HasNonDotInIff(p, lo, hi - 1);
    }
  }

  /**
   * `os.path.splitext(p)` on POSIX: the extension starts at the last `.` of
   * the final path component, provided some non-dot character of that
   * component precedes it (leading dots do not start an extension).
   */
  function SplitExt(p: string): (string, string)
  {
    var sepIndex := RFind(p, '/');
    var dotIndex := RFind(p, '.');
    if dotIndex > sepIndex && HasNonDotIn(p, sepIndex + 1, dotIndex) then
      (p[..dotIndex], p[dotIndex..])
    else
      (p, [])
  }

  /** The two parts rebuild the path, and the extension is empty or one `.` followed by neither `.` nor `/`. */
  lemma SplitExtParts(p: string)
    ensures var parts := SplitExt(p);
      parts.0 + parts.1 == p &&
      (parts.1 == [] || parts.1[0] == '.') &&
      forall k :: 0 < k < |parts.1| ==> parts.1[k] != '.' && parts.1[k] != '/'
  {
    var sepIndex := RFind(p, '/');
    var dotIndex := RFind(p, '.');
    RFindLast(p, '/');
    RFindLast(p, '.');
    if dotIndex > sepIndex && HasNonDotIn(p, sepIndex + 1, dotIndex) {
      var ext := p[dotIndex..];
      assert forall k :: 0 < k < |ext| ==> ext[k] == p[dotIndex + k];
      assert p[..dotIndex] + ext == p;
    }
  }

  /** An extension-free name followed by one extension splits at that extension iff the name has a non-dot character. */
  lemma SplitExtOne(stem: string, ext: string)
    requires '/' !in stem
    requires ext != [] && ext[0] == '.'
    requires forall k :: 0 < k < |ext| ==> ext[k] != '.' && ext[k] != '/'
    ensures SplitExt(stem + ext) == if HasNonDot(stem) then (stem, ext) else (stem + ext, [])
  {
    var p := stem + ext;
    var dotIndex := RFind(p, '.');
    RFindLast(p, '.');
    RFindLast(p, '/');
    assert p[|stem|] == '.';
    forall k | |stem| < k < |p| ensures p[k] != '.' {
      assert p[k] == ext[k - |stem|];
    }
    assert dotIndex == |stem|;
    forall k | 0 <= k < |p| ensures p[k] != '/' {
      if k < |stem| { assert p[k] == stem[k]; } else { assert p[k] == ext[k - |stem|]; }
    }
    assert RFind(p, '/') == -1;
    assert p[..dotIndex] == stem;
    if HasNonDot(stem) {
      var k :| 0 <= k < |stem| && stem[k] != '.';
      assert p[k] == stem[k];
    }
    HasNonDotInIff(p, 0, dotIndex);
    if HasNonDotIn(p, 0, dotIndex) {
      var k :| 0 <= k < dotIndex && p[k] != '.';
      assert stem[k] == p[k];
    }
  }
}
