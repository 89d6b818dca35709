/** The JavaScript string operations the chat server relies on, restated on
    Dafny strings (sequences of Unicode scalar values):
    - `toLowerCase`, restricted to ASCII letters;
    - `trim`, with ECMAScript's exact set of white-space and line-terminator characters;
    - `length`, which counts UTF-16 code units, not characters;
    - `startsWith` and `split` on a one-character separator. */
module JsString {

  /** The characters `String.prototype.trim` strips from both ends: TAB, LF,
      VT, FF, CR, every Unicode space separator (category Zs), the byte-order
      mark and the two Unicode line/paragraph separators. */
  predicate IsTrimmable(c: char) {
    || c == '\t' || c == '\n' || c == '\U{000B}' || c == '\U{000C}' || c == '\r'
    || c == ' ' || c == '\U{00A0}' || c == '\U{1680}'
    || ('\U{2000}' <= c <= '\U{200A}')
    || c == '\U{2028}' || c == '\U{2029}' || c == '\U{202F}' || c == '\U{205F}'
    || c == '\U{3000}' || c == '\U{FEFF}'
  }

  predicate AllTrimmable(s: string) {
    forall i :: 0 <= i < |s| ==> IsTrimmable(s[i])
  }

  predicate IsUpper(c: char) {
    'A' <= c <= 'Z'
  }

  function LowerChar(c: char): char {
    if IsUpper(c) then (c as int + 32) as char else c
  }

  /** `toLowerCase` on ASCII letters; every other character is kept. */
  function ToLower(s: string): (r: string)
    ensures |r| == |s|
  {
    if |s| == 0 then [] else [LowerChar(s[0])] + ToLower(s[1..])
  }

  /** Lower-casing maps each ASCII capital to its small letter, keeps every
      other character, and leaves no ASCII capital behind. */
  lemma {:induction false} ToLowerChars(s: string)
    ensures forall i :: 0 <= i < |s| ==> !IsUpper(ToLower(s)[i])
    ensures forall i :: 0 <= i < |s| && !IsUpper(s[i]) ==> ToLower(s)[i] == s[i]
    ensures forall i :: 0 <= i < |s| && IsUpper(s[i]) ==> ToLower(s)[i] as int == s[i] as int + 32
    decreases |s|
  {
    if |s| > 0 {
      ToLowerChars(s[1..]);
      assert forall i :: 1 <= i < |s| ==> ToLower(s)[i] == ToLower(s[1..])[i - 1];
    }
  }

  /** Lower-casing a string that holds no ASCII capital changes nothing. */
  lemma ToLowerOfLower(s: string)
    requires forall i :: 0 <= i < |s| ==> !IsUpper(s[i])
    ensures ToLower(s) == s
  {
    ToLowerChars(s);
  }

  function TrimStart(s: string): string
    decreases |s|
  {
    if |s| > 0 && IsTrimmable(s[0]) then TrimStart(s[1..]) else s
  }

  function TrimEnd(s: string): string
    decreases |s|
  {
    if |s| > 0 && IsTrimmable(s[|s| - 1]) then TrimEnd(s[..|s| - 1]) else s
  }

  /** `trimStart` drops a trimmable prefix and stops at the first character
      that is not trimmable. */
  lemma {:induction false} TrimStartSpec(s: string)
    ensures var r := TrimStart(s);
      && |r| <= |s| && r == s[|s| - |r|..]
      && AllTrimmable(s[..|s| - |r|])
      && (|r| > 0 ==> !IsTrimmable(r[0]))
    decreases |s|
  {
    if |s| > 0 && IsTrimmable(s[0]) {
      TrimStartSpec(s[1..]);
      var r := TrimStart(s);
      assert s[..|s| - |r|] == [s[0]] + s[1..][..|s| - 1 - |r|];
    }
  }

  /** `trimEnd` drops a trimmable suffix and stops at the last character
      that is not trimmable. */
  lemma {:induction false} TrimEndSpec(s: string)
    ensures var r := TrimEnd(s);
      && |r| <= |s| && r == s[..|r|]
      && AllTrimmable(s[|r|..])
      && (|r| > 0 ==> !IsTrimmable(r[|r| - 1]))
    decreases |s|
  {
    if |s| > 0 && IsTrimmable(s[|s| - 1]) {
      var t := s[..|s| - 1];
      TrimEndSpec(t);
      var r := TrimEnd(s);
      assert s[|r|..] == t[|r|..] + [s[|s| - 1]];
    }
  }

  /** `String.prototype.trim`. */
  function Trim(s: string): string {
    TrimEnd(TrimStart(s))
  }

  /** The trimmed string keeps no trimmable character at either end and
      holds only characters of the input. */
  lemma TrimSpec(s: string)
    ensures |Trim(s)| <= |s|
    ensures |Trim(s)| > 0 ==> !IsTrimmable(Trim(s)[0]) && !IsTrimmable(Trim(s)[|Trim(s)| - 1])
    ensures forall c :: c in Trim(s) ==> c in s
  {
    var t := TrimStart(s);
    TrimStartSpec(s);
    TrimEndSpec(t);
    var r := Trim(s);
    assert forall c :: c in r ==> c in t;
  }

  lemma {:induction false} TrimStartOfPadded(pre: string, rest: string)
    requires AllTrimmable(pre)
    requires |rest| > 0 ==> !IsTrimmable(rest[0])
    ensures TrimStart(pre + rest) == rest
    decreases |pre|
  {
    if |pre| > 0 {
      assert (pre + rest)[1..] == pre[1..] + rest;
      TrimStartOfPadded(pre[1..], rest);
    } else {
      assert pre + rest == rest;
    }
  }

  lemma {:induction false} TrimEndOfPadded(mid: string, post: string)
    requires AllTrimmable(post)
    requires |mid| > 0 ==> !IsTrimmable(mid[|mid| - 1])
    ensures TrimEnd(mid + post) == mid
    decreases |post|
  {
    if |post| > 0 {
      var s := mid + post;
      assert s[..|s| - 1] == mid + post[..|post| - 1];
      TrimEndOfPadded(mid, post[..|post| - 1]);
    } else {
      assert mid + post == mid;
    }
  }

  /** `trim` is characterised by what it keeps: a string made of trimmable
      padding around a core whose ends are not trimmable trims to that core. */
  lemma TrimOfPadded(pre: string, mid: string, post: string)
    requires AllTrimmable(pre) && AllTrimmable(post)
    requires |mid| > 0 ==> !IsTrimmable(mid[0]) && !IsTrimmable(mid[|mid| - 1])
    ensures Trim(pre + mid + post) == mid
  {
    if |mid| > 0 {
      assert pre + mid + post == pre + (mid + post);
      TrimStartOfPadded(pre, mid + post);
      TrimEndOfPadded(mid, post);
    } else {
      assert pre + mid + post == pre + post;
      assert AllTrimmable(pre + post);
      TrimStartOfPadded(pre + post, "");
      assert pre + post + "" == pre + post;
      assert TrimEnd("") == "";
    }
  }

  /** Trimming twice is trimming once. */
  lemma TrimIdempotent(s: string)
    ensures Trim(Trim(s)) == Trim(s)
  {
    var t := Trim(s);
    TrimSpec(s);
    assert "" + t + "" == t;
    TrimOfPadded("", t, "");
  }

  /** `length`: the number of UTF-16 code units, two for a character outside
      the Basic Multilingual Plane and one for every other character. */
  function Utf16Length(s: string): nat {
    if |s| == 0 then 0
    else (if s[0] as int > 0xFFFF then 2 else 1) + Utf16Length(s[1..])
  }

  /** A string has between one and two code units per character, and
      exactly one per character precisely when it stays in the Basic
      Multilingual Plane. */
  lemma {:induction false} Utf16LengthBounds(s: string)
    ensures |s| <= Utf16Length(s) <= 2 * |s|
    ensures Utf16Length(s) == |s| <==> forall i :: 0 <= i < |s| ==> s[i] as int <= 0xFFFF
    decreases |s|
  {
    if |s| > 0 {
      Utf16LengthBounds(s[1..]);
      assert forall i :: 1 <= i < |s| ==> s[i] == s[1..][i - 1];
    }
  }

  predicate StartsWith(s: string, prefix: string) {
    |prefix| <= |s| && s[..|prefix|] == prefix
  }

  /** `split(sep)` with a one-character separator: the maximal
      separator-free segments, in order; an empty input gives one empty
      segment and adjacent separators give empty segments. */
  function Split(s: string, sep: char): (parts: seq<string>)
    ensures |parts| >= 1
  {
    if |s| == 0 then [""]
    else
      var rest := Split(s[1..], sep);
      if s[0] == sep then [""] + rest
      else [[s[0]] + rest[0]] + rest[1..]
  }

  /** No segment holds the separator. */
  lemma {:induction false} SplitSegmentsFree(s: string, sep: char)
    ensures forall i :: 0 <= i < |Split(s, sep)| ==> sep !in Split(s, sep)[i]
    decreases |s|
  {
    if |s| > 0 {
      SplitSegmentsFree(s[1..], sep);
    }
  }

  /** `join(sep)`: the segments with one separator between each pair. */
  function JoinWith(parts: seq<string>, sep: char): string
    requires |parts| >= 1
  {
    if |parts| == 1 then parts[0] else parts[0] + [sep] + JoinWith(parts[1..], sep)
  }

  /** Splitting loses nothing: joining the segments back gives the input. */
  lemma {:induction false} JoinSplit(s: string, sep: char)
    ensures JoinWith(Split(s, sep), sep) == s
    decreases |s|
  {
    if |s| > 0 {
      var rest := Split(s[1..], sep);
      JoinSplit(s[1..], sep);
      if s[0] == sep {
        assert Split(s, sep)[1..] == rest;
      } else {
        var parts := Split(s, sep);
        assert parts[1..] == rest[1..];
        if |rest| == 1 {
          assert JoinWith(parts, sep) == [s[0]] + rest[0];
        } else {
          assert JoinWith(rest, sep) == rest[0] + [sep] + JoinWith(rest[1..], sep);
          assert JoinWith(parts, sep) == [s[0]] + rest[0] + [sep] + JoinWith(rest[1..], sep);
        }
      }
    }
  }

  /** A separator-free segment followed by the separator splits off as one
      segment. */
  lemma {:induction false} SplitAfterSegment(p: string, t: string, sep: char)
    requires sep !in p
    ensures Split(p + [sep] + t, sep) == [p] + Split(t, sep)
    decreases |p|
  {
    var s := p + [sep] + t;
    if |p| == 0 {
      assert s == [sep] + t;
      assert s[1..] == t;
    } else {
      assert s[1..] == p[1..] + [sep] + t;
      SplitAfterSegment(p[1..], t, sep);
      assert [p[0]] + p[1..] == p;
    }
  }

  /** A separator-free string is a single segment. */
  lemma {:induction false} SplitWithoutSeparator(p: string, sep: char)
    requires sep !in p
    ensures Split(p, sep) == [p]
    decreases |p|
  {
    if |p| > 0 {
      SplitWithoutSeparator(p[1..], sep);
      assert [p[0]] + p[1..] == p;
    }
  }

  /** Splitting undoes joining separator-free segments. */
  lemma {:induction false} SplitJoin(parts: seq<string>, sep: char)
    requires |parts| >= 1
    requires forall i :: 0 <= i < |parts| ==> sep !in parts[i]
    ensures Split(JoinWith(parts, sep), sep) == parts
    decreases |parts|
  {
    if |parts| == 1 {
      SplitWithoutSeparator(parts[0], sep);
    } else {
      SplitJoin(parts[1..], sep);
      SplitAfterSegment(parts[0], JoinWith(parts[1..], sep), sep);
      assert [parts[0]] + parts[1..] == parts;
    }
  }
}
