/** The string primitives of Rust's standard library that the log-spec parser
    relies on: `str::trim`, `str::split` on a character and `str::to_uppercase`
    as far as it can produce a level name. ASCII case-insensitive comparison
    is here too: the model of level parsing (`Levels.FromStr`) is built on it.
    Strings are sequences of Unicode scalar values. */
module Text {

  /** Rust's `char::is_whitespace`: the Unicode White_Space property. */
  predicate IsWhitespace(ch: char) {
    || ('\U{0009}' <= ch <= '\U{000D}')
    || ch == ' '
    || ch == '\U{0085}'
    || ch == '\U{00A0}'
    || ch == '\U{1680}'
    || ('\U{2000}' <= ch <= '\U{200A}')
    || ch == '\U{2028}'
    || ch == '\U{2029}'
    || ch == '\U{202F}'
    || ch == '\U{205F}'
    || ch == '\U{3000}'
  }

  predicate AllWhitespace(s: string) {
    forall i :: 0 <= i < |s| ==> IsWhitespace(s[i])
  }

  /** `str::trim_start`: drops the longest whitespace prefix. */
  function TrimStart(s: string): (r: string)
    ensures |r| <= |s| && r == s[|s| - |r|..]
    ensures AllWhitespace(s[..|s| - |r|])
    ensures r == [] || !IsWhitespace(r[0])
    decreases |s|
  {
    if |s| > 0 && IsWhitespace(s[0]) then
      var r := TrimStart(s[1..]);
      TrimStartStep(s, r);
      r
    else s
  }

  /** One step of `TrimStart`: a suffix of `s[1..]` after whitespace is a
      suffix of `s` after whitespace when `s[0]` is whitespace. */
  lemma TrimStartStep(s: string, r: string)
    requires |s| > 0 && IsWhitespace(s[0])
    requires |r| <= |s| - 1 && r == s[1..][|s| - 1 - |r|..] && AllWhitespace(s[1..][..|s| - 1 - |r|])
    ensures r == s[|s| - |r|..] && AllWhitespace(s[..|s| - |r|])
  {
    assert s[..|s| - |r|] == [s[0]] + s[1..][..|s| - 1 - |r|];
    WhitespaceCons(s[0], s[1..][..|s| - 1 - |r|]);
  }

  lemma WhitespaceCons(ch: char, s: string)
    requires IsWhitespace(ch) && AllWhitespace(s)
    ensures AllWhitespace([ch] + s)
  {
    assert forall i :: 1 <= i <= |s| ==> ([ch] + s)[i] == s[i - 1];
  }

  lemma WhitespaceSnoc(s: string, ch: char)
    requires AllWhitespace(s) && IsWhitespace(ch)
    ensures AllWhitespace(s + [ch])
  {
    assert forall i :: 0 <= i < |s| ==> (s + [ch])[i] == s[i];
  }

  /** `str::trim_end`: drops the longest whitespace suffix. */
  function TrimEnd(s: string): (r: string)
    ensures |r| <= |s| && r == s[..|r|]
    ensures AllWhitespace(s[|r|..])
    ensures r == [] || !IsWhitespace(r[|r| - 1])
    decreases |s|
  {
    if |s| > 0 && IsWhitespace(s[|s| - 1]) then
      var p := s[..|s| - 1];
      var r := TrimEnd(p);
      TrimEndStep(s, r);
      r
    else s
  }

  /** One step of `TrimEnd`: a prefix of `s` without its last character,
      followed there by whitespace, is followed in `s` by whitespace too
      when that last character is whitespace. */
  lemma TrimEndStep(s: string, r: string)
    requires |s| > 0 && IsWhitespace(s[|s| - 1])
    requires |r| <= |s| - 1 && r == s[..|s| - 1][..|r|] && AllWhitespace(s[..|s| - 1][|r|..])
    ensures r == s[..|r|] && AllWhitespace(s[|r|..])
  {
    var p := s[..|s| - 1];
    assert s[|r|..] == p[|r|..] + [s[|s| - 1]];
    WhitespaceSnoc(p[|r|..], s[|s| - 1]);
  }

  /** `str::trim`: drops leading and trailing whitespace. */
  function Trim(s: string): (r: string)
    ensures |r| <= |s|
    ensures r == [] || (!IsWhitespace(r[0]) && !IsWhitespace(r[|r| - 1]))
  {
    var t := TrimStart(s);
    var r := TrimEnd(t);
    assert r != [] ==> r[0] == t[0];
    r
  }

  /** What `Trim` removes is whitespace: the trimmed text is the slice of
      `s` after a whitespace prefix `k` characters long, and only whitespace
      follows it. */
  lemma TrimIsSlice(s: string) returns (k: nat)
    ensures k + |Trim(s)| <= |s| && Trim(s) == s[k..k + |Trim(s)|]
    ensures AllWhitespace(s[..k]) && AllWhitespace(s[k + |Trim(s)|..])
  {
    k := SliceOfSuffix(s, TrimStart(s), Trim(s));
  }

  /** A prefix `r` of a suffix `t` of `s`, followed in `t` by whitespace. */
  lemma SliceOfSuffix(s: string, t: string, r: string) returns (k: nat)
    requires |t| <= |s| && t == s[|s| - |t|..] && AllWhitespace(s[..|s| - |t|])
    requires |r| <= |t| && r == t[..|r|] && AllWhitespace(t[|r|..])
    ensures k + |r| <= |s| && r == s[k..k + |r|]
    ensures AllWhitespace(s[..k]) && AllWhitespace(s[k + |r|..])
  {
    k := |s| - |t|;
    assert t[|r|..] == s[k + |r|..];
  }

  /** Trimming leaves nothing exactly when the string is all whitespace. */
  lemma TrimEmpty(s: string)
    ensures Trim(s) == [] <==> AllWhitespace(s)
  {
    var t := TrimStart(s);
    if TrimEnd(t) == [] {
      assert s[..|s|] == s;
    } else {
      assert TrimEnd(t)[0] == t[0];
    }
  }

  /** A string with no whitespace at either end is its own trim. */
  lemma TrimUnchanged(s: string)
    requires s == [] || (!IsWhitespace(s[0]) && !IsWhitespace(s[|s| - 1]))
    ensures Trim(s) == s
  {
  }

  /** Number of occurrences of `c` in `s`. */
  function Count(s: string, c: char): nat
  {
    if |s| == 0 then 0 else (if s[0] == c then 1 else 0) + Count(s[1..], c)
  }

  lemma CountZero(s: string, c: char)
    ensures Count(s, c) == 0 <==> c !in s
  {
    if |s| > 0 {
      CountZero(s[1..], c);
      assert s == [s[0]] + s[1..];
    }
  }

  /** Index of the first `c` in `s`, or `|s|` when there is none. */
  function IndexOf(s: string, c: char): (i: nat)
    ensures i <= |s|
    ensures c !in s[..i]
    ensures i < |s| <==> c in s
    ensures i < |s| ==> s[i] == c
  {
    if |s| == 0 then 0
    else if s[0] == c then 0
    else
      var j := IndexOf(s[1..], c);
      assert s[..j + 1] == [s[0]] + s[1..][..j];
      j + 1
  }

  /** `str::split(c)`: the pieces between occurrences of `c`. Like Rust's
      iterator it always yields at least one piece, possibly empty. */
  function Split(s: string, c: char): (r: seq<string>)
    ensures |r| == Count(s, c) + 1
    ensures forall i :: 0 <= i < |r| ==> c !in r[i]
    decreases |s|
  {
    if |s| == 0 then [""]
    else
      var rest := Split(s[1..], c);
      if s[0] == c then [""] + rest
      else [[s[0]] + rest[0]] + rest[1..]
  }

  /** The inverse of `Split`: pieces glued back with `c` between them. */
  function Join(parts: seq<string>, c: char): string
  {
    if |parts| == 0 then ""
    else if |parts| == 1 then parts[0]
    else parts[0] + [c] + Join(parts[1..], c)
  }

  /** Splitting then joining gives back the original string. */
  lemma {:induction false} JoinSplit(s: string, c: char)
    ensures Join(Split(s, c), c) == s
    decreases |s|
  {
    if |s| > 0 {
      var rest := Split(s[1..], c);
      JoinSplit(s[1..], c);
      if s[0] == c {
        assert Split(s, c) == [""] + rest;
        assert ([""] + rest)[1..] == rest;
        assert Join([""] + rest, c) == "" + [c] + Join(rest, c);
      } else {
        var parts := [[s[0]] + rest[0]] + rest[1..];
        assert Split(s, c) == parts;
        if |rest| == 1 {
          assert Join(parts, c) == [s[0]] + rest[0];
        } else {
          assert parts[1..] == rest[1..];
          assert Join(rest, c) == rest[0] + [c] + Join(rest[1..], c);
          assert Join(parts, c) == ([s[0]] + rest[0]) + [c] + Join(rest[1..], c);
        }
        assert s == [s[0]] + s[1..];
      }
    }
  }

  /** A piece free of `c` followed by `c` splits off as the first piece. */
  lemma {:induction false} SplitAfterPiece(p: string, t: string, c: char)
    requires c !in p
    ensures Split(p + [c] + t, c) == [p] + Split(t, c)
    decreases |p|
  {
    if |p| == 0 {
      assert p + [c] + t == [c] + t;
      assert ([c] + t)[1..] == t;
    } else {
      var s := p + [c] + t;
      assert s[0] == p[0] && s[1..] == p[1..] + [c] + t;
      SplitAfterPiece(p[1..], t, c);
      assert [p[0]] + p[1..] == p;
    }
  }

  /** A string free of `c` is a single piece. */
  lemma {:induction false} SplitWithout(p: string, c: char)
    requires c !in p
    ensures Split(p, c) == [p]
    decreases |p|
  {
    if |p| > 0 {
      SplitWithout(p[1..], c);
      assert [p[0]] + p[1..] == p;
    }
  }

  /** Joining then splitting gives back the pieces, when none contains `c`. */
  lemma {:induction false} SplitJoin(parts: seq<string>, c: char)
    requires |parts| >= 1
    requires forall i :: 0 <= i < |parts| ==> c !in parts[i]
    ensures Split(Join(parts, c), c) == parts
    decreases |parts|
  {
    if |parts| == 1 {
      SplitWithout(parts[0], c);
    } else {
      SplitJoin(parts[1..], c);
      SplitAfterPiece(parts[0], Join(parts[1..], c), c);
      assert [parts[0]] + parts[1..] == parts;
    }
  }

  /** The first piece is everything before the first `c`; the remaining
      pieces are the split of everything after it. */
  lemma {:induction false} SplitFirst(s: string, c: char)
    ensures Split(s, c)[0] == s[..IndexOf(s, c)]
    ensures c in s ==> Split(s, c)[1..] == Split(s[IndexOf(s, c) + 1..], c)
    decreases |s|
  {
    var i := IndexOf(s, c);
    if c in s {
      assert s == s[..i] + [c] + s[i + 1..];
      SplitAfterPiece(s[..i], s[i + 1..], c);
    } else {
      SplitWithout(s, c);
      assert s[..i] == s;
    }
  }

  /** Counting past the first `c` leaves one occurrence fewer. */
  lemma {:induction false} CountAfterFirst(s: string, c: char)
    requires c in s
    ensures Count(s, c) == Count(s[IndexOf(s, c) + 1..], c) + 1
    decreases |s|
  {
    if s[0] != c {
      assert c in s[1..] by {
        var k :| 0 <= k < |s| && s[k] == c;
        assert s[1..][k - 1] == c;
      }
      CountAfterFirst(s[1..], c);
      assert s[1..][IndexOf(s[1..], c) + 1..] == s[IndexOf(s, c) + 1..];
    }
  }

  /** The pieces of a split: the first is the text before the first `c`;
      there is one piece exactly when `c` does not occur; and with a single
      occurrence the second piece is the text after it. */
  lemma SplitPieces(s: string, c: char)
    ensures Split(s, c)[0] == s[..IndexOf(s, c)]
    ensures c !in s <==> |Split(s, c)| == 1
    ensures Count(s, c) == 1 ==> Split(s, c)[1] == s[IndexOf(s, c) + 1..]
  {
    SplitFirst(s, c);
    CountZero(s, c);
    if Count(s, c) == 1 {
      var rest := s[IndexOf(s, c) + 1..];
      CountAfterFirst(s, c);
      CountZero(rest, c);
      SplitWithout(rest, c);
    }
  }

  /** `char::to_uppercase` restricted to what can matter when the result is
      compared with an upper-case ASCII word: `a`..`z`, the dotless i (U+0131)
      and the long s (U+017F) map to ASCII letters; every other character's
      upper case is kept as the character itself. */
  function UpperChar(ch: char): (u: char)
    ensures 'A' <= u <= 'Z' ==> (u == ch || ('a' <= ch <= 'z' && ch as int - 32 == u as int)
                                 || (ch == '\U{0131}' && u == 'I') || (ch == '\U{017F}' && u == 'S'))
  {
    if 'a' <= ch <= 'z' then (ch as int - 32) as char
    else if ch == '\U{0131}' then 'I'
    else if ch == '\U{017F}' then 'S'
    else ch
  }

  /** `str::to_uppercase`, character by character (see `UpperChar`). */
  function ToUpper(s: string): (r: string)
    ensures |r| == |s|
    ensures forall i :: 0 <= i < |s| ==> r[i] == UpperChar(s[i])
  {
    seq(|s|, i requires 0 <= i < |s| => UpperChar(s[i]))
  }

  /** Upper-casing twice is upper-casing once: no character `UpperChar`
      produces is changed by it again. */
  lemma ToUpperIdempotent(s: string)
    ensures ToUpper(ToUpper(s)) == ToUpper(s)
  {
  }

  /** On ASCII input, upper-casing leaves no lower-case letter behind and
      changes nothing ASCII case-insensitive comparison can see. */
  lemma ToUpperFoldsAscii(s: string)
    ensures forall i :: 0 <= i < |s| && s[i] < '\U{0080}' ==> !('a' <= ToUpper(s)[i] <= 'z')
    ensures forall i :: 0 <= i < |s| && s[i] < '\U{0080}' ==> AsciiLower(ToUpper(s)[i]) == AsciiLower(s[i])
  {
  }

  /** `char::to_ascii_lowercase`. */
  function AsciiLower(ch: char): char
  {
    if 'A' <= ch <= 'Z' then (ch as int + 32) as char else ch
  }

  /** `str::eq_ignore_ascii_case`. */
  predicate EqualsIgnoreAsciiCase(a: string, b: string)
  {
    |a| == |b| && forall i :: 0 <= i < |a| ==> AsciiLower(a[i]) == AsciiLower(b[i])
  }
}
