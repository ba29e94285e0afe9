/** Log levels: an eight-valued enumeration ordered by declaration, with a
    gap-coded signed-integer projection, display names, the `LEVELS` table
    and parsing from text. */
module Levels {
  import opened Wrappers
  import Text

  datatype LogLevel = TRACE | DEBUG | VERBOSE | INFO | NOTICE | WARN | ERROR | CRITICAL

  /** Position in declaration order; the derived `PartialOrd` compares these. */
  function Rank(l: LogLevel): nat
  {
    match l
    case TRACE => 0
    case DEBUG => 1
    case VERBOSE => 2
    case INFO => 3
    case NOTICE => 4
    case WARN => 5
    case ERROR => 6
    case CRITICAL => 7
  }

  /** The derived strict order `a < b`. */
  predicate Less(a: LogLevel, b: LogLevel)
  {
    Rank(a) < Rank(b)
  }

  /** `From<LogLevel> for isize`. */
  function ToIsize(l: LogLevel): (n: int)
    ensures -30 <= n <= 40 && n % 10 == 0
    ensures n == 10 * Rank(l) - 30
  {
    match l
    case TRACE => -30
    case DEBUG => -20
    case VERBOSE => -10
    case INFO => 0
    case NOTICE => 10
    case WARN => 20
    case ERROR => 30
    case CRITICAL => 40
  }

  /** The eight integers `From<isize> for LogLevel` accepts; on any other
      value `From<isize>` panics. */
  predicate IsCode(n: int)
  {
    n in {-30, -20, -10, 0, 10, 20, 30, 40}
  }

  /** `From<isize> for LogLevel`, defined only on the eight codes. */
  function FromIsize(n: int): (l: LogLevel)
    requires IsCode(n)
    ensures ToIsize(l) == n
  {
    match n
    case -30 => TRACE
    case -20 => DEBUG
    case -10 => VERBOSE
    case 0 => INFO
    case 10 => NOTICE
    case 20 => WARN
    case 30 => ERROR
    case 40 => CRITICAL
  }

  /** Decoding an encoded level gives the level back. */
  lemma DecodeEncode(l: LogLevel)
    ensures IsCode(ToIsize(l))
    ensures FromIsize(ToIsize(l)) == l
  {
  }

  /** The codes are exactly the multiples of ten in [-30, 40], and each is
      the encoding of some level. */
  lemma CodesAreTheEncodings(n: int)
    ensures IsCode(n) <==> (-30 <= n <= 40 && n % 10 == 0)
    ensures IsCode(n) <==> exists l :: ToIsize(l) == n
  {
    if -30 <= n <= 40 && n % 10 == 0 {
      assert n == 10 * ((n + 30) / 10) - 30;
      var k := (n + 30) / 10;
      assert 0 <= k <= 7;
      assert n in {-30, -20, -10, 0, 10, 20, 30, 40};
    }
    if exists l :: ToIsize(l) == n {
      var l :| ToIsize(l) == n;
      assert FromIsize(ToIsize(l)) == l;
    }
    if IsCode(n) {
      assert ToIsize(FromIsize(n)) == n;
    }
  }

  /** The encoding is strictly increasing in declaration order, so it
      reflects and preserves the derived order. */
  lemma EncodingPreservesOrder(a: LogLevel, b: LogLevel)
    ensures Less(a, b) <==> ToIsize(a) < ToIsize(b)
    ensures a == b <==> ToIsize(a) == ToIsize(b)
  {
  }

  /** `LEVELS`, ascending. */
  const LEVELS: seq<LogLevel> := [TRACE, DEBUG, VERBOSE, INFO, NOTICE, WARN, ERROR, CRITICAL]

  /** `LEVELS` lists every level exactly once, each at its rank. */
  lemma LevelsTable(l: LogLevel)
    ensures |LEVELS| == 8
    ensures LEVELS[Rank(l)] == l
    ensures multiset(LEVELS)[l] == 1
  {
    assert multiset(LEVELS) == multiset{TRACE, DEBUG, VERBOSE, INFO, NOTICE, WARN, ERROR, CRITICAL};
  }

  /** `LEVELS` runs from least to most severe. */
  lemma LevelsAscending()
    ensures forall i, j :: 0 <= i < j < |LEVELS| ==> Less(LEVELS[i], LEVELS[j])
  {
    assert forall i :: 0 <= i < |LEVELS| ==> Rank(LEVELS[i]) == i;
  }

  /** `Display for LogLevel`: the enumerator name. */
  function Name(l: LogLevel): string
  {
    match l
    case TRACE => "TRACE"
    case DEBUG => "DEBUG"
    case VERBOSE => "VERBOSE"
    case INFO => "INFO"
    case NOTICE => "NOTICE"
    case WARN => "WARN"
    case ERROR => "ERROR"
    case CRITICAL => "CRITICAL"
  }

  /** Names are non-empty upper-case ASCII, so they survive upper-casing. */
  lemma NameIsUpperAscii(l: LogLevel)
    ensures |Name(l)| > 0
    ensures forall i :: 0 <= i < |Name(l)| ==> 'A' <= Name(l)[i] <= 'Z'
  {
  }

  /** Distinct levels have distinct names, even ignoring ASCII case: the
      initial letters already differ. */
  lemma NamesDistinct(a: LogLevel, b: LogLevel)
    ensures Text.EqualsIgnoreAsciiCase(Name(a), Name(b)) <==> a == b
    ensures Name(a) == Name(b) <==> a == b
  {
    if a != b {
      assert Text.AsciiLower(Name(a)[0]) != Text.AsciiLower(Name(b)[0]);
    }
  }

  /** `LogLevel::from_str`: an ASCII case-insensitive match against the
      display names. */
  function FromStr(s: string): (r: Option<LogLevel>)
    ensures r.Some? ==> Text.EqualsIgnoreAsciiCase(s, Name(r.value))
    ensures r.None? ==> forall l :: !Text.EqualsIgnoreAsciiCase(s, Name(l))
  {
    FindName(s, LEVELS)
  }

  /** The first level of `ls` whose name matches `s` ignoring ASCII case. */
  function FindName(s: string, ls: seq<LogLevel>): (r: Option<LogLevel>)
    ensures r.Some? ==> r.value in ls && Text.EqualsIgnoreAsciiCase(s, Name(r.value))
    ensures r.None? ==> forall l :: l in ls ==> !Text.EqualsIgnoreAsciiCase(s, Name(l))
  {
    if |ls| == 0 then None
    else if Text.EqualsIgnoreAsciiCase(s, Name(ls[0])) then Some(ls[0])
    else FindName(s, ls[1..])
  }

  /** Text round trip: parsing a display name, in any ASCII case, gives the
      level back; and parsing succeeds exactly on those spellings. */
  lemma ParseName(s: string, l: LogLevel)
    ensures FromStr(Name(l)) == Some(l)
    ensures FromStr(s) == Some(l) <==> Text.EqualsIgnoreAsciiCase(s, Name(l))
  {
    NameMatchesItself(l);
    MatchParses(Name(l), l);
    if Text.EqualsIgnoreAsciiCase(s, Name(l)) {
      MatchParses(s, l);
    }
  }

  /** Text that matches a name parses as that name's level: some level
      matches, and two matching levels would have names equal up to case. */
  lemma MatchParses(s: string, l: LogLevel)
    requires Text.EqualsIgnoreAsciiCase(s, Name(l))
    ensures FromStr(s) == Some(l)
  {
    var r := FromStr(s);
    assert r.Some?;
    IgnoreCaseTransitive(s, Name(r.value), l);
    NamesDistinct(r.value, l);
  }

  lemma NameMatchesItself(l: LogLevel)
    ensures Text.EqualsIgnoreAsciiCase(Name(l), Name(l))
  {
  }

  lemma IgnoreCaseTransitive(s: string, t: string, l: LogLevel)
    requires Text.EqualsIgnoreAsciiCase(s, t)
    requires Text.EqualsIgnoreAsciiCase(s, Name(l))
    ensures Text.EqualsIgnoreAsciiCase(t, Name(l))
  {
  }

  /** Every name has at least four letters, so shorter text names no level. */
  lemma ShortTextNoLevel(s: string)
    requires |s| < 4
    ensures FromStr(s) == None && FromUpperStr(s) == None
  {
  }

  /** The token form's level parse: upper-case first, then `FromStr`. */
  function FromUpperStr(s: string): Option<LogLevel>
  {
    FromStr(Text.ToUpper(s))
  }

  /** Upper-casing before parsing accepts exactly the spellings whose upper
      case is the display name. */
  lemma ParseUpper(s: string, l: LogLevel)
    ensures FromUpperStr(s) == Some(l) <==> Text.ToUpper(s) == Name(l)
  {
    var u := Text.ToUpper(s);
    var name := Name(l);
    ParseName(u, l);
    if Text.EqualsIgnoreAsciiCase(u, name) {
      NameIsUpperAscii(l);
      forall i | 0 <= i < |u|
        ensures u[i] == name[i]
      {
        SameLetter(s[i], u[i], name[i]);
      }
      assert u == name;
    }
  }

  /** An upper-cased character that matches an upper-case letter ignoring
      ASCII case is that letter. */
  lemma SameLetter(ch: char, up: char, letter: char)
    requires up == Text.UpperChar(ch)
    requires 'A' <= letter <= 'Z'
    requires Text.AsciiLower(up) == Text.AsciiLower(letter)
    ensures up == letter
  {
  }
}
