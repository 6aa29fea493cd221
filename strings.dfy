/** The parts of Python's `str` that the plugin relies on, on ASCII text. */
module Strings {
  import opened Base

  /** The ASCII characters for which Python's `str.isspace` holds. */
  predicate IsSpace(c: char) {
    c == ' ' || ('\t' <= c <= '\r') || ('\U{1C}' <= c <= '\U{1F}')
  }

  /** ASCII letters and digits: Python's `str.isalnum` on ASCII text. */
  predicate IsAlnum(c: char) {
    ('a' <= c <= 'z') || ('A' <= c <= 'Z') || ('0' <= c <= '9')
  }

  /** Python's `str.lower` on one ASCII character. */
  function ToLower(c: char): char {
    if 'A' <= c <= 'Z' then (c as int + 32) as char else c
  }

  /** Python's `str.upper` on one ASCII character. */
  function ToUpper(c: char): char {
    if 'a' <= c <= 'z' then (c as int - 32) as char else c
  }

  function Lower(s: string): string {
    seq(|s|, i requires 0 <= i < |s| => ToLower(s[i]))
  }

  function Upper(s: string): string {
    seq(|s|, i requires 0 <= i < |s| => ToUpper(s[i]))
  }

  /** `s[i:j]` for non-negative bounds: bounds past the end are clamped and a reversed
      range is empty. */
  function Slice(s: string, i: nat, j: nat): (r: string)
    ensures i <= j <= |s| ==> r == s[i..j]
  {
    var lo := if i < |s| then i else |s|;
    var hi := if j < |s| then j else |s|;
    if hi <= lo then [] else s[lo..hi]
  }

  /** The characters a strip removes: whitespace, as `strip()` with no argument, or an
      explicit set, as `strip(chars)`. */
  datatype CharClass = Spaces | Chars(chars: set<char>)
  {
    predicate Has(c: char) {
      match this
      case Spaces => IsSpace(c)
      case Chars(cs) => c in cs
    }
  }

  /** `s.lstrip(chars)`: drops leading characters of the class. */
  function TrimLeft(s: string, drop: CharClass): string {
    if |s| > 0 && drop.Has(s[0]) then TrimLeft(s[1..], drop) else s
  }

  /** `s.rstrip(chars)`: drops trailing characters of the class. */
  function TrimRight(s: string, drop: CharClass): string {
    if |s| > 0 && drop.Has(s[|s| - 1]) then TrimRight(s[..|s| - 1], drop) else s
  }

  /** What `lstrip` leaves is a suffix of `s`, everything before it is of the class and it
      does not itself start with a character of the class: the longest such suffix. */
  lemma {:induction false} TrimLeftSpec(s: string, drop: CharClass)
    ensures var r := TrimLeft(s, drop);
      && |r| <= |s| && r == s[|s| - |r|..]
      && (forall i :: 0 <= i < |s| - |r| ==> drop.Has(s[i]))
      && (|r| > 0 ==> !drop.Has(r[0]))
  {
    if |s| > 0 && drop.Has(s[0]) {
      TrimLeftSpec(s[1..], drop);
      var r := TrimLeft(s[1..], drop);
      assert s[1..][|s| - 1 - |r|..] == s[|s| - |r|..];
      forall i | 0 < i < |s| - |r| ensures drop.Has(s[i]) {
        assert s[i] == s[1..][i - 1];
      }
    }
  }

  /** What `rstrip` leaves is a prefix of `s`, everything after it is of the class and it
      does not itself end with a character of the class: the longest such prefix. */
  lemma {:induction false} TrimRightSpec(s: string, drop: CharClass)
    ensures var r := TrimRight(s, drop);
      && |r| <= |s| && r == s[..|r|]
      && (forall i :: |r| <= i < |s| ==> drop.Has(s[i]))
      && (|r| > 0 ==> !drop.Has(r[|r| - 1]))
  {
    if |s| > 0 && drop.Has(s[|s| - 1]) {
      TrimRightSpec(s[..|s| - 1], drop);
      var r := TrimRight(s[..|s| - 1], drop);
      assert s[..|s| - 1][..|r|] == s[..|r|];
      forall i | |r| <= i < |s| - 1 ensures drop.Has(s[i]) {
        assert s[i] == s[..|s| - 1][i];
      }
    }
  }

  /** `s.strip()`: `s` without its leading and trailing whitespace. */
  function Strip(s: string): string {
    TrimRight(TrimLeft(s, Spaces), Spaces)
  }

  /** `strip()` keeps a stretch of `s` that neither starts nor ends with whitespace; it is
      empty exactly when `s` is all whitespace, and leaves text without whitespace as it is. */
  lemma StripSpec(s: string)
    ensures var r := Strip(s);
      && |r| <= |s|
      && (|r| > 0 ==> !IsSpace(r[0]) && !IsSpace(r[|r| - 1]))
      && (r == [] <==> forall i :: 0 <= i < |s| ==> IsSpace(s[i]))
      && ((forall i :: 0 <= i < |s| ==> !IsSpace(s[i])) ==> r == s)
  {
    var l := TrimLeft(s, Spaces);
    TrimLeftSpec(s, Spaces);
    TrimRightSpec(l, Spaces);
    var r := Strip(s);
    if |r| > 0 {
      assert r[0] == l[0];
    }
    if forall i :: 0 <= i < |s| ==> !IsSpace(s[i]) {
      if |s| > 0 {
        assert !Spaces.Has(s[0]);
        assert l == s;
        assert !Spaces.Has(s[|s| - 1]);
      }
    }
  }

  /** Leading whitespace makes no difference to `strip()`. */
  lemma {:induction false} StripSpacePrefix(lead: string, s: string)
    requires forall i :: 0 <= i < |lead| ==> IsSpace(lead[i])
    ensures Strip(lead + s) == Strip(s)
  {
    TrimLeftSpacePrefix(lead, s);
  }

  lemma {:induction false} TrimLeftSpacePrefix(lead: string, s: string)
    requires forall i :: 0 <= i < |lead| ==> IsSpace(lead[i])
    ensures TrimLeft(lead + s, Spaces) == TrimLeft(s, Spaces)
    decreases |lead|
  {
    if |lead| > 0 {
      assert (lead + s)[1..] == lead[1..] + s;
      TrimLeftSpacePrefix(lead[1..], s);
    } else {
      assert lead + s == s;
    }
  }

  /** Text that neither starts nor ends with whitespace is its own `strip()`. */
  lemma StripFixed(s: string)
    requires |s| > 0 && !IsSpace(s[0]) && !IsSpace(s[|s| - 1])
    ensures Strip(s) == s
  {
  }

  /** `s.strip(chars)` for an explicit set of characters. */
  function StripChars(s: string, chars: set<char>): string {
    TrimRight(TrimLeft(s, Chars(chars)), Chars(chars))
  }

  /** `strip(chars)` keeps a stretch of `s` that neither starts nor ends with one of `chars`. */
  lemma StripCharsSpec(s: string, chars: set<char>)
    ensures var r := StripChars(s, chars);
      && |r| <= |s|
      && (|r| > 0 ==> r[0] !in chars && r[|r| - 1] !in chars)
  {
    var l := TrimLeft(s, Chars(chars));
    TrimLeftSpec(s, Chars(chars));
    TrimRightSpec(l, Chars(chars));
    var r := StripChars(s, chars);
    if |r| > 0 {
      assert r[0] == l[0];
    }
  }

  /** `sub` occurs in `s` starting at index `i`. */
  predicate OccursAt(s: string, sub: string, i: nat) {
    i + |sub| <= |s| && s[i..i + |sub|] == sub
  }

  lemma OccursShift(s: string, sub: string, j: nat)
    requires |s| > 0
    ensures OccursAt(s[1..], sub, j) <==> OccursAt(s, sub, j + 1)
  {
    if j + 1 + |sub| <= |s| {
      assert s[1..][j..j + |sub|] == s[j + 1..j + 1 + |sub|];
    }
  }

  /** `s.find(sub)`: the first index where `sub` occurs, `None` standing for -1. */
  function IndexOf(s: string, sub: string): (r: Option<nat>)
    ensures r.Some? ==> OccursAt(s, sub, r.value)
    ensures r.Some? ==> forall j :: 0 <= j < r.value ==> !OccursAt(s, sub, j)
    ensures r.None? ==> forall j :: 0 <= j <= |s| ==> !OccursAt(s, sub, j)
    decreases |s|
  {
    if |s| < |sub| then None
    else if s[..|sub|] == sub then Some(0)
    else
      assert !OccursAt(s, sub, 0) by { assert s[0..|sub|] == s[..|sub|]; }
      match IndexOf(s[1..], sub)
      case None =>
        assert forall j :: 1 <= j <= |s| ==> !OccursAt(s, sub, j) by {
          forall j | 1 <= j <= |s| ensures !OccursAt(s, sub, j) { OccursShift(s, sub, j - 1); }
        }
        None
      case Some(k) =>
        assert forall j :: 1 <= j <= k ==> !OccursAt(s, sub, j) by {
          forall j | 1 <= j <= k ensures !OccursAt(s, sub, j) { OccursShift(s, sub, j - 1); }
        }
        OccursShift(s, sub, k);
        Some(k + 1)
  }

  /** `sub in s`. */
  predicate Contains(s: string, sub: string) {
    IndexOf(s, sub).Some?
  }

  /** `s.rfind(c)` for one character, `None` standing for -1. */
  function LastIndexOf(s: string, c: char): (r: Option<nat>)
    ensures r.Some? ==> r.value < |s| && s[r.value] == c
    ensures r.Some? ==> forall j :: r.value < j < |s| ==> s[j] != c
    ensures r.None? ==> forall j :: 0 <= j < |s| ==> s[j] != c
  {
    if |s| == 0 then None
    else if s[|s| - 1] == c then Some(|s| - 1)
    else LastIndexOf(s[..|s| - 1], c)
  }

  /** `sep.join(parts)`. */
  function Join(sep: string, parts: seq<string>): string {
    if |parts| == 0 then ""
    else if |parts| == 1 then parts[0]
    else parts[0] + sep + Join(sep, parts[1..])
  }

  /** Appending one more part adds one separator and the part. */
  lemma {:induction false} JoinSnoc(sep: string, parts: seq<string>, x: string)
    requires |parts| > 0
    ensures Join(sep, parts + [x]) == Join(sep, parts) + sep + x
  {
    if |parts| > 1 {
      assert (parts + [x])[1..] == parts[1..] + [x];
      JoinSnoc(sep, parts[1..], x);
    }
  }

  /** The decimal digit for `d`. */
  function DigitChar(d: nat): (c: char)
    requires d < 10
    ensures '0' <= c <= '9'
  {
    (48 + d) as char
  }

  /** `str(n)` for a natural number. */
  function NatToString(n: nat): (r: string)
    ensures |r| > 0
    ensures forall i :: 0 <= i < |r| ==> '0' <= r[i] <= '9'
  {
    if n < 10 then [DigitChar(n)] else NatToString(n / 10) + [DigitChar(n % 10)]
  }

  /** `int(s)` for a string of decimal digits. */
  function DecimalValue(s: string): nat
    requires forall i :: 0 <= i < |s| ==> '0' <= s[i] <= '9'
  {
    if |s| == 0 then 0 else DecimalValue(s[..|s| - 1]) * 10 + (s[|s| - 1] as int - 48)
  }

  /** `int(str(n)) == n`: the decimal rendering reads back as the same number. */
  lemma {:induction false} NatToStringRoundTrip(n: nat)
    ensures DecimalValue(NatToString(n)) == n
  {
    if n >= 10 {
      var s := NatToString(n);
      assert s[..|s| - 1] == NatToString(n / 10);
      NatToStringRoundTrip(n / 10);
    }
  }

  /** Number of occurrences of the character `c` in `s`. */
  function Count(s: string, c: char): nat {
    if |s| == 0 then 0 else (if s[0] == c then 1 else 0) + Count(s[1..], c)
  }

  lemma {:induction false} CountConcat(a: string, b: string, c: char)
    ensures Count(a + b, c) == Count(a, c) + Count(b, c)
  {
    if |a| > 0 {
      assert (a + b)[1..] == a[1..] + b;
      CountConcat(a[1..], b, c);
    } else {
      assert a + b == b;
    }
  }

  lemma {:induction false} CountAbsent(s: string, c: char)
    requires forall i :: 0 <= i < |s| ==> s[i] != c
    ensures Count(s, c) == 0
  {
    if |s| > 0 { CountAbsent(s[1..], c); }
  }

  /** `s.split(sep)` for a non-empty separator. */
  function Split(s: string, sep: string): (r: seq<string>)
    requires |sep| > 0
    ensures |r| > 0
    decreases |s|
  {
    match IndexOf(s, sep)
    case None => [s]
    case Some(i) => [s[..i]] + Split(s[i + |sep|..], sep)
  }

  /** `sep.join(s.split(sep)) == s`. */
  lemma {:induction false} SplitJoin(s: string, sep: string)
    requires |sep| > 0
    ensures Join(sep, Split(s, sep)) == s
    decreases |s|
  {
    match IndexOf(s, sep)
    case None =>
    case Some(i) =>
      var rest := s[i + |sep|..];
      SplitJoin(rest, sep);
      assert s == s[..i] + sep + rest;
  }

  /** Text without the separator character splits into itself. */
  lemma SplitWithout(s: string, c: char)
    requires forall i :: 0 <= i < |s| ==> s[i] != c
    ensures Split(s, [c]) == [s]
  {
    forall j | 0 <= j <= |s| ensures !OccursAt(s, [c], j) {
      if j + 1 <= |s| { assert s[j..j + 1] == [s[j]]; }
    }
    assert IndexOf(s, [c]).None?;
  }

  /** Splitting at the first separator character. */
  lemma SplitAtFirst(a: string, b: string, c: char)
    requires forall i :: 0 <= i < |a| ==> a[i] != c
    ensures Split(a + [c] + b, [c]) == [a] + Split(b, [c])
  {
    var s := a + [c] + b;
    assert OccursAt(s, [c], |a|) by { assert s[|a|..|a| + 1] == [c]; }
    assert forall j :: 0 <= j < |a| ==> !OccursAt(s, [c], j) by {
      forall j | 0 <= j < |a| ensures !OccursAt(s, [c], j) { assert s[j] == a[j]; }
    }
    var k := IndexOf(s, [c]).value;
    assert k == |a|;
    assert s[..|a|] == a;
    assert s[|a| + 1..] == b;
  }

  /** Splitting on one character gives one more piece than there are occurrences of it. */
  lemma {:induction false} SplitCharCount(s: string, c: char)
    ensures |Split(s, [c])| == Count(s, c) + 1
    decreases |s|
  {
    match IndexOf(s, [c])
    case None =>
      forall j | 0 <= j < |s| ensures s[j] != c { assert !OccursAt(s, [c], j); }
      CountAbsent(s, c);
    case Some(i) =>
      var rest := s[i + 1..];
      SplitCharCount(rest, c);
      forall j | 0 <= j < i ensures s[j] != c { assert !OccursAt(s, [c], j); }
      CountAbsent(s[..i], c);
      assert s == s[..i] + ([c] + rest);
      CountConcat(s[..i], [c] + rest, c);
      assert ([c] + rest)[1..] == rest;
  }

  /** `s.replace(pat, rep)`: every non-overlapping occurrence, left to right. An empty
      `pat` inserts `rep` before every character and at the end, as Python does. */
  function Replace(s: string, pat: string, rep: string): string
    decreases |s|
  {
    if |pat| == 0 then
      if |s| == 0 then rep else rep + [s[0]] + Replace(s[1..], pat, rep)
    else
      match IndexOf(s, pat)
      case None => s
      case Some(i) => s[..i] + rep + Replace(s[i + |pat|..], pat, rep)
  }

  /** The characters at which Python's `str.splitlines` breaks a line. */
  predicate IsLineBreak(c: char) {
    c == '\n' || c == '\r' || c == '\U{B}' || c == '\U{C}' || ('\U{1C}' <= c <= '\U{1E}')
    || c == '\U{85}' || c == '\U{2028}' || c == '\U{2029}'
  }

  /** The index of the first line break at or after `i`, or `|s|`. */
  function LineEnd(s: string, i: nat): (e: nat)
    requires i <= |s|
    ensures i <= e <= |s|
    ensures e < |s| ==> IsLineBreak(s[e])
    ensures forall j :: i <= j < e ==> !IsLineBreak(s[j])
    decreases |s| - i
  {
    if i == |s| || IsLineBreak(s[i]) then i else LineEnd(s, i + 1)
  }

  /** `s.splitlines()`: `\r\n` counts as one break and a final break opens no empty line. */
  function SplitLines(s: string): (r: seq<string>)
    ensures forall k, j :: 0 <= k < |r| && 0 <= j < |r[k]| ==> !IsLineBreak(r[k][j])
    ensures s == [] <==> r == []
    decreases |s|
  {
    if |s| == 0 then []
    else
      var e := LineEnd(s, 0);
      if e == |s| then [s]
      else
        var next := if s[e] == '\r' && e + 1 < |s| && s[e + 1] == '\n' then e + 2 else e + 1;
        [s[..e]] + SplitLines(s[next..])
  }
}
