/**
 * The small part of `java.lang.String` and `java.lang.Character` that the
 * task tracker relies on, written out so that every edge case is explicit:
 * `trim`, `isBlank`, `toLowerCase`, `indexOf`, `lastIndexOf`, `contains`,
 * `split("\t")` / `String.join("\t", ...)` and decimal digit strings.
 */
module Text {

  datatype Option<+T> = None | Some(value: T) {
    function GetOr(default: T): T {
      match this
      case Some(v) => v
      case None => default
    }
  }

  // ---------------------------------------------------------------------
  // trim / isBlank
  // ---------------------------------------------------------------------

  /** `String.trim` removes every character whose code is at most U+0020. */
  predicate IsTrimmable(c: char) {
    c <= ' '
  }

  /** `Character.isWhitespace`, which `String.isBlank` uses (no-break spaces excluded). */
  predicate IsWhitespace(c: char) {
    || c == ' ' || c == '\t' || c == '\n' || c == '\U{B}' || c == '\U{C}' || c == '\r'
    || ('\U{1C}' <= c <= '\U{1F}')
    || c == '\U{1680}'
    || ('\U{2000}' <= c <= '\U{2006}') || ('\U{2008}' <= c <= '\U{200A}')
    || c == '\U{2028}' || c == '\U{2029}' || c == '\U{205F}' || c == '\U{3000}'
  }

  function SkipLeading(s: string, i: nat): (j: nat)
    requires i <= |s|
    ensures i <= j <= |s|
    ensures forall k :: i <= k < j ==> IsTrimmable(s[k])
    ensures j < |s| ==> !IsTrimmable(s[j])
    decreases |s| - i
  {
    if i < |s| && IsTrimmable(s[i]) then SkipLeading(s, i + 1) else i
  }

  function SkipTrailing(s: string, lo: nat, e: nat): (j: nat)
    requires lo <= e <= |s|
    ensures lo <= j <= e
    ensures forall k :: j <= k < e ==> IsTrimmable(s[k])
    ensures lo < j ==> !IsTrimmable(s[j - 1])
    decreases e
  {
    if lo < e && IsTrimmable(s[e - 1]) then SkipTrailing(s, lo, e - 1) else e
  }

  /** `String.trim`: the longest infix that neither starts nor ends with a trimmable character. */
  function Trim(s: string): (r: string)
    ensures |r| <= |s|
    ensures r != [] ==> !IsTrimmable(r[0]) && !IsTrimmable(r[|r| - 1])
  {
    var i := SkipLeading(s, 0);
    var j := SkipTrailing(s, i, |s|);
    s[i..j]
  }

  /** What `trim` removes: only trimmable characters, and only at the two ends. */
  lemma TrimIsInfix(s: string)
    ensures exists i, j :: 0 <= i <= j <= |s| && Trim(s) == s[i..j]
                           && (forall k :: 0 <= k < i ==> IsTrimmable(s[k]))
                           && (forall k :: j <= k < |s| ==> IsTrimmable(s[k]))
  {
    var i := SkipLeading(s, 0);
    var j := SkipTrailing(s, i, |s|);
    assert Trim(s) == s[i..j];
  }

  /** `s.trim().isEmpty()`: used by the commands and the date parser. */
  predicate IsTrimEmpty(s: string) {
    Trim(s) == ""
  }

  /** `String.isBlank`: used when loading the record file. */
  predicate IsBlank(s: string) {
    forall k :: 0 <= k < |s| ==> IsWhitespace(s[k])
  }

  lemma TrimEmptyIff(s: string)
    ensures Trim(s) == "" <==> forall k :: 0 <= k < |s| ==> IsTrimmable(s[k])
  {
    var i := SkipLeading(s, 0);
    if forall k :: 0 <= k < |s| ==> IsTrimmable(s[k]) {
      assert i == |s|;
    }
  }

  /** A string that neither starts nor ends with a trimmable character is its own trim. */
  lemma TrimOfClean(s: string)
    requires s != [] ==> !IsTrimmable(s[0]) && !IsTrimmable(s[|s| - 1])
    ensures Trim(s) == s
  {
    if s != [] {
      assert SkipLeading(s, 0) == 0;
      assert SkipTrailing(s, 0, |s|) == |s|;
    }
  }

  lemma TrimIdempotent(s: string)
    ensures Trim(Trim(s)) == Trim(s)
  {
    TrimOfClean(Trim(s));
  }

  /** Whitespace in the `Character.isWhitespace` sense is always trimmable, except the Unicode spaces. */
  lemma BlankAsciiIsTrimEmpty(s: string)
    requires forall k :: 0 <= k < |s| ==> IsWhitespace(s[k]) && s[k] <= ' '
    ensures IsTrimEmpty(s)
  {
    TrimEmptyIff(s);
  }

  // ---------------------------------------------------------------------
  // Case folding (ASCII letters only)
  // ---------------------------------------------------------------------

  function LowerChar(c: char): char {
    if 'A' <= c <= 'Z' then (c as int + 32) as char else c
  }

  /** `String.toLowerCase`, restricted to the ASCII letters. */
  function ToLower(s: string): (r: string)
    ensures |r| == |s|
    ensures forall k :: 0 <= k < |s| ==> r[k] == LowerChar(s[k])
  {
    seq(|s|, k requires 0 <= k < |s| => LowerChar(s[k]))
  }

  /** Case-insensitive character comparison of `DateTimeFormatterBuilder.parseCaseInsensitive`. */
  predicate CharEqualsIgnoreCase(a: char, b: char) {
    LowerChar(a) == LowerChar(b)
  }

  // ---------------------------------------------------------------------
  // Searching
  // ---------------------------------------------------------------------

  /** `s.indexOf(c)`: the first position of `c`, or -1. */
  function IndexOfChar(s: string, c: char): (r: int)
    ensures -1 <= r < |s|
    ensures r == -1 <==> c !in s
    ensures 0 <= r ==> s[r] == c && c !in s[..r]
  {
    if |s| == 0 then -1
    else if s[0] == c then 0
    else
      var r := IndexOfChar(s[1..], c);
      assert s == [s[0]] + s[1..];
      if r == -1 then -1 else 1 + r
  }

  /** The pattern `p` occurs in `s` starting at `i`. */
  predicate OccursAt(s: string, p: string, i: int) {
    0 <= i && i + |p| <= |s| && s[i..i + |p|] == p
  }

  /** `s.contains(p)`. */
  predicate Contains(s: string, p: string) {
    exists i | 0 <= i <= |s| - |p| :: OccursAt(s, p, i)
  }

  function LastIndexFrom(s: string, p: string, i: int): (r: int)
    requires -1 <= i <= |s|
    ensures -1 <= r <= i
    ensures r == -1 <==> forall k :: 0 <= k <= i ==> !OccursAt(s, p, k)
    ensures 0 <= r ==> OccursAt(s, p, r) && forall k :: r < k <= i ==> !OccursAt(s, p, k)
    decreases i + 1
  {
    if i < 0 then -1
    else if OccursAt(s, p, i) then i
    else LastIndexFrom(s, p, i - 1)
  }

  /** `s.lastIndexOf(p)`: the last position at which `p` occurs, or -1. */
  function LastIndexOf(s: string, p: string): (r: int)
    ensures -1 <= r <= |s|
    ensures r == -1 <==> forall k :: !OccursAt(s, p, k)
    ensures 0 <= r ==> OccursAt(s, p, r) && forall k :: r < k ==> !OccursAt(s, p, k)
  {
    assert forall k :: |s| < k ==> !OccursAt(s, p, k);
    LastIndexFrom(s, p, |s|)
  }

  // ---------------------------------------------------------------------
  // Decimal digits
  // ---------------------------------------------------------------------

  predicate IsDigit(c: char) {
    '0' <= c <= '9'
  }

  predicate AllDigits(s: string) {
    forall k :: 0 <= k < |s| ==> IsDigit(s[k])
  }

  function DigitChar(d: nat): char
    requires d < 10
  {
    ('0' as int + d) as char
  }

  /** The value of a string of ASCII digits, most significant first. */
  function DigitsValue(s: string): nat
    requires AllDigits(s)
  {
    if s == [] then 0
    else DigitsValue(s[..|s| - 1]) * 10 + (s[|s| - 1] as int - '0' as int)
  }

  /** The shortest decimal rendering of `n`. */
  function NatToDigits(n: nat): (r: string)
    ensures r != [] && AllDigits(r)
    decreases n
  {
    if n < 10 then [DigitChar(n)] else NatToDigits(n / 10) + [DigitChar(n % 10)]
  }

  lemma {:induction false} DigitsOfNat(n: nat)
    ensures DigitsValue(NatToDigits(n)) == n
    decreases n
  {
    if n >= 10 {
      var s := NatToDigits(n);
      assert s[..|s| - 1] == NatToDigits(n / 10);
      DigitsOfNat(n / 10);
    }
  }

  /** The rendering of `n` zero-padded to two digits (`MM`, `dd`, `HH`, `mm`). */
  function Pad2(n: nat): (r: string)
    requires n < 100
    ensures |r| == 2 && AllDigits(r) && DigitsValue(r) == n
  {
    var r := [DigitChar(n / 10), DigitChar(n % 10)];
    assert r[..1] == [DigitChar(n / 10)];
    assert DigitsValue(r[..1]) == n / 10 by {
      assert r[..1][..0] == [];
    }
    r
  }

  /** Appending a digit shifts the value one decimal place. */
  lemma DigitsValueSnoc(s: string, k: nat)
    requires AllDigits(s) && k < 10
    ensures AllDigits(s + [DigitChar(k)]) && DigitsValue(s + [DigitChar(k)]) == DigitsValue(s) * 10 + k
  {
    var t := s + [DigitChar(k)];
    assert t[..|t| - 1] == s;
  }

  /** The rendering of `n` zero-padded to four digits (`yyyy`). */
  function Pad4(n: nat): (r: string)
    requires n < 10000
    ensures |r| == 4 && AllDigits(r) && DigitsValue(r) == n
  {
    var r1 := [DigitChar(n / 1000)];
    assert DigitsValue(r1) == n / 1000 by {
      DigitsValueSnoc([], n / 1000);
      assert [] + r1 == r1;
    }
    var r2 := r1 + [DigitChar(n / 100 % 10)];
    assert DigitsValue(r2) == n / 100 by {
      DigitsValueSnoc(r1, n / 100 % 10);
    }
    var r3 := r2 + [DigitChar(n / 10 % 10)];
    assert DigitsValue(r3) == n / 10 by {
      DigitsValueSnoc(r2, n / 10 % 10);
    }
    DigitsValueSnoc(r3, n % 10);
    r3 + [DigitChar(n % 10)]
  }

  /** The number of consecutive digits starting at `pos`. */
  function DigitRun(s: string, pos: nat): (n: nat)
    requires pos <= |s|
    ensures pos + n <= |s|
    ensures AllDigits(s[pos..pos + n])
    ensures pos + n < |s| ==> !IsDigit(s[pos + n])
    decreases |s| - pos
  {
    if pos < |s| && IsDigit(s[pos]) then
      var m := DigitRun(s, pos + 1);
      assert s[pos..pos + 1 + m] == [s[pos]] + s[pos + 1..pos + 1 + m];
      1 + m
    else 0
  }

  lemma {:induction false} DigitRunExact(s: string, pos: nat, n: nat)
    requires pos + n <= |s|
    requires AllDigits(s[pos..pos + n])
    requires pos + n < |s| ==> !IsDigit(s[pos + n])
    ensures DigitRun(s, pos) == n
    decreases n
  {
    if n > 0 {
      assert IsDigit(s[pos..pos + n][0]);
      assert s[pos + 1..pos + n] == s[pos..pos + n][1..];
      DigitRunExact(s, pos + 1, n - 1);
    }
  }

  predicate FourDigitsAt(s: string, i: int) {
    0 <= i && i + 4 <= |s| && AllDigits(s[i..i + 4])
  }

  /** `s` contains four consecutive ASCII digits (the regular expression `.*\d{4}.*`). */
  predicate HasFourDigitRun(s: string) {
    exists i | 0 <= i <= |s| - 4 :: FourDigitsAt(s, i)
  }

  // ---------------------------------------------------------------------
  // Tab-separated fields
  // ---------------------------------------------------------------------

  /** `String.join("\t", fields)`. */
  function JoinTabs(fields: seq<string>): string
    requires fields != []
  {
    if |fields| == 1 then fields[0] else fields[0] + "\t" + JoinTabs(fields[1..])
  }

  /** The pieces of `s` between tabs, every one of them kept (one more piece than tabs). */
  function SplitAll(s: string): (r: seq<string>)
    ensures r != []
    ensures forall k :: 0 <= k < |r| ==> '\t' !in r[k]
    decreases |s|
  {
    var i := IndexOfChar(s, '\t');
    if i == -1 then [s] else [s[..i]] + SplitAll(s[i + 1..])
  }

  function DropTrailingEmpty(parts: seq<string>): (r: seq<string>)
    ensures |r| <= |parts| && r == parts[..|r|]
    ensures r != [] ==> r[|r| - 1] != ""
    ensures forall k :: |r| <= k < |parts| ==> parts[k] == ""
  {
    if parts == [] then []
    else if parts[|parts| - 1] == "" then DropTrailingEmpty(parts[..|parts| - 1])
    else parts
  }

  /**
   * `s.split("\t")`: the pieces between tabs with trailing empty pieces removed,
   * except that a string without any tab gives itself as the only piece.
   */
  function SplitTabs(s: string): (r: seq<string>)
    ensures '\t' !in s ==> r == [s]
    ensures forall k :: 0 <= k < |r| ==> '\t' !in r[k]
  {
    if '\t' !in s then [s] else DropTrailingEmpty(SplitAll(s))
  }

  lemma {:induction false} SplitAllJoin(fields: seq<string>)
    requires fields != []
    requires forall k :: 0 <= k < |fields| ==> '\t' !in fields[k]
    ensures SplitAll(JoinTabs(fields)) == fields
    decreases |fields|
  {
    if |fields| > 1 {
      var s := JoinTabs(fields);
      var rest := JoinTabs(fields[1..]);
      assert s == fields[0] + "\t" + rest;
      assert s[|fields[0]|] == '\t';
      assert s[..|fields[0]|] == fields[0];
      assert IndexOfChar(s, '\t') == |fields[0]|;
      assert s[|fields[0]| + 1..] == rest;
      SplitAllJoin(fields[1..]);
    }
  }

  /** Round trip of the record format: splitting a joined line gives its fields back. */
  lemma SplitJoin(fields: seq<string>)
    requires fields != []
    requires forall k :: 0 <= k < |fields| ==> '\t' !in fields[k]
    requires fields[|fields| - 1] != ""
    ensures SplitTabs(JoinTabs(fields)) == fields
  {
    if |fields| == 1 {
      assert JoinTabs(fields) == fields[0];
    } else {
      var s := JoinTabs(fields);
      assert s == fields[0] + "\t" + JoinTabs(fields[1..]);
      assert s[|fields[0]|] == '\t';
      SplitAllJoin(fields);
    }
  }
}
