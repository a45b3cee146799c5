/** String helpers with the semantics of the Rust standard library calls the
    engine makes: `char::is_whitespace`, `str::split_whitespace`, `str::trim`,
    `join`, `str::split`, `str::find`, `i32::from_str`, `str::len` (UTF-8
    bytes) and integer `Display`. */
module Text {

  datatype Option<+T> = None | Some(value: T) {
    function GetOr(default: T): T {
      match this
      case Some(v) => v
      case None => default
    }

    function Or(other: Option<T>): (r: Option<T>)
      ensures Some? ==> r == this
      ensures None? ==> r == other
    {
      if Some? then this else other
    }
  }

  datatype Result<+R, +E> = Ok(value: R) | Err(error: E) {
    function ToOption(): Option<R> {
      match this
      case Ok(v) => Some(v)
      case Err(_) => None
    }
  }

  /** What a call does: return a value, or panic. */
  datatype Outcome<+T> = Returned(value: T) | Panicked

  /** The first value `f` gives along `ks`, trying them in order. */
  function FirstSome<K, T(==)>(ks: seq<K>, f: K -> Option<T>): (r: Option<T>)
    ensures r.None? <==> forall i :: 0 <= i < |ks| ==> f(ks[i]).None?
    ensures r.Some? ==> exists i :: (0 <= i < |ks| && f(ks[i]) == r
      && forall j :: 0 <= j < i ==> f(ks[j]).None?)
  {
    if |ks| == 0 then None
    else if f(ks[0]).Some? then f(ks[0])
    else
      var r := FirstSome(ks[1..], f);
      assert forall i :: 1 <= i < |ks| ==> ks[i] == ks[1..][i - 1];
      if r.Some? then
        var k :| (0 <= k < |ks[1..]| && f(ks[1..][k]) == r
          && forall j :: 0 <= j < k ==> f(ks[1..][j]).None?);
        assert f(ks[k + 1]) == r;
        r
      else r
  }

  /** The earliest key that gives a value decides the result. */
  lemma FirstSomeAt<K, T>(ks: seq<K>, f: K -> Option<T>, i: nat)
    requires i < |ks| && f(ks[i]).Some? && forall j :: 0 <= j < i ==> f(ks[j]).None?
    ensures FirstSome(ks, f) == f(ks[i])
  {
    var r := FirstSome(ks, f);
    var k :| (0 <= k < |ks| && f(ks[k]) == r && forall j :: 0 <= j < k ==> f(ks[j]).None?);
    assert k == i;
  }

  // ---------------------------------------------------------------------
  // Whitespace

  /** The Unicode White_Space property, which Rust's `char::is_whitespace`
      (and so `trim` and `split_whitespace`) uses. */
  predicate IsWhitespace(c: char) {
    var n := c as int;
    (0x09 <= n <= 0x0D) || n == 0x20 || n == 0x85 || n == 0xA0 || n == 0x1680
    || (0x2000 <= n <= 0x200A) || n == 0x2028 || n == 0x2029 || n == 0x202F
    || n == 0x205F || n == 0x3000
  }

  predicate NoWhitespace(s: string) {
    forall i :: 0 <= i < |s| ==> !IsWhitespace(s[i])
  }

  /** A word as `split_whitespace` yields it: non-empty, without whitespace. */
  predicate IsWord(w: string) {
    |w| > 0 && NoWhitespace(w)
  }

  predicate AllWords(ws: seq<string>) {
    forall i :: 0 <= i < |ws| ==> IsWord(ws[i])
  }

  /** Length of the longest prefix of `s` without whitespace. */
  function WordLen(s: string): (n: nat)
    ensures n <= |s|
    ensures forall i :: 0 <= i < n ==> !IsWhitespace(s[i])
    ensures n < |s| ==> IsWhitespace(s[n])
  {
    if |s| == 0 || IsWhitespace(s[0]) then 0 else 1 + WordLen(s[1..])
  }

  /** `str::split_whitespace`: the maximal runs of non-whitespace, in order. */
  function SplitWhitespace(s: string): (words: seq<string>)
    ensures AllWords(words)
    decreases |s|
  {
    if |s| == 0 then []
    else if IsWhitespace(s[0]) then SplitWhitespace(s[1..])
    else
      var n := WordLen(s);
      [s[..n]] + SplitWhitespace(s[n..])
  }

  /** `[..].join(sep)`. */
  function Join(parts: seq<string>, sep: string): string {
    if |parts| == 0 then ""
    else if |parts| == 1 then parts[0]
    else parts[0] + sep + Join(parts[1..], sep)
  }

  /** Collapses every run of whitespace to one space and drops it at both ends:
      `split_whitespace().collect::<Vec<_>>().join(" ")`. */
  function Normalize(s: string): string {
    Join(SplitWhitespace(s), " ")
  }

  lemma WordLenOfWord(w: string, rest: string)
    requires IsWord(w)
    requires |rest| == 0 || IsWhitespace(rest[0])
    ensures WordLen(w + rest) == |w|
    decreases |w|
  {
    if |w| > 1 {
      assert (w + rest)[1..] == w[1..] + rest;
      WordLenOfWord(w[1..], rest);
    } else {
      assert (w + rest)[1..] == rest;
    }
  }

  lemma SplitWord(w: string, rest: string)
    requires IsWord(w)
    requires |rest| == 0 || IsWhitespace(rest[0])
    ensures SplitWhitespace(w + rest) == [w] + SplitWhitespace(rest)
  {
    WordLenOfWord(w, rest);
    var s := w + rest;
    assert s[..|w|] == w;
    assert s[|w|..] == rest;
  }

  /** Splitting words joined by single spaces gives the words back. */
  lemma {:induction false} SplitJoinRoundTrip(ws: seq<string>)
    requires AllWords(ws)
    ensures SplitWhitespace(Join(ws, " ")) == ws
  {
    if |ws| == 0 {
    } else if |ws| == 1 {
      SplitWord(ws[0], "");
      assert ws[0] + "" == ws[0];
    } else {
      var rest := Join(ws[1..], " ");
      SplitWord(ws[0], " " + rest);
      assert ws[0] + " " + rest == ws[0] + (" " + rest);
      assert (" " + rest)[1..] == rest;
      SplitJoinRoundTrip(ws[1..]);
      assert ws == [ws[0]] + ws[1..];
    }
  }

  lemma JoinNoWhitespaceSep(ws: seq<string>, sep: string)
    requires AllWords(ws) && NoWhitespace(sep)
    ensures NoWhitespace(Join(ws, sep))
  {
    if |ws| > 1 {
      JoinNoWhitespaceSep(ws[1..], sep);
    }
  }

  /** `str::trim_start`: only leading whitespace is removed, all of it. */
  function TrimStart(s: string): (r: string)
    ensures |r| <= |s| && r == s[|s| - |r|..]
    ensures IsBlank(s[..|s| - |r|])
    ensures |r| > 0 ==> !IsWhitespace(r[0])
  {
    if |s| > 0 && IsWhitespace(s[0]) then
      var r := TrimStart(s[1..]);
      assert forall k :: 1 <= k < |s| - |r| ==> s[k] == s[1..][..|s| - 1 - |r|][k - 1];
      r
    else s
  }

  /** `str::trim_end`: only trailing whitespace is removed, all of it. */
  function TrimEnd(s: string): (r: string)
    ensures |r| <= |s| && r == s[..|r|]
    ensures IsBlank(s[|r|..])
    ensures |r| > 0 ==> !IsWhitespace(r[|r| - 1])
  {
    if |s| > 0 && IsWhitespace(s[|s| - 1]) then
      var r := TrimEnd(s[..|s| - 1]);
      assert forall k :: |r| <= k < |s| - 1 ==> s[k] == s[..|s| - 1][|r|..][k - |r|];
      r
    else s
  }

  /** `str::trim`: the text between leading and trailing whitespace. */
  function Trim(s: string): (r: string)
    ensures |r| <= |s|
    ensures exists i :: 0 <= i && i + |r| <= |s| && r == s[i..i + |r|] && IsBlank(s[..i]) && IsBlank(s[i + |r|..])
    ensures |r| > 0 ==> !IsWhitespace(r[0]) && !IsWhitespace(r[|r| - 1])
  {
    var t := TrimStart(s);
    var r := TrimEnd(t);
    assert |r| > 0 ==> r[0] == t[0];
    var i := |s| - |t|;
    assert r == s[i..i + |r|];
    assert s[i + |r|..] == t[|r|..];
    r
  }

  /** Text without whitespace at either end is left as it is. */
  lemma TrimClean(s: string)
    requires |s| == 0 || (!IsWhitespace(s[0]) && !IsWhitespace(s[|s| - 1]))
    ensures Trim(s) == s
  {
  }

  /** `s.trim().is_empty()`: the string is blank. */
  predicate IsBlank(s: string) {
    forall i :: 0 <= i < |s| ==> IsWhitespace(s[i])
  }

  lemma TrimEmptyIffBlank(s: string)
    ensures Trim(s) == "" <==> IsBlank(s)
  {
    if IsBlank(s) {
      TrimStartBlank(s);
    } else {
      var i :| 0 <= i < |s| && !IsWhitespace(s[i]);
      TrimStartKeeps(s, i);
      var t := TrimStart(s);
      TrimEndKeeps(t, 0);
    }
  }

  lemma TrimEndKeeps(s: string, i: nat)
    requires i < |s| && !IsWhitespace(s[i])
    ensures TrimEnd(s) != ""
    decreases |s|
  {
    if i < |s| - 1 && IsWhitespace(s[|s| - 1]) {
      TrimEndKeeps(s[..|s| - 1], i);
    }
  }

  lemma TrimStartBlank(s: string)
    requires IsBlank(s)
    ensures TrimStart(s) == ""
  {
    if |s| > 0 {
      TrimStartBlank(s[1..]);
    }
  }

  lemma TrimStartKeeps(s: string, i: nat)
    requires i < |s| && !IsWhitespace(s[i])
    ensures TrimStart(s) != ""
  {
    if i > 0 && IsWhitespace(s[0]) {
      TrimStartKeeps(s[1..], i - 1);
    }
  }

  // ---------------------------------------------------------------------
  // Prefixes, substrings, splitting

  predicate StartsWith(s: string, p: string) {
    |p| <= |s| && s[..|p|] == p
  }

  predicate OccursAt(s: string, sub: string, i: nat) {
    i + |sub| <= |s| && s[i..i + |sub|] == sub
  }

  predicate Contains(s: string, sub: string) {
    exists i: nat | i <= |s| :: OccursAt(s, sub, i)
  }

  /** `str::find` for a string pattern: the first index where `sub` occurs. */
  function Find(s: string, sub: string, from: nat := 0): (r: Option<nat>)
    requires from <= |s|
    ensures r.Some? ==> from <= r.value && OccursAt(s, sub, r.value)
    ensures r.Some? ==> forall j :: from <= j < r.value ==> !OccursAt(s, sub, j)
    ensures r.None? ==> forall j :: from <= j ==> !OccursAt(s, sub, j)
    decreases |s| - from
  {
    if OccursAt(s, sub, from) then Some(from)
    else if from + |sub| >= |s| then
      None
    else Find(s, sub, from + 1)
  }

  lemma FindContains(s: string, sub: string)
    ensures Find(s, sub).Some? <==> Contains(s, sub)
  {
    if Contains(s, sub) {
      var i: nat :| OccursAt(s, sub, i);
    }
  }

  /** `str::split` with a non-empty string separator. */
  function SplitOn(s: string, sep: string): (parts: seq<string>)
    requires |sep| > 0
    ensures |parts| >= 1
    decreases |s|
  {
    match Find(s, sep)
    case None => [s]
    case Some(i) => [s[..i]] + SplitOn(s[i + |sep|..], sep)
  }

  /** `str::find` for a character: its first index. */
  function FindChar(s: string, c: char): (r: Option<nat>)
    ensures r.Some? ==> r.value < |s| && s[r.value] == c
    ensures r.Some? ==> forall j :: 0 <= j < r.value ==> s[j] != c
    ensures r.None? ==> forall j :: 0 <= j < |s| ==> s[j] != c
  {
    if |s| == 0 then None
    else if s[0] == c then Some(0)
    else match FindChar(s[1..], c)
      case None => None
      case Some(i) => Some(i + 1)
  }

  /** `str::rfind` for a character: its last index. */
  function RFindChar(s: string, c: char): (r: Option<nat>)
    ensures r.Some? ==> r.value < |s| && s[r.value] == c
    ensures r.Some? ==> forall j :: r.value < j < |s| ==> s[j] != c
    ensures r.None? ==> forall j :: 0 <= j < |s| ==> s[j] != c
  {
    if |s| == 0 then None
    else if s[|s| - 1] == c then Some(|s| - 1)
    else RFindChar(s[..|s| - 1], c)
  }

  lemma FindAt(s: string, sub: string, k: nat)
    requires OccursAt(s, sub, k)
    requires forall j :: 0 <= j < k ==> !OccursAt(s, sub, j)
    ensures Find(s, sub) == Some(k)
  {
  }

  lemma NoOccurrence(p: string, sep: string)
    requires |sep| > 0 && forall i :: 0 <= i < |p| ==> p[i] != sep[0]
    ensures Find(p, sep) == None
  {
  }

  /** Joining the parts of a split with the separator gives the string back. */
  lemma {:induction false} JoinSplitOn(s: string, sep: string)
    requires |sep| > 0
    ensures Join(SplitOn(s, sep), sep) == s
    decreases |s|
  {
    var found := Find(s, sep);
    if found.Some? {
      var i := found.value;
      var rest := s[i + |sep|..];
      var parts := SplitOn(rest, sep);
      JoinSplitOn(rest, sep);
      assert SplitOn(s, sep) == [s[..i]] + parts;
      JoinCons(s[..i], parts, sep);
      assert s == s[..i] + sep + rest by {
        assert s[i..i + |sep|] == sep;
      }
    }
  }

  lemma JoinCons(p: string, parts: seq<string>, sep: string)
    requires |parts| > 0
    ensures Join([p] + parts, sep) == p + sep + Join(parts, sep)
  {
    assert ([p] + parts)[1..] == parts;
  }

  /** A string without the separator splits into itself alone. */
  lemma SplitNoSep(p: string, sep: string)
    requires |sep| > 0 && forall i :: 0 <= i < |p| ==> p[i] != sep[0]
    ensures SplitOn(p, sep) == [p]
  {
    NoOccurrence(p, sep);
  }

  /** The leading digits of the first part of a split are those of the whole
      string, when the separator does not start with a digit. */
  lemma LeadingDigitsOfFirstPart(s: string, sep: string)
    requires |sep| > 0 && !IsAsciiDigit(sep[0])
    ensures LeadingDigits(SplitOn(s, sep)[0]) == LeadingDigits(s)
  {
    match Find(s, sep)
    case None =>
    case Some(j) =>
      assert s == s[..j] + s[j..];
      assert s[j..][0] == sep[0];
      LeadingDigitsOfPrefix(s[..j], s[j..]);
  }

  lemma SplitStep(p: string, sep: string, rest: string)
    requires |sep| > 0 && forall i :: 0 <= i < |p| ==> p[i] != sep[0]
    ensures SplitOn(p + sep + rest, sep) == [p] + SplitOn(rest, sep)
  {
    var s := p + sep + rest;
    assert s[|p|..|p| + |sep|] == sep;
    forall j | 0 <= j < |p|
      ensures !OccursAt(s, sep, j)
    {
      assert s[j] == p[j];
    }
    FindAt(s, sep, |p|);
    assert s[..|p|] == p;
    assert s[|p| + |sep|..] == rest;
  }

  /** Splitting parts joined by a separator gives the parts back, when no part
      contains the separator's first character. */
  lemma {:induction false} SplitJoinOn(parts: seq<string>, sep: string)
    requires |parts| >= 1 && |sep| > 0
    requires forall k, i :: 0 <= k < |parts| && 0 <= i < |parts[k]| ==> parts[k][i] != sep[0]
    ensures SplitOn(Join(parts, sep), sep) == parts
  {
    if |parts| == 1 {
      NoOccurrence(parts[0], sep);
    } else {
      SplitStep(parts[0], sep, Join(parts[1..], sep));
      SplitJoinOn(parts[1..], sep);
      assert parts == [parts[0]] + parts[1..];
    }
  }

  /** `str::trim_start_matches` with a string pattern: strips every repeated
      leading occurrence of `p`; an empty pattern strips nothing. */
  function TrimStartMatches(s: string, p: string): (r: string)
    ensures |p| > 0 ==> !StartsWith(r, p)
    ensures |p| == 0 ==> r == s
    ensures |r| <= |s| && r == s[|s| - |r|..]
    ensures exists n: nat :: s == Repeat(p, n) + r
    decreases |s|
  {
    if |p| > 0 && StartsWith(s, p) then
      var r := TrimStartMatches(s[|p|..], p);
      RepeatOnceMore(p, s[|p|..], r);
      assert p + s[|p|..] == s;
      r
    else
      assert s == Repeat(p, 0) + s;
      s
  }

  /** `n` copies of `p`, one after the other. */
  function Repeat(p: string, n: nat): string {
    if n == 0 then "" else p + Repeat(p, n - 1)
  }

  lemma RepeatOnceMore(p: string, t: string, r: string)
    requires exists n: nat :: t == Repeat(p, n) + r
    ensures exists n: nat :: p + t == Repeat(p, n) + r
  {
    var n: nat :| t == Repeat(p, n) + r;
    assert p + t == Repeat(p, n + 1) + r;
  }

  /** `chars().take(n).collect::<String>()`. */
  function TakeChars(s: string, n: nat): (r: string)
    ensures |r| <= n && |r| <= |s| && r == s[..|r|]
    ensures |s| <= n ==> r == s
  {
    if |s| <= n then s else s[..n]
  }

  // ---------------------------------------------------------------------
  // Case

  function LowerAsciiChar(c: char): char {
    if 'A' <= c <= 'Z' then (c as int + 32) as char else c
  }

  /** Lower-casing; only ASCII letters change (see README, Left out). */
  function ToLower(s: string): (r: string)
    ensures |r| == |s|
    ensures forall i :: 0 <= i < |s| ==> r[i] == LowerAsciiChar(s[i])
  {
    seq(|s|, i requires 0 <= i < |s| => LowerAsciiChar(s[i]))
  }

  /** Lower-casing twice is lower-casing once. */
  lemma ToLowerIdempotent(s: string)
    ensures ToLower(ToLower(s)) == ToLower(s)
  {
    assert forall i :: 0 <= i < |s| ==> LowerAsciiChar(LowerAsciiChar(s[i])) == LowerAsciiChar(s[i]);
  }

  /** Text with no upper-case ASCII letter is its own lower case. */
  lemma ToLowerNoUpper(s: string)
    requires forall i :: 0 <= i < |s| ==> !('A' <= s[i] <= 'Z')
    ensures ToLower(s) == s
  {
  }

  /** Lower-casing works character by character, so it distributes over
      concatenation. */
  lemma ToLowerAppend(s: string, t: string)
    ensures ToLower(s + t) == ToLower(s) + ToLower(t)
  {
  }

  // ---------------------------------------------------------------------
  // UTF-8 length (`str::len`)

  function Utf8CharLen(c: char): nat {
    var n := c as int;
    if n < 0x80 then 1 else if n < 0x800 then 2 else if n < 0x10000 then 3 else 4
  }

  /** `str::len`: the number of bytes of the UTF-8 encoding. */
  function Utf8Len(s: string): (n: nat)
    ensures |s| <= n <= 4 * |s|
  {
    if |s| == 0 then 0 else Utf8CharLen(s[0]) + Utf8Len(s[1..])
  }

  predicate IsAscii(s: string) {
    forall i :: 0 <= i < |s| ==> s[i] as int < 0x80
  }

  /** ASCII text takes one byte per character. */
  lemma {:induction false} Utf8LenAscii(s: string)
    requires IsAscii(s)
    ensures Utf8Len(s) == |s|
  {
    if |s| > 0 {
      Utf8LenAscii(s[1..]);
    }
  }

  lemma {:induction false} Utf8LenAppend(s: string, t: string)
    ensures Utf8Len(s + t) == Utf8Len(s) + Utf8Len(t)
  {
    if |s| > 0 {
      assert (s + t)[1..] == s[1..] + t;
      Utf8LenAppend(s[1..], t);
    } else {
      assert s + t == t;
    }
  }

  // ---------------------------------------------------------------------
  // Decimal digits

  predicate IsAsciiDigit(c: char) {
    '0' <= c <= '9'
  }

  predicate AllDigits(s: string) {
    forall i :: 0 <= i < |s| ==> IsAsciiDigit(s[i])
  }

  function DigitValue(c: char): (d: nat)
    requires IsAsciiDigit(c)
    ensures d < 10
  {
    (c as int) - ('0' as int)
  }

  function DigitChar(d: nat): (c: char)
    requires d < 10
    ensures IsAsciiDigit(c) && DigitValue(c) == d
  {
    (('0' as int) + d) as char
  }

  /** The value of a string of ASCII digits, read in base 10. */
  function DigitsValue(s: string): nat
    requires AllDigits(s)
  {
    if |s| == 0 then 0 else DigitsValue(s[..|s| - 1]) * 10 + DigitValue(s[|s| - 1])
  }

  /** Decimal rendering of a natural number, as `Display` writes it. */
  function NatToString(n: nat): (s: string)
    ensures |s| > 0 && AllDigits(s)
  {
    if n < 10 then [DigitChar(n)] else NatToString(n / 10) + [DigitChar(n % 10)]
  }

  /** Decimal rendering of an integer, as `Display` writes it. */
  function IntToString(i: int): string {
    if i < 0 then "-" + NatToString(-i) else NatToString(i)
  }

  lemma {:induction false} NatToStringValue(n: nat)
    ensures DigitsValue(NatToString(n)) == n
  {
    var s := NatToString(n);
    if n >= 10 {
      NatToStringValue(n / 10);
      assert s[..|s| - 1] == NatToString(n / 10);
    }
  }

  function Pow10(k: nat): (p: nat)
    ensures p >= 1
  {
    if k == 0 then 1 else 10 * Pow10(k - 1)
  }

  lemma {:induction false} Pow10Mono(a: nat, b: nat)
    requires a <= b
    ensures Pow10(a) <= Pow10(b)
    decreases b
  {
    if a < b {
      Pow10Mono(a, b - 1);
    }
  }

  lemma Pow10MonoIf(a: nat, b: nat)
    ensures a <= b ==> Pow10(a) <= Pow10(b)
  {
    if a <= b {
      Pow10Mono(a, b);
    }
  }

  /** A run of at most `k` digits is worth less than 10^k. */
  lemma ShortDigitsBound(s: string, k: nat)
    requires AllDigits(s) && |s| <= k
    ensures DigitsValue(s) < Pow10(k)
  {
    DigitsValueBound(s);
    Pow10Mono(|s|, k);
  }

  lemma {:induction false} DigitsValueBound(s: string)
    requires AllDigits(s)
    ensures DigitsValue(s) < Pow10(|s|)
  {
    if |s| > 0 {
      DigitsValueBound(s[..|s| - 1]);
    }
  }

  lemma {:induction false} NatToStringLength(n: nat, k: nat)
    requires 1 <= k && n < Pow10(k)
    ensures |NatToString(n)| <= k
  {
    if n >= 10 {
      assert k >= 2;
      assert n / 10 < Pow10(k - 1);
      NatToStringLength(n / 10, k - 1);
    }
  }

  function Zeros(k: nat): (z: string)
    ensures |z| == k && AllDigits(z)
  {
    if k == 0 then "" else "0" + Zeros(k - 1)
  }

  /** Decimal rendering of `n` padded on the left with zeros to at least
      `width` characters, as `{:0width$}` writes a non-negative number. */
  function PadZeros(n: nat, width: nat): (s: string)
    ensures AllDigits(s) && |s| > 0
  {
    var digits := NatToString(n);
    if |digits| >= width then digits else Zeros(width - |digits|) + digits
  }

  lemma {:induction false} DigitsValueAppend(p: string, q: string)
    requires AllDigits(p) && AllDigits(q)
    ensures AllDigits(p + q)
    ensures DigitsValue(p + q) == DigitsValue(p) * Pow10(|q|) + DigitsValue(q)
    decreases |q|
  {
    if |q| > 0 {
      var pq := p + q;
      var q' := q[..|q| - 1];
      var d := DigitValue(q[|q| - 1]);
      assert pq[..|pq| - 1] == p + q';
      assert pq[|pq| - 1] == q[|q| - 1];
      DigitsValueAppend(p, q');
      calc {
        DigitsValue(pq);
        DigitsValue(p + q') * 10 + d;
        (DigitsValue(p) * Pow10(|q'|) + DigitsValue(q')) * 10 + d;
        { MulAssoc(DigitsValue(p), Pow10(|q'|), 10); }
        DigitsValue(p) * Pow10(|q|) + (DigitsValue(q') * 10 + d);
      }
    } else {
      assert p + q == p;
    }
  }

  lemma MulAssoc(a: nat, b: nat, c: nat)
    ensures (a * b) * c == a * (b * c)
  {
  }

  lemma {:induction false} ZerosValue(k: nat)
    ensures DigitsValue(Zeros(k)) == 0
  {
    if k > 0 {
      DigitsValueAppend("0", Zeros(k - 1));
      ZerosValue(k - 1);
      assert DigitsValue("0") == DigitsValue("") * 10 + 0;
    }
  }

  lemma PadZerosValue(n: nat, width: nat)
    ensures DigitsValue(PadZeros(n, width)) == n
    ensures |PadZeros(n, width)| >= width
    ensures n < Pow10(width) && width >= 1 ==> |PadZeros(n, width)| == width
  {
    var digits := NatToString(n);
    NatToStringValue(n);
    if |digits| < width {
      ZerosValue(width - |digits|);
      DigitsValueAppend(Zeros(width - |digits|), digits);
    }
    if n < Pow10(width) && width >= 1 {
      NatToStringLength(n, width);
    }
  }

  /** Length of the run of ASCII digits at the start of `s`. */
  function DigitRunLen(s: string): (n: nat)
    ensures n <= |s| && AllDigits(s[..n])
    ensures n < |s| ==> !IsAsciiDigit(s[n])
  {
    if |s| == 0 || !IsAsciiDigit(s[0]) then 0
    else
      var k := 1 + DigitRunLen(s[1..]);
      assert s[..k] == [s[0]] + s[1..][..k - 1];
      k
  }

  /** `chars().take_while(|c| c.is_ascii_digit()).collect::<String>()`. */
  function LeadingDigits(s: string): (r: string)
    ensures AllDigits(r) && StartsWith(s, r)
  {
    s[..DigitRunLen(s)]
  }

  /** The leading digit run of a prefix that stops at a non-digit (or at the
      end of the string) is the leading digit run of the whole string. */
  lemma {:induction false} DigitRunOfPrefix(p: string, q: string)
    requires AllDigits(p)
    requires |q| == 0 || !IsAsciiDigit(q[0])
    ensures DigitRunLen(p + q) == |p|
    decreases |p|
  {
    if |p| > 0 {
      var pq := p + q;
      assert pq[0] == p[0];
      assert pq[1..] == p[1..] + q;
      DigitRunOfPrefix(p[1..], q);
    } else {
      assert p + q == q;
    }
  }

  lemma DigitRunAtLeast(s: string, k: nat)
    requires k <= |s| && AllDigits(s[..k])
    ensures DigitRunLen(s) >= k
  {
    if k > 0 {
      assert IsAsciiDigit(s[..k][0]);
      assert s[1..][..k - 1] == s[..k][1..];
      DigitRunAtLeast(s[1..], k - 1);
    }
  }

  lemma LeadingDigitsOfPrefix(p: string, q: string)
    requires |q| == 0 || !IsAsciiDigit(q[0])
    ensures LeadingDigits(p + q) == LeadingDigits(p)
    decreases |p|
  {
    if |p| > 0 && IsAsciiDigit(p[0]) {
      assert (p + q)[1..] == p[1..] + q;
      LeadingDigitsOfPrefix(p[1..], q);
    }
  }

  /** Years 1000 to 9999 print as four digits. */
  lemma FourDigitYear(y: nat)
    requires 1000 <= y <= 9999
    ensures |NatToString(y)| == 4
  {
    var ys := NatToString(y);
    NatToStringValue(y);
    assert y < Pow10(4);
    NatToStringLength(y, 4);
    DigitsValueBound(ys);
    assert Pow10(3) == 1000;
    Pow10MonoIf(|ys|, 3);
  }

  const I32Min: int := -0x8000_0000
  const I32Max: int := 0x7FFF_FFFF

  /** `str::parse::<i32>()`: an optional `+` or `-` sign, then one or more
      ASCII digits, with the value inside the 32-bit range. */
  function ParseI32(s: string): (r: Option<int>)
    ensures r.Some? ==> I32Min <= r.value <= I32Max
  {
    if |s| == 0 then None
    else
      var negative := s[0] == '-';
      var digits := if s[0] == '+' || s[0] == '-' then s[1..] else s;
      if |digits| == 0 || !AllDigits(digits) then None
      else
        var v: int := if negative then 0 - DigitsValue(digits) as int else DigitsValue(digits);
        if I32Min <= v <= I32Max then Some(v) else None
  }

  /** `i32::from_str` reads back what `Display` writes for every 32-bit value. */
  lemma ParseI32OfInt(i: int)
    requires I32Min <= i <= I32Max
    ensures ParseI32(IntToString(i)) == Some(i)
  {
    if i >= 0 {
      ParseI32OfNat(i);
    } else {
      NatToStringValue(-i);
      var s := IntToString(i);
      assert s[1..] == NatToString(-i);
    }
  }

  lemma ParseI32OfNat(n: nat)
    requires n <= I32Max
    ensures ParseI32(NatToString(n)) == Some(n)
  {
    NatToStringValue(n);
    var s := NatToString(n);
    assert s[0] != '+' && s[0] != '-' by { assert IsAsciiDigit(s[0]); }
  }
}
