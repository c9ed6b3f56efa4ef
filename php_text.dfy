/** The few PHP string built-ins the services rely on: `trim`, `empty` on a
    string, `strtolower`/`strtoupper`, `explode`/`implode`, and the decimal
    rendering of an integer inside a double-quoted string. */
module PhpText {
  import opened Common

  /** The characters `trim()` strips by default: space, tab, line feed,
      carriage return, NUL and vertical tab. */
  const TrimChars: set<char> := {' ', '\t', '\n', '\r', '\0', '\U{B}'}

  /** `ltrim`: drops the longest prefix made of trim characters. */
  function TrimStart(s: string): (r: string)
    ensures |r| <= |s| && r == s[|s| - |r|..]
    ensures forall i :: 0 <= i < |s| - |r| ==> s[i] in TrimChars
    ensures r == [] || r[0] !in TrimChars
  {
    if s != [] && s[0] in TrimChars then TrimStart(s[1..]) else s
  }

  /** `rtrim`: drops the longest suffix made of trim characters. */
  function TrimEnd(s: string): (r: string)
    ensures |r| <= |s| && r == s[..|r|]
    ensures forall i :: |r| <= i < |s| ==> s[i] in TrimChars
    ensures r == [] || r[|r| - 1] !in TrimChars
  {
    if s != [] && s[|s| - 1] in TrimChars then TrimEnd(s[..|s| - 1]) else s
  }

  /** `trim`: both ends. */
  function Trim(s: string): string {
    TrimEnd(TrimStart(s))
  }

  /** No trim character at either end. */
  predicate TrimmedForm(s: string) {
    s != [] ==> s[0] !in TrimChars && s[|s| - 1] !in TrimChars
  }

  /** `s[i..j]` is what is left of `s` once only trim characters are cut
      off before `i` and from `j` on. */
  predicate CutsOnlyTrimChars(s: string, i: int, j: int) {
    && 0 <= i <= j <= |s|
    && (forall k :: 0 <= k < i ==> s[k] in TrimChars)
    && (forall k :: j <= k < |s| ==> s[k] in TrimChars)
  }

  /** A prefix `u` of a suffix `t` of `s` is the slice of `s` starting
      where `t` does. */
  lemma PrefixOfSuffix(s: string, t: string, u: string)
    requires |t| <= |s| && t == s[|s| - |t|..]
    requires |u| <= |t| && u == t[..|u|]
    ensures u == s[|s| - |t|..|s| - |t| + |u|]
  {
  }

  /** Whatever follows `u` in `t` follows it in `s` too. */
  lemma TailOfSuffix(s: string, t: string, u: string)
    requires |t| <= |s| && t == s[|s| - |t|..] && |u| <= |t|
    requires forall k :: |u| <= k < |t| ==> t[k] in TrimChars
    ensures forall k :: |s| - |t| + |u| <= k < |s| ==> s[k] in TrimChars
  {
    forall k | |s| - |t| + |u| <= k < |s| ensures s[k] in TrimChars {
      assert s[k] == t[k - (|s| - |t|)];
    }
  }

  /** Cutting trim characters off the front of `s` to leave `t`, then off
      the back of `t` to leave `u`, cuts only trim characters off `s`. */
  lemma CutTwice(s: string, t: string, u: string)
    requires |t| <= |s| && t == s[|s| - |t|..]
    requires forall k :: 0 <= k < |s| - |t| ==> s[k] in TrimChars
    requires |u| <= |t| && u == t[..|u|]
    requires forall k :: |u| <= k < |t| ==> t[k] in TrimChars
    ensures CutsOnlyTrimChars(s, |s| - |t|, |s| - |t| + |u|)
    ensures u == s[|s| - |t|..|s| - |t| + |u|]
  {
    PrefixOfSuffix(s, t, u);
    TailOfSuffix(s, t, u);
  }

  /** A trimmed string is a slice of the input with no trim character at
      either end, and everything cut off was a trim character. */
  lemma TrimIsMaximalSlice(s: string)
    ensures exists i, j :: CutsOnlyTrimChars(s, i, j) && Trim(s) == s[i..j]
    ensures TrimmedForm(Trim(s))
  {
    var t := TrimStart(s);
    var u := TrimEnd(t);
    CutTwice(s, t, u);
    assert Trim(s) == u;
    var i := |s| - |t|;
    assert CutsOnlyTrimChars(s, i, i + |u|) && u == s[i..i + |u|];
    TrimEndsClean(t, u);
  }

  /** `rtrim` of a string not starting with a trim character is in trimmed
      form. */
  lemma TrimEndsClean(t: string, u: string)
    requires t == [] || t[0] !in TrimChars
    requires u == TrimEnd(t)
    ensures TrimmedForm(u)
  {
    if u != [] {
      assert u[0] == t[0];
    }
  }

  /** The trim of a string is empty exactly when the string is whitespace only
      (in `trim`'s sense of whitespace). */
  lemma TrimEmptyIffBlank(s: string)
    ensures Trim(s) == "" <==> forall k :: 0 <= k < |s| ==> s[k] in TrimChars
  {
    var t := TrimStart(s);
    if forall k :: 0 <= k < |s| ==> s[k] in TrimChars {
    } else {
      var k :| 0 <= k < |s| && s[k] !in TrimChars;
      assert t != [];
      assert t[0] !in TrimChars;
      assert TrimEnd(t) != [];
    }
  }


  /** A string in trimmed form is its own trim. */
  lemma TrimOfTrimmedForm(s: string)
    requires TrimmedForm(s)
    ensures Trim(s) == s
  {
  }

  /** Trimming twice is trimming once. */
  lemma {:induction false} TrimIdempotent(s: string)
    ensures Trim(Trim(s)) == Trim(s)
  {
    var r := Trim(s);
    TrimIsMaximalSlice(s);
    assert TrimStart(r) == r by {
      if r != [] { assert r[0] !in TrimChars; }
    }
    assert TrimEnd(r) == r by {
      if r != [] { assert r[|r| - 1] !in TrimChars; }
    }
  }

  /** Trimming adds no character: one absent before is absent after. */
  lemma TrimKeepsAbsent(s: string, c: char)
    requires c !in s
    ensures c !in Trim(s)
  {
    TrimIsMaximalSlice(s);
  }

  /** PHP's `empty()` applied to a string: true for "" and for "0". */
  predicate PhpEmpty(s: string) {
    s == "" || s == "0"
  }

  /** `strtolower`/`strtoupper` change ASCII letters only. */
  function LowerChar(c: char): char {
    if 'A' <= c <= 'Z' then (c as int - 'A' as int + 'a' as int) as char else c
  }

  function UpperChar(c: char): char {
    if 'a' <= c <= 'z' then (c as int - 'a' as int + 'A' as int) as char else c
  }

  function ToLower(s: string): string {
    seq(|s|, i requires 0 <= i < |s| => LowerChar(s[i]))
  }

  function ToUpper(s: string): string {
    seq(|s|, i requires 0 <= i < |s| => UpperChar(s[i]))
  }

  /** Lower-casing twice is lower-casing once. */
  lemma ToLowerIdempotent(s: string)
    ensures ToLower(ToLower(s)) == ToLower(s)
  {
  }

  /** Upper-casing ignores an earlier lower-casing. */
  lemma ToUpperOfLower(s: string)
    ensures ToUpper(ToLower(s)) == ToUpper(s)
  {
  }

  /** Lower-casing ignores an earlier upper-casing. */
  lemma ToLowerOfUpper(s: string)
    ensures ToLower(ToUpper(s)) == ToLower(s)
  {
  }

  /** `implode(d, parts)` with a one-character glue. */
  function Implode(d: char, parts: seq<string>): string {
    if parts == [] then ""
    else if |parts| == 1 then parts[0]
    else parts[0] + [d] + Implode(d, parts[1..])
  }

  /** `explode(d, s)` with a one-character delimiter: never an empty list (an
      empty input gives one empty piece), no piece holds the delimiter, and
      gluing the pieces back gives the input. */
  function Explode(d: char, s: string): (parts: seq<string>)
    ensures |parts| >= 1
    ensures forall p :: p in parts ==> d !in p
    ensures Implode(d, parts) == s
  {
    if s == [] then [""]
    else
      var rest := Explode(d, s[1..]);
      if s[0] == d then
        assert [d] + s[1..] == s;
        [""] + rest
      else
        var parts := [[s[0]] + rest[0]] + rest[1..];
        assert parts[1..] == rest[1..];
        assert |rest| > 1 ==> Implode(d, rest) == rest[0] + [d] + Implode(d, rest[1..]);
        assert [s[0]] + s[1..] == s;
        parts
  }

  lemma {:induction false} ExplodeLiteral(d: char, p: string)
    requires d !in p
    ensures Explode(d, p) == [p]
  {
    if p != [] {
      ExplodeLiteral(d, p[1..]);
      assert [p[0]] + p[1..] == p;
    }
  }

  lemma {:induction false} ExplodeAtFirstDelimiter(d: char, p: string, t: string)
    requires d !in p
    ensures Explode(d, p + [d] + t) == [p] + Explode(d, t)
  {
    var s := p + [d] + t;
    if p == [] {
      assert s[1..] == t;
    } else {
      assert s[1..] == p[1..] + [d] + t;
      ExplodeAtFirstDelimiter(d, p[1..], t);
      assert [p[0]] + p[1..] == p;
    }
  }

  /** Exploding what was imploded gives the pieces back, as long as no piece
      holds the delimiter. */
  lemma {:induction false} ExplodeImplode(d: char, parts: seq<string>)
    requires |parts| >= 1
    requires forall p :: p in parts ==> d !in p
    ensures Explode(d, Implode(d, parts)) == parts
  {
    if |parts| == 1 {
      ExplodeLiteral(d, parts[0]);
    } else {
      ExplodeImplode(d, parts[1..]);
      ExplodeAtFirstDelimiter(d, parts[0], Implode(d, parts[1..]));
      assert [parts[0]] + parts[1..] == parts;
    }
  }

  /** Decimal digits. */
  predicate IsDigit(c: char) {
    '0' <= c <= '9'
  }

  function DigitChar(n: nat): (c: char)
    requires n < 10
    ensures IsDigit(c)
  {
    (n + '0' as int) as char
  }

  function DigitValue(c: char): (n: nat)
    requires IsDigit(c)
    ensures n < 10 && DigitChar(n) == c
  {
    c as int - '0' as int
  }

  /** The decimal rendering of a natural number, as PHP interpolates it. */
  function NatToString(n: nat): (s: string)
    ensures s != [] && forall i :: 0 <= i < |s| ==> IsDigit(s[i])
  {
    if n < 10 then [DigitChar(n)] else NatToString(n / 10) + [DigitChar(n % 10)]
  }

  /** `"{$id}"` for a PHP int: an optional minus sign and the digits. */
  function IntToString(n: int): string {
    if n < 0 then "-" + NatToString(-n) else NatToString(n)
  }

  predicate AllDigits(s: string) {
    forall i :: 0 <= i < |s| ==> IsDigit(s[i])
  }

  function ParseNat(s: string): nat
    requires s != [] && AllDigits(s)
  {
    if |s| == 1 then DigitValue(s[0])
    else ParseNat(s[..|s| - 1]) * 10 + DigitValue(s[|s| - 1])
  }

  /** Reads a canonical decimal integer: an optional minus sign followed by at
      least one digit, and nothing else. */
  function ParseInt(s: string): Option<int> {
    if s != [] && s[0] == '-' then
      if |s| > 1 && AllDigits(s[1..]) then var m: int := ParseNat(s[1..]); Some(-m) else None
    else if s != [] && AllDigits(s) then Some(ParseNat(s))
    else None
  }

  lemma {:induction false} ParseNatToString(n: nat)
    ensures ParseNat(NatToString(n)) == n
  {
    if n >= 10 {
      var s := NatToString(n);
      var prefix := NatToString(n / 10);
      assert s[..|s| - 1] == prefix;
      ParseNatToString(n / 10);
    }
  }

  /** Reading back a rendered integer gives that integer. */
  lemma ParseIntToString(n: int)
    ensures ParseInt(IntToString(n)) == Some(n)
  {
    var s := IntToString(n);
    if n < 0 {
      var digits := NatToString(-n);
      assert s[0] == '-' && s[1..] == digits;
      assert AllDigits(digits);
      ParseNatToString(-n);
      assert ParseInt(s) == Some(0 - ParseNat(digits) as int);
    } else {
      assert IsDigit(s[0]);
      assert AllDigits(s);
      ParseNatToString(n);
    }
  }
}
