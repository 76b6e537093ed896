/** The slice of Python's built-in behaviour the run ledger relies on: an
    optional value, the exception kinds the pipeline tells apart, and the
    ASCII forms of `str.strip()`, `str.lower()` and `int(str)`. */
module Builtins {

  datatype Option<+T> = None | Some(value: T) {
    function GetOr(default: T): T {
      if Some? then value else default
    }
  }

  /** An exception raised by a unit of work; `message` is what `str(exc)` gives. */
  datatype Error =
    | FileNotFound(message: string)
    | JsonDecode(message: string)
    | Other(message: string)

  /** `str(exc)` */
  function Str(e: Error): string {
    e.message
  }

  /** What one call does: it returns a value or raises an exception. */
  datatype Outcome<+T> = Returned(value: T) | Raised(error: Error)


  // ---------------------------------------------------------------------
  // Trimming a set of characters from both ends

  /** Every character of `s` is one of `ws`. */
  predicate AllIn(s: string, ws: char -> bool) {
    forall i :: 0 <= i < |s| ==> ws(s[i])
  }

  /** A string that neither starts nor ends with one of `ws`. */
  predicate Trimmed(s: string, ws: char -> bool) {
    s == [] || (!ws(s[0]) && !ws(s[|s| - 1]))
  }

  /** Cut the leading characters of `ws`. */
  function TrimStart(s: string, ws: char -> bool): string {
    if |s| > 0 && ws(s[0]) then TrimStart(s[1..], ws) else s
  }

  /** Cut the trailing characters of `ws`. */
  function TrimEnd(s: string, ws: char -> bool): string {
    if |s| > 0 && ws(s[|s| - 1]) then TrimEnd(s[..|s| - 1], ws) else s
  }

  /** Cut the characters of `ws` from both ends. */
  function Trim(s: string, ws: char -> bool): string {
    TrimEnd(TrimStart(s, ws), ws)
  }

  /** `r` is `s` with a run of `ws` cut from its front and one from its
      back, and no character of `ws` left at either end. */
  ghost predicate CutFrom(r: string, s: string, ws: char -> bool) {
    exists i, j :: 0 <= i <= j <= |s| && r == s[i..j] && AllIn(s[..i], ws) && AllIn(s[j..], ws) && Trimmed(r, ws)
  }

  /** Cutting the front removes a run of `ws`, and all of it. */
  lemma {:induction false} TrimStartSpec(s: string, ws: char -> bool)
    ensures var r := TrimStart(s, ws);
      |r| <= |s| && r == s[|s| - |r|..] && AllIn(s[..|s| - |r|], ws) && (r == [] || !ws(r[0]))
    decreases |s|
  {
    if |s| > 0 && ws(s[0]) {
      TrimStartSpec(s[1..], ws);
      var r := TrimStart(s[1..], ws);
      assert s[1..][|s| - 1 - |r|..] == s[|s| - |r|..];
      assert forall i :: 1 <= i < |s| - |r| ==> s[i] == s[1..][..|s| - 1 - |r|][i - 1];
    }
  }

  /** Cutting the back removes a run of `ws`, and all of it. */
  lemma {:induction false} TrimEndSpec(s: string, ws: char -> bool)
    ensures var r := TrimEnd(s, ws);
      |r| <= |s| && r == s[..|r|] && AllIn(s[|r|..], ws) && (r == [] || !ws(r[|r| - 1]))
    decreases |s|
  {
    if |s| > 0 && ws(s[|s| - 1]) {
      TrimEndSpec(s[..|s| - 1], ws);
      var r := TrimEnd(s[..|s| - 1], ws);
      assert s[..|s| - 1][..|r|] == s[..|r|];
      assert forall i :: |r| <= i < |s| - 1 ==> s[i] == s[..|s| - 1][|r|..][i - |r|];
    }
  }

  /** Where trimming cuts `s`. */
  lemma TrimBounds(s: string, ws: char -> bool) returns (i: nat, j: nat)
    ensures i <= j <= |s| && Trim(s, ws) == s[i..j] && AllIn(s[..i], ws) && AllIn(s[j..], ws)
    ensures Trimmed(Trim(s, ws), ws)
  {
    var t := TrimStart(s, ws);
    var r := TrimEnd(t, ws);
    TrimStartSpec(s, ws);
    TrimEndSpec(t, ws);
    i := |s| - |t|;
    j := i + |r|;
    assert t == s[i..];
    assert r == s[i..j];
    assert s[j..] == t[|r|..];
    if r != [] {
      assert r[0] == t[0];
    }
  }

  lemma TrimShape(s: string, ws: char -> bool)
    ensures CutFrom(Trim(s, ws), s, ws)
  {
    var i, j := TrimBounds(s, ws);
  }

  /** There is only one way to cut runs of `ws` from both ends so that no
      character of `ws` is left at either end, and trimming finds it. */
  lemma TrimCharacterised(r: string, s: string, ws: char -> bool)
    ensures CutFrom(r, s, ws) <==> r == Trim(s, ws)
  {
    TrimShape(s, ws);
    if CutFrom(r, s, ws) {
      var i, j :| 0 <= i <= j <= |s| && r == s[i..j] && AllIn(s[..i], ws) && AllIn(s[j..], ws) && Trimmed(r, ws);
      CutIsTrim(r, s, ws, i, j);
    }
  }

  lemma CutIsTrim(r: string, s: string, ws: char -> bool, i: nat, j: nat)
    requires i <= j <= |s| && r == s[i..j] && AllIn(s[..i], ws) && AllIn(s[j..], ws) && Trimmed(r, ws)
    ensures r == Trim(s, ws)
  {
    var t := Trim(s, ws);
    var i', j' := TrimBounds(s, ws);
    if r == [] {
      CutAll(s, ws, i, j);
    } else if t == [] {
      CutAll(s, ws, i', j');
    } else {
      assert r[0] == s[i] && t[0] == s[i'];
      SameStart(s, ws, i, i');
      assert r[|r| - 1] == s[j - 1] && t[|t| - 1] == s[j' - 1];
      SameEnd(s, ws, j, j');
    }
  }

  /** Cutting a run from each end that leaves nothing means `s` is all `ws`. */
  lemma CutAll(s: string, ws: char -> bool, i: nat, j: nat)
    requires i == j <= |s| && AllIn(s[..i], ws) && AllIn(s[j..], ws)
    ensures AllIn(s, ws)
  {
    forall k | 0 <= k < |s| ensures ws(s[k]) {
      if k < i { assert s[..i][k] == s[k]; } else { assert s[j..][k - j] == s[k]; }
    }
  }

  /** The first character not in `ws` is at one position only. */
  lemma SameStart(s: string, ws: char -> bool, i: nat, i': nat)
    requires i < |s| && i' < |s| && AllIn(s[..i], ws) && AllIn(s[..i'], ws) && !ws(s[i]) && !ws(s[i'])
    ensures i == i'
  {
  }

  /** The last character not in `ws` is at one position only. */
  lemma SameEnd(s: string, ws: char -> bool, j: nat, j': nat)
    requires 0 < j <= |s| && 0 < j' <= |s| && AllIn(s[j..], ws) && AllIn(s[j'..], ws)
    requires !ws(s[j - 1]) && !ws(s[j' - 1])
    ensures j == j'
  {
  }

  lemma TrimOfTrimmed(s: string, ws: char -> bool)
    requires Trimmed(s, ws)
    ensures Trim(s, ws) == s
  {
  }

  /** Trimming removes exactly the padding around a trimmed string. */
  lemma TrimPadded(before: string, body: string, after: string, ws: char -> bool)
    requires AllIn(before, ws) && AllIn(after, ws) && Trimmed(body, ws) && body != []
    ensures Trim(before + body + after, ws) == body
  {
    TrimStartPadded(before, body + after, ws);
    assert before + body + after == before + (body + after);
    TrimEndPadded(body, after, ws);
  }

  lemma {:induction false} TrimStartPadded(before: string, rest: string, ws: char -> bool)
    requires AllIn(before, ws) && rest != [] && !ws(rest[0])
    ensures TrimStart(before + rest, ws) == rest
    decreases |before|
  {
    if before != [] {
      assert (before + rest)[1..] == before[1..] + rest;
      TrimStartPadded(before[1..], rest, ws);
    }
  }

  lemma {:induction false} TrimEndPadded(rest: string, after: string, ws: char -> bool)
    requires AllIn(after, ws) && rest != [] && !ws(rest[|rest| - 1])
    ensures TrimEnd(rest + after, ws) == rest
    decreases |after|
  {
    if after != [] {
      assert (rest + after)[..|rest + after| - 1] == rest + after[..|after| - 1];
      TrimEndPadded(rest, after[..|after| - 1], ws);
    }
  }

  // ---------------------------------------------------------------------
  // Whitespace and `str.strip()`

  /** `c.isspace()` for ASCII: tab, line feed, vertical tab, form feed,
      carriage return, the four information separators and space. */
  predicate IsSpace(c: char) {
    9 <= c as int <= 13 || 28 <= c as int <= 32
  }

  predicate AllSpace(s: string) {
    AllIn(s, IsSpace)
  }

  /** A string that `strip()` leaves as it is. */
  predicate NoOuterSpace(s: string) {
    Trimmed(s, IsSpace)
  }

  /** `s.strip()` */
  function Strip(s: string): string {
    Trim(s, IsSpace)
  }

  /** `r` is `s` with its leading and trailing whitespace cut. */
  ghost predicate StrippedFrom(r: string, s: string) {
    CutFrom(r, s, IsSpace)
  }

  /** `strip()` returns the infix of `s` left once whitespace is cut from
      both ends, and nothing else does. */
  lemma StripCharacterised(r: string, s: string)
    ensures StrippedFrom(r, s) <==> r == Strip(s)
  {
    TrimCharacterised(r, s, IsSpace);
  }

  lemma StripShape(s: string)
    ensures StrippedFrom(Strip(s), s)
  {
    TrimShape(s, IsSpace);
  }

  lemma StripOfStripped(s: string)
    requires NoOuterSpace(s)
    ensures Strip(s) == s
  {
  }

  lemma StripIdempotent(s: string)
    ensures Strip(Strip(s)) == Strip(s)
  {
    StripShape(s);
    StripOfStripped(Strip(s));
  }

  /** A string that is all whitespace strips to the empty string, and no
      other string does. */
  lemma StripEmptyIffAllSpace(s: string)
    ensures Strip(s) == [] <==> AllSpace(s)
  {
    StripShape(s);
    if Strip(s) == [] {
      var i, j :| 0 <= i <= j <= |s| && Strip(s) == s[i..j] && AllSpace(s[..i]) && AllSpace(s[j..]);
      assert s == s[..i] + s[i..j] + s[j..];
    }
  }

  // ---------------------------------------------------------------------
  // `str.lower()`

  function LowerChar(c: char): char {
    if 'A' <= c <= 'Z' then (c as int + 32) as char else c
  }

  /** `s.lower()` on ASCII letters; every other character is kept. */
  function Lower(s: string): string {
    seq(|s|, i requires 0 <= i < |s| => LowerChar(s[i]))
  }

  /** Lower-casing leaves no upper-case ASCII letter and changes nothing else. */
  lemma LowerSpec(s: string)
    ensures |Lower(s)| == |s|
    ensures forall i :: 0 <= i < |s| ==> !('A' <= Lower(s)[i] <= 'Z')
    ensures forall i :: 0 <= i < |s| && !('A' <= s[i] <= 'Z') ==> Lower(s)[i] == s[i]
  {
  }

  lemma LowerIdempotent(s: string)
    ensures Lower(Lower(s)) == Lower(s)
  {
  }

  /** Lower-casing maps whitespace to whitespace and nothing else to it, so
      it commutes with stripping. */
  lemma {:induction false} StripLowerCommute(s: string)
    ensures Strip(Lower(s)) == Lower(Strip(s))
  {
    TrimStartLower(s);
    TrimEndLower(TrimStart(s, IsSpace));
  }

  lemma {:induction false} TrimStartLower(s: string)
    ensures TrimStart(Lower(s), IsSpace) == Lower(TrimStart(s, IsSpace))
    decreases |s|
  {
    if |s| > 0 {
      assert Lower(s)[0] == LowerChar(s[0]);
      if IsSpace(s[0]) {
        assert Lower(s)[1..] == Lower(s[1..]);
        TrimStartLower(s[1..]);
      }
    }
  }

  lemma {:induction false} TrimEndLower(s: string)
    ensures TrimEnd(Lower(s), IsSpace) == Lower(TrimEnd(s, IsSpace))
    decreases |s|
  {
    if |s| > 0 {
      assert Lower(s)[|s| - 1] == LowerChar(s[|s| - 1]);
      if IsSpace(s[|s| - 1]) {
        assert Lower(s)[..|s| - 1] == Lower(s[..|s| - 1]);
        TrimEndLower(s[..|s| - 1]);
      }
    }
  }

  // ---------------------------------------------------------------------
  // `int(str)`

  /** The whitespace `int()` skips around a numeral: tab, line feed,
      vertical tab, form feed, carriage return and space. Unlike
      `str.isspace()` it does not take in the information separators. */
  predicate IsIntSpace(c: char) {
    9 <= c as int <= 13 || c == ' '
  }

  /** The default of `sys.get_int_max_str_digits()`: `int()` refuses a
      decimal numeral of more digits. */
  const MaxStrDigits := 4300

  predicate IsDigit(c: char) {
    '0' <= c <= '9'
  }

  predicate AllDigits(d: string) {
    forall i :: 0 <= i < |d| ==> IsDigit(d[i])
  }

  /** The body of a decimal numeral: ASCII digits, with single underscores
      allowed between two digits. */
  predicate IsNumeral(d: string) {
    && |d| >= 1 && IsDigit(d[0]) && IsDigit(d[|d| - 1])
    && (forall i :: 0 <= i < |d| ==> IsDigit(d[i]) || d[i] == '_')
    && (forall i, j :: 0 <= i < |d| && 0 <= j < |d| && j == i + 1 ==> d[i] != '_' || d[j] != '_')
  }

  /** The digits of `d`, in order, without the underscores. */
  function DigitsOf(d: string): (r: string)
    ensures AllDigits(r) && |r| <= |d|
  {
    if d == [] then []
    else DigitsOf(d[..|d| - 1]) + (if IsDigit(d[|d| - 1]) then [d[|d| - 1]] else [])
  }

  /** The value of a string of decimal digits, most significant first. */
  function DigitsValue(d: string): nat
    requires AllDigits(d)
  {
    if |d| == 0 then 0 else DigitsValue(d[..|d| - 1]) * 10 + (d[|d| - 1] as int - '0' as int)
  }

  /** `int(s)` for a string: surrounding whitespace, then an optional sign
      immediately followed by a numeral of at most `MaxStrDigits` digits;
      anything else is a `ValueError`, modelled as `None`. */
  function ParseInt(s: string): Option<int> {
    ParseSigned(Trim(s, IsIntSpace))
  }

  /** The text of an integer once `int()` has skipped the whitespace: an
      optional sign, then the numeral. */
  function ParseSigned(t: string): Option<int> {
    if |t| >= 1 && t[0] == '-' then
      match ParseNumeral(t[1..])
      case None => None
      case Some(v) => Some(-(v as int))
    else if |t| >= 1 && t[0] == '+' then ParseNumeral(t[1..])
    else ParseNumeral(t)
  }

  /** The value of a numeral of at most `MaxStrDigits` digits. */
  function ParseNumeral(d: string): Option<nat> {
    if IsNumeral(d) && |DigitsOf(d)| <= MaxStrDigits then Some(DigitsValue(DigitsOf(d))) else None
  }

  /** `str(n)` for a non-negative integer: its decimal digits. */
  function ShowNat(n: nat): (r: string)
    ensures |r| >= 1 && AllDigits(r)
  {
    if n < 10 then ['0' + n as char]
    else ShowNat(n / 10) + ['0' + (n % 10) as char]
  }

  /** `str(n)` for any integer. */
  function ShowInt(n: int): string {
    if n < 0 then "-" + ShowNat(-n) else ShowNat(n)
  }

  lemma {:induction false} ShowNatValue(n: nat)
    ensures DigitsValue(ShowNat(n)) == n
    decreases n
  {
    var d := ShowNat(n);
    if n >= 10 {
      ShowNatValue(n / 10);
      assert d[..|d| - 1] == ShowNat(n / 10);
    }
  }

  /** A string of digits is a numeral, and is its own digits. */
  lemma {:induction false} DigitsOfDigits(d: string)
    requires AllDigits(d)
    ensures DigitsOf(d) == d
    decreases |d|
  {
    if d != [] {
      DigitsOfDigits(d[..|d| - 1]);
      assert d[..|d| - 1] + [d[|d| - 1]] == d;
    }
  }

  /** `int()` reads back what `str()` wrote, whatever whitespace of its own
      surrounds it, as long as it has no more digits than `int()` accepts. */
  lemma ParseShowRoundTrip(n: int, before: string, after: string)
    requires AllIn(before, IsIntSpace) && AllIn(after, IsIntSpace)
    requires |ShowNat(if n < 0 then -n else n)| <= MaxStrDigits
    ensures ParseInt(before + ShowInt(n) + after) == Some(n)
  {
    var d := ShowNat(if n < 0 then -n else n);
    assert Trimmed(ShowInt(n), IsIntSpace) by {
      assert IsDigit(d[|d| - 1]);
      if n >= 0 { assert IsDigit(d[0]); }
    }
    TrimPadded(before, ShowInt(n), after, IsIntSpace);
    ParseSignedShow(n);
  }

  lemma ParseSignedShow(n: int)
    requires |ShowNat(if n < 0 then -n else n)| <= MaxStrDigits
    ensures ParseSigned(ShowInt(n)) == Some(n)
  {
    var m: nat := if n < 0 then -n else n;
    var d := ShowNat(m);
    ParseShowNat(m);
    if n < 0 {
      assert ShowInt(n)[0] == '-' && ShowInt(n)[1..] == d;
      ParseMinus(ShowInt(n), d, m);
    } else {
      assert IsDigit(d[0]);
      ParsePlain(d, m);
    }
  }

  lemma ParseShowNat(m: nat)
    requires |ShowNat(m)| <= MaxStrDigits
    ensures ParseNumeral(ShowNat(m)) == Some(m)
  {
    ShowNatValue(m);
    ParseDigits(ShowNat(m));
  }

  lemma ParseDigits(d: string)
    requires AllDigits(d) && 1 <= |d| <= MaxStrDigits
    ensures ParseNumeral(d) == Some(DigitsValue(d))
  {
    DigitsAreNumeral(d);
  }

  lemma ParsePlain(t: string, v: nat)
    requires |t| >= 1 && IsDigit(t[0]) && ParseNumeral(t) == Some(v)
    ensures ParseSigned(t) == Some(v)
  {
  }

  lemma ParseMinus(t: string, d: string, v: nat)
    requires |t| >= 1 && t[0] == '-' && t[1..] == d && ParseNumeral(d) == Some(v)
    ensures ParseSigned(t) == Some(-(v as int))
  {
  }

  /** A non-empty string of digits is a numeral, and is its own digits. */
  lemma DigitsAreNumeral(d: string)
    requires AllDigits(d) && |d| >= 1
    ensures IsNumeral(d) && DigitsOf(d) == d
  {
    DigitsOfDigits(d);
  }

  /** An information separator is whitespace to `strip()` but not to
      `int()`: a numeral after one is not an integer. */
  lemma ParseIntRejectsSeparator(c: char, rest: string)
    requires 28 <= c as int <= 31
    ensures IsSpace(c) && !IsIntSpace(c)
    ensures ParseInt([c] + rest) == None
  {
    var s := [c] + rest;
    assert TrimStart(s, IsIntSpace) == s;
    TrimEndSpec(s, IsIntSpace);
    var t := Trim(s, IsIntSpace);
    assert t != [];
    assert t[0] == s[0];
  }

  /** A numeral of more digits than `MaxStrDigits` is refused, whatever
      its value. */
  lemma ParseIntDigitLimit(d: string)
    requires AllDigits(d) && |d| > MaxStrDigits
    ensures ParseInt(d) == None
  {
    assert Trimmed(d, IsIntSpace) by { assert IsDigit(d[0]) && IsDigit(d[|d| - 1]); }
    TrimOfTrimmed(d, IsIntSpace);
    DigitsAreNumeral(d);
    assert d[0] != '+' && d[0] != '-' by { assert IsDigit(d[0]); }
  }

  // ---------------------------------------------------------------------
  // `pathlib.PurePosixPath`

  /** A parsed POSIX path: its root ("", "/" or "//") and its parts. */
  datatype PosixPath = PosixPath(root: string, parts: seq<string>)

  /** The position of the first separator in `s`. */
  function FirstSlash(s: string): (i: nat)
    requires '/' in s
    ensures i < |s| && s[i] == '/' && '/' !in s[..i]
  {
    if s[0] == '/' then 0
    else
      var j := FirstSlash(s[1..]);
      assert s[..j + 1] == [s[0]] + s[1..][..j];
      j + 1
  }

  /** `s.split("/")` */
  function SplitSlash(s: string): (r: seq<string>)
    ensures |r| >= 1
    decreases |s|
  {
    if '/' in s then
      var i := FirstSlash(s);
      [s[..i]] + SplitSlash(s[i + 1..])
    else [s]
  }

  /** The parts a path keeps: the empty ones, left by a repeated or a
      trailing separator, and "." are dropped. */
  function KeptParts(segments: seq<string>): seq<string> {
    if segments == [] then []
    else (if segments[0] == "" || segments[0] == "." then [] else [segments[0]]) + KeptParts(segments[1..])
  }

  /** `PurePosixPath(s)`: exactly two leading slashes are kept as the root
      "//", one or more than two give the root "/". */
  function ParsePath(s: string): PosixPath {
    var root :=
      if |s| >= 2 && s[0] == '/' && s[1] == '/' && (|s| == 2 || s[2] != '/') then "//"
      else if |s| >= 1 && s[0] == '/' then "/"
      else "";
    PosixPath(root, KeptParts(SplitSlash(s)))
  }

  /** `p / s`: an absolute `s` replaces `p`. */
  function JoinPath(p: PosixPath, s: string): PosixPath {
    var q := ParsePath(s);
    if q.root != "" then q else PosixPath(p.root, p.parts + q.parts)
  }

  /** `"/".join(parts)` */
  function JoinSlash(parts: seq<string>): string {
    if parts == [] then ""
    else if |parts| == 1 then parts[0]
    else JoinSlash(parts[..|parts| - 1]) + "/" + parts[|parts| - 1]
  }

  /** `str(p)`: "." for the empty relative path. */
  function PathText(p: PosixPath): string {
    if p.root == "" && p.parts == [] then "." else p.root + JoinSlash(p.parts)
  }

  /** A string without a separator is one segment. */
  lemma SplitSlashFree(s: string)
    requires '/' !in s
    ensures SplitSlash(s) == [s]
  {
  }

  /** Splitting at the first separator splits the two sides apart. */
  lemma SplitSlashAt(a: string, b: string)
    requires '/' !in a
    ensures SplitSlash(a + "/" + b) == [a] + SplitSlash(b)
  {
    var s := a + "/" + b;
    FirstSlashAfter(a, b);
    assert s[..|a|] == a && s[|a| + 1..] == b;
  }

  lemma {:induction false} FirstSlashAfter(a: string, b: string)
    requires '/' !in a
    ensures '/' in a + "/" + b && FirstSlash(a + "/" + b) == |a|
    decreases |a|
  {
    var s := a + "/" + b;
    assert s[|a|] == '/';
    if a != [] {
      assert s[0] == a[0] && s[1..] == a[1..] + "/" + b;
      FirstSlashAfter(a[1..], b);
    }
  }

  lemma {:induction false} KeptPartsAppend(x: seq<string>, y: seq<string>)
    ensures KeptParts(x + y) == KeptParts(x) + KeptParts(y)
    decreases |x|
  {
    if x != [] {
      assert (x + y)[1..] == x[1..] + y;
      KeptPartsAppend(x[1..], y);
    } else {
      assert x + y == y;
    }
  }

  /** A part name: no separator, and neither "" nor ".". */
  predicate IsName(name: string) {
    '/' !in name && name != "" && name != "."
  }

  /** A name parses to a relative path of that one part. */
  lemma ParseName(name: string)
    requires IsName(name)
    ensures ParsePath(name) == PosixPath("", [name])
  {
    SplitSlashFree(name);
    assert name[0] in name;
    assert KeptParts([name]) == [name] + KeptParts([]);
  }

  /** Joining a name adds it as the last part. */
  lemma JoinName(p: PosixPath, name: string)
    requires IsName(name)
    ensures JoinPath(p, name) == PosixPath(p.root, p.parts + [name])
  {
    ParseName(name);
  }

  /** The text of a path with one more part. */
  lemma PathTextAppend(p: PosixPath, name: string)
    requires p.parts != []
    ensures PathText(PosixPath(p.root, p.parts + [name])) == PathText(p) + "/" + name
  {
    var parts := p.parts + [name];
    assert parts[..|parts| - 1] == p.parts;
  }

  /** "a/b", "a//b" and "a/./b" parse to the same relative path of the two
      parts `a` and `b`. */
  lemma ParseTwoNames(a: string, b: string)
    requires IsName(a) && IsName(b)
    ensures ParsePath(a + "/" + b) == PosixPath("", [a, b])
    ensures ParsePath(a + "//" + b) == PosixPath("", [a, b])
    ensures ParsePath(a + "/./" + b) == PosixPath("", [a, b])
  {
    ParseSlashed(a, b);
    ParseSkipped(a, "", b);
    assert a + "//" + b == a + "/" + ("" + "/" + b);
    ParseSkipped(a, ".", b);
    assert a + "/./" + b == a + "/" + ("." + "/" + b);
  }

  lemma ParseSlashed(a: string, b: string)
    requires IsName(a) && IsName(b)
    ensures ParsePath(a + "/" + b) == PosixPath("", [a, b])
  {
    assert a[0] in a;
    SplitSlashAt(a, b);
    KeptNames(a, b);
    assert (a + "/" + b)[0] == a[0];
  }

  /** A part "" or "." between two names is dropped. */
  lemma ParseSkipped(a: string, skipped: string, b: string)
    requires IsName(a) && IsName(b) && (skipped == "" || skipped == ".")
    ensures ParsePath(a + "/" + (skipped + "/" + b)) == PosixPath("", [a, b])
  {
    assert a[0] in a;
    SplitSlashAt(skipped, b);
    SplitSlashAt(a, skipped + "/" + b);
    assert SplitSlash(a + "/" + (skipped + "/" + b)) == [a, skipped, b];
    KeptNames(a, b);
    assert [a, skipped, b][1..] == [skipped, b] && [skipped, b][1..] == [b];
    assert KeptParts([a, skipped, b]) == [a] + KeptParts([skipped, b]);
    assert KeptParts([skipped, b]) == KeptParts([b]);
    assert (a + "/" + (skipped + "/" + b))[0] == a[0];
  }

  lemma KeptNames(a: string, b: string)
    requires IsName(a) && IsName(b)
    ensures KeptParts([b]) == [b] && KeptParts([a, b]) == [a, b]
  {
    assert [a, b][1..] == [b] && [b][1..] == [];
    assert KeptParts([b]) == [b] + KeptParts([]);
    assert KeptParts([a, b]) == [a] + KeptParts([b]);
  }
}
