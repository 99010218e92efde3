/** Small string and option helpers shared by the server, the client, the
    configuration loader and the importer. Strings are sequences of
    characters; byte strings (PHP) and UTF-16 strings (JavaScript) are both
    modelled as plain sequences. */
module Text {

  datatype Option<+T> = None | Some(value: T)

  function Min(a: int, b: int): int { if a <= b then a else b }

  function Max(a: int, b: int): int { if a <= b then b else a }

  /** PHP's `empty()` on a string: the empty string and "0" are empty. */
  predicate PhpEmpty(s: string) { s == "" || s == "0" }

  /** The characters PHP's `trim` removes by default. */
  const PhpWhitespace: set<char> := {' ', '\t', '\n', '\r', '\0', '\U{000B}'}

  /** The 29 characters Python's `str.strip()` removes (`str.isspace()`). */
  const PythonWhitespace: set<char> :=
    {' ', '\t', '\n', '\r', '\U{000B}', '\U{000C}', '\U{001C}', '\U{001D}',
     '\U{001E}', '\U{001F}', '\U{0085}', '\U{00A0}', '\U{1680}',
     '\U{2000}', '\U{2001}', '\U{2002}', '\U{2003}', '\U{2004}', '\U{2005}',
     '\U{2006}', '\U{2007}', '\U{2008}', '\U{2009}', '\U{200A}',
     '\U{2028}', '\U{2029}', '\U{202F}', '\U{205F}', '\U{3000}'}

  /** Drops the leading characters that belong to `ws`. */
  function TrimStart(s: string, ws: set<char>): string
  {
    if s != [] && s[0] in ws then TrimStart(s[1..], ws) else s
  }

  lemma {:induction false} TrimStartSpec(s: string, ws: set<char>)
    ensures var r := TrimStart(s, ws);
      && |r| <= |s| && r == s[|s| - |r|..]
      && (r == [] || r[0] !in ws)
      && (forall i :: 0 <= i < |s| - |r| ==> s[i] in ws)
  {
    if s != [] && s[0] in ws {
      TrimStartSpec(s[1..], ws);
      var r := TrimStart(s, ws);
      forall i | 0 <= i < |s| - |r| ensures s[i] in ws {
        if i > 0 { assert s[i] == s[1..][i - 1]; }
      }
    }
  }

  /** Drops the trailing characters that belong to `ws`. */
  function TrimEnd(s: string, ws: set<char>): string
  {
    if s != [] && s[|s| - 1] in ws then TrimEnd(s[..|s| - 1], ws) else s
  }

  lemma {:induction false} TrimEndSpec(s: string, ws: set<char>)
    ensures var r := TrimEnd(s, ws);
      && |r| <= |s| && r == s[..|r|]
      && (r == [] || r[|r| - 1] !in ws)
      && (forall i :: |r| <= i < |s| ==> s[i] in ws)
  {
    if s != [] && s[|s| - 1] in ws {
      TrimEndSpec(s[..|s| - 1], ws);
    }
  }

  /** Removes the characters of `ws` from both ends. */
  function Trim(s: string, ws: set<char>): (r: string)
    ensures |r| <= |s|
    ensures r == [] || (r[0] !in ws && r[|r| - 1] !in ws)
  {
    TrimStartSpec(s, ws);
    TrimEndSpec(TrimStart(s, ws), ws);
    TrimEnd(TrimStart(s, ws), ws)
  }

  /** How many characters `Trim` cuts from the front. */
  function TrimOffset(s: string, ws: set<char>): nat
  {
    TrimStartSpec(s, ws);
    |s| - |TrimStart(s, ws)|
  }

  /** The trimmed text is the part of `s` that starts at `TrimOffset(s, ws)`;
      it neither starts nor ends with a character of `ws`, everything cut
      off belongs to `ws`, and it is empty exactly when all of `s` does. */
  lemma TrimSpec(s: string, ws: set<char>)
    ensures var r := Trim(s, ws); var k := TrimOffset(s, ws);
      && k + |r| <= |s|
      && r == s[k..k + |r|]
      && (r == [] || (r[0] !in ws && r[|r| - 1] !in ws))
      && (forall i :: 0 <= i < k ==> s[i] in ws)
      && (forall i :: k + |r| <= i < |s| ==> s[i] in ws)
      && (r == [] <==> forall i :: 0 <= i < |s| ==> s[i] in ws)
  {
    var t := TrimStart(s, ws);
    TrimStartSpec(s, ws);
    TrimEndSpec(t, ws);
    var r := Trim(s, ws);
    var k := |s| - |t|;
    assert r == t[..|r|];
    assert t == s[k..];
    forall i | k + |r| <= i < |s| ensures s[i] in ws {
      assert s[i] == t[i - k];
    }
    if r != [] {
      assert r[0] == t[0];
    }
  }

  lemma TrimIdempotent(s: string, ws: set<char>)
    ensures Trim(Trim(s, ws), ws) == Trim(s, ws)
  {
    var r := Trim(s, ws);
    TrimSpec(s, ws);
    if r != [] {
      assert TrimStart(r, ws) == r;
      assert TrimEnd(r, ws) == r;
    }
  }

  /** The first `n` elements, or all of them when there are fewer. */
  function Take<T>(s: seq<T>, n: nat): (r: seq<T>)
    ensures |r| == Min(n, |s|)
    ensures r <= s
  {
    if |s| <= n then s else s[..n]
  }

  lemma TakeCons<T>(x: T, s: seq<T>, n: nat)
    requires n > 0
    ensures Take([x] + s, n) == [x] + Take(s, n - 1)
  {
  }

  /** A prefix holds nothing more often than the whole. */
  lemma TakeMultiset<T>(s: seq<T>, n: nat)
    ensures multiset(Take(s, n)) <= multiset(s)
  {
    var t := Take(s, n);
    assert s == t + s[|t|..];
  }

  const PreviewLength: nat := 100

  /** `substr(d, 0, 100) . '...'` in PHP and `d.substring(0, 100) + '...'`
      in JavaScript: at most the first 100 units, then the ellipsis, which is
      appended whether or not anything was cut. */
  function Preview(d: string): (r: string)
    ensures |r| == Min(|d|, PreviewLength) + 3
    ensures r[..|r| - 3] <= d
    ensures r[|r| - 3..] == "..."
  {
    Take(d, PreviewLength) + "..."
  }

  lemma PreviewOfShortText(d: string)
    requires |d| <= PreviewLength
    ensures Preview(d) == d + "..."
  {
  }

  /** Character code order extended lexicographically to strings: the order
      ORDER BY uses once collation is abstracted to exact comparison. */
  predicate LexLe(a: string, b: string)
  {
    a == [] || (b != [] && (a[0] < b[0] || (a[0] == b[0] && LexLe(a[1..], b[1..]))))
  }

  lemma {:induction false} LexLeTotal(a: string, b: string)
    ensures LexLe(a, b) || LexLe(b, a)
  {
    if a != [] && b != [] && a[0] == b[0] {
      LexLeTotal(a[1..], b[1..]);
    }
  }

  lemma {:induction false} LexLeTransitive(a: string, b: string, c: string)
    requires LexLe(a, b) && LexLe(b, c)
    ensures LexLe(a, c)
  {
    if a != [] && b != [] && c != [] && a[0] == b[0] && b[0] == c[0] {
      LexLeTransitive(a[1..], b[1..], c[1..]);
    }
  }

  lemma {:induction false} LexLeAntisymmetric(a: string, b: string)
    requires LexLe(a, b) && LexLe(b, a)
    ensures a == b
  {
    if a != [] && b != [] {
      LexLeAntisymmetric(a[1..], b[1..]);
      assert a == [a[0]] + a[1..];
      assert b == [b[0]] + b[1..];
    }
  }

  /** A prefix sorts no later than the strings it begins. */
  lemma {:induction false} PrefixLexLe(a: string, b: string)
    requires a <= b
    ensures LexLe(a, b)
  {
    if a != [] {
      assert a[1..] <= b[1..];
      PrefixLexLe(a[1..], b[1..]);
    }
  }

  function DigitChar(d: nat): (c: char)
    requires d < 10
    ensures '0' <= c <= '9' && c as int - '0' as int == d
  {
    "0123456789"[d]
  }

  /** The decimal digits of `n`, without leading zeros. */
  function NatToString(n: nat): (r: string)
    ensures r != []
    ensures forall i :: 0 <= i < |r| ==> '0' <= r[i] <= '9'
    ensures |r| > 1 ==> r[0] != '0'
    decreases n
  {
    if n < 10 then [DigitChar(n)] else NatToString(n / 10) + [DigitChar(n % 10)]
  }

  /** The value of a string of decimal digits. */
  function DecimalValue(s: string): nat
    requires forall i :: 0 <= i < |s| ==> '0' <= s[i] <= '9'
  {
    if s == [] then 0 else 10 * DecimalValue(s[..|s| - 1]) + (s[|s| - 1] as int - '0' as int)
  }

  lemma {:induction false} NatToStringRoundTrip(n: nat)
    ensures DecimalValue(NatToString(n)) == n
    decreases n
  {
    if n >= 10 {
      var r := NatToString(n);
      assert r[..|r| - 1] == NatToString(n / 10);
      NatToStringRoundTrip(n / 10);
    }
  }

  /** ASCII lower-casing; other characters are kept. */
  function AsciiLower(s: string): (r: string)
    ensures |r| == |s|
    ensures forall i :: 0 <= i < |s| ==> r[i] == LowerChar(s[i])
  {
    if s == [] then [] else AsciiLower(s[..|s| - 1]) + [LowerChar(s[|s| - 1])]
  }

  function LowerChar(c: char): (d: char)
    ensures 'A' <= c <= 'Z' ==> d as int == c as int + 32
    ensures !('A' <= c <= 'Z') ==> d == c
  {
    if 'A' <= c <= 'Z' then (c as int + 32) as char else c
  }

  lemma LowerCharIs(c: char, lower: char, upper: char)
    requires 'a' <= lower <= 'z' && upper as int == lower as int - 32
    ensures LowerChar(c) == lower <==> c == lower || c == upper
  {
  }

  lemma IsYes(r: string)
    ensures r == "yes" <==> |r| == 3 && r[0] == 'y' && r[1] == 'e' && r[2] == 's'
  {
    if |r| == 3 && r[0] == 'y' && r[1] == 'e' && r[2] == 's' {
      assert r == [r[0], r[1], r[2]];
    }
  }

  /** Exactly the three-letter spellings of "yes" in any ASCII case lower to "yes". */
  lemma LowerIsYes(s: string)
    ensures AsciiLower(s) == "yes" <==>
      (|s| == 3 && (s[0] == 'y' || s[0] == 'Y') && (s[1] == 'e' || s[1] == 'E') && (s[2] == 's' || s[2] == 'S'))
  {
    IsYes(AsciiLower(s));
    if |s| == 3 {
      LowerCharIs(s[0], 'y', 'Y');
      LowerCharIs(s[1], 'e', 'E');
      LowerCharIs(s[2], 's', 'S');
    }
  }
}
