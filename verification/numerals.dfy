/**
 * The result-count parser: the first whitespace-separated token of the
 * results summary, with every comma deleted, read as a decimal integer the
 * way Python's int() reads a string. Also the decimal formatting of whole
 * numbers (plain, and grouped by thousands as the search service displays a
 * count), used to state the parser's round trip.
 */
module Numerals {
  import opened Wrappers

  // ---------------------------------------------------------------------
  // Tokenising: str.split() with no separator
  // ---------------------------------------------------------------------

  /** The characters Python's str.split() treats as separators (str.isspace). */
  predicate IsSpace(c: char)
    ensures c == ' ' || c == '\t' || c == '\n' || c == '\r' || c == '\U{A0}' ==> IsSpace(c)
    ensures IsSpace(c) ==> !IsDigit(c) && c != ','
  {
    var n := c as int;
    (9 <= n <= 13) || (28 <= n <= 32) || n == 0x85 || n == 0xA0 || n == 0x1680 ||
    (0x2000 <= n <= 0x200A) || n == 0x2028 || n == 0x2029 || n == 0x202F ||
    n == 0x205F || n == 0x3000
  }

  predicate AllSpace(s: string) {
    forall k :: 0 <= k < |s| ==> IsSpace(s[k])
  }

  predicate NoSpace(s: string) {
    forall k :: 0 <= k < |s| ==> !IsSpace(s[k])
  }

  /** Whether `s` is empty or begins at a separator: where a token ends. */
  predicate EndsToken(s: string) {
    s == [] || IsSpace(s[0])
  }

  /** The longest prefix of `s` that holds no separator. */
  function TokenPrefix(s: string): (t: string)
    ensures |t| <= |s| && t == s[..|t|]
    ensures NoSpace(t) && EndsToken(s[|t|..])
  {
    if s == [] || IsSpace(s[0]) then [] else [s[0]] + TokenPrefix(s[1..])
  }

  /**
   * The first element of s.split(): None when `s` holds only separators
   * (indexing [0] of the empty split then fails).
   */
  function FirstToken(s: string): (r: Option<string>)
    ensures r.None? <==> AllSpace(s)
    ensures r.Some? ==> r.value != [] && NoSpace(r.value)
  {
    if s == [] then None
    else if IsSpace(s[0]) then FirstToken(s[1..])
    else Some(TokenPrefix(s))
  }

  lemma {:induction false} LemmaTokenPrefixOf(t: string, rest: string)
    requires NoSpace(t) && EndsToken(rest)
    ensures TokenPrefix(t + rest) == t
  {
    if t != [] {
      assert (t + rest)[1..] == t[1..] + rest;
      LemmaTokenPrefixOf(t[1..], rest);
    } else {
      assert t + rest == rest;
    }
  }

  /**
   * Whatever separators precede it and whatever follows a separator after
   * it, a token is what FirstToken returns.
   */
  lemma {:induction false} LemmaFirstTokenOf(ws: string, t: string, rest: string)
    requires AllSpace(ws) && t != [] && NoSpace(t) && EndsToken(rest)
    ensures FirstToken(ws + t + rest) == Some(t)
  {
    if ws == [] {
      assert ws + t + rest == t + rest;
      LemmaTokenPrefixOf(t, rest);
    } else {
      assert (ws + t + rest)[1..] == ws[1..] + t + rest;
      LemmaFirstTokenOf(ws[1..], t, rest);
    }
  }

  // ---------------------------------------------------------------------
  // .replace(",", "")
  // ---------------------------------------------------------------------

  /** `s` with every comma deleted and every other character kept in order. */
  function DeleteCommas(s: string): (r: string)
    ensures ',' !in r
    ensures |r| <= |s|
    ensures forall c :: c != ',' ==> multiset(r)[c] == multiset(s)[c]
  {
    if s == [] then []
    else if s[0] == ',' then
      assert s == [s[0]] + s[1..];
      DeleteCommas(s[1..])
    else
      assert s == [s[0]] + s[1..];
      [s[0]] + DeleteCommas(s[1..])
  }

  lemma {:induction false} LemmaDeleteCommasAppend(a: string, b: string)
    ensures DeleteCommas(a + b) == DeleteCommas(a) + DeleteCommas(b)
  {
    if a != [] {
      assert (a + b)[1..] == a[1..] + b;
      LemmaDeleteCommasAppend(a[1..], b);
    } else {
      assert a + b == b;
    }
  }

  lemma {:induction false} LemmaDeleteCommasNone(s: string)
    requires ',' !in s
    ensures DeleteCommas(s) == s
  {
    if s != [] {
      assert s[0] != ',';
      LemmaDeleteCommasNone(s[1..]);
      assert s == [s[0]] + s[1..];
    }
  }

  // ---------------------------------------------------------------------
  // int(): Python's base-10 integer literal syntax
  // ---------------------------------------------------------------------

  predicate IsDigit(c: char) {
    '0' <= c <= '9'
  }

  function DigitValue(c: char): (d: nat)
    requires IsDigit(c)
    ensures d < 10
  {
    (c as int) - ('0' as int)
  }

  function DigitChar(d: nat): (c: char)
    requires d < 10
    ensures IsDigit(c) && DigitValue(c) == d
  {
    (('0' as int) + d) as char
  }

  predicate AllDigits(s: string) {
    forall k :: 0 <= k < |s| ==> IsDigit(s[k])
  }

  /**
   * Digits in which single underscores may separate two digits: no leading,
   * trailing or doubled underscore.
   */
  predicate DigitGroups(s: string) {
    && s != []
    && IsDigit(s[0]) && IsDigit(s[|s| - 1])
    && (forall k :: 0 <= k < |s| ==> IsDigit(s[k]) || s[k] == '_')
    && (forall k :: 0 <= k < |s| - 1 ==> !(s[k] == '_' && s[k + 1] == '_'))
  }

  /** `s` with the underscores removed. */
  function DeleteUnderscores(s: string): (r: string)
    ensures |r| <= |s|
    ensures (forall k :: 0 <= k < |s| ==> IsDigit(s[k]) || s[k] == '_') ==> AllDigits(r)
    ensures '_' !in s ==> r == s
  {
    if s == [] then []
    else if s[0] == '_' then DeleteUnderscores(s[1..])
    else
      assert s == [s[0]] + s[1..];
      [s[0]] + DeleteUnderscores(s[1..])
  }

  /** The value of a string of decimal digits, most significant first. */
  function DigitsValue(s: string): (v: nat)
    requires AllDigits(s)
  {
    if s == [] then 0 else 10 * DigitsValue(s[..|s| - 1]) + DigitValue(s[|s| - 1])
  }

  /**
   * int(t) for a token free of separators: an optional sign, then digit
   * groups. None is the ValueError int() raises.
   */
  function ParseInt(t: string): (r: Option<int>)
    ensures r.Some? ==> |t| > 0 && IsDigit(t[|t| - 1])
    ensures r.Some? ==> t[0] == '+' || t[0] == '-' || IsDigit(t[0])
    ensures r.Some? ==> forall k :: 0 < k < |t| ==> IsDigit(t[k]) || t[k] == '_'
    ensures r.Some? && t[0] == '-' ==> r.value <= 0
    ensures r.Some? && t[0] != '-' ==> r.value >= 0
  {
    var negative := |t| > 0 && t[0] == '-';
    var body := if |t| > 0 && (t[0] == '-' || t[0] == '+') then t[1..] else t;
    if DigitGroups(body) then
      var magnitude: int := DigitsValue(DeleteUnderscores(body));
      Some(if negative then -magnitude else magnitude)
    else None
  }

  // ---------------------------------------------------------------------
  // The count parser
  // ---------------------------------------------------------------------

  /** int(summary.split()[0].replace(",", "")); None when either step raises. */
  function ParseCount(summary: string): (r: Option<int>)
    ensures AllSpace(summary) ==> r.None?
  {
    match FirstToken(summary)
    case None => None
    case Some(token) => ParseInt(DeleteCommas(token))
  }

  // ---------------------------------------------------------------------
  // Decimal formatting, the partner of the parser
  // ---------------------------------------------------------------------

  /** str(n) for a natural number: its decimal digits without leading zeros. */
  function Decimal(n: nat): (s: string)
    ensures s != [] && AllDigits(s)
    ensures n > 0 ==> s[0] != '0'
  {
    if n < 10 then [DigitChar(n)] else Decimal(n / 10) + [DigitChar(n % 10)]
  }

  /** str(n) for any integer. */
  function IntText(n: int): (s: string)
    ensures s != []
  {
    if n < 0 then "-" + Decimal(-n) else Decimal(n)
  }

  /** Three digits with leading zeros, the group after a thousands separator. */
  function Pad3(k: nat): (s: string)
    requires k < 1000
    ensures |s| == 3 && AllDigits(s)
  {
    [DigitChar(k / 100), DigitChar(k / 10 % 10), DigitChar(k % 10)]
  }

  /** A count as the results summary displays it: "5,432", "1,000,000", "250". */
  function GroupThousands(n: nat): (s: string)
    ensures s != [] && IsDigit(s[0])
    ensures forall k :: 0 <= k < |s| ==> IsDigit(s[k]) || s[k] == ','
  {
    if n < 1000 then Decimal(n)
    else GroupThousands(n / 1000) + "," + Pad3(n % 1000)
  }

  lemma {:induction false} LemmaDigitsValueDecimal(n: nat)
    ensures DigitsValue(Decimal(n)) == n
  {
    var s := Decimal(n);
    if n >= 10 {
      LemmaDigitsValueDecimal(n / 10);
      assert s[..|s| - 1] == Decimal(n / 10);
    }
  }

  lemma LemmaDigitsAreGroups(s: string)
    requires s != [] && AllDigits(s)
    ensures DigitGroups(s) && DeleteUnderscores(s) == s
  {
  }

  /** int(str(n)) == n for every integer n. */
  lemma LemmaParseIntText(n: int)
    ensures ParseInt(IntText(n)) == Some(n)
  {
    var m: nat := if n < 0 then -n else n;
    var d := Decimal(m);
    LemmaDigitsAreGroups(d);
    LemmaDigitsValueDecimal(m);
    var t := IntText(n);
    if n < 0 {
      assert t == "-" + d && t[0] == '-' && t[1..] == d;
    } else {
      assert t == d && IsDigit(t[0]);
    }
  }

  /** The last three digits of a number, as division and remainder by ten see them. */
  lemma LemmaLastThreeDigits(n: nat)
    ensures n / 10 / 10 == n / 100 && n / 100 / 10 == n / 1000
    ensures n % 1000 / 100 == n / 100 % 10
    ensures n % 1000 / 10 % 10 == n / 10 % 10
    ensures n % 1000 % 10 == n % 10
  {
    var q, r := n / 1000, n % 1000;
    var a, b, c := r / 100, r / 10 % 10, r % 10;
    assert r == 100 * a + 10 * b + c;
    assert n == 1000 * q + 100 * a + 10 * b + c;
    assert n % 10 == c && n / 10 == 100 * q + 10 * a + b;
    assert n / 10 % 10 == b && n / 100 == 10 * q + a;
    assert n / 100 % 10 == a;
  }

  /** Writing a number grouped by thousands and deleting the commas gives str(n). */
  lemma {:induction false} LemmaDecimalSplit(n: nat)
    requires n >= 1000
    ensures Decimal(n) == Decimal(n / 1000) + Pad3(n % 1000)
  {
    LemmaLastThreeDigits(n);
    var a, b, c := n / 10, n / 100, n / 1000;
    assert Decimal(n) == Decimal(a) + [DigitChar(n % 10)];
    assert Decimal(a) == Decimal(b) + [DigitChar(a % 10)];
    assert Decimal(b) == Decimal(c) + [DigitChar(b % 10)];
    assert Pad3(n % 1000) == [DigitChar(b % 10), DigitChar(a % 10), DigitChar(n % 10)];
  }

  lemma {:induction false} LemmaDeleteCommasGrouped(n: nat)
    ensures DeleteCommas(GroupThousands(n)) == Decimal(n)
  {
    if n < 1000 {
      assert ',' !in Decimal(n) by {
        forall k | 0 <= k < |Decimal(n)| ensures Decimal(n)[k] != ',' {
        }
      }
      LemmaDeleteCommasNone(Decimal(n));
    } else {
      var head, tail := GroupThousands(n / 1000), Pad3(n % 1000);
      LemmaDeleteCommasGrouped(n / 1000);
      LemmaDeleteCommasAppend(head + ",", tail);
      LemmaDeleteCommasAppend(head, ",");
      assert ',' !in tail by {
        forall k | 0 <= k < 3 ensures tail[k] != ',' {
        }
      }
      LemmaDeleteCommasNone(tail);
      LemmaDecimalSplit(n);
    }
  }

  /**
   * The parser's round trip: a summary whose first token is a count written
   * with thousands separators, after any leading separators and before a
   * separator or the end, parses to that count ("5,432 results" gives 5432).
   */
  lemma LemmaParseCountOfSummary(ws: string, n: nat, rest: string, summary: string)
    requires AllSpace(ws) && EndsToken(rest)
    requires summary == ws + GroupThousands(n) + rest
    ensures ParseCount(summary) == Some(n)
  {
    var g := GroupThousands(n);
    assert NoSpace(g) by {
      forall k | 0 <= k < |g| ensures !IsSpace(g[k]) {
      }
    }
    LemmaFirstTokenOf(ws, g, rest);
    LemmaDeleteCommasGrouped(n);
    LemmaParseIntText(n);
  }

  /** "250 results" reads as 250. */
  lemma LemmaParseSummary250()
    ensures ParseCount("250 results") == Some(250)
  {
    assert "" + GroupThousands(250) + " results" == "250 results" by {
      assert GroupThousands(250) == "250";
    }
    LemmaParseCountOfSummary("", 250, " results", "250 results");
  }

  /** "1,000 results" reads as 1000. */
  lemma LemmaParseSummary1000()
    ensures ParseCount("1,000 results") == Some(1000)
  {
    assert "" + GroupThousands(1000) + " results" == "1,000 results" by {
      assert GroupThousands(1) == "1" && Pad3(0) == "000";
    }
    LemmaParseCountOfSummary("", 1000, " results", "1,000 results");
  }

  /** "5,432 results" reads as 5432. */
  lemma LemmaParseSummary5432()
    ensures ParseCount("5,432 results") == Some(5432)
  {
    assert "" + GroupThousands(5432) + " results" == "5,432 results" by {
      assert GroupThousands(5) == "5" && Pad3(432) == "432";
    }
    LemmaParseCountOfSummary("", 5432, " results", "5,432 results");
  }

  /** A token holding no digit at all ("No", "Search") is rejected. */
  lemma LemmaParseIntNeedsDigit(t: string)
    requires forall k :: 0 <= k < |t| ==> !IsDigit(t[k])
    ensures ParseInt(t) == None
  {
  }
}
