// The string operations the commands rely on.
module Strings {
  function Digit(d: nat): char
    requires d < 10
  {
    "0123456789"[d]
  }

  // String(n) for a natural number.
  function Decimal(n: nat): (r: string)
    ensures r != "" && forall i :: 0 <= i < |r| ==> '0' <= r[i] <= '9'
  {
    if n < 10 then [Digit(n)] else Decimal(n / 10) + [Digit(n % 10)]
  }

  ghost function DecimalValue(s: string): int {
    if s == "" then 0
    else 10 * DecimalValue(s[..|s| - 1]) + (s[|s| - 1] as int - '0' as int)
  }

  lemma {:induction false} DecimalRoundTrip(n: nat)
    ensures DecimalValue(Decimal(n)) == n
  {
    var s := Decimal(n);
    if n < 10 {
      assert s[..0] == "";
    } else {
      DecimalRoundTrip(n / 10);
      assert s[..|s| - 1] == Decimal(n / 10);
    }
  }

  // No leading zeros.
  lemma {:induction false} DecimalStarts(n: nat)
    ensures Decimal(n)[0] == '0' <==> n == 0
    ensures n == 0 ==> |Decimal(n)| == 1
  {
    if n < 10 {
    } else {
      DecimalStarts(n / 10);
      assert Decimal(n)[0] == Decimal(n / 10)[0];
    }
  }

  lemma DecimalInjective(m: nat, n: nat)
    requires Decimal(m) == Decimal(n)
    ensures m == n
  {
    DecimalRoundTrip(m);
    DecimalRoundTrip(n);
  }

  // Names made of a common stem and a number differ when the numbers do.
  lemma NumberedNames(stem: string, m: nat, n: nat)
    requires stem + Decimal(m) == stem + Decimal(n)
    ensures m == n
  {
    assert Decimal(m) == (stem + Decimal(m))[|stem|..] == (stem + Decimal(n))[|stem|..] == Decimal(n);
    DecimalInjective(m, n);
  }

  function LowerChar(c: char): char {
    if 'A' <= c <= 'Z' then (c as int + 32) as char else c
  }

  // Letter by letter down the alphabet; everything else stays.
  lemma LowerLetters(c: char, k: nat)
    ensures k < 26 && c == "ABCDEFGHIJKLMNOPQRSTUVWXYZ"[k] ==> LowerChar(c) == "abcdefghijklmnopqrstuvwxyz"[k]
    ensures !('A' <= c <= 'Z') ==> LowerChar(c) == c
  {
  }

  // toLowerCase on ASCII text; other characters are left alone.
  function ToLower(s: string): (r: string)
    ensures |r| == |s|
    ensures forall i :: 0 <= i < |s| ==> r[i] == LowerChar(s[i])
  {
    seq(|s|, i requires 0 <= i < |s| => LowerChar(s[i]))
  }

  function IndexOf(s: string, pat: string): (i: int)
    requires pat != ""
    ensures -1 <= i <= |s|
    ensures i >= 0 ==> pat <= s[i..]
  {
    if |s| < |pat| then -1
    else if pat <= s then 0
    else
      var j := IndexOf(s[1..], pat);
      if j < 0 then -1 else j + 1
  }

  // replace(pat, rep) with a string pattern: the first occurrence only.
  function ReplaceFirst(s: string, pat: string, rep: string): string
    requires pat != ""
  {
    var i := IndexOf(s, pat);
    if i < 0 then s else s[..i] + rep + s[i + |pat|..]
  }

  // White space as trim() and \s see it.
  predicate IsSpace(c: char) {
    || '\t' <= c <= '\r' || c == ' ' || c == '\U{A0}' || c == '\U{1680}' || '\U{2000}' <= c <= '\U{200A}'
    || c == '\U{2028}' || c == '\U{2029}' || c == '\U{202F}' || c == '\U{205F}' || c == '\U{3000}' || c == '\U{FEFF}'
  }

  function TrimStart(s: string): (r: string)
    ensures r != "" ==> !IsSpace(r[0])
    ensures |r| <= |s|
    ensures forall c :: c in r ==> c in s
  {
    if s != "" && IsSpace(s[0]) then TrimStart(s[1..]) else s
  }

  function TrimEnd(s: string): (r: string)
    ensures r != "" ==> !IsSpace(r[|r| - 1])
    ensures r <= s
  {
    if s != "" && IsSpace(s[|s| - 1]) then TrimEnd(s[..|s| - 1]) else s
  }

  function Trim(s: string): (r: string)
    ensures r != "" ==> !IsSpace(r[0]) && !IsSpace(r[|r| - 1])
  {
    TrimEnd(TrimStart(s))
  }

  ghost predicate AllSpace(s: string) {
    forall c :: c in s ==> IsSpace(c)
  }

  lemma {:induction false} TrimStartParts(s: string) returns (before: string)
    ensures s == before + TrimStart(s) && AllSpace(before)
  {
    if s == "" || !IsSpace(s[0]) {
      before := "";
    } else {
      var rest := TrimStartParts(s[1..]);
      before := [s[0]] + rest;
    }
  }

  lemma {:induction false} TrimEndParts(s: string) returns (after: string)
    ensures s == TrimEnd(s) + after && AllSpace(after)
  {
    if s == "" || !IsSpace(s[|s| - 1]) {
      after := "";
    } else {
      var rest := TrimEndParts(s[..|s| - 1]);
      after := rest + [s[|s| - 1]];
    }
  }

  // Trimming takes away white space at the ends and nothing else.
  lemma TrimParts(s: string) returns (before: string, after: string)
    ensures s == before + Trim(s) + after && AllSpace(before) && AllSpace(after) && IsTrimmed(Trim(s))
  {
    before := TrimStartParts(s);
    after := TrimEndParts(TrimStart(s));
    assert before + (Trim(s) + after) == before + Trim(s) + after;
  }

  // Neither end is white space.
  predicate IsTrimmed(s: string) {
    s == "" || (!IsSpace(s[0]) && !IsSpace(s[|s| - 1]))
  }

  lemma TrimExact(s: string)
    ensures Trim(s) == s <==> IsTrimmed(s)
    ensures |Trim(s)| <= |s|
  {
  }

  lemma {:induction false} TrimStartAll(s: string)
    requires TrimStart(s) == ""
    ensures forall c :: c in s ==> IsSpace(c)
  {
    if s == "" {
    } else {
      TrimStartAll(s[1..]);
    }
  }

  // split(sep) with a one-character separator: never empty.
  function Split(s: string, sep: char): (r: seq<string>)
    ensures r != []
  {
    if s == "" then [""]
    else
      var rest := Split(s[1..], sep);
      if s[0] == sep then [""] + rest else [[s[0]] + rest[0]] + rest[1..]
  }

  function Join(parts: seq<string>, sep: char): string {
    if parts == [] then ""
    else if |parts| == 1 then parts[0]
    else parts[0] + [sep] + Join(parts[1..], sep)
  }

  // Splitting yields the parts between separators, and joining gives the text back.
  lemma {:induction false} SplitExact(s: string, sep: char)
    ensures Join(Split(s, sep), sep) == s
    ensures forall i :: 0 <= i < |Split(s, sep)| ==> sep !in Split(s, sep)[i]
  {
    if s == "" {
    } else {
      var rest := Split(s[1..], sep);
      SplitExact(s[1..], sep);
      if s[0] == sep {
        JoinFirst("", rest, sep);
      } else {
        JoinGrows(s[0], rest, sep);
      }
      assert s == [s[0]] + s[1..];
    }
  }

  lemma JoinFirst(first: string, rest: seq<string>, sep: char)
    requires rest != []
    ensures Join([first] + rest, sep) == first + [sep] + Join(rest, sep)
  {
    assert ([first] + rest)[1..] == rest;
  }

  lemma JoinGrows(c: char, parts: seq<string>, sep: char)
    requires parts != []
    ensures Join([[c] + parts[0]] + parts[1..], sep) == [c] + Join(parts, sep)
  {
    if |parts| == 1 {
      assert [[c] + parts[0]] + parts[1..] == [[c] + parts[0]];
    } else {
      JoinFirst([c] + parts[0], parts[1..], sep);
      assert [c] + parts[0] + [sep] + Join(parts[1..], sep) == [c] + (parts[0] + [sep] + Join(parts[1..], sep));
    }
  }

  lemma {:induction false} SplitNone(s: string, sep: char)
    requires sep !in s
    ensures Split(s, sep) == [s]
  {
    if s == "" {
    } else {
      SplitNone(s[1..], sep);
      assert [s[0]] + s[1..] == s;
      assert [s] + [] == [s];
    }
  }

  // What follows the last separator is the last part.
  lemma {:induction false} SplitLast(s: string, sep: char, last: string)
    requires sep !in last
    ensures Split(s + [sep] + last, sep) == Split(s, sep) + [last]
  {
    var whole := s + [sep] + last;
    if s == "" {
      assert whole == [sep] + last;
      assert whole[1..] == last;
      SplitNone(last, sep);
    } else {
      assert whole[0] == s[0] && whole[1..] == s[1..] + [sep] + last;
      SplitLast(s[1..], sep, last);
      SplitStep(s, sep, Split(s[1..], sep), last);
    }
  }

  lemma SplitStep(s: string, sep: char, rest: seq<string>, last: string)
    requires s != "" && rest != []
    ensures (if s[0] == sep then [""] + (rest + [last]) else [[s[0]] + (rest + [last])[0]] + (rest + [last])[1..]) ==
            (if s[0] == sep then [""] + rest else [[s[0]] + rest[0]] + rest[1..]) + [last]
  {
    assert (rest + [last])[0] == rest[0] && (rest + [last])[1..] == rest[1..] + [last];
  }

  lemma {:induction false} JoinLast(parts: seq<string>, sep: char, last: string)
    requires parts != []
    ensures Join(parts + [last], sep) == Join(parts, sep) + [sep] + last
  {
    assert (parts + [last])[0] == parts[0] && (parts + [last])[1..] == parts[1..] + [last];
    if |parts| == 1 {
      assert parts[1..] + [last] == [last];
    } else {
      JoinLast(parts[1..], sep, last);
      var a, b := parts[0] + [sep], Join(parts[1..], sep);
      assert a + (b + [sep] + last) == (a + b) + [sep] + last;
    }
  }

  // Splitting what was joined gives the parts back.
  lemma {:induction false} JoinExact(parts: seq<string>, sep: char)
    requires parts != [] && forall i :: 0 <= i < |parts| ==> sep !in parts[i]
    ensures Split(Join(parts, sep), sep) == parts
  {
    var front, last := parts[..|parts| - 1], parts[|parts| - 1];
    assert parts == front + [last];
    if front == [] {
      SplitNone(last, sep);
    } else {
      JoinExact(front, sep);
      JoinLast(front, sep, last);
      SplitLast(Join(front, sep), sep, last);
    }
  }
}
