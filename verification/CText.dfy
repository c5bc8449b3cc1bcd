/** The C string handling behind config.c: whitespace, the in-place tokenizer of read_config, decimal
    printing and atoi. */
module CText {
  import opened Options

  const NUL: char := '\0'
  const NEWLINE: char := '\n'

  /** isspace in the C locale */
  predicate IsSpace(c: char) {
    c == ' ' || c == '\t' || c == '\n' || c == '\U{0B}' || c == '\U{0C}' || c == '\r'
  }

  /** These are the blank and the five control characters from tab to carriage return. */
  lemma SpacesAre(c: char)
    ensures IsSpace(c) <==> c as int == 32 || 9 <= c as int <= 13
  {
  }

  predicate AllSpaces(s: string) {
    forall i | 0 <= i < |s| :: IsSpace(s[i])
  }

  predicate NoSpaces(s: string) {
    forall i | 0 <= i < |s| :: !IsSpace(s[i])
  }

  /** strlen: the index of the first NUL. */
  function StrLen(s: string): (n: nat)
    ensures n <= |s| && NUL !in s[..n]
    ensures n < |s| ==> s[n] == NUL
  {
    if s == "" || s[0] == NUL then 0 else 1 + StrLen(s[1..])
  }

  function CStr(s: string): (r: string)
    ensures NUL !in r
  {
    s[..StrLen(s)]
  }

  lemma {:induction false} StrLenIs(s: string, n: nat)
    requires n <= |s| && NUL !in s[..n] && (n < |s| ==> s[n] == NUL)
    ensures StrLen(s) == n && CStr(s) == s[..n]
  {
    if n > 0 {
      assert s[0] == s[..n][0];
      assert s[1..][..n - 1] == s[..n][1..];
      StrLenIs(s[1..], n - 1);
    }
  }

  lemma {:induction false} StrLenFound(s: string)
    requires NUL in s
    ensures StrLen(s) < |s|
  {
    if s[0] != NUL {
      StrLenFound(s[1..]);
    }
  }

  /* Whitespace */

  /** The first index from i on that is not whitespace. */
  function SkipSpaces(s: string, i: nat): (k: nat)
    requires i <= |s|
    ensures i <= k <= |s| && (k < |s| ==> !IsSpace(s[k])) && forall j | i <= j < k :: IsSpace(s[j])
    decreases |s| - i
  {
    if i < |s| && IsSpace(s[i]) then SkipSpaces(s, i + 1) else i
  }

  function DropSpaces(s: string): (r: string)
    ensures |r| <= |s| && r == s[|s| - |r|..] && AllSpaces(s[..|s| - |r|])
    ensures r != "" ==> !IsSpace(r[0])
  {
    s[SkipSpaces(s, 0)..]
  }

  function TrimEnd(s: string): (r: string)
    ensures r <= s && AllSpaces(s[|r|..])
    ensures r != "" ==> !IsSpace(r[|r| - 1])
  {
    if s != "" && IsSpace(s[|s| - 1]) then TrimEnd(s[..|s| - 1]) else s
  }

  /** The longest prefix without whitespace. */
  function FirstWord(s: string): (r: string)
    ensures r <= s && NoSpaces(r)
    ensures |r| < |s| ==> IsSpace(s[|r|])
  {
    if s != "" && !IsSpace(s[0]) then [s[0]] + FirstWord(s[1..]) else ""
  }

  /* The contracts of these functions determine them. */

  lemma DropSpacesIs(s: string, k: nat)
    requires k <= |s| && AllSpaces(s[..k]) && (k < |s| ==> !IsSpace(s[k]))
    ensures DropSpaces(s) == s[k..]
  {
    hide IsSpace;
    assert forall i | 0 <= i < k :: s[..k][i] == s[i];
    assert SkipSpaces(s, 0) == k;
  }

  lemma {:induction false} TrimEndIs(s: string, k: nat)
    requires k <= |s| && AllSpaces(s[k..]) && (k > 0 ==> !IsSpace(s[k - 1]))
    ensures TrimEnd(s) == s[..k]
    decreases |s|
  {
    hide IsSpace;
    if k < |s| {
      var t := s[..|s| - 1];
      assert s[|s| - 1] == s[k..][|s| - 1 - k];
      assert t[k..] == s[k..][..|s| - 1 - k] && t[..k] == s[..k];
      TrimEndIs(t, k);
    }
  }

  lemma {:induction false} FirstWordIs(s: string, k: nat)
    requires k <= |s| && NoSpaces(s[..k]) && (k < |s| ==> IsSpace(s[k]))
    ensures FirstWord(s) == s[..k]
  {
    hide IsSpace;
    if k > 0 {
      assert s[0] == s[..k][0];
      assert s[1..][..k - 1] == s[..k][1..];
      FirstWordIs(s[1..], k - 1);
      assert s[..k] == [s[0]] + s[1..][..k - 1];
    }
  }

  /* The tokenizer */

  datatype Pair = Pair(name: string, value: string)

  /** What a line says: nothing when it is blank, a comment or ends with its first word; otherwise that word
      and what follows, stripped at both ends. */
  function Tokenize(line: string): Option<Pair> {
    var s := DropSpaces(line);
    var name := FirstWord(s);
    if s != "" && s[0] == '#' then None
    else if name == s then None
    else Some(Pair(name, TrimEnd(DropSpaces(s[|name|..]))))
  }

  lemma NulIsNoSpace()
    ensures !IsSpace(NUL)
  {
  }

  ghost predicate Spaces(s: string, lo: int, hi: int) {
    0 <= lo <= hi <= |s| && forall k | lo <= k < hi :: IsSpace(s[k])
  }

  ghost predicate NonSpaces(s: string, lo: int, hi: int) {
    0 <= lo <= hi <= |s| && forall k | lo <= k < hi :: !IsSpace(s[k])
  }

  /** The body of the loop of read_config, on the line buffer: NULs are planted after the name and
      over the trailing whitespace, and the results are positions in the buffer.  value is -1 when
      there is no pair.  The trim runs backwards and stops at the latest at the NUL after the name. */
  method SplitLine(line: array<char>) returns (name: nat, value: int)
    requires NUL in line[..]
    modifies line
    ensures value >= 0 ==>
      && name <= line.Length && value <= line.Length
      && Tokenize(CStr(old(line[..]))) == Some(Pair(CStr(line[name..]), CStr(line[value..])))
    ensures value < 0 ==> Tokenize(CStr(old(line[..]))) == None
  {
    hide IsSpace, StrLen, CStr, Tokenize;
    NulIsNoSpace();
    ghost var s := line[..];
    ghost var n := StrLen(s);
    StrLenFound(s);
    name := 0;
    while line[name] != NUL && IsSpace(line[name])
      invariant 0 <= name <= n && Spaces(s, 0, name)
      decreases n - name
    {
      name := name + 1;
    }
    if line[name] == '#' {
      CommentLine(s, n, name);
      return name, -1;
    }
    var tmp := name;
    while line[tmp] != NUL && !IsSpace(line[tmp])
      invariant name <= tmp <= n && NonSpaces(s, name, tmp)
      decreases n - tmp
    {
      tmp := tmp + 1;
    }
    if line[tmp] == NUL {
      LoneWord(s, n, name);
      return name, -1;
    }
    value := TrimValue(line, s, n, tmp);
    SplitDone(s, n, name, tmp, value, line[..]);
  }

  /** The value part: t is where the word ends. */
  method TrimValue(line: array<char>, ghost s: string, ghost n: nat, end: nat) returns (value: nat)
    requires s == line[..] && n == StrLen(s) && end < n < |s| && IsSpace(s[end])
    modifies line
    ensures Trimmed(s, n, end, value, line[..])
  {
    hide IsSpace, StrLen, CStr;
    NulIsNoSpace();
    line[end] := NUL;
    value := end + 1;
    while line[value] != NUL && IsSpace(line[value])
      invariant end < value <= n && Spaces(s, end, value) && line[..] == s[end := NUL]
      decreases n - value
    {
      value := value + 1;
    }
    var tmp := value + StrLen(line[value..]) - 1;
    StrLenFrom(s, n, end, value);
    while IsSpace(line[tmp])
      invariant end <= tmp < n && Spaces(s, tmp + 1, n)
      invariant forall k | 0 <= k < line.Length :: line[k] == if k == end || tmp < k < n then NUL else s[k]
      decreases tmp
    {
      line[tmp] := NUL;
      tmp := tmp - 1;
    }
    assert TrimmedAt(s, n, end, value, tmp + 1, line[..]);
  }

  lemma StrLenFrom(s: string, n: nat, p: nat, b: nat)
    requires n == StrLen(s) && p < b <= n < |s|
    ensures StrLen(s[p := NUL][b..]) == n - b
  {
    hide StrLen, CStr;
    var t := s[p := NUL][b..];
    forall k | 0 <= k < n - b
      ensures t[k] != NUL
    {
      assert t[k] == s[b + k] == s[..n][b + k];
    }
    StrLenIs(t, n - b);
  }

  /** The buffer that TrimValue leaves: p is where the NUL after the name is, b where the value starts
      and e where it ends, unless it is empty. */
  ghost predicate TrimmedAt(s: string, n: nat, p: nat, b: nat, e: nat, t: string) {
    && p < b <= n < |s| == |t| && p < e <= n
    && Spaces(s, p, b) && (b < n ==> !IsSpace(s[b]))
    && Spaces(s, e, n) && (e > p + 1 ==> !IsSpace(s[e - 1]))
    && forall k | 0 <= k < |t| :: t[k] == if k == p || e <= k < n then NUL else s[k]
  }

  ghost predicate Trimmed(s: string, n: nat, p: nat, b: nat, t: string) {
    exists e: nat :: TrimmedAt(s, n, p, b, e, t)
  }

  /** Dropping a whitespace prefix, and a prefix up to whitespace, by position. */
  lemma NameAt(u: string, a: nat, p: nat)
    requires a <= p <= |u| && Spaces(u, 0, a) && NonSpaces(u, a, p)
    requires a < |u| ==> !IsSpace(u[a])
    requires p < |u| ==> IsSpace(u[p])
    ensures DropSpaces(u) == u[a..] && FirstWord(u[a..]) == u[a..p]
  {
    hide IsSpace, DropSpaces, FirstWord;
    DropSpacesIs(u, a);
    assert u[a..][..p - a] == u[a..p];
    FirstWordIs(u[a..], p - a);
  }

  lemma DropAt(u: string, p: nat, b: nat)
    requires p <= b <= |u| && Spaces(u, p, b) && (b < |u| ==> !IsSpace(u[b]))
    ensures DropSpaces(u[p..]) == u[b..]
  {
    hide IsSpace, DropSpaces;
    assert u[p..][..b - p] == u[p..b] && u[p..][b - p..] == u[b..];
    DropSpacesIs(u[p..], b - p);
  }

  lemma TrimAt(u: string, b: nat, e: nat)
    requires b <= e <= |u| && Spaces(u, e, |u|) && (b < e ==> !IsSpace(u[e - 1]))
    ensures TrimEnd(u[b..]) == u[b..e]
  {
    hide IsSpace, TrimEnd;
    assert u[b..][e - b..] == u[e..] && u[b..][..e - b] == u[b..e];
    TrimEndIs(u[b..], e - b);
  }

  lemma ValueAt(u: string, p: nat, b: nat, e: nat)
    requires p <= b <= e <= |u| && Spaces(u, p, b) && Spaces(u, e, |u|)
    requires b < |u| ==> !IsSpace(u[b])
    requires b < e ==> !IsSpace(u[e - 1])
    ensures TrimEnd(DropSpaces(u[p..])) == u[b..e]
  {
    hide IsSpace, DropSpaces, TrimEnd, Spaces;
    DropAt(u, p, b);
    TrimAt(u, b, e);
  }

  lemma CommentLine(s: string, n: nat, a: nat)
    requires n == StrLen(s) && a < n && Spaces(s, 0, a) && s[a] == '#'
    ensures Tokenize(CStr(s)) == None
  {
    DropSpacesIs(s[..n], a);
  }

  lemma LoneWord(s: string, n: nat, a: nat)
    requires n == StrLen(s) && a <= n && Spaces(s, 0, a) && NonSpaces(s, a, n)
    ensures Tokenize(CStr(s)) == None
  {
    NameAt(s[..n], a, n);
  }

  /** The positions found in a line without NUL: a and p delimit the name, b and e the value. */
  lemma {:induction false} TokenIs(u: string, a: nat, p: nat, b: nat, e: nat)
    requires a < p < b <= e <= |u| && Spaces(u, 0, a) && NonSpaces(u, a, p) && IsSpace(u[p]) && u[a] != '#'
    requires Spaces(u, p, b) && (b < |u| ==> !IsSpace(u[b]))
    requires Spaces(u, e, |u|) && (b < e ==> !IsSpace(u[e - 1]))
    ensures Tokenize(u) == Some(Pair(u[a..p], u[b..e]))
  {
    hide IsSpace, DropSpaces, FirstWord, TrimEnd, Tokenize;
    NameAt(u, a, p);
    ValueAt(u, p, b, e);
    assert u[a..][p - a..] == u[p..];
    TokenizeBy(u, u[a..], u[a..p], u[p..]);
  }

  lemma TokenizeBy(u: string, s: string, name: string, rest: string)
    requires DropSpaces(u) == s && FirstWord(s) == name && s != "" && s[0] != '#'
    requires |name| < |s| && s[|name|..] == rest
    ensures Tokenize(u) == Some(Pair(name, TrimEnd(DropSpaces(rest))))
  {
    hide DropSpaces, FirstWord, TrimEnd;
  }

  lemma SplitDone(s: string, n: nat, a: nat, p: nat, b: nat, t: string)
    requires n == StrLen(s) && a < p && Spaces(s, 0, a) && NonSpaces(s, a, p) && s[a] != '#'
    requires Trimmed(s, n, p, b, t)
    ensures b <= |t| && a <= |t| && Tokenize(CStr(s)) == Some(Pair(CStr(t[a..]), CStr(t[b..])))
  {
    hide IsSpace, Tokenize, StrLen, CStr;
    var e: nat :| TrimmedAt(s, n, p, b, e, t);
    var u := s[..n];
    StrLenIs(s, n);
    NameEnds(s, n, a, p, t);
    assert u[a..p] == s[a..p];
    assert IsSpace(s[p]);
    if b < n {
      TokenIs(u, a, p, b, e);
      ValueEnds(s, n, b, e, t);
      assert u[b..e] == s[b..e];
    } else {
      TokenIs(u, a, p, b, n);
      StrLenIs(t[b..], 0);
      assert u[b..n] == "" && t[b..][..0] == "";
    }
  }

  lemma NameEnds(s: string, n: nat, a: nat, p: nat, t: string)
    requires n == StrLen(s) && a < p < n < |s| == |t|
    requires forall k | a <= k < p :: t[k] == s[k]
    requires t[p] == NUL
    ensures CStr(t[a..]) == s[a..p]
  {
    hide StrLen, CStr;
    var w := t[a..];
    forall k | 0 <= k < p - a
      ensures w[..p - a][k] == s[a..p][k] && s[a..p][k] != NUL
    {
      assert t[a + k] == s[a + k] == s[..n][a + k];
    }
    assert w[..p - a] == s[a..p];
    StrLenIs(w, p - a);
  }

  lemma ValueEnds(s: string, n: nat, b: nat, e: nat, t: string)
    requires n == StrLen(s) && b < e <= n < |s| == |t|
    requires forall k | b <= k < e :: t[k] == s[k]
    requires t[e] == NUL || (e == n && t[n] == s[n])
    ensures CStr(t[b..]) == s[b..e]
  {
    hide StrLen, CStr;
    var w := t[b..];
    forall k | 0 <= k < e - b
      ensures w[..e - b][k] == s[b..e][k] && s[b..e][k] != NUL
    {
      assert t[b + k] == s[b + k] == s[..n][b + k];
    }
    assert w[..e - b] == s[b..e];
    StrLenIs(w, e - b);
  }

  /* Integers */

  const INT_MAX: int := 0x7fff_ffff
  const INT_MIN: int := -0x8000_0000

  predicate IsInt(n: int) {
    INT_MIN <= n <= INT_MAX
  }

  predicate IsDigit(c: char) {
    48 <= c as int <= 57
  }

  function DigitPrefix(s: string): (r: string)
    ensures r <= s && forall i | 0 <= i < |r| :: IsDigit(r[i])
  {
    if s != "" && IsDigit(s[0]) then [s[0]] + DigitPrefix(s[1..]) else ""
  }

  function Decimal(s: string): (n: nat)
    requires forall i | 0 <= i < |s| :: IsDigit(s[i])
  {
    if s == "" then 0
    else
      assert IsDigit(s[|s| - 1]);
      10 * Decimal(s[..|s| - 1]) + (s[|s| - 1] as int - 48)
  }

  function Clamp(n: int): (r: int)
    ensures IsInt(r) && (IsInt(n) ==> r == n)
  {
    if n < INT_MIN then INT_MIN else if INT_MAX < n then INT_MAX else n
  }

  /** atoi: leading whitespace, an optional sign, digits; the rest is ignored.  Values outside the
      range of a 32-bit long saturate. */
  function Atoi(s: string): (n: int)
    ensures IsInt(n)
  {
    var t := DropSpaces(s);
    if t != "" && t[0] == '-' then Clamp(-(Decimal(DigitPrefix(t[1..])) as int))
    else if t != "" && t[0] == '+' then Clamp(Decimal(DigitPrefix(t[1..])))
    else Clamp(Decimal(DigitPrefix(t)))
  }

  function Digits(n: nat): (s: string)
    ensures s != "" && forall i | 0 <= i < |s| :: IsDigit(s[i])
  {
    if n < 10 then [(48 + n) as char] else Digits(n / 10) + [(48 + n % 10) as char]
  }

  /** %d */
  function Show(n: int): (s: string)
    ensures s != "" && NoSpaces(s) && NUL !in s && NEWLINE !in s
  {
    if n < 0 then "-" + Digits(-n) else Digits(n)
  }

  lemma {:induction false} DecimalOfDigits(n: nat)
    ensures Decimal(Digits(n)) == n
  {
    if n >= 10 {
      DecimalOfDigits(n / 10);
      assert Digits(n)[..|Digits(n)| - 1] == Digits(n / 10);
    } else {
      assert Digits(n)[..0] == "";
    }
  }

  lemma {:induction false} AllDigits(s: string)
    requires forall i | 0 <= i < |s| :: IsDigit(s[i])
    ensures DigitPrefix(s) == s
  {
    if s != "" {
      AllDigits(s[1..]);
    }
  }

  /** Printing a 32-bit integer and reading it back gives the integer, INT_MIN included. */
  lemma AtoiShow(n: int)
    requires IsInt(n)
    ensures Atoi(Show(n)) == n
  {
    var d := Digits(if n < 0 then -n else n);
    DecimalOfDigits(if n < 0 then -n else n);
    AllDigits(d);
    DropSpacesIs(Show(n), 0);
    if n < 0 {
      assert Show(n)[1..] == d;
    } else {
      assert IsDigit(d[0]);
    }
  }

  /** What atoi makes of any text: whitespace, then a sign or none, then the digits d, then something that
      does not go on with a digit. */
  lemma AtoiOf(space: string, sign: string, d: string, rest: string)
    requires AllSpaces(space) && (sign == "" || sign == "-" || sign == "+")
    requires (forall i | 0 <= i < |d| :: IsDigit(d[i])) && (rest != "" ==> !IsDigit(rest[0]))
    requires sign == "" && d == "" && rest != "" ==> !IsSpace(rest[0]) && rest[0] != '-' && rest[0] != '+'
    ensures Atoi(space + (sign + (d + rest))) == Clamp(if sign == "-" then -(Decimal(d) as int) else Decimal(d))
  {
    hide IsSpace, Decimal, DigitPrefix, DropSpaces, IsDigit, Clamp, AllSpaces;
    var t := d + rest;
    DigitsThen(d, rest);
    FirstIsNoSign(d, rest);
    SignIsNoSpace(sign, t);
    SpaceThen(space, sign + t);
    if sign != "" {
      assert (sign + t)[0] == sign[0] && (sign + t)[1..] == t;
    } else {
      assert sign + t == t;
    }
  }

  lemma SpaceThen(space: string, t: string)
    requires AllSpaces(space) && (t != "" ==> !IsSpace(t[0]))
    ensures DropSpaces(space + t) == t
  {
    hide IsSpace, DropSpaces;
    var u := space + t;
    assert u[..|space|] == space && u[|space|..] == t;
    DropSpacesIs(u, |space|);
  }

  lemma SignIsNoSpace(sign: string, t: string)
    requires (sign == "-" || sign == "+") || (sign == "" && (t != "" ==> !IsSpace(t[0])))
    ensures sign + t != "" ==> !IsSpace((sign + t)[0])
  {
    if sign == "" {
      assert sign + t == t;
    }
  }

  lemma {:induction false} DigitsThen(d: string, rest: string)
    requires (forall i | 0 <= i < |d| :: IsDigit(d[i])) && (rest != "" ==> !IsDigit(rest[0]))
    ensures DigitPrefix(d + rest) == d
  {
    if d != "" {
      assert (d + rest)[1..] == d[1..] + rest;
      DigitsThen(d[1..], rest);
    } else {
      assert d + rest == rest;
    }
  }

  lemma FirstIsNoSign(d: string, rest: string)
    requires forall i | 0 <= i < |d| :: IsDigit(d[i])
    ensures d != "" ==> (d + rest)[0] != '-' && (d + rest)[0] != '+' && !IsSpace((d + rest)[0])
    ensures d == "" ==> d + rest == rest
  {
    if d != "" {
      assert (d + rest)[0] == d[0] && IsDigit(d[0]);
    }
  }

  /** The value of decimal digits. */
  lemma DecimalIs(d: string, c: char)
    requires (forall i | 0 <= i < |d| :: IsDigit(d[i])) && IsDigit(c)
    ensures Decimal("") == 0 && Decimal(d + [c]) == 10 * Decimal(d) + (c as int - '0' as int)
  {
    assert (d + [c])[..|d|] == d;
  }

  /** %d prints a minus sign for a negative number only, and no leading zeros. */
  lemma ShowForm(n: int)
    ensures n < 0 ==> Show(n)[0] == '-' && |Show(n)| > 1 && Show(n)[1] != '0'
    ensures n == 0 ==> Show(n) == "0"
    ensures n > 0 ==> IsDigit(Show(n)[0]) && Show(n)[0] != '0'
  {
    if n != 0 {
      NoLeadingZero(if n < 0 then -n else n);
    }
  }

  lemma {:induction false} NoLeadingZero(n: nat)
    requires n > 0
    ensures Digits(n)[0] != '0'
  {
    if n >= 10 {
      NoLeadingZero(n / 10);
    }
  }

  /** Digits printed for a 32-bit integer. */
  lemma {:induction false} DigitsLength(n: nat, k: nat)
    requires k > 0 && n < Power10(k)
    ensures |Digits(n)| <= k
  {
    if n >= 10 {
      assert k > 1;
      DigitsLength(n / 10, k - 1);
    }
  }

  function Power10(k: nat): (p: nat)
    ensures p > 0
  {
    if k == 0 then 1 else 10 * Power10(k - 1)
  }

  lemma ShowLength(n: int)
    requires IsInt(n)
    ensures |Show(n)| <= 11
  {
    assert Power10(10) == 100_0000_0000;
    DigitsLength(if n < 0 then -n else n, 10);
  }
}
