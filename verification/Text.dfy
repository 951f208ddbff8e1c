/** Byte strings, decimal numbers and lines of text: the small part of Go's `fmt`, `strconv`,
    `strings` and `bufio` on which the wire format and the discovery files rest. */
module Text {

  /** A Go byte. Strings and byte slices are both sequences of these. */
  type byte = c: char | c as int < 0x100
  type Bytes = seq<byte>

  datatype Option<+T> = None | Some(value: T)
  datatype Result<+T, +E> = Success(value: T) | Failure(error: E)

  const TWO_64: int := 0x1_0000_0000_0000_0000
  const TWO_63: int := 0x8000_0000_0000_0000

  type uint64 = n: nat | n < TWO_64
  type int64 = i: int | -TWO_63 <= i < TWO_63

  /** Go's unsigned addition, which wraps around. */
  function AddU64(a: nat, b: nat): uint64 { (a + b) % TWO_64 }

  lemma HeadTail<T>(s: seq<T>, t: seq<T>)
    requires s != []
    ensures [s[0]] + (s[1..] + t) == s + t
  {
  }

  lemma TakeSnoc<T>(s: seq<T>, i: nat)
    requires i < |s|
    ensures s[..i] + [s[i]] == s[..i + 1]
  {
  }

  lemma InitLast<T>(s: seq<T>)
    requires s != []
    ensures s[..|s| - 1] + [s[|s| - 1]] == s
  {
  }

  lemma PrefixSnoc<T>(a: seq<T>, b: seq<T>, x: T)
    requires a <= b
    ensures a <= b + [x]
  {
  }

  lemma Associate<T>(a: seq<T>, b: seq<T>, c: seq<T>)
    ensures a + b + c == a + (b + c)
  {
  }

  lemma Regroup<T>(a: seq<T>, b: seq<T>, c: seq<T>, d: seq<T>)
    ensures a + b + c + d == a + b + (c + d)
  {
  }

  lemma RegroupRight<T>(a: seq<T>, b: seq<T>, c: seq<T>, d: seq<T>, e: seq<T>)
    ensures a + (b + (c + d)) + e == a + (b + (c + (d + e)))
  {
  }

  lemma Tail<T>(a: seq<T>, b: seq<T>)
    requires a != []
    ensures (a + b)[1..] == a[1..] + b && (a + b)[0] == a[0]
  {
  }

  /** The pieces one after another. */
  function Concat<T>(pieces: seq<seq<T>>): seq<T> {
    if pieces == [] then [] else pieces[0] + Concat(pieces[1..])
  }

  // ---------- decimal numbers ----------

  predicate IsDigit(c: char) { '0' <= c <= '9' }

  function Digit(d: nat): byte
    requires d < 10
  {
    ('0' as int + d) as char
  }

  function DigitValue(c: char): nat
    requires IsDigit(c)
  {
    c as int - '0' as int
  }

  predicate AllDigits(s: string) { forall c <- s :: IsDigit(c) }

  /** The `%d` verb on a non-negative number. */
  function Decimal(n: nat): Bytes {
    if n < 10 then [Digit(n)] else Decimal(n / 10) + [Digit(n % 10)]
  }

  function Value(s: string): nat
    requires AllDigits(s)
  {
    if s == [] then 0 else Value(s[..|s| - 1]) * 10 + DigitValue(s[|s| - 1])
  }

  lemma {:induction false} DecimalValue(n: nat)
    ensures AllDigits(Decimal(n)) && |Decimal(n)| > 0
    ensures Value(Decimal(n)) == n
  {
    if n >= 10 {
      DecimalValue(n / 10);
      assert Decimal(n)[..|Decimal(n)| - 1] == Decimal(n / 10);
    }
  }

  function Pow10(k: nat): nat { if k == 0 then 1 else 10 * Pow10(k - 1) }

  lemma {:induction false} DecimalLength(n: nat, k: nat)
    requires k > 0 && n < Pow10(k)
    ensures |Decimal(n)| <= k
  {
    if n >= 10 {
      assert Pow10(1) == 10 * Pow10(0);
      DecimalLength(n / 10, k - 1);
    }
  }

  /** A 64-bit number takes at most twenty digits. */
  lemma DecimalLengthU64(n: uint64)
    ensures |Decimal(n)| <= 20
  {
    assert Pow10(4) == 10_000;
    assert Pow10(8) == 100_000_000;
    assert Pow10(12) == 1_000_000_000_000;
    assert Pow10(16) == 10_000_000_000_000_000;
    DecimalLength(n, 20);
  }

  /** The `%d` verb on any number. */
  function DecimalInt(i: int): Bytes {
    if i < 0 then "-" + Decimal(-i) else Decimal(i)
  }

  /** `strconv.ParseInt(s, 10, 64)` and `strconv.Atoi(s)`. */
  function ParseInt(s: string): Option<int64> {
    var signed := s != [] && (s[0] == '-' || s[0] == '+');
    var digits := if signed then s[1..] else s;
    if digits == [] || !AllDigits(digits) then None
    else
      var magnitude: int := Value(digits);
      var v := if signed && s[0] == '-' then -magnitude else magnitude;
      if -TWO_63 <= v < TWO_63 then Some(v) else None
  }

  lemma ParseDecimalInt(i: int64)
    ensures ParseInt(DecimalInt(i)) == Some(i)
  {
    if i < 0 {
      var magnitude: int := i;
      DecimalValue(-magnitude);
      assert DecimalInt(i)[1..] == Decimal(-magnitude);
    } else {
      DecimalValue(i);
      assert IsDigit(Decimal(i)[0]);
    }
  }

  lemma DecimalIntChars(i: int)
    ensures |DecimalInt(i)| > 0 && (DecimalInt(i)[0] == '-' <==> i < 0)
    ensures forall c <- DecimalInt(i) :: IsDigit(c) || c == '-'
  {
    if i < 0 {
      DecimalValue(-i);
    } else {
      DecimalValue(i);
      assert IsDigit(Decimal(i)[0]);
    }
  }

  lemma DecimalIntInjective(i: int, j: int)
    requires DecimalInt(i) == DecimalInt(j)
    ensures i == j
  {
    DecimalIntChars(i);
    DecimalIntChars(j);
    if i < 0 {
      DecimalValue(-i);
      DecimalValue(-j);
      assert Decimal(-i) == DecimalInt(i)[1..] == DecimalInt(j)[1..] == Decimal(-j);
    } else {
      DecimalValue(i);
      DecimalValue(j);
    }
  }

  // ---------- searching ----------

  /** Length of the longest prefix of `s` whose characters all satisfy `p`. */
  function Span(s: string, p: char -> bool): (n: nat)
    ensures n <= |s|
    ensures forall i | 0 <= i < n :: p(s[i])
    ensures n < |s| ==> !p(s[n])
  {
    if s == [] || !p(s[0]) then 0 else 1 + Span(s[1..], p)
  }

  lemma {:induction false} SpanOf(a: string, b: string, p: char -> bool)
    requires forall c <- a :: p(c)
    requires b != [] ==> !p(b[0])
    ensures Span(a + b, p) == |a|
  {
    if a == [] {
      assert a + b == b;
    } else {
      assert (a + b)[1..] == a[1..] + b;
      SpanOf(a[1..], b, p);
    }
  }

  lemma UniqueSplit(a: string, b: string, c: string, d: string, x: char)
    requires x !in a && x !in c && a + ([x] + b) == c + ([x] + d)
    ensures a == c && b == d
  {
    var s := a + ([x] + b);
    var other := (y: char) => y != x;
    SpanOf(a, [x] + b, other);
    SpanOf(c, [x] + d, other);
    assert a == s[..|a|] == c;
    assert b == s[|a| + 1..] == d;
  }

  /** `strings.LastIndex(s, ".")`. */
  function LastDot(s: string): (i: int)
    ensures -1 <= i < |s|
    ensures i >= 0 ==> s[i] == '.'
    ensures forall j | i < j < |s| :: s[j] != '.'
  {
    if s == [] then -1
    else if s[|s| - 1] == '.' then |s| - 1
    else LastDot(s[..|s| - 1])
  }

  // ---------- letter case ----------

  function LowerChar(c: char): char {
    if 'A' <= c <= 'Z' then (c as int + 32) as char else c
  }

  /** `strings.ToLower` on ASCII letters. */
  function ToLower(s: string): (r: string)
    ensures |r| == |s|
    ensures forall i | 0 <= i < |s| :: r[i] == LowerChar(s[i])
  {
    seq(|s|, i requires 0 <= i < |s| => LowerChar(s[i]))
  }

  const CAPITALS: string := "ABCDEFGHIJKLMNOPQRSTUVWXYZ"
  const SMALL_LETTERS: string := "abcdefghijklmnopqrstuvwxyz"

  /** The two cases of one letter, in either order. */
  predicate CasesOf(a: char, b: char, i: nat)
    requires i < 26
  {
    (a == CAPITALS[i] && b == SMALL_LETTERS[i]) || (a == SMALL_LETTERS[i] && b == CAPITALS[i])
  }

  /** The same character, or the two cases of one letter. */
  predicate SameLetter(a: char, b: char) { a == b || exists i | 0 <= i < 26 :: CasesOf(a, b, i) }

  lemma Alphabets(i: nat)
    requires i < 26
    ensures CAPITALS[i] as int == 'A' as int + i && SMALL_LETTERS[i] as int == 'a' as int + i
  {
  }

  lemma CasesLower(a: char, b: char, i: nat)
    requires i < 26
    ensures CasesOf(a, b, i) <==> a != b && LowerChar(a) == LowerChar(b) && LowerChar(a) as int == 'a' as int + i
  {
    Alphabets(i);
  }

  lemma LettersOnce(a: char, b: char)
    ensures LowerChar(a) == LowerChar(b) <==> SameLetter(a, b)
  {
    if LowerChar(a) == LowerChar(b) && a != b {
      CasesLower(a, b, LowerChar(a) as int - 'a' as int);
    }
    if i: nat :| i < 26 && CasesOf(a, b, i) {
      CasesLower(a, b, i);
    }
  }

  /** The same text up to letter case: exactly then lowering both gives the same. */
  predicate SameText(s: string, t: string): (r: bool)
    ensures r <==> ToLower(s) == ToLower(t)
  {
    SameTextIff(s, t);
    |s| == |t| && forall i | 0 <= i < |s| :: SameLetter(s[i], t[i])
  }

  lemma SameTextIff(s: string, t: string)
    ensures ToLower(s) == ToLower(t) <==> |s| == |t| && forall i | 0 <= i < |s| :: SameLetter(s[i], t[i])
  {
    if |s| == |t| {
      forall i | 0 <= i < |s| ensures ToLower(s)[i] == ToLower(t)[i] <==> SameLetter(s[i], t[i]) {
        LettersOnce(s[i], t[i]);
      }
    }
  }

  // ---------- lines ----------

  function DropCR(line: Bytes): Bytes {
    if line != [] && line[|line| - 1] == '\r' then line[..|line| - 1] else line
  }

  /** Where the first line ends: the index of the first newline, or the length of the text. */
  function LineEnd(text: Bytes): (n: nat)
    ensures n <= |text|
  {
    Span(text, c => c != '\n')
  }

  /** The tokens of a `bufio.Scanner` with its default line splitter. */
  function Lines(text: Bytes): seq<Bytes> {
    if text == [] then []
    else
      var i := LineEnd(text);
      if i == |text| then [DropCR(text)] else [DropCR(text[..i])] + Lines(text[i + 1..])
  }

  const NEWLINE: Bytes := "\n"

  /** Every line followed by a newline. */
  function Unlines(lines: seq<Bytes>): Bytes {
    if lines == [] then [] else lines[0] + NEWLINE + Unlines(lines[1..])
  }

  /** The lines joined by newlines, none after the last. */
  function Join(lines: seq<Bytes>): Bytes {
    if lines == [] then []
    else if |lines| == 1 then lines[0]
    else lines[0] + NEWLINE + Join(lines[1..])
  }

  /** A line that a scanner returns as it was written. */
  predicate CleanLine(line: Bytes) {
    '\n' !in line && (line == [] || line[|line| - 1] != '\r')
  }

  predicate CleanLines(lines: seq<Bytes>) { forall i | 0 <= i < |lines| :: CleanLine(lines[i]) }

  lemma FirstLine(line: Bytes, more: Bytes)
    requires CleanLine(line)
    ensures Lines(line + NEWLINE + more) == [line] + Lines(more)
  {
    var text := line + NEWLINE + more;
    assert text == line + (NEWLINE + more);
    SpanOf(line, NEWLINE + more, c => c != '\n');
    assert LineEnd(text) == |line|;
    assert text[..|line|] == line && text[|line| + 1..] == more;
  }

  lemma {:induction false} LinesOfUnlines(lines: seq<Bytes>, rest: Bytes)
    requires CleanLines(lines)
    ensures Lines(Unlines(lines) + rest) == lines + Lines(rest)
  {
    if lines == [] {
      assert Unlines(lines) + rest == rest;
    } else {
      var tail := Unlines(lines[1..]);
      Regroup(lines[0], NEWLINE, tail, rest);
      FirstLine(lines[0], tail + rest);
      LinesOfUnlines(lines[1..], rest);
      HeadTail(lines, Lines(rest));
    }
  }

  lemma {:induction false} UnlinesConcat(a: seq<Bytes>, b: seq<Bytes>)
    ensures Unlines(a + b) == Unlines(a) + Unlines(b)
  {
    if a == [] {
      assert a + b == b;
    } else {
      assert (a + b)[1..] == a[1..] + b;
      UnlinesConcat(a[1..], b);
    }
  }

  lemma {:induction false} JoinNewline(lines: seq<Bytes>)
    requires lines != []
    ensures Join(lines) + NEWLINE == Unlines(lines)
  {
    if |lines| > 1 {
      JoinNewline(lines[1..]);
      assert Join(lines) + NEWLINE == lines[0] + NEWLINE + (Join(lines[1..]) + NEWLINE);
    }
  }
}
