/**
 * The text `parseInput` reads: one line per port, the line's costs separated by
 * tabs and closed by a carriage return and a line feed; a cost is a decimal integer
 * or "NA" for a trip that cannot be made.
 */
module InputFormat {
  import opened JavaInt

  // ---------------------------------------------------------------------------
  // String searching, as `String.indexOf(char)` does it
  // ---------------------------------------------------------------------------

  /** The first index of ch in s, or -1 when s does not contain it. */
  function IndexOf(s: string, ch: char): (i: int)
    ensures -1 <= i < |s|
    ensures 0 <= i ==> s[i] == ch && forall k :: 0 <= k < i ==> s[k] != ch
    ensures i == -1 ==> forall k :: 0 <= k < |s| ==> s[k] != ch
  {
    if |s| == 0 then -1
    else if s[0] == ch then 0
    else
      var j := IndexOf(s[1..], ch);
      if j < 0 then -1 else j + 1
  }

  /** In a string whose first ch follows a prefix free of ch, `indexOf` finds that ch. */
  lemma IndexOfFirst(prefix: string, ch: char, rest: string)
    requires forall k :: 0 <= k < |prefix| ==> prefix[k] != ch
    ensures IndexOf(prefix + [ch] + rest, ch) == |prefix|
  {
    var s := prefix + [ch] + rest;
    assert s[|prefix|] == ch;
    assert forall k :: 0 <= k < |prefix| ==> s[k] == prefix[k];
  }

  /** How many times ch occurs in s. */
  function CountOf(s: string, ch: char): nat
  {
    if |s| == 0 then 0 else CountOf(s[..|s| - 1], ch) + (if s[|s| - 1] == ch then 1 else 0)
  }

  /** Counting distributes over concatenation. */
  lemma {:induction false} CountOfAppend(a: string, b: string, ch: char)
    ensures CountOf(a + b, ch) == CountOf(a, ch) + CountOf(b, ch)
    decreases |b|
  {
    if |b| > 0 {
      var b' := b[..|b| - 1];
      assert (a + b)[..|a + b| - 1] == a + b';
      CountOfAppend(a, b', ch);
    } else {
      assert a + b == a;
    }
  }

  /** A string without ch counts no ch. */
  lemma {:induction false} CountOfAbsent(s: string, ch: char)
    requires forall k :: 0 <= k < |s| ==> s[k] != ch
    ensures CountOf(s, ch) == 0
    decreases |s|
  {
    if |s| > 0 {
      CountOfAbsent(s[..|s| - 1], ch);
    }
  }

  // ---------------------------------------------------------------------------
  // Numbers, as `Integer.parseInt` reads them and `StringBuilder.append(int)` writes them
  // ---------------------------------------------------------------------------

  predicate IsDigit(ch: char) {
    '0' <= ch <= '9'
  }

  predicate AllDigits(s: string) {
    forall k :: 0 <= k < |s| ==> IsDigit(s[k])
  }

  /** The value of a string of decimal digits, most significant first. */
  function DigitsValue(s: string): nat
    requires AllDigits(s)
  {
    if |s| == 0 then 0 else DigitsValue(s[..|s| - 1]) * 10 + (s[|s| - 1] as int - '0' as int)
  }

  /**
   * The shape of a decimal `Integer.parseInt` reads, for ASCII digits: an optional
   * sign, then at least one digit. The 32-bit range check is `IsField`'s.
   */
  predicate IsDecimal(s: string) {
    if 0 < |s| && (s[0] == '-' || s[0] == '+') then 1 < |s| && AllDigits(s[1..])
    else 0 < |s| && AllDigits(s)
  }

  /** The integer a decimal string denotes. */
  function ParseInt(s: string): int
    requires IsDecimal(s)
  {
    if s[0] == '-' then -(DigitsValue(s[1..]) as int)
    else if s[0] == '+' then DigitsValue(s[1..])
    else DigitsValue(s)
  }

  /** The decimal digits of n, without leading zeros. */
  function Digits(n: nat): (s: string)
    ensures 0 < |s| && AllDigits(s)
  {
    if n < 10 then [('0' as int + n) as char]
    else Digits(n / 10) + [('0' as int + n % 10) as char]
  }

  /** The text an `int` is written as: a minus sign for a negative value, then its digits. */
  function Decimal(x: int): string
  {
    if x < 0 then "-" + Digits(-x) else Digits(x)
  }

  /** Reading back the digits of n gives n. */
  lemma {:induction false} DigitsRoundTrip(n: nat)
    ensures DigitsValue(Digits(n)) == n
  {
    if n >= 10 {
      var s := Digits(n);
      assert s[..|s| - 1] == Digits(n / 10);
      DigitsRoundTrip(n / 10);
    }
  }

  /** The decimal writer and the digit reader invert each other, on every integer. */
  lemma ParseIntRoundTrip(x: int)
    ensures IsDecimal(Decimal(x)) && ParseInt(Decimal(x)) == x
  {
    if x < 0 {
      assert Decimal(x)[1..] == Digits(-x);
      DigitsRoundTrip(-x);
    } else {
      DigitsRoundTrip(x);
    }
  }

  // ---------------------------------------------------------------------------
  // Fields, lines and the whole input
  // ---------------------------------------------------------------------------

  /** One cost of the input: "NA", or a decimal that fits an `int`. */
  predicate IsField(f: string) {
    f == "NA" || (IsDecimal(f) && MIN_VALUE <= ParseInt(f) <= MAX_VALUE)
  }

  /** The cost a field stands for: `Integer.MAX_VALUE` for "NA", otherwise its value. */
  function FieldValue(f: string): int32
    requires IsField(f)
  {
    if f == "NA" then MAX_VALUE else ParseInt(f)
  }

  /** The text a cost is written as: "NA" for the sentinel, its decimal otherwise. */
  function FieldText(v: int32): string
  {
    if v == MAX_VALUE then "NA" else Decimal(v)
  }

  /** Writing a cost and reading it back gives the same cost. */
  lemma FieldRoundTrip(v: int32)
    ensures IsField(FieldText(v)) && FieldValue(FieldText(v)) == v
  {
    ParseIntRoundTrip(v);
    if v != MAX_VALUE {
      assert FieldText(v)[0] == '-' || IsDigit(FieldText(v)[0]);
    }
  }

  /** A field holds no tab, carriage return or line feed. */
  lemma FieldHasNoSeparator(f: string)
    requires IsField(f)
    ensures 0 < |f|
    ensures forall k :: 0 <= k < |f| ==> f[k] != '\t' && f[k] != '\r' && f[k] != '\n'
  {
    if f != "NA" && 0 < |f| && (f[0] == '-' || f[0] == '+') {
      forall k | 1 <= k < |f| ensures IsDigit(f[k]) {
        assert f[1..][k - 1] == f[k];
      }
    }
  }

  predicate AllFields(fields: seq<string>) {
    forall c :: 0 <= c < |fields| ==> IsField(fields[c])
  }

  /** One line of the input: the fields separated by tabs, closed by a carriage return. */
  function Line(fields: seq<string>): string
    requires 0 < |fields|
  {
    if |fields| == 1 then fields[0] + "\r" else fields[0] + "\t" + Line(fields[1..])
  }

  /** The whole input: every line followed by a line feed. */
  function Text(grid: seq<seq<string>>): string
    requires forall r :: 0 <= r < |grid| ==> 0 < |grid[r]|
  {
    if |grid| == 0 then "" else Line(grid[0]) + "\n" + Text(grid[1..])
  }

  /**
   * The inputs `parseInput` handles: at least one line, no more lines than the
   * first line has fields, no line longer than the first, and every field a cost.
   */
  predicate IsGrid(grid: seq<seq<string>>) {
    && 0 < |grid| && |grid| <= |grid[0]|
    && (forall r :: 0 <= r < |grid| ==> 0 < |grid[r]| <= |grid[0]|)
    && (forall r :: 0 <= r < |grid| ==> AllFields(grid[r]))
  }

  /** A line holds no line feed. */
  lemma {:induction false} LineHasNoLineFeed(fields: seq<string>)
    requires 0 < |fields| && AllFields(fields)
    ensures forall k :: 0 <= k < |Line(fields)| ==> Line(fields)[k] != '\n'
    decreases |fields|
  {
    FieldHasNoSeparator(fields[0]);
    if |fields| > 1 {
      LineHasNoLineFeed(fields[1..]);
    }
  }

  /** A line of n fields holds n - 1 tabs. */
  lemma {:induction false} LineTabs(fields: seq<string>)
    requires 0 < |fields| && AllFields(fields)
    ensures CountOf(Line(fields), '\t') == |fields| - 1
    decreases |fields|
  {
    FieldHasNoSeparator(fields[0]);
    CountOfAbsent(fields[0], '\t');
    if |fields| == 1 {
      CountOfAppend(fields[0], "\r", '\t');
      assert CountOf("\r", '\t') == 0;
    } else {
      LineTabs(fields[1..]);
      CountOfAppend(fields[0], "\t", '\t');
      assert CountOf("\t", '\t') == 1;
      CountOfAppend(fields[0] + "\t", Line(fields[1..]), '\t');
    }
  }

  /**
   * The split the inner loop of `parseInput` makes: the first tab, if it is not at
   * index 0, or else the carriage return, ends the first field, and what follows it
   * is the line of the remaining fields (nothing after the last field).
   */
  lemma LineSplit(fields: seq<string>)
    requires 0 < |fields| && AllFields(fields)
    ensures var line := Line(fields);
      var ci := if IndexOf(line, '\t') > 0 then IndexOf(line, '\t') else IndexOf(line, '\r');
      && ci == |fields[0]|
      && line[..ci] == fields[0]
      && line[ci + 1..] == if |fields| == 1 then "" else Line(fields[1..])
  {
    var f := fields[0];
    FieldHasNoSeparator(f);
    if |fields| == 1 {
      IndexOfFirst(f, '\r', "");
      assert Line(fields) == f + ['\r'] + "";
    } else {
      IndexOfFirst(f, '\t', Line(fields[1..]));
      assert Line(fields) == f + ['\t'] + Line(fields[1..]);
    }
  }

  /**
   * The split the outer loop of `parseInput` makes: the first line feed ends the
   * first line, and what follows it is the text of the remaining lines.
   */
  lemma TextSplit(grid: seq<seq<string>>)
    requires 0 < |grid| && forall r :: 0 <= r < |grid| ==> 0 < |grid[r]| && AllFields(grid[r])
    ensures var text := Text(grid);
      var nl := IndexOf(text, '\n');
      && nl == |Line(grid[0])|
      && text[..nl] == Line(grid[0])
      && text[nl + 1..] == Text(grid[1..])
  {
    var line := Line(grid[0]);
    LineHasNoLineFeed(grid[0]);
    IndexOfFirst(line, '\n', Text(grid[1..]));
    assert Text(grid) == line + ['\n'] + Text(grid[1..]);
  }
}
