/**
 * `formatMatrix` of script.js (lines 180-182): each row's numbers in decimal
 * joined by single spaces, the rows joined by newlines, no trailing newline.
 * Its partner is a parser; the two are proved to round-trip.
 */
module Format {
  import opened Matrices

  function DigitChar(d: nat): (c: char)
    requires d < 10
    ensures '0' <= c <= '9'
  {
    "0123456789"[d]
  }

  function DigitValue(c: char): int
  {
    c as int - '0' as int
  }

  /** Decimal digits of `n` without leading zeros, as JavaScript prints a non-negative integer below 10^21. */
  function NatToString(n: nat): (s: string)
    ensures |s| > 0
    ensures forall k :: 0 <= k < |s| ==> '0' <= s[k] <= '9'
    ensures s[0] == '0' ==> n == 0
  {
    if n < 10 then [DigitChar(n)] else NatToString(n / 10) + [DigitChar(n % 10)]
  }

  /**
   * An integer as JavaScript prints it when its magnitude is below 10^21 (the
   * weights here are at most 400): a minus sign before a negative one.
   */
  function IntToString(x: int): (s: string)
    ensures |s| > 0
    ensures (s[0] == '-') == (x < 0)
    ensures forall k :: (if x < 0 then 1 else 0) <= k < |s| ==> '0' <= s[k] <= '9'
    ensures s[0] == '0' ==> x == 0
    ensures x < 0 ==> |s| > 1 && s[1] != '0'
    ensures forall k :: 0 <= k < |s| ==> s[k] != ' ' && s[k] != '\n'
  {
    if x < 0 then "-" + NatToString(-x) else NatToString(x)
  }

  /** `parts.join(sep)`: empty for no parts, the parts separated by `sep` otherwise. */
  function Join(parts: seq<string>, sep: char): (r: string)
    ensures |parts| == 0 ==> r == ""
    ensures |parts| > 0 ==> parts[0] <= r
    ensures |parts| > 1 ==> |parts[0]| < |r| && r[|parts[0]|] == sep
  {
    if |parts| == 0 then ""
    else if |parts| == 1 then parts[0]
    else parts[0] + [sep] + Join(parts[1..], sep)
  }

  /** `row.join(' ')`: one line, empty exactly when the row is. */
  function FormatRow(row: seq<int>): (line: string)
    ensures '\n' !in line
    ensures line == "" <==> |row| == 0
  {
    var parts := seq(|row|, j requires 0 <= j < |row| => IntToString(row[j]));
    JoinAvoids(parts, ' ', '\n');
    Join(parts, ' ')
  }

  /** `matrix.map(row => row.join(' ')).join('\n')`: empty without rows, starting with the first row otherwise. */
  function FormatMatrix(m: Matrix): (text: string)
    ensures |m| == 0 ==> text == ""
    ensures |m| > 0 ==> FormatRow(m[0]) <= text
  {
    Join(seq(|m|, i requires 0 <= i < |m| => FormatRow(m[i])), '\n')
  }

  // ---------------------------------------------------------------------
  // The parser the formatter is checked against

  function ParseNat(s: string): int
  {
    if |s| == 0 then 0 else ParseNat(s[..|s| - 1]) * 10 + DigitValue(s[|s| - 1])
  }

  function ParseInt(s: string): int
  {
    if |s| > 0 && s[0] == '-' then -ParseNat(s[1..]) else ParseNat(s)
  }

  /** `s.split(sep)`: the pieces between separators; always at least one. */
  function Split(s: string, sep: char): (parts: seq<string>)
    ensures |parts| > 0
  {
    if |s| == 0 then [""]
    else
      var rest := Split(s[1..], sep);
      if s[0] == sep then [""] + rest else [[s[0]] + rest[0]] + rest[1..]
  }

  function ParseRow(line: string): seq<int>
  {
    var parts := Split(line, ' ');
    seq(|parts|, j requires 0 <= j < |parts| => ParseInt(parts[j]))
  }

  function ParseMatrix(text: string): Matrix
  {
    var lines := Split(text, '\n');
    seq(|lines|, i requires 0 <= i < |lines| => ParseRow(lines[i]))
  }

  // ---------------------------------------------------------------------
  // Round trips

  lemma {:induction false} NatRoundTrip(n: nat)
    ensures ParseNat(NatToString(n)) == n
  {
    if n >= 10 {
      NatRoundTrip(n / 10);
      var s := NatToString(n);
      assert s[..|s| - 1] == NatToString(n / 10);
    }
  }

  lemma IntRoundTrip(x: int)
    ensures ParseInt(IntToString(x)) == x
  {
    NatRoundTrip(if x < 0 then -x else x);
    if x < 0 {
      assert IntToString(x)[1..] == NatToString(-x);
    }
  }

  lemma {:induction false} SplitNoSeparator(p: string, sep: char)
    requires sep !in p
    ensures Split(p, sep) == [p]
  {
    if |p| > 0 {
      SplitNoSeparator(p[1..], sep);
      assert [p[0]] + p[1..] == p;
    }
  }

  lemma {:induction false} SplitAfterPiece(p: string, sep: char, s: string)
    requires sep !in p
    ensures Split(p + [sep] + s, sep) == [p] + Split(s, sep)
  {
    if |p| == 0 {
      assert p + [sep] + s == [sep] + s;
      assert ([sep] + s)[1..] == s;
    } else {
      SplitAfterPiece(p[1..], sep, s);
      assert (p + [sep] + s)[1..] == p[1..] + [sep] + s;
      assert [p[0]] + p[1..] == p;
    }
  }

  /** Splitting a join gives back the parts, as long as no part holds the separator. */
  lemma {:induction false} SplitJoin(parts: seq<string>, sep: char)
    requires |parts| > 0 && forall i :: 0 <= i < |parts| ==> sep !in parts[i]
    ensures Split(Join(parts, sep), sep) == parts
  {
    if |parts| == 1 {
      SplitNoSeparator(parts[0], sep);
    } else {
      SplitJoin(parts[1..], sep);
      SplitAfterPiece(parts[0], sep, Join(parts[1..], sep));
      assert [parts[0]] + parts[1..] == parts;
    }
  }

  lemma {:induction false} JoinAvoids(parts: seq<string>, sep: char, c: char)
    requires c != sep && forall i :: 0 <= i < |parts| ==> c !in parts[i]
    ensures c !in Join(parts, sep)
  {
    if |parts| > 1 {
      JoinAvoids(parts[1..], sep, c);
    }
  }

  /** A formatted row parses back to the row, when it is not empty. */
  lemma RowRoundTrip(row: seq<int>)
    requires |row| > 0
    ensures '\n' !in FormatRow(row)
    ensures ParseRow(FormatRow(row)) == row
  {
    var parts := seq(|row|, j requires 0 <= j < |row| => IntToString(row[j]));
    JoinAvoids(parts, ' ', '\n');
    SplitJoin(parts, ' ');
    forall j | 0 <= j < |row| ensures ParseInt(parts[j]) == row[j] {
      IntRoundTrip(row[j]);
    }
  }

  /**
   * The text has exactly one line per row (so no trailing newline), and it
   * parses back to the matrix when there is a row and no row is empty.
   */
  lemma MatrixRoundTrip(m: Matrix)
    requires |m| > 0 && forall i :: 0 <= i < |m| ==> |m[i]| > 0
    ensures Split(FormatMatrix(m), '\n') == seq(|m|, i requires 0 <= i < |m| => FormatRow(m[i]))
    ensures ParseMatrix(FormatMatrix(m)) == m
  {
    var lines := seq(|m|, i requires 0 <= i < |m| => FormatRow(m[i]));
    forall i | 0 <= i < |m| ensures '\n' !in lines[i] && ParseRow(lines[i]) == m[i] {
      RowRoundTrip(m[i]);
    }
    SplitJoin(lines, '\n');
  }
}
