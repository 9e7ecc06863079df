/**
  The parts of Go's `strings` and `strconv` packages that the validator
  relies on, written as functions over `string` (a `seq<char>` of Unicode
  scalar values) together with the properties that pin each one down:
  `Split` and `Join` are mutual inverses, `TrimLeftMeaning` and
  `SplitN2Meaning` characterise what trimming and cutting keep, and `Atoi`
  inverts `Itoa` on the 64-bit range.
 */
module GoStrings {
  import opened Options

  const Int64Min: int := -0x8000_0000_0000_0000
  const Int64Max: int := 0x7FFF_FFFF_FFFF_FFFF

  /** Go's `int` on a 64-bit platform. */
  type Int64 = x: int | Int64Min <= x <= Int64Max

  // ---------------------------------------------------------------------
  // strings.Split and strings.Join
  // ---------------------------------------------------------------------

  /** `strings.Split(s, string(sep))`: the pieces of `s` between occurrences
      of `sep`; always at least one piece, `Split("", sep) == [""]`. */
  function Split(s: string, sep: char): (parts: seq<string>)
    ensures |parts| >= 1
  {
    if |s| == 0 then [""]
    else
      var rest := Split(s[1..], sep);
      if s[0] == sep then [""] + rest
      else [[s[0]] + rest[0]] + rest[1..]
  }

  /** No piece holds the separator. */
  lemma {:induction false} SplitPieces(s: string, sep: char)
    ensures forall i :: 0 <= i < |Split(s, sep)| ==> sep !in Split(s, sep)[i]
  {
    if |s| > 0 {
      SplitPieces(s[1..], sep);
      var rest := Split(s[1..], sep);
      if s[0] != sep {
        assert sep !in [s[0]] + rest[0];
        assert forall i :: 1 <= i < |rest| ==> Split(s, sep)[i] == rest[i];
      } else {
        assert forall i :: 1 <= i < |rest| + 1 ==> Split(s, sep)[i] == rest[i - 1];
      }
    }
  }

  /** `strings.Join(parts, sep)`. */
  function Join(parts: seq<string>, sep: string): string
  {
    if |parts| == 0 then ""
    else if |parts| == 1 then parts[0]
    else parts[0] + sep + Join(parts[1..], sep)
  }

  lemma JoinCons(x: string, xs: seq<string>, sep: string)
    requires |xs| >= 1
    ensures Join([x] + xs, sep) == x + sep + Join(xs, sep)
  {
    assert ([x] + xs)[1..] == xs;
  }

  /** Joining the pieces with the separator gives back the original text. */
  lemma {:induction false} JoinSplit(s: string, sep: char)
    ensures Join(Split(s, sep), [sep]) == s
  {
    if |s| > 0 {
      var rest := Split(s[1..], sep);
      JoinSplit(s[1..], sep);
      if s[0] == sep {
        JoinCons("", rest, [sep]);
        assert Join(Split(s, sep), [sep]) == [sep] + s[1..];
      } else {
        var first := [s[0]] + rest[0];
        if |rest| == 1 {
          assert Split(s, sep) == [first];
        } else {
          assert rest == [rest[0]] + rest[1..];
          JoinCons(rest[0], rest[1..], [sep]);
          JoinCons(first, rest[1..], [sep]);
          assert Split(s, sep) == [first] + rest[1..];
        }
      }
      assert [s[0]] + s[1..] == s;
    }
  }

  /** Text without the separator in front of any remainder only extends
      the first piece of the remainder. */
  lemma {:induction false} SplitPrefix(x: string, y: string, sep: char)
    requires sep !in x
    ensures Split(x + y, sep) == [x + Split(y, sep)[0]] + Split(y, sep)[1..]
  {
    if |x| > 0 {
      assert (x + y)[1..] == x[1..] + y;
      SplitPrefix(x[1..], y, sep);
      assert [x[0]] + (x[1..] + Split(y, sep)[0]) == x + Split(y, sep)[0];
    } else {
      assert x + y == y;
      assert x + Split(y, sep)[0] == Split(y, sep)[0];
      assert Split(y, sep) == [Split(y, sep)[0]] + Split(y, sep)[1..];
    }
  }

  /** Splitting a join of separator-free pieces gives back the pieces. */
  lemma {:induction false} SplitJoin(parts: seq<string>, sep: char)
    requires |parts| >= 1
    requires forall i :: 0 <= i < |parts| ==> sep !in parts[i]
    ensures Split(Join(parts, [sep]), sep) == parts
  {
    if |parts| == 1 {
      SplitPrefix(parts[0], "", sep);
      assert parts[0] + "" == parts[0];
    } else {
      var tail := parts[1..];
      SplitJoin(tail, sep);
      var j := Join(tail, [sep]);
      assert Join(parts, [sep]) == parts[0] + ([sep] + j);
      SplitPrefix(parts[0], [sep] + j, sep);
      assert ([sep] + j)[1..] == j;
      assert Split([sep] + j, sep) == [""] + tail;
      assert Split([sep] + j, sep)[0] == "" && Split([sep] + j, sep)[1..] == tail;
      assert parts[0] + "" == parts[0];
      assert parts == [parts[0]] + tail;
    }
  }

  /** Two non-empty lists joined together are joined with one separator
      between them. */
  lemma {:induction false} JoinAppend(a: seq<string>, b: seq<string>, sep: string)
    requires |a| >= 1 && |b| >= 1
    ensures Join(a + b, sep) == Join(a, sep) + sep + Join(b, sep)
  {
    if |a| == 1 {
      JoinCons(a[0], b, sep);
      assert a + b == [a[0]] + b;
    } else {
      JoinAppend(a[1..], b, sep);
      assert (a + b)[1..] == a[1..] + b;
    }
  }

  // ---------------------------------------------------------------------
  // strings.TrimLeft and strings.SplitN(s, sep, 2)
  // ---------------------------------------------------------------------

  /** `strings.TrimLeft(s, string(cut))`: drops the longest prefix made of
      `cut` only. */
  function TrimLeft(s: string, cut: char): (r: string)
    ensures |r| <= |s|
  {
    if |s| > 0 && s[0] == cut then TrimLeft(s[1..], cut) else s
  }

  /** What TrimLeft keeps is a suffix of its input that does not start with
      `cut`, and what it drops is made of `cut` only. */
  lemma {:induction false} TrimLeftMeaning(s: string, cut: char)
    ensures TrimLeft(s, cut) == s[|s| - |TrimLeft(s, cut)|..]
    ensures forall i :: 0 <= i < |s| - |TrimLeft(s, cut)| ==> s[i] == cut
    ensures TrimLeft(s, cut) == [] || TrimLeft(s, cut)[0] != cut
  {
    if |s| > 0 && s[0] == cut {
      TrimLeftMeaning(s[1..], cut);
      assert forall i :: 1 <= i < |s| ==> s[i] == s[1..][i - 1];
    }
  }

  /** The position of the first `c` in `s`. */
  function IndexOf(s: string, c: char): (i: nat)
    requires c in s
    ensures i < |s| && s[i] == c && c !in s[..i]
  {
    if s[0] == c then 0 else 1 + IndexOf(s[1..], c)
  }

  /** `strings.SplitN(s, string(sep), 2)`: the whole of `s` when it holds no
      `sep`, otherwise the text before and after the first `sep`. */
  function SplitN2(s: string, sep: char): (parts: seq<string>)
    ensures |parts| == 1 || |parts| == 2
  {
    if sep !in s then [s]
    else
      var i := IndexOf(s, sep);
      [s[..i], s[i + 1..]]
  }

  /** SplitN2 cuts exactly when there is a separator, at the first one. */
  lemma SplitN2Meaning(s: string, sep: char)
    ensures |SplitN2(s, sep)| == 1 <==> sep !in s
    ensures |SplitN2(s, sep)| == 1 ==> SplitN2(s, sep)[0] == s
    ensures |SplitN2(s, sep)| == 2 ==>
      sep !in SplitN2(s, sep)[0] && s == SplitN2(s, sep)[0] + [sep] + SplitN2(s, sep)[1]
  {
    if sep in s {
      var i := IndexOf(s, sep);
      assert s == s[..i] + [sep] + s[i + 1..];
    }
  }

  /** Cutting at the first separator undoes putting one after a
      separator-free first part. */
  lemma SplitN2Join(x: string, y: string, sep: char)
    requires sep !in x
    ensures SplitN2(x + [sep] + y, sep) == [x, y]
  {
    IndexOfJoin(x, y, sep);
    var s := x + [sep] + y;
    assert s[..|x|] == x && s[|x| + 1..] == y;
  }

  lemma {:induction false} IndexOfJoin(x: string, y: string, sep: char)
    requires sep !in x
    ensures sep in x + [sep] + y && IndexOf(x + [sep] + y, sep) == |x|
  {
    var s := x + [sep] + y;
    assert s[|x|] == sep;
    if |x| > 0 {
      assert s[1..] == x[1..] + [sep] + y;
      IndexOfJoin(x[1..], y, sep);
    }
  }

  // ---------------------------------------------------------------------
  // strconv.Atoi and strconv.Itoa
  // ---------------------------------------------------------------------

  predicate IsDigit(c: char) { '0' <= c <= '9' }

  function DigitValue(c: char): (d: nat)
    requires IsDigit(c)
    ensures d <= 9
  {
    c as int - '0' as int
  }

  predicate AllDigits(s: string) { forall i :: 0 <= i < |s| ==> IsDigit(s[i]) }

  /** The value of a run of decimal digits, most significant first. */
  function DecimalValue(s: string): nat
    requires AllDigits(s)
  {
    if |s| == 0 then 0 else 10 * DecimalValue(s[..|s| - 1]) + DigitValue(s[|s| - 1])
  }

  /** The grammar Atoi accepts: an optional `+` or `-` and then one or more
      decimal digits. */
  predicate IsDecimalLiteral(s: string)
  {
    var start := if |s| > 0 && (s[0] == '+' || s[0] == '-') then 1 else 0;
    start < |s| && forall i :: start <= i < |s| ==> IsDigit(s[i])
  }

  /** `strconv.Atoi`: `None` stands for a non-nil error, both the syntax
      error and the out-of-range error. */
  function Atoi(s: string): (r: Option<Int64>)
    ensures r.Some? ==> IsDecimalLiteral(s)
  {
    if |s| == 0 then None
    else
      var digits := if s[0] == '+' || s[0] == '-' then s[1..] else s;
      if |digits| == 0 || !AllDigits(digits) then None
      else
        var v: int := DecimalValue(digits);
        var m := if s[0] == '-' then -v else v;
        if Int64Min <= m <= Int64Max then Some(m) else None
  }

  /** Text that is not an optionally signed run of digits never parses. */
  lemma AtoiRejectsNonLiterals(s: string)
    requires !IsDecimalLiteral(s)
    ensures Atoi(s) == None
  {
  }

  /** A literal parses to its signed digit value exactly when that value
      fits in 64 bits. */
  lemma AtoiOfLiteral(s: string)
    requires IsDecimalLiteral(s)
    ensures var start := if s[0] == '+' || s[0] == '-' then 1 else 0;
      var v: int := DecimalValue(s[start..]);
      var m := if s[0] == '-' then -v else v;
      Atoi(s) == if Int64Min <= m <= Int64Max then Some(m) else None
  {
  }

  function DigitChar(d: nat): (c: char)
    requires d <= 9
    ensures IsDigit(c) && DigitValue(c) == d
  {
    ('0' as int + d) as char
  }

  /** The shortest decimal spelling of a natural number. */
  function NatToDecimal(n: nat): (s: string)
    ensures |s| >= 1 && AllDigits(s)
  {
    if n < 10 then [DigitChar(n)] else NatToDecimal(n / 10) + [DigitChar(n % 10)]
  }

  /** `strconv.Itoa`. */
  function Itoa(n: int): string
  {
    if n < 0 then "-" + NatToDecimal(-n) else NatToDecimal(n)
  }

  lemma {:induction false} DecimalValueOfNatToDecimal(n: nat)
    ensures DecimalValue(NatToDecimal(n)) == n
  {
    var s := NatToDecimal(n);
    if n >= 10 {
      DecimalValueOfNatToDecimal(n / 10);
      assert s[..|s| - 1] == NatToDecimal(n / 10);
    }
  }

  /** Atoi parses back what Itoa prints, on the whole 64-bit range. */
  lemma AtoiItoa(n: Int64)
    ensures IsDecimalLiteral(Itoa(n))
    ensures Atoi(Itoa(n)) == Some(n)
  {
    var m: nat := if n < 0 then -(n as int) else n as int;
    var d := NatToDecimal(m);
    DecimalValueOfNatToDecimal(m);
    assert d[0] != '+' && d[0] != '-' by { assert IsDigit(d[0]); }
    if n < 0 {
      assert Itoa(n)[1..] == d;
    }
  }

  // ---------------------------------------------------------------------
  // len(s) on a Go string: the length of its UTF-8 encoding
  // ---------------------------------------------------------------------

  /** The number of bytes UTF-8 spends on one Unicode scalar value. */
  function Utf8Width(c: char): (w: nat)
    ensures 1 <= w <= 4
    ensures w == 1 <==> c as int < 0x80
  {
    if c as int < 0x80 then 1
    else if c as int < 0x800 then 2
    else if c as int < 0x1_0000 then 3
    else 4
  }

  /** The length in bytes of the UTF-8 encoding of `s`. */
  function Utf8Length(s: string): nat
  {
    if |s| == 0 then 0 else Utf8Width(s[0]) + Utf8Length(s[1..])
  }

  /** Every character takes one to four bytes, and exactly one when it is
      ASCII. */
  lemma {:induction false} Utf8LengthBounds(s: string)
    ensures |s| <= Utf8Length(s) <= 4 * |s|
    ensures Utf8Length(s) == |s| <==> forall i :: 0 <= i < |s| ==> s[i] as int < 0x80
  {
    if |s| > 0 {
      Utf8LengthBounds(s[1..]);
      assert forall i :: 1 <= i < |s| ==> s[i] == s[1..][i - 1];
    }
  }

  /** Byte length adds up over concatenation. */
  lemma {:induction false} Utf8LengthAppend(a: string, b: string)
    ensures Utf8Length(a + b) == Utf8Length(a) + Utf8Length(b)
  {
    if |a| > 0 {
      assert (a + b)[1..] == a[1..] + b;
      Utf8LengthAppend(a[1..], b);
    } else {
      assert a + b == b;
    }
  }
}
