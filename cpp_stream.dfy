/** Formatted extraction from a C++ input stream (`stream >> x`) as the
  * programs use it on file contents: leading white space is skipped, an
  * optional sign and a run of decimal digits are read, and the extraction
  * fails on a missing digit or on a value out of the target type's range. */
module CppStream {

  datatype Option<T> = None | Some(value: T)

  /** `std::isspace` in the "C" locale. */
  predicate IsCSpace(c: char) {
    c == ' ' || ('\t' <= c <= '\r')
  }

  predicate IsDigit(c: char) {
    '0' <= c <= '9'
  }

  predicate AllDigits(s: string) {
    forall k :: 0 <= k < |s| ==> IsDigit(s[k])
  }

  /** The value of one decimal digit; other characters count as zero. */
  function DigitValue(c: char): (d: nat)
    ensures d <= 9
  {
    if IsDigit(c) then c as int - '0' as int else 0
  }

  /** The number a run of decimal digits denotes. */
  function DigitsValue(s: string): nat
    decreases |s|
  {
    if |s| == 0 then 0
    else DigitsValue(s[..|s| - 1]) * 10 + DigitValue(s[|s| - 1])
  }

  /** The first position at or after `i` that is not white space. */
  function SkipSpaces(s: string, i: nat): (j: nat)
    requires i <= |s|
    ensures i <= j <= |s|
    ensures j < |s| ==> !IsCSpace(s[j])
    decreases |s| - i
  {
    if i < |s| && IsCSpace(s[i]) then SkipSpaces(s, i + 1) else i
  }

  /** The end of the run of digits starting at `i`. */
  function DigitRunEnd(s: string, i: nat): (j: nat)
    requires i <= |s|
    ensures i <= j <= |s|
    ensures j < |s| ==> !IsDigit(s[j])
    decreases |s| - i
  {
    if i < |s| && IsDigit(s[i]) then DigitRunEnd(s, i + 1) else i
  }

  /** Where the sign (if any) and the digits of the next number lie. */
  datatype Lexeme = Lexeme(negative: bool, digitsStart: nat, digitsEnd: nat)

  function Lex(s: string, pos: nat): (l: Lexeme)
    requires pos <= |s|
    ensures pos <= l.digitsStart <= l.digitsEnd <= |s|
  {
    var i := SkipSpaces(s, pos);
    var signed := i < |s| && (s[i] == '-' || s[i] == '+');
    var start := if signed then i + 1 else i;
    Lexeme(signed && s[i] == '-', start, DigitRunEnd(s, start))
  }

  const IntMin: int := -0x8000_0000
  const IntMax: int := 0x7fff_ffff
  const UIntMax: int := 0xffff_ffff

  /** `stream >> x` for an `int x`: the value and the position after it, or
    * `None` when the extraction fails. */
  function ReadInt(s: string, pos: nat): (r: Option<(int, nat)>)
    requires pos <= |s|
    ensures r.Some? ==> pos < r.value.1 <= |s| && IntMin <= r.value.0 <= IntMax
  {
    var l := Lex(s, pos);
    if l.digitsStart == l.digitsEnd then None
    else
      var magnitude: int := DigitsValue(s[l.digitsStart..l.digitsEnd]);
      var v: int := if l.negative then -magnitude else magnitude;
      if v < IntMin || v > IntMax then None else Some((v, l.digitsEnd))
  }

  /** `stream >> x` for an `unsigned int x`. As with `strtoul`, a leading minus
    * sign negates modulo 2^32; a magnitude above 2^32-1 fails. */
  function ReadUnsigned(s: string, pos: nat): (r: Option<(nat, nat)>)
    ensures r.Some? ==> pos < r.value.1 <= |s| && r.value.0 <= UIntMax
  {
    if pos > |s| then None
    else
      var l := Lex(s, pos);
      if l.digitsStart == l.digitsEnd then None
      else
        var magnitude := DigitsValue(s[l.digitsStart..l.digitsEnd]);
        if magnitude > UIntMax then None
        else if l.negative && magnitude > 0 then Some((UIntMax + 1 - magnitude, l.digitsEnd))
        else Some((magnitude, l.digitsEnd))
  }

  /** The pairs read by `while (file >> v >> w)`: reading stops at the first
    * failed extraction, and a lone last number is dropped. */
  function ReadIntPairs(s: string, pos: nat): (ps: seq<(int, int)>)
    requires pos <= |s|
    decreases |s| - pos
  {
    match ReadInt(s, pos)
    case None => []
    case Some((v, p1)) =>
      match ReadInt(s, p1)
      case None => []
      case Some((w, p2)) => [(v, w)] + ReadIntPairs(s, p2)
  }

  /** The decimal digits of `n`, most significant first. */
  function Decimal(n: nat): (s: string)
    ensures |s| > 0 && AllDigits(s)
  {
    if n < 10 then [('0' as int + n) as char]
    else Decimal(n / 10) + [('0' as int + n % 10) as char]
  }

  lemma {:induction false} DecimalValue(n: nat)
    ensures DigitsValue(Decimal(n)) == n
  {
    if n >= 10 {
      var s := Decimal(n);
      assert s[..|s| - 1] == Decimal(n / 10);
      DecimalValue(n / 10);
    }
  }

  lemma DigitRunOfDecimal(n: nat, rest: string)
    requires |rest| == 0 || !IsDigit(rest[0])
    ensures DigitRunEnd(Decimal(n) + rest, 0) == |Decimal(n)|
  {
    var s := Decimal(n) + rest;
    assert forall k :: 0 <= k < |Decimal(n)| ==> s[k] == Decimal(n)[k];
    assert |rest| > 0 ==> s[|Decimal(n)|] == rest[0];
    DigitRunOver(s, 0, |Decimal(n)|);
  }

  /** Extraction reads back what decimal printing writes. */
  lemma ReadUnsignedDecimal(n: nat, rest: string)
    requires n <= UIntMax
    requires |rest| == 0 || !IsDigit(rest[0])
    ensures ReadUnsigned(Decimal(n) + rest, 0) == Some((n, |Decimal(n)|))
  {
    var s := Decimal(n) + rest;
    assert !IsCSpace(s[0]) && s[0] != '-' && s[0] != '+';
    assert SkipSpaces(s, 0) == 0;
    DigitRunOfDecimal(n, rest);
    assert s[0..|Decimal(n)|] == Decimal(n);
    DecimalValue(n);
  }
  lemma {:induction false} SkipSpacesOver(s: string, i: nat, j: nat)
    requires i <= j < |s| && !IsCSpace(s[j])
    requires forall k :: i <= k < j ==> IsCSpace(s[k])
    ensures SkipSpaces(s, i) == j
    decreases j - i
  {
    if i < j {
      SkipSpacesOver(s, i + 1, j);
    }
  }

  lemma {:induction false} DigitRunOver(s: string, i: nat, j: nat)
    requires i <= j <= |s| && (j == |s| || !IsDigit(s[j]))
    requires forall k :: i <= k < j ==> IsDigit(s[k])
    ensures DigitRunEnd(s, i) == j
    decreases j - i
  {
    if i < j {
      DigitRunOver(s, i + 1, j);
    }
  }

  /** Extraction in the middle of a line: after any white space a printed
    * number reads back, and the stream stops right after its digits. */
  lemma ReadUnsignedDecimalAt(p: string, gap: string, n: nat, rest: string)
    requires n <= UIntMax
    requires forall k :: 0 <= k < |gap| ==> IsCSpace(gap[k])
    requires |rest| == 0 || !IsDigit(rest[0])
    ensures ReadUnsigned(p + gap + Decimal(n) + rest, |p|)
            == Some((n, |p| + |gap| + |Decimal(n)|))
  {
    LayoutAt(p, gap, Decimal(n), rest);
    ReadUnsignedOver(p + gap + Decimal(n) + rest, |p|, |p| + |gap|, |p| + |gap| + |Decimal(n)|, n);
  }

  /** A number printed at `a..b`, after white space from `i`, is what the
    * extraction starting at `i` yields. */
  lemma ReadUnsignedOver(s: string, i: nat, a: nat, b: nat, n: nat)
    requires i <= a < b <= |s| && n <= UIntMax
    requires forall k :: i <= k < a ==> IsCSpace(s[k])
    requires forall k :: a <= k < b ==> IsDigit(s[k])
    requires b == |s| || !IsDigit(s[b])
    requires s[a..b] == Decimal(n)
    ensures ReadUnsigned(s, i) == Some((n, b))
  {
    SkipSpacesOver(s, i, a);
    DigitRunOver(s, a, b);
    assert Lex(s, i) == Lexeme(false, a, b);
    DecimalValue(n);
  }

  lemma LayoutAt(p: string, gap: string, d: string, rest: string)
    requires forall k :: 0 <= k < |gap| ==> IsCSpace(gap[k])
    requires |d| > 0 && AllDigits(d)
    requires |rest| == 0 || !IsDigit(rest[0])
    ensures var s := p + gap + d + rest;
            var a := |p| + |gap|;
            (forall k :: |p| <= k < a ==> IsCSpace(s[k]))
            && (forall k :: a <= k < a + |d| ==> IsDigit(s[k]))
            && (a + |d| == |s| || !IsDigit(s[a + |d|]))
            && s[a..a + |d|] == d
  {
    var s := p + gap + d + rest;
    var a := |p| + |gap|;
    assert forall k :: |p| <= k < a ==> s[k] == gap[k - |p|];
    assert forall k :: a <= k < a + |d| ==> s[k] == d[k - a];
    assert a + |d| < |s| ==> s[a + |d|] == rest[0];
    assert s[a..a + |d|] == d;
  }
}
