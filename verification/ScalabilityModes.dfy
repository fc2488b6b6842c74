/** Scalability modes: how they are parsed, and how a mode for simulcast is written. */
module ScalabilityModes {

  datatype Mode = Mode(spatialLayers: nat, temporalLayers: nat, ksvc: bool)

  predicate IsDigit(c: char) {
    '0' <= c <= '9'
  }

  function DigitValue(c: char): (n: nat)
    requires IsDigit(c)
    ensures n < 10
  {
    (c - '0') as nat
  }

  /** How many characters of [1-9][0-9]{0,1} stand at i: none, one, or greedily two. */
  function NumberLength(s: string, i: nat): (n: nat)
    ensures n <= 2 && (n > 0 ==> i + n <= |s|)
  {
    if i >= |s| || !IsDigit(s[i]) || s[i] == '0' then 0
    else if i + 1 < |s| && IsDigit(s[i + 1]) then 2
    else 1
  }

  function NumberAt(s: string, i: nat): nat
    requires NumberLength(s, i) > 0
  {
    if NumberLength(s, i) == 2 then 10 * DigitValue(s[i]) + DigitValue(s[i + 1]) else DigitValue(s[i])
  }

  predicate HasKey(s: string, i: nat) {
    i + 4 <= |s| && s[i..i + 4] == "_KEY"
  }

  /**
   The expression ^[LS]([1-9][0-9]{0,1})T([1-9][0-9]{0,1})(_KEY)?, one layer each if it does not match. No shorter
   first number can make it match, since the next character would have to be the T.
   */
  function Parse(s: string): (m: Mode)
    ensures m.spatialLayers >= 1 && m.temporalLayers >= 1
  {
    var n := NumberLength(s, 1);
    if |s| == 0 || (s[0] != 'L' && s[0] != 'S') || n == 0 || 1 + n >= |s| || s[1 + n] != 'T' then Mode(1, 1, false)
    else
      var t := NumberLength(s, 2 + n);
      if t == 0 then Mode(1, 1, false)
      else Mode(NumberAt(s, 1), NumberAt(s, 2 + n), HasKey(s, 2 + n + t))
  }

  function DigitOf(n: nat): char
    requires n < 10
  {
    '0' + n as char
  }

  /** A number in a template literal. */
  function Decimal(n: nat): (s: string)
    ensures s != []
  {
    if n < 10 then [DigitOf(n)] else Decimal(n / 10) + [DigitOf(n % 10)]
  }

  /** The mode written for several encodings. */
  function SimulcastMode(spatial: nat, temporal: nat): string {
    "L" + Decimal(spatial) + "T" + Decimal(temporal)
  }

  lemma SmallDecimal(n: nat)
    requires 1 <= n <= 99
    ensures Decimal(n) == if n < 10 then [DigitOf(n)] else [DigitOf(n / 10), DigitOf(n % 10)]
  {
    if n >= 10 {
      assert n / 10 < 10;
      assert Decimal(n / 10) == [DigitOf(n / 10)];
    }
  }

  lemma NumberReadsBack(n: nat, before: string, after: string)
    requires 1 <= n <= 99 && (after == "" || !IsDigit(after[0]))
    ensures var s, i := before + Decimal(n) + after, |before|;
            NumberLength(s, i) == |Decimal(n)| && NumberAt(s, i) == n
  {
    SmallDecimal(n);
    var s, i, d := before + Decimal(n) + after, |before|, Decimal(n);
    assert s[i] == d[0];
    if n >= 10 {
      assert s[i + 1] == d[1];
      assert n == 10 * (n / 10) + n % 10;
    } else if after != "" {
      assert s[i + 1] == after[0];
    }
  }

  /** Both numbers of a parsed mode are at most 99. */
  lemma ParsedBounded(s: string)
    ensures Parse(s).spatialLayers <= 99 && Parse(s).temporalLayers <= 99
  {}

  lemma {:induction false} DecimalDigits(n: nat)
    ensures forall i :: 0 <= i < |Decimal(n)| ==> IsDigit(Decimal(n)[i])
    ensures n >= 1 ==> Decimal(n)[0] != '0'
    ensures n >= 100 ==> |Decimal(n)| >= 3
  {
    if n >= 10 {
      DecimalDigits(n / 10);
      if n >= 100 {
        assert |Decimal(n / 10)| == |Decimal(n / 10 / 10)| + 1;
      }
    }
  }

  lemma KeyReadsBack(before: string, ksvc: bool)
    ensures HasKey(before + (if ksvc then "_KEY" else ""), |before|) == ksvc
  {
    var end := if ksvc then "_KEY" else "";
    assert (before + end)[|before|..] == end;
    assert ksvc ==> (before + end)[|before|..|before| + 4] == (before + end)[|before|..];
  }

  lemma ParsedParts(s: string, n: nat, t: nat)
    requires |s| > 1 + n && (s[0] == 'L' || s[0] == 'S') && s[1 + n] == 'T'
    requires n == NumberLength(s, 1) > 0 && t == NumberLength(s, 2 + n) > 0
    ensures Parse(s) == Mode(NumberAt(s, 1), NumberAt(s, 2 + n), HasKey(s, 2 + n + t))
  {}

  lemma Pieces(letter: char, d: string, e: string, end: string)
    ensures var s := [letter] + d + "T" + e + end;
            && s == [letter] + d + ("T" + e + end) && s[0] == letter && s[1 + |d|] == 'T'
            && |[letter] + d + "T" + e| == 2 + |d| + |e| && |[letter] + d + "T"| == 2 + |d|
            && ("T" + e + end)[0] == 'T' && |s| == 2 + |d| + |e| + |end|
  {}

  /** Every mode with up to 99 layers of either kind is read as written: L or S, the two numbers, and _KEY or not. */
  lemma WrittenIsRead(letter: char, spatial: nat, temporal: nat, ksvc: bool)
    requires letter == 'L' || letter == 'S'
    requires 1 <= spatial <= 99 && 1 <= temporal <= 99
    ensures Parse([letter] + Decimal(spatial) + "T" + Decimal(temporal) + if ksvc then "_KEY" else "") ==
            Mode(spatial, temporal, ksvc)
  {
    hide Decimal, NumberLength, NumberAt, HasKey, Parse;
    var d, e, end := Decimal(spatial), Decimal(temporal), if ksvc then "_KEY" else "";
    var s := [letter] + d + "T" + e + end;
    Pieces(letter, d, e, end);
    assert end == "" || end[0] == '_';
    NumberReadsBack(spatial, [letter], "T" + e + end);
    NumberReadsBack(temporal, [letter] + d + "T", end);
    KeyReadsBack([letter] + d + "T" + e, ksvc);
    ParsedParts(s, |d|, |e|);
  }

  lemma SmallIsRead(spatial: nat, temporal: nat)
    requires 1 <= spatial <= 99 && 1 <= temporal <= 99
    ensures Parse(SimulcastMode(spatial, temporal)) == Mode(spatial, temporal, false)
  {
    hide Decimal, Parse;
    WrittenIsRead('L', spatial, temporal, false);
    var s := SimulcastMode(spatial, temporal);
    assert ['L'] + Decimal(spatial) + "T" + Decimal(temporal) + "" == s;
  }

  /** A mode written for simulcast is read back if and only if there are at most 99 encodings. */
  lemma ParseSimulcast(spatial: nat, temporal: nat)
    requires 1 <= spatial && 1 <= temporal <= 99
    ensures Parse(SimulcastMode(spatial, temporal)) == Mode(spatial, temporal, false) <==> spatial <= 99
  {
    if spatial <= 99 {
      SmallIsRead(spatial, temporal);
    } else {
      hide Decimal;
      DecimalDigits(spatial);
      var s, d := SimulcastMode(spatial, temporal), Decimal(spatial);
      assert s[1] == d[0] && s[2] == d[1] && s[3] == d[2] && IsDigit(d[2]);
      assert Parse(s) == Mode(1, 1, false);
    }
  }
}
