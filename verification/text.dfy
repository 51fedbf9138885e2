/**
 * The pieces of Python's text handling that the formatted task lines rely
 * on: `str(n)` for an integer, `str(b)` for a boolean, `int(s)` restricted
 * to an optional minus sign and decimal digits, and `s.split()` with no
 * separator (runs of whitespace separate words; leading and trailing
 * whitespace give no empty words).
 */
module TaskText {
  import opened Tasks

  predicate IsDigit(c: char)
  {
    '0' <= c <= '9'
  }

  /** The characters Python's `str.isspace` accepts, which `str.split()` splits on. */
  predicate IsSpace(c: char)
  {
    c == ' ' || '\t' <= c <= '\r' || '\U{1C}' <= c <= '\U{1F}' ||
    c == '\U{85}' || c == '\U{A0}' || c == '\U{1680}' || '\U{2000}' <= c <= '\U{200A}' ||
    c == '\U{2028}' || c == '\U{2029}' || c == '\U{202F}' || c == '\U{205F}' || c == '\U{3000}'
  }

  predicate AllDigits(s: string)
  {
    forall i :: 0 <= i < |s| ==> IsDigit(s[i])
  }

  function DigitChar(d: nat): (c: char)
    requires d < 10
    ensures IsDigit(c)
  {
    "0123456789"[d]
  }

  function DigitValue(c: char): (d: nat)
    requires IsDigit(c)
    ensures d < 10
  {
    (c as int - '0' as int) as nat
  }

  /** The decimal digits of `n`, most significant first, without leading zeros. */
  function NatToDecimal(n: nat): (s: string)
    ensures |s| >= 1 && AllDigits(s)
    ensures |s| > 1 ==> s[0] != '0'
    decreases n
  {
    if n < 10 then [DigitChar(n)] else NatToDecimal(n / 10) + [DigitChar(n % 10)]
  }

  /** Python's `str(i)` for an int: a minus sign for negatives, then the digits. */
  function IntToDecimal(i: int): (s: string)
    ensures |s| >= 1
    ensures forall k :: 0 <= k < |s| ==> IsDigit(s[k]) || s[k] == '-'
  {
    if i < 0 then "-" + NatToDecimal(-i) else NatToDecimal(i)
  }

  /** Python's `str(b)` for a bool: its last four characters are "True" exactly when `b` holds. */
  function BoolText(b: bool): (s: string)
    ensures |s| >= 4 && (s[|s| - 4..] == "True" <==> b)
  {
    if b then "True" else "False"
  }

  /** The value of a string of decimal digits. */
  function DecimalValue(s: string): (n: nat)
    requires AllDigits(s)
  {
    if s == [] then 0 else DecimalValue(s[..|s| - 1]) * 10 + DigitValue(s[|s| - 1])
  }

  /** `int(s)` on an optional minus sign followed by at least one digit;
      anything else is the ValueError, here `None`. */
  function ParseInt(s: string): (r: Option<int>)
    ensures r.Some? ==> |s| >= 1
    ensures r.Some? ==> forall k :: 0 <= k < |s| ==> IsDigit(s[k]) || (k == 0 && s[k] == '-')
  {
    if |s| >= 2 && s[0] == '-' && AllDigits(s[1..]) then Some(0 - DecimalValue(s[1..]) as int)
    else if |s| >= 1 && AllDigits(s) then Some(DecimalValue(s))
    else None
  }

  /** Reading the digits of `n` back gives `n`. */
  lemma {:induction false} DecimalRoundTrip(n: nat)
    ensures DecimalValue(NatToDecimal(n)) == n
  {
    if n >= 10 {
      var s := NatToDecimal(n);
      DecimalRoundTrip(n / 10);
      assert s[..|s| - 1] == NatToDecimal(n / 10);
    }
  }

  /** `int(str(i)) == i`. */
  lemma IntRoundTrip(i: int)
    ensures ParseInt(IntToDecimal(i)) == Some(i)
  {
    if i < 0 {
      DecimalRoundTrip(-i);
      assert IntToDecimal(i)[1..] == NatToDecimal(-i);
    } else {
      DecimalRoundTrip(i);
    }
  }

  /** A text that ends in ':' is not an integer literal. */
  lemma ColonSuffixNotInt(s: string)
    ensures ParseInt(s + ":") == None
  {
    var t := s + ":";
    assert t[|t| - 1] == ':';
    assert !IsDigit(t[|t| - 1]);
  }

  /** `s` with its leading whitespace removed. */
  function TrimStart(s: string): (r: string)
    ensures |r| <= |s|
    ensures r == [] || !IsSpace(r[0])
    ensures r == s[|s| - |r|..]
  {
    if s != [] && IsSpace(s[0]) then TrimStart(s[1..]) else s
  }

  /** The longest prefix of `s` that holds no whitespace. */
  function WordAt(s: string): (w: string)
    ensures |w| <= |s| && w == s[..|w|]
    ensures forall k :: 0 <= k < |w| ==> !IsSpace(w[k])
    ensures |w| < |s| ==> IsSpace(s[|w|])
  {
    if s == [] || IsSpace(s[0]) then [] else [s[0]] + WordAt(s[1..])
  }

  /** Python's `s.split()`: the maximal runs of non-whitespace, in order. */
  function Words(s: string): (ws: seq<string>)
    ensures forall k :: 0 <= k < |ws| ==> ws[k] != []
    decreases |s|
  {
    var t := TrimStart(s);
    if t == [] then []
    else
      var w := WordAt(t);
      [w] + Words(t[|w|..])
  }

  /** Leading whitespace does not change the words. */
  lemma SpaceThenWords(c: char, s: string)
    requires IsSpace(c)
    ensures Words([c] + s) == Words(s)
  {
    assert ([c] + s)[1..] == s;
  }

  /** `w` holds no whitespace character. */
  predicate NoSpace(w: string)
  {
    forall k :: 0 <= k < |w| ==> !IsSpace(w[k])
  }

  /** The decimal text of an integer followed by ':' holds no whitespace. */
  lemma NumeralColonNoSpace(i: int)
    ensures NoSpace(IntToDecimal(i) + ":")
  {
    var d := IntToDecimal(i);
    var w := d + ":";
    forall k | 0 <= k < |w| ensures !IsSpace(w[k]) {
      if k < |d| {
        assert w[k] == d[k];
      }
    }
  }

  /** Two words, each followed by a space, are the first two words. */
  lemma TwoWords(w1: string, w2: string, s: string)
    requires w1 != [] && NoSpace(w1)
    requires w2 != [] && NoSpace(w2)
    ensures Words(w1 + [' '] + (w2 + [' '] + s)) == [w1, w2] + Words(s)
  {
    WordThenSpace(w1, ' ', w2 + [' '] + s);
    WordThenSpace(w2, ' ', s);
    ConsTwo(w1, w2, Words(s));
  }

  /** The second word after two space-terminated words is the second of them. */
  lemma SecondWord(w1: string, w2: string, s: string)
    requires w1 != [] && NoSpace(w1)
    requires w2 != [] && NoSpace(w2)
    ensures |Words(w1 + [' '] + (w2 + [' '] + s))| >= 2
    ensures Words(w1 + [' '] + (w2 + [' '] + s))[1] == w2
  {
    TwoWords(w1, w2, s);
  }

  /** A regrouping step: two singletons in front of a sequence. */
  lemma ConsTwo<T>(a: T, b: T, r: seq<T>)
    ensures [a] + ([b] + r) == [a, b] + r
  {
  }

  /** A word without whitespace, followed by whitespace, is the first word. */
  lemma {:induction false} WordThenSpace(w: string, c: char, s: string)
    requires w != []
    requires NoSpace(w)
    requires IsSpace(c)
    ensures Words(w + [c] + s) == [w] + Words(s)
  {
    var t := w + [c] + s;
    assert t[0] == w[0];
    assert TrimStart(t) == t;
    WordAtPrefix(w, c, s);
    assert t[|w|..] == [c] + s;
    calc {
      Words(t);
      [w] + Words([c] + s);
      { SpaceThenWords(c, s); }
      [w] + Words(s);
    }
  }

  lemma {:induction false} WordAtPrefix(w: string, c: char, s: string)
    requires NoSpace(w)
    requires IsSpace(c)
    ensures WordAt(w + [c] + s) == w
  {
    if w != [] {
      assert (w + [c] + s)[1..] == w[1..] + [c] + s;
      WordAtPrefix(w[1..], c, s);
    }
  }
}
