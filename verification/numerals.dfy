/** Numerals written in digits, as the transcriber reads them.

    A numeral becomes a list of number words, each of which is one lexicon
    lookup key: "zero" to "nineteen", "twenty" to "ninety", "hundred", the scale
    words "thousand" to "quintillion", and "dot" before the digits of a decimal
    part. `Value` reads a list of number words back as the number an English
    reader hears, which is the independent meaning the lookup keys are checked
    against. */
module Numerals {
  import opened Wrappers
  import opened JavaText
  import opened Statics

  /** `Long.MAX_VALUE`; `Long.parseLong` rejects larger values. */
  const LongMax: int := 0x7FFF_FFFF_FFFF_FFFF

  datatype NumberWord =
    | Small(value: nat)   // "zero" .. "nineteen"
    | Tens(digit: nat)    // "twenty" .. "ninety", by the tens digit
    | Hundred
    | Scale(group: nat)   // "thousand" (1), "million" (2), .. "quintillion" (6)
    | Dot

  const SmallNames: seq<string> := [
    "zero", "one", "two", "three", "four", "five", "six", "seven", "eight", "nine",
    "ten", "eleven", "twelve", "thirteen", "fourteen", "fifteen", "sixteen",
    "seventeen", "eighteen", "nineteen"]

  const TensNames: seq<string> := [
    "twenty", "thirty", "forty", "fifty", "sixty", "seventy", "eighty", "ninety"]

  const ScaleNames: seq<string> := [
    "thousand", "million", "billion", "trillion", "quadrillion", "quintillion"]

  function Min(a: int, b: int): int {
    if a < b then a else b
  }

  predicate WellFormedWord(w: NumberWord) {
    match w
    case Small(v) => v < 20
    case Tens(d) => 2 <= d <= 9
    case Scale(g) => 1 <= g <= 6
    case _ => true
  }

  predicate WellFormed(ws: seq<NumberWord>) {
    forall i :: 0 <= i < |ws| ==> WellFormedWord(ws[i])
  }

  /** `getLookupStringNumeralBelowTwenty`: the name of 1..19, and "zero" for every other value. */
  function BelowTwenty(num: int): (s: string)
    ensures 0 <= num < 20 ==> s == SmallNames[num]
    ensures (num < 1 || num > 19) ==> s == "zero"
  {
    if num == 1 then "one" else if num == 2 then "two" else if num == 3 then "three"
    else if num == 4 then "four" else if num == 5 then "five" else if num == 6 then "six"
    else if num == 7 then "seven" else if num == 8 then "eight" else if num == 9 then "nine"
    else if num == 10 then "ten" else if num == 11 then "eleven" else if num == 12 then "twelve"
    else if num == 13 then "thirteen" else if num == 14 then "fourteen" else if num == 15 then "fifteen"
    else if num == 16 then "sixteen" else if num == 17 then "seventeen" else if num == 18 then "eighteen"
    else if num == 19 then "nineteen" else "zero"
  }

  /** The tens word of `lookUpNumeralTensAndOnes`, by the tens digit. */
  function TensWord(digit: nat): (s: string)
    requires 2 <= digit <= 9
    ensures s == TensNames[digit - 2]
  {
    if digit == 2 then "twenty" else if digit == 3 then "thirty" else if digit == 4 then "forty"
    else if digit == 5 then "fifty" else if digit == 6 then "sixty" else if digit == 7 then "seventy"
    else if digit == 8 then "eighty" else "ninety"
  }

  /** The scale group a digit position (counted from the right, from 1) belongs to,
      capped at quintillions. */
  function AreaGroup(count: int): nat {
    if count <= 3 then 0 else Min((count - 1) / 3, 6)
  }

  /** `getLookupStringDigitArea`: the scale word of a digit position, "" below the thousands. */
  function DigitArea(count: int): (s: string)
    ensures count <= 3 ==> s == ""
    ensures count > 3 ==> 1 <= AreaGroup(count) <= 6 && s == ScaleNames[AreaGroup(count) - 1]
  {
    if count > 18 then "quintillion"
    else if count > 15 then "quadrillion"
    else if count > 12 then "trillion"
    else if count > 9 then "billion"
    else if count > 6 then "million"
    else if count > 3 then "thousand"
    else ""
  }

  /** The lookup key of a number word. */
  function Spell(w: NumberWord): string
    requires WellFormedWord(w)
  {
    match w
    case Small(v) => BelowTwenty(v)
    case Tens(d) => TensWord(d)
    case Hundred => "hundred"
    case Scale(g) => ScaleNames[g - 1]
    case Dot => "dot"
  }

  /** The lookup keys of a list of number words. */
  function SpellAll(ws: seq<NumberWord>): (keys: seq<string>)
    requires WellFormed(ws)
    ensures |keys| == |ws|
    ensures forall i :: 0 <= i < |ws| ==> keys[i] == Spell(ws[i])
  {
    if |ws| == 0 then [] else [Spell(ws[0])] + SpellAll(ws[1..])
  }

  // ---------------------------------------------------------------------------
  // Reading number words back

  function Power1000(g: nat): (p: nat)
    ensures p >= 1
  {
    if g == 0 then 1 else 1000 * Power1000(g - 1)
  }

  /** What a listener has heard so far: the completed scale groups and the running group. */
  datatype Heard = Heard(total: int, current: int)

  function Hear(h: Heard, w: NumberWord): Heard {
    match w
    case Small(v) => h.(current := h.current + v)
    case Tens(d) => h.(current := h.current + 10 * d)
    case Hundred => h.(current := h.current * 100)
    case Scale(g) => Heard(h.total + h.current * Power1000(g), 0)
    case Dot => h
  }

  function HearAll(h: Heard, ws: seq<NumberWord>): Heard
    decreases |ws|
  {
    if |ws| == 0 then h else HearAll(Hear(h, ws[0]), ws[1..])
  }

  /** The number a list of integer number words stands for. */
  function Value(ws: seq<NumberWord>): int {
    var h := HearAll(Heard(0, 0), ws);
    h.total + h.current
  }

  /** Hearing two lists in turn is hearing their concatenation. */
  lemma {:induction false} HearAllAppend(h: Heard, a: seq<NumberWord>, b: seq<NumberWord>)
    ensures HearAll(h, a + b) == HearAll(HearAll(h, a), b)
    decreases |a|
  {
    if |a| == 0 {
      assert a + b == b;
    } else {
      assert (a + b)[0] == a[0];
      assert (a + b)[1..] == a[1..] + b;
      HearAllAppend(Hear(h, a[0]), a[1..], b);
    }
  }

  // ---------------------------------------------------------------------------
  // Tens and ones

  function TensAndOnesWords(num: nat): (ws: seq<NumberWord>)
    requires num < 100
    ensures 1 <= |ws| <= 2
  {
    if num < 20 then [Small(num)]
    else [Tens(num / 10)] + (if num % 10 != 0 then [Small(num % 10)] else [])
  }

  /** The words of a number below 100 add exactly that number to the running group. */
  lemma TensAndOnesHeard(h: Heard, num: nat)
    requires num < 100
    ensures HearAll(h, TensAndOnesWords(num)) == h.(current := h.current + num)
  {
    var ws := TensAndOnesWords(num);
    if num >= 20 && num % 10 != 0 {
      var h1 := Hear(h, Tens(num / 10));
      assert ws == [Tens(num / 10)] + [Small(num % 10)];
      HearAllAppend(h, [Tens(num / 10)], [Small(num % 10)]);
      assert HearAll(h, [Tens(num / 10)]) == h1;
      assert HearAll(h1, [Small(num % 10)]) == Hear(h1, Small(num % 10));
    } else if num >= 20 {
      assert ws == [Tens(num / 10)];
    }
  }

  /** `lookUpNumeralTensAndOnes`: rejects values outside 0..99; below 20 a single
      word, otherwise the tens word followed by the ones word unless the ones digit
      is 0. The words read back as the number. */
  function TensAndOnes(num: int): (r: Result<seq<NumberWord>>)
    ensures r.Failure? <==> num < 0 || num > 99
    ensures r.Failure? ==> r.error == IllegalArgument
    ensures r.Success? ==> WellFormed(r.value) && Value(r.value) == num
    ensures r.Success? ==> (|r.value| == 1 <==> num < 20 || num % 10 == 0)
    ensures r.Success? && num < 20 ==> r.value == [Small(num)]
    ensures r.Success? && num >= 20 ==> r.value[0] == Tens(num / 10)
  {
    if num < 0 || num >= 100 then Failure(IllegalArgument)
    else
      TensAndOnesHeard(Heard(0, 0), num);
      Success(TensAndOnesWords(num))
  }

  // ---------------------------------------------------------------------------
  // The reference reading of an integer, group by group

  /** A hundreds digit: its word and "hundred", nothing for 0. */
  function HundredsWords(h: nat): (ws: seq<NumberWord>)
    requires h < 10
  {
    if h != 0 then TensAndOnesWords(h) + [Hundred] else []
  }

  /** The words of one group of three digits with value `v` at scale `g`: the
      scale word follows only a group with a nonzero digit. */
  function GroupWords(v: nat, g: nat): (ws: seq<NumberWord>)
    requires v < 1000
    ensures v == 0 ==> ws == []
  {
    HundredsWords(v / 100)
    + (if v % 100 != 0 then TensAndOnesWords(v % 100) else [])
    + (if v != 0 && g > 0 then [Scale(Min(g, 6))] else [])
  }

  /** The words of `n` whose lowest group sits at scale `g`, most significant group first. */
  function IntegerWords(n: nat, g: nat): (ws: seq<NumberWord>)
    ensures n == 0 <==> ws == []
    decreases n
  {
    if n == 0 then []
    else
      var ws := IntegerWords(n / 1000, g + 1) + GroupWords(n % 1000, g);
      assert n % 1000 == 0 ==> n / 1000 > 0;
      ws
  }

  predicate AllDigits(s: string) {
    forall i :: 0 <= i < |s| ==> IsDigit(s[i])
  }

  function DigitValue(c: char): nat
    requires IsDigit(c)
  {
    c as int - '0' as int
  }

  /** One word per decimal digit. */
  function DigitWords(d: string): (ws: seq<NumberWord>)
    requires AllDigits(d)
    ensures |ws| == |d|
    ensures forall i :: 0 <= i < |d| ==> ws[i] == Small(DigitValue(d[i]))
  {
    if |d| == 0 then [] else [Small(DigitValue(d[0]))] + DigitWords(d[1..])
  }

  /** The reference reading of `integerPart.decimalPart`: "zero" for an integer part
      of 0, then "dot" and one word per decimal digit when there is a decimal part. */
  function NumeralWords(integerPart: nat, decimalPart: string): (ws: seq<NumberWord>)
    requires AllDigits(decimalPart)
  {
    (if integerPart == 0 then [Small(0)] else IntegerWords(integerPart, 0))
    + (if decimalPart == "" then [] else [Dot] + DigitWords(decimalPart))
  }

  lemma WellFormedAppend(a: seq<NumberWord>, b: seq<NumberWord>)
    requires WellFormed(a) && WellFormed(b)
    ensures WellFormed(a + b)
  {
    forall i | 0 <= i < |a + b|
      ensures WellFormedWord((a + b)[i])
    {
      if i >= |a| {
        assert (a + b)[i] == b[i - |a|];
      }
    }
  }

  lemma GroupWellFormed(v: nat, g: nat)
    requires v < 1000
    ensures WellFormed(GroupWords(v, g))
  {
    var a := HundredsWords(v / 100);
    var b := if v % 100 != 0 then TensAndOnesWords(v % 100) else [];
    var c := if v != 0 && g > 0 then [Scale(Min(g, 6))] else [];
    if v / 100 != 0 {
      WellFormedAppend(TensAndOnesWords(v / 100), [Hundred]);
    }
    WellFormedAppend(a, b);
    WellFormedAppend(a + b, c);
  }

  lemma {:induction false} IntegerWellFormed(n: nat, g: nat)
    ensures WellFormed(IntegerWords(n, g))
    decreases n
  {
    if n > 0 {
      IntegerWellFormed(n / 1000, g + 1);
      GroupWellFormed(n % 1000, g);
      WellFormedAppend(IntegerWords(n / 1000, g + 1), GroupWords(n % 1000, g));
    }
  }

  /** Every word of a numeral reading has a lookup key. */
  lemma NumeralWellFormed(integerPart: nat, decimalPart: string)
    requires AllDigits(decimalPart)
    ensures WellFormed(NumeralWords(integerPart, decimalPart))
  {
    IntegerWellFormed(integerPart, 0);
    if decimalPart != "" {
      WellFormedAppend([Dot], DigitWords(decimalPart));
    }
    WellFormedAppend(if integerPart == 0 then [Small(0)] else IntegerWords(integerPart, 0),
                     if decimalPart == "" then [] else [Dot] + DigitWords(decimalPart));
  }

  /** Splitting off the lowest group: the higher groups' words, then the group's words. */
  lemma CloseGroup(a: nat, h: nat, t: nat, g: nat)
    requires h < 10 && t < 100
    ensures IntegerWords(1000 * a + 100 * h + t, g)
         == IntegerWords(a, g + 1) + HundredsWords(h)
            + (if t != 0 then TensAndOnesWords(t) else [])
            + (if (h != 0 || t != 0) && g > 0 then [Scale(Min(g, 6))] else [])
  {
    var v := 100 * h + t;
    assert 1000 * a + 100 * h + t == 1000 * a + v;
    var tw := if t != 0 then TensAndOnesWords(t) else [];
    var sw := if (h != 0 || t != 0) && g > 0 then [Scale(Min(g, 6))] else [];
    if 1000 * a + v != 0 {
      IntegerWordsOf(a, v, g);
      GroupOf(h, t, g);
      Glue(IntegerWords(1000 * a + v, g), IntegerWords(a, g + 1), GroupWords(v, g), HundredsWords(h), tw, sw);
    } else {
      assert a == 0 && h == 0 && t == 0;
    }
  }

  /** Regrouping a concatenation; stated on plain sequences so that the proof of
      `CloseGroup` does not unfold the word functions while regrouping. */
  lemma Glue<T>(whole: seq<T>, higher: seq<T>, group: seq<T>, a: seq<T>, b: seq<T>, c: seq<T>)
    requires whole == higher + group && group == a + b + c
    ensures whole == higher + a + b + c
  {
  }

  /** The lowest group of `1000 * a + v` is `v`, the rest is `a` one scale up. */
  lemma IntegerWordsOf(a: nat, v: nat, g: nat)
    requires v < 1000 && 1000 * a + v != 0
    ensures IntegerWords(1000 * a + v, g) == IntegerWords(a, g + 1) + GroupWords(v, g)
  {
    SplitThousand(a, v);
  }

  /** The words of a group with hundreds digit `h` and tens and ones `t`. */
  lemma GroupOf(h: nat, t: nat, g: nat)
    requires h < 10 && t < 100
    ensures GroupWords(100 * h + t, g)
         == HundredsWords(h)
            + (if t != 0 then TensAndOnesWords(t) else [])
            + (if (h != 0 || t != 0) && g > 0 then [Scale(Min(g, 6))] else [])
  {
    SplitHundred(h, t);
  }

  lemma SplitHundred(h: nat, t: nat)
    requires t < 100
    ensures (100 * h + t) / 100 == h && (100 * h + t) % 100 == t
  {
  }

  lemma SplitThousand(a: nat, v: nat)
    requires v < 1000
    ensures (1000 * a + v) / 1000 == a && (1000 * a + v) % 1000 == v
  {
  }

  // ---------------------------------------------------------------------------
  // Reading the reference back

  lemma HundredsHeard(total: int, h: nat)
    requires h < 10
    ensures HearAll(Heard(total, 0), HundredsWords(h)) == Heard(total, 100 * h)
  {
    if h != 0 {
      HearAllAppend(Heard(total, 0), TensAndOnesWords(h), [Hundred]);
      TensAndOnesHeard(Heard(total, 0), h);
    }
  }

  lemma GroupHeard(total: int, v: nat, g: nat)
    requires v < 1000 && g <= 6
    ensures HearAll(Heard(total, 0), GroupWords(v, g))
         == if g == 0 then Heard(total, v) else Heard(total + v * Power1000(g), 0)
  {
    var h := v / 100;
    var t := v % 100;
    var a := HundredsWords(h);
    var b := if t != 0 then TensAndOnesWords(t) else [];
    var c := if v != 0 && g > 0 then [Scale(Min(g, 6))] else [];
    assert GroupWords(v, g) == a + b + c;
    HearAllAppend(Heard(total, 0), a + b, c);
    HearAllAppend(Heard(total, 0), a, b);
    HundredsHeard(total, h);
    if t != 0 {
      TensAndOnesHeard(Heard(total, 100 * h), t);
    }
    assert HearAll(Heard(total, 0), a + b) == Heard(total, v);
  }

  lemma PowerMonotone(g: nat, k: nat)
    requires g <= k
    ensures Power1000(g) <= Power1000(k)
    decreases k
  {
    if g < k {
      PowerMonotone(g, k - 1);
    }
  }

  /** Splitting off the lowest group of `n` at scale weight `w`. */
  lemma GroupArithmetic(n: nat, w: nat)
    ensures (n / 1000) * (1000 * w) + (n % 1000) * w == n * w
    ensures (n / 1000) * (1000 * w) <= n * w
  {
    var q := n / 1000;
    var v := n % 1000;
    assert n == 1000 * q + v;
    assert q * (1000 * w) == (1000 * q) * w;
    assert (1000 * q + v) * w == (1000 * q) * w + v * w;
  }

  lemma AtLeastOnce(n: nat, w: nat)
    requires n >= 1
    ensures n * w >= w
  {
    assert n * w == (n - 1) * w + w;
  }

  lemma {:induction false} IntegerHeard(total: int, n: nat, g: nat)
    requires g >= 1 && n * Power1000(g) < Power1000(7)
    ensures HearAll(Heard(total, 0), IntegerWords(n, g)) == Heard(total + n * Power1000(g), 0)
    decreases n
  {
    if n > 0 {
      var w := Power1000(g);
      if g > 6 {
        PowerMonotone(7, g);
        AtLeastOnce(n, w);
        assert false;
      }
      var q := n / 1000;
      var v := n % 1000;
      assert Power1000(g + 1) == 1000 * w;
      GroupArithmetic(n, w);
      HearAllAppend(Heard(total, 0), IntegerWords(q, g + 1), GroupWords(v, g));
      if q > 0 {
        IntegerHeard(total, q, g + 1);
      }
      assert HearAll(Heard(total, 0), IntegerWords(q, g + 1)) == Heard(total + q * (1000 * w), 0);
      GroupHeard(total + q * (1000 * w), v, g);
    }
  }

  lemma PowerSeven()
    ensures Power1000(7) == 1_000_000_000_000_000_000_000
  {
    assert Power1000(1) == 1000;
    assert Power1000(2) == 1_000_000;
    assert Power1000(3) == 1_000_000_000;
    assert Power1000(4) == 1_000_000_000_000;
    assert Power1000(5) == 1_000_000_000_000_000;
    assert Power1000(6) == 1_000_000_000_000_000_000;
  }

  /** Every integer part a `long` can hold reads back as itself. */
  lemma NumeralValue(n: nat)
    requires n <= LongMax
    ensures Value(NumeralWords(n, "")) == n
  {
    if n > 0 {
      assert NumeralWords(n, "") == IntegerWords(n, 0);
      var q := n / 1000;
      var v := n % 1000;
      assert IntegerWords(n, 0) == IntegerWords(q, 1) + GroupWords(v, 0);
      HearAllAppend(Heard(0, 0), IntegerWords(q, 1), GroupWords(v, 0));
      assert Power1000(1) == 1000;
      if q > 0 {
        PowerSeven();
        IntegerHeard(0, q, 1);
      }
      assert HearAll(Heard(0, 0), IntegerWords(q, 1)) == Heard(q * 1000, 0);
      GroupHeard(q * 1000, v, 0);
      assert HearAll(Heard(0, 0), IntegerWords(n, 0)) == Heard(q * 1000, v);
      assert Value(IntegerWords(n, 0)) == q * 1000 + v;
      assert n == q * 1000 + v;
    } else {
      assert NumeralWords(n, "") == [Small(0)];
      assert HearAll(Heard(0, 0), [Small(0)]) == Heard(0, 0);
    }
  }

  /** A decimal part only appends "dot" and its digit words. */
  lemma NumeralWordsDecimal(n: nat, d: string)
    requires AllDigits(d) && d != ""
    ensures NumeralWords(n, d) == NumeralWords(n, "") + [Dot] + DigitWords(d)
  {
  }

  /** A scale word follows only a group that has a nonzero digit: 1,000,222 reads
      "one million two hundred twenty two". */
  lemma NumeralSkipsEmptyGroup()
    ensures NumeralWords(1000222, "")
         == [Small(1), Scale(2), Small(2), Hundred, Tens(2), Small(2)]
  {
    OneMillion();
    TwoHundredTwentyTwo();
    assert IntegerWords(1000222, 0) == IntegerWords(1000, 1) + GroupWords(222, 0);
  }

  lemma OneMillion()
    ensures IntegerWords(1000, 1) == [Small(1), Scale(2)]
  {
    assert IntegerWords(1, 2) == [Small(1), Scale(2)] by {
      assert IntegerWords(1, 2) == IntegerWords(0, 3) + GroupWords(1, 2);
    }
    assert IntegerWords(1000, 1) == IntegerWords(1, 2) + GroupWords(0, 1);
  }

  lemma TwoHundredTwentyTwo()
    ensures GroupWords(222, 0) == [Small(2), Hundred, Tens(2), Small(2)]
  {
    assert HundredsWords(2) == [Small(2), Hundred];
    assert TensAndOnesWords(22) == [Tens(2), Small(2)];
  }

  /** 12345.678 reads "twelve thousand three hundred forty five dot six seven eight". */
  lemma NumeralWithDecimals()
    ensures NumeralWords(12345, "678")
         == [Small(12), Scale(1), Small(3), Hundred, Tens(4), Small(5), Dot, Small(6), Small(7), Small(8)]
  {
    assert NumeralWords(12345, "") == [Small(12), Scale(1), Small(3), Hundred, Tens(4), Small(5)] by {
      TwelveThousandsAndMore();
    }
    assert DigitWords("678") == [Small(6), Small(7), Small(8)];
    NumeralWordsDecimal(12345, "678");
  }

  lemma TwelveThousandsAndMore()
    ensures IntegerWords(12345, 0) == [Small(12), Scale(1), Small(3), Hundred, Tens(4), Small(5)]
  {
    assert IntegerWords(12, 1) == [Small(12), Scale(1)] by {
      assert IntegerWords(12, 1) == IntegerWords(0, 2) + GroupWords(12, 1);
    }
    assert GroupWords(345, 0) == [Small(3), Hundred, Tens(4), Small(5)] by {
      assert HundredsWords(3) == [Small(3), Hundred];
      assert TensAndOnesWords(45) == [Tens(4), Small(5)];
    }
    assert IntegerWords(12345, 0) == IntegerWords(12, 1) + GroupWords(345, 0);
  }

  // ---------------------------------------------------------------------------
  // Parsing the digits of a token

  /** The number a string of ASCII digits stands for. */
  function DigitsText(s: string): nat
    requires AllDigits(s)
    decreases |s|
  {
    if |s| == 0 then 0 else 10 * DigitsText(s[..|s| - 1]) + DigitValue(s[|s| - 1])
  }

  function DigitChar(d: nat): (c: char)
    requires d < 10
    ensures IsDigit(c) && DigitValue(c) == d
  {
    ('0' as int + d) as char
  }

  /** `n + ""`: the shortest decimal string of `n`. */
  function DecimalString(n: nat): (s: string)
    ensures |s| >= 1 && AllDigits(s)
    ensures |s| > 1 ==> s[0] != '0'
    decreases n
  {
    if n < 10 then [DigitChar(n)] else DecimalString(n / 10) + [DigitChar(n % 10)]
  }

  lemma {:induction false} DecimalStringValue(n: nat)
    ensures DigitsText(DecimalString(n)) == n
    decreases n
  {
    if n >= 10 {
      var s := DecimalString(n);
      assert s[..|s| - 1] == DecimalString(n / 10);
      DecimalStringValue(n / 10);
    }
  }

  /** `Long.parseLong`: an optional sign and at least one ASCII digit, within the
      range of a `long`; anything else is a `NumberFormatException`. */
  function ParseLong(s: string): (r: Result<int>)
    ensures r.Success? ==> -LongMax - 1 <= r.value <= LongMax
    ensures r.Failure? ==> r.error == NumberFormat
    ensures |s| == 0 ==> r.Failure?
    ensures (exists k :: 0 < k < |s| && !IsDigit(s[k])) ==> r.Failure?
    ensures |s| > 0 && !IsDigit(s[0]) && s[0] != '-' && s[0] != '+' ==> r.Failure?
    ensures r.Success? && |s| > 0 && IsDigit(s[0]) ==> r.value == DigitsText(s)
  {
    if |s| > 0 && (s[0] == '-' || s[0] == '+') then
      var body := s[1..];
      if |body| == 0 || !AllDigits(body) then Failure(NumberFormat)
      else
        var v: int := if s[0] == '-' then -(DigitsText(body) as int) else DigitsText(body);
        if -LongMax - 1 <= v <= LongMax then Success(v) else Failure(NumberFormat)
    else if |s| == 0 || !AllDigits(s) then Failure(NumberFormat)
    else if DigitsText(s) <= LongMax then Success(DigitsText(s))
    else Failure(NumberFormat)
  }

  /** Printing a `long` value and parsing it back gives the value; a larger value
      does not parse. */
  lemma ParseLongRoundTrip(n: nat)
    ensures n <= LongMax ==> ParseLong(DecimalString(n)) == Success(n)
    ensures n > LongMax ==> ParseLong(DecimalString(n)) == Failure(NumberFormat)
  {
    DecimalStringValue(n);
  }

  /** A negated value parses back down to `Long.MIN_VALUE`. */
  lemma ParseLongNegative(n: nat)
    ensures n <= LongMax + 1 ==> ParseLong("-" + DecimalString(n)) == Success(-(n as int))
  {
    DecimalStringValue(n);
    assert ("-" + DecimalString(n))[1..] == DecimalString(n);
  }

  /** The forms `Long.parseLong` accepts and what it reads for each: digits, or a
      sign and digits, whose value fits a `long`; nothing else parses. */
  lemma ParseLongForms(s: string)
    ensures DigitRun(s) ==>
              ParseLong(s) == if DigitsText(s) <= LongMax then Success(DigitsText(s)) else Failure(NumberFormat)
    ensures |s| > 0 && s[0] == '+' && DigitRun(s[1..]) ==>
              ParseLong(s) == if DigitsText(s[1..]) <= LongMax then Success(DigitsText(s[1..])) else Failure(NumberFormat)
    ensures |s| > 0 && s[0] == '-' && DigitRun(s[1..]) ==>
              ParseLong(s) == if DigitsText(s[1..]) <= LongMax + 1 then Success(-(DigitsText(s[1..]) as int)) else Failure(NumberFormat)
    ensures ParseLong(s).Success? ==> DigitRun(s) || (|s| > 0 && (s[0] == '+' || s[0] == '-') && DigitRun(s[1..]))
  {
  }

  /** The regular expression `\A\d+\.\d+\z`: digits, one point, digits. */
  predicate IsDecimalForm(s: string) {
    exists k :: 0 < k < |s| - 1 && s[k] == '.' && AllDigits(s[..k]) && AllDigits(s[k + 1..])
  }

  /** The two sides of a decimal numeral, as `split("\\.")` gives them. */
  function SplitDecimal(s: string): (r: Option<(string, string)>)
    ensures r.Some? <==> IsDecimalForm(s)
    ensures r.Some? ==> && |r.value.0| > 0 && |r.value.1| > 0
                        && AllDigits(r.value.0) && AllDigits(r.value.1)
                        && s == r.value.0 + "." + r.value.1
  {
    match FindFirst(s, (c: char) => c == '.')
    case None => None
    case Some(k) =>
      if 0 < k < |s| - 1 && AllDigits(s[..k]) && AllDigits(s[k + 1..]) then
        assert s == s[..k] + "." + s[k + 1..];
        Some((s[..k], s[k + 1..]))
      else
        assert !IsDecimalForm(s) by {
          if j :| 0 < j < |s| - 1 && s[j] == '.' && AllDigits(s[..j]) && AllDigits(s[j + 1..]) {
            FirstDot(s, k, j);
          }
        }
        None
  }

  /** A point with only digits before it is the first point. */
  lemma FirstDot(s: string, k: nat, j: nat)
    requires k < |s| && s[k] == '.' && forall i :: 0 <= i < k ==> s[i] != '.'
    requires j < |s| && s[j] == '.' && AllDigits(s[..j])
    ensures k == j
  {
    DigitsHaveNoDot(s, j);
  }

  /** No point stands among the digits before `j`. */
  lemma DigitsHaveNoDot(s: string, j: nat)
    requires j <= |s| && AllDigits(s[..j])
    ensures forall i :: 0 <= i < j ==> s[i] != '.'
  {
    forall i | 0 <= i < j
      ensures s[i] != '.'
    {
      assert s[..j][i] == s[i];
    }
  }

  /** Two points with only digits before each are the same point. */
  lemma SameDot(s: string, k: nat, j: nat)
    requires k < |s| && s[k] == '.' && AllDigits(s[..k])
    requires j < |s| && s[j] == '.' && AllDigits(s[..j])
    ensures k == j
  {
    DigitsHaveNoDot(s, j);
    DigitsHaveNoDot(s, k);
  }

  /** A numeral in digit form: the integer part and the digits after the point. */
  datatype Numeral = Numeral(integerPart: nat, decimalPart: string)

  /** The parse of the transcriber's digit branch: commas are dropped, a decimal
      numeral is split at the point and its integer side parsed, anything else is
      parsed whole; a failed or negative parse gives nothing. */
  function ParseNumeral(core: string): (r: Option<Numeral>)
    ensures r.Some? ==> AllDigits(r.value.decimalPart) && r.value.integerPart <= LongMax
    ensures r.Some? && r.value.decimalPart != "" ==> IsDecimalForm(RemoveCommas(core))
  {
    var s := RemoveCommas(core);
    match SplitDecimal(s)
    case Some((whole, fraction)) =>
      (match ParseLong(whole)
       case Success(v) => if v >= 0 then Some(Numeral(v, fraction)) else None
       case Failure(_) => None)
    case None =>
      (match ParseLong(s)
       case Success(v) => if v >= 0 then Some(Numeral(v, "")) else None
       case Failure(_) => None)
  }

  /** A point at `k` with at least one digit on each side and only digits around it. */
  predicate DecimalPointAt(s: string, k: int) {
    0 < k < |s| - 1 && s[k] == '.' && AllDigits(s[..k]) && AllDigits(s[k + 1..])
  }

  /** A non-empty run of ASCII digits. */
  predicate DigitRun(s: string) {
    |s| > 0 && AllDigits(s)
  }

  /** What the digit branch reads for every form it accepts, and that it accepts no
      other: a decimal numeral gives its integer side's value (while that fits a
      `long`) with its digits after the point; plain digits, with or without a
      leading `+`, give their value while it fits a `long`; digits after a `-` give
      zero when they are all zeros, since only `-0` is not negative; every other
      string (after the commas are dropped) gives nothing. */
  lemma ParseNumeralValue(core: string)
    ensures var s := RemoveCommas(core);
            forall k :: DecimalPointAt(s, k) ==>
              ParseNumeral(core) == if DigitsText(s[..k]) <= LongMax then Some(Numeral(DigitsText(s[..k]), s[k + 1..])) else None
    ensures var s := RemoveCommas(core);
            DigitRun(s) ==>
              ParseNumeral(core) == if DigitsText(s) <= LongMax then Some(Numeral(DigitsText(s), "")) else None
    ensures var s := RemoveCommas(core);
            |s| > 0 && s[0] == '+' && DigitRun(s[1..]) ==>
              ParseNumeral(core) == if DigitsText(s[1..]) <= LongMax then Some(Numeral(DigitsText(s[1..]), "")) else None
    ensures var s := RemoveCommas(core);
            |s| > 0 && s[0] == '-' && DigitRun(s[1..]) ==>
              ParseNumeral(core) == if DigitsText(s[1..]) == 0 then Some(Numeral(0, "")) else None
    ensures var s := RemoveCommas(core);
            ParseNumeral(core).Some? ==>
              || IsDecimalForm(s) || DigitRun(s)
              || (|s| > 0 && (s[0] == '+' || s[0] == '-') && DigitRun(s[1..]))
  {
    var s := RemoveCommas(core);
    forall k | DecimalPointAt(s, k)
      ensures ParseNumeral(core) == if DigitsText(s[..k]) <= LongMax then Some(Numeral(DigitsText(s[..k]), s[k + 1..])) else None
    {
      NumeralDecimalCase(core, k);
    }
    ParseLongForms(s);
    if (|s| > 0 && (s[0] == '+' || s[0] == '-')) || DigitRun(s) {
      SignedIsNoDecimal(s);
    }
  }

  lemma NumeralDecimalCase(core: string, k: int)
    requires DecimalPointAt(RemoveCommas(core), k)
    ensures var s := RemoveCommas(core);
            ParseNumeral(core) == if DigitsText(s[..k]) <= LongMax then Some(Numeral(DigitsText(s[..k]), s[k + 1..])) else None
  {
    var s := RemoveCommas(core);
    assert s == s[..k] + "." + s[k + 1..];
    SplitDecimalOf(s[..k], s[k + 1..]);
    ParseLongForms(s[..k]);
  }

  /** A string that starts with a sign, or holds only digits, has no decimal point. */
  lemma SignedIsNoDecimal(s: string)
    requires (|s| > 0 && (s[0] == '+' || s[0] == '-')) || DigitRun(s)
    ensures !IsDecimalForm(s)
  {
    if |s| > 0 && (s[0] == '+' || s[0] == '-') {
      forall k | 0 < k <= |s|
        ensures !AllDigits(s[..k])
      {
        assert s[..k][0] == s[0];
      }
    }
  }

  /** The digit string of a numeral. */
  function NumeralText(n: Numeral): string
    requires AllDigits(n.decimalPart)
  {
    DecimalString(n.integerPart) + (if n.decimalPart == "" then "" else "." + n.decimalPart)
  }

  /** Printing a numeral and parsing it back gives the numeral. */
  lemma ParseNumeralRoundTrip(n: Numeral)
    requires AllDigits(n.decimalPart) && n.integerPart <= LongMax
    ensures ParseNumeral(NumeralText(n)) == Some(n)
  {
    var whole := DecimalString(n.integerPart);
    var s := NumeralText(n);
    NumeralTextHasNoComma(n);
    RemoveCommasNoComma(s);
    ParseLongRoundTrip(n.integerPart);
    if n.decimalPart == "" {
      assert s == whole;
      assert !IsDecimalForm(s);
    } else {
      SplitNumeralText(n);
    }
  }

  lemma NumeralTextHasNoComma(n: Numeral)
    requires AllDigits(n.decimalPart)
    ensures forall i :: 0 <= i < |NumeralText(n)| ==> NumeralText(n)[i] != ','
  {
    var whole := DecimalString(n.integerPart);
    var s := NumeralText(n);
    forall i | 0 <= i < |s|
      ensures s[i] != ','
    {
      if i < |whole| {
        assert s[i] == whole[i];
      } else if i > |whole| {
        assert s[i] == n.decimalPart[i - |whole| - 1];
      }
    }
  }

  lemma SplitNumeralText(n: Numeral)
    requires AllDigits(n.decimalPart) && n.decimalPart != ""
    ensures SplitDecimal(NumeralText(n)) == Some((DecimalString(n.integerPart), n.decimalPart))
  {
    var whole := DecimalString(n.integerPart);
    assert NumeralText(n) == whole + "." + n.decimalPart;
    SplitDecimalOf(whole, n.decimalPart);
  }

  /** Two digit strings joined by a point split back into themselves. */
  lemma SplitDecimalOf(a: string, b: string)
    requires |a| > 0 && |b| > 0 && AllDigits(a) && AllDigits(b)
    ensures SplitDecimal(a + "." + b) == Some((a, b))
  {
    var s := a + "." + b;
    assert s[|a|] == '.' && s[..|a|] == a && s[|a| + 1..] == b;
    assert IsDecimalForm(s);
    var split := SplitDecimal(s);
    var x, y := split.value.0, split.value.1;
    assert s[|x|] == '.' && s[..|x|] == x && s[|x| + 1..] == y;
    SameDot(s, |a|, |x|);
  }

  /** Grouping commas are ignored: "1,500" is the numeral 1500. */
  lemma ParseNumeralCommas()
    ensures ParseNumeral("1,500") == Some(Numeral(1500, ""))
  {
    var s := "1500";
    assert RemoveCommas("1,500") == s;
    FifteenHundred();
    assert SplitDecimal(s).None?;
    assert ParseLong(s) == Success(1500);
  }

  lemma FifteenHundred()
    ensures AllDigits("1500") && DigitsText("1500") == 1500 && !IsDecimalForm("1500")
  {
    var s := "1500";
    assert s[..3] == "150";
    assert "150"[..2] == "15";
    assert "15"[..1] == "1";
  }

  /** The year reading of 100 < n < 2000: the hundreds as one number, "hundred",
      then the rest unless it is 0. */
  function YearWords(n: nat): (ws: seq<NumberWord>)
    requires 100 < n < 2000
  {
    TensAndOnesWords(n / 100) + [Hundred] + (if n % 100 != 0 then TensAndOnesWords(n % 100) else [])
  }

  /** The year reading reads back as the year: "nineteen hundred eighty four" is 1984. */
  lemma YearValue(n: nat)
    requires 100 < n < 2000
    ensures Value(YearWords(n)) == n
  {
    var a := TensAndOnesWords(n / 100);
    var b := if n % 100 != 0 then TensAndOnesWords(n % 100) else [];
    HearAllAppend(Heard(0, 0), a + [Hundred], b);
    HearAllAppend(Heard(0, 0), a, [Hundred]);
    TensAndOnesHeard(Heard(0, 0), n / 100);
    if n % 100 != 0 {
      TensAndOnesHeard(Heard(0, (n / 100) * 100), n % 100);
    }
  }

  lemma YearWellFormed(n: nat)
    requires 100 < n < 2000
    ensures WellFormed(YearWords(n))
  {
    var a := TensAndOnesWords(n / 100);
    var b := if n % 100 != 0 then TensAndOnesWords(n % 100) else [];
    assert WellFormed(a) by {
      assert TensAndOnes(n / 100).value == a;
    }
    assert WellFormed(b) by {
      if n % 100 != 0 {
        assert TensAndOnes(n % 100).value == b;
      }
    }
    WellFormedAppend(a, [Hundred]);
    WellFormedAppend(a + [Hundred], b);
  }

  // ---------------------------------------------------------------------------
  // The digit loop of `lookUpNumeral`

  /** The decimal digits of `n`, most significant first: `n + ""` as digit values. */
  function Digits(n: nat): (ds: seq<nat>)
    ensures |ds| >= 1
    ensures forall i :: 0 <= i < |ds| ==> ds[i] < 10
    ensures n > 0 ==> ds[0] != 0
    decreases n
  {
    if n < 10 then [n] else Digits(n / 10) + [n % 10]
  }

  /** The number the first `k` digits stand for. */
  function PrefixValue(ds: seq<nat>, k: nat): nat
    requires k <= |ds|
  {
    if k == 0 then 0 else 10 * PrefixValue(ds, k - 1) + ds[k - 1]
  }

  lemma {:induction false} PrefixValueAppend(ds: seq<nat>, e: seq<nat>, k: nat)
    requires k <= |ds|
    ensures PrefixValue(ds + e, k) == PrefixValue(ds, k)
  {
    if k > 0 {
      PrefixValueAppend(ds, e, k - 1);
    }
  }

  /** The digits of `n` stand for `n`. */
  lemma {:induction false} DigitsRoundTrip(n: nat)
    ensures PrefixValue(Digits(n), |Digits(n)|) == n
    decreases n
  {
    if n >= 10 {
      var ds := Digits(n / 10);
      PrefixValueAppend(ds, [n % 10], |ds|);
      DigitsRoundTrip(n / 10);
    }
  }

  /** The state of the digit loop before position `i`, where `g` is the scale
      group of the next digit: before a hundreds digit (`3 * g` digits left) the
      completed groups are read; after it (`3 * g + 2` digits left) its words wait
      for the tens and ones of the group. */
  ghost predicate DigitLoopState(ds: seq<nat>, i: nat, r: seq<NumberWord>, transcribeArea: bool, g: nat)
    requires i <= |ds|
    requires forall k :: 0 <= k < |ds| ==> ds[k] < 10
  {
    var p := |ds| - i;
    if i == 0 then
      r == [] && !transcribeArea && (p == 3 * g || p == 3 * g + 1 || p == 3 * g + 2)
    else
      || (p == 3 * g && r == IntegerWords(PrefixValue(ds, i), g) && (p > 0 ==> !transcribeArea))
      || (p == 3 * g + 2
          && r == IntegerWords(PrefixValue(ds, i - 1), g + 1) + HundredsWords(ds[i - 1])
          && transcribeArea == (ds[i - 1] != 0))
  }

  /** A hundreds digit opens a group. */
  lemma HundredsStep(ds: seq<nat>, i: nat, next: nat, r: seq<NumberWord>, transcribeArea: bool, g: nat,
                     r': seq<NumberWord>, transcribeArea': bool)
    requires forall k :: 0 <= k < |ds| ==> ds[k] < 10
    requires i < |ds| && |ds| - i == 3 * g && next == i + 1
    requires DigitLoopState(ds, i, r, transcribeArea, g)
    requires r' == r + HundredsWords(ds[i]) && transcribeArea' == (transcribeArea || ds[i] != 0)
    ensures g > 0 && DigitLoopState(ds, next, r', transcribeArea', g - 1)
  {
    assert r == IntegerWords(PrefixValue(ds, i), g);
  }

  /** The words a hundreds digit adds, written out. */
  lemma HundredsAppend(r: seq<NumberWord>, h: nat, r': seq<NumberWord>)
    requires h < 10
    requires r' == if h != 0 then r + TensAndOnesWords(h) + [Hundred] else r
    ensures r' == r + HundredsWords(h)
  {
  }

  /** Closing a group with tens and ones `t` after hundreds `h`, at position `p`
      of group `g`. */
  lemma CloseGroupAt(a: nat, h: nat, t: nat, g: nat, p: int, r: seq<NumberWord>, transcribeArea: bool, n: nat)
    requires h < 10 && t < 100 && n == 1000 * a + 100 * h + t
    requires p == 3 * g + 1 || p == 3 * g + 2
    requires r == IntegerWords(a, g + 1) + HundredsWords(h)
    requires transcribeArea == (h != 0)
    ensures r + EmittedWords(transcribeArea, t, p) == IntegerWords(n, g)
  {
    var tw := if t != 0 then TensAndOnesWords(t) else [];
    var sw := if (h != 0 || t != 0) && g > 0 then [Scale(Min(g, 6))] else [];
    EmittedInGroup(transcribeArea, t, g, p);
    CloseGroup(a, h, t, g);
    AppendAssoc3(r, tw, sw);
  }

  /** Regrouping stated on plain sequences, for the same reason as `Glue`. */
  lemma AppendAssoc3<T>(a: seq<T>, b: seq<T>, c: seq<T>)
    ensures a + (b + c) == a + b + c
  {
  }

  /** The words of a tens or ones position in terms of its group `g`. */
  lemma EmittedInGroup(transcribeArea: bool, t: nat, g: nat, p: int)
    requires t < 100 && (p == 3 * g + 1 || p == 3 * g + 2)
    ensures EmittedWords(transcribeArea, t, p)
         == (if t != 0 then TensAndOnesWords(t) else [])
            + (if (transcribeArea || t != 0) && g > 0 then [Scale(Min(g, 6))] else [])
  {
    PositionGroup(p, g);
  }

  /** The number read at a tens or ones position `i`: the tens digit and the ones
      digit after it, or the lone ones digit. */
  function NumberAt(ds: seq<nat>, i: nat): (t: nat)
    requires forall k :: 0 <= k < |ds| ==> ds[k] < 10
    requires i < |ds|
    ensures t < 100
  {
    if (|ds| - i) % 3 == 2 then 10 * ds[i] + ds[i + 1] else ds[i]
  }

  /** What a tens or ones position appends for the number `t` below 100 at
      position `p`: the number unless it is 0, then the scale word when the group
      had a nonzero digit and is not the lowest. */
  ghost predicate Emitted(r: seq<NumberWord>, transcribeArea: bool, t: nat, p: int,
                          r': seq<NumberWord>, transcribeArea': bool)
  {
    && t < 100
    && r' == r + EmittedWords(transcribeArea, t, p)
    && transcribeArea' == ((transcribeArea || t != 0) && p <= 3)
  }

  ghost function EmittedWords(transcribeArea: bool, t: nat, p: int): seq<NumberWord>
    requires t < 100
  {
    (if t != 0 then TensAndOnesWords(t) else [])
      + (if p > 3 && (transcribeArea || t != 0) then [Scale(AreaGroup(p))] else [])
  }

  /** A tens digit and the ones digit after it close a group. */
  lemma TensStep(ds: seq<nat>, i: nat, next: nat, r: seq<NumberWord>, transcribeArea: bool, g: nat,
                 r': seq<NumberWord>, transcribeArea': bool)
    requires forall k :: 0 <= k < |ds| ==> ds[k] < 10
    requires i + 1 < |ds| && |ds| - i == 3 * g + 2 && next == i + 2
    requires DigitLoopState(ds, i, r, transcribeArea, g)
    requires Emitted(r, transcribeArea, NumberAt(ds, i), |ds| - i, r', transcribeArea')
    ensures DigitLoopState(ds, next, r', transcribeArea', g)
  {
    PositionGroup(|ds| - i, g);
    var t := 10 * ds[i] + ds[i + 1];
    assert NumberAt(ds, i) == t;
    var a: nat := if i == 0 then 0 else PrefixValue(ds, i - 1);
    var h: nat := if i == 0 then 0 else ds[i - 1];
    assert r == IntegerWords(a, g + 1) + HundredsWords(h) && transcribeArea == (h != 0);
    assert PrefixValue(ds, i) == 10 * a + h;
    assert PrefixValue(ds, i + 1) == 10 * PrefixValue(ds, i) + ds[i];
    assert PrefixValue(ds, i + 2) == 10 * PrefixValue(ds, i + 1) + ds[i + 1];
    var n := PrefixValue(ds, i + 2);
    CloseGroupAt(a, h, t, g, |ds| - i, r, transcribeArea, n);
  }

  /** A leading ones digit closes the first group. */
  lemma OnesStep(ds: seq<nat>, next: nat, r: seq<NumberWord>, transcribeArea: bool, g: nat,
                 r': seq<NumberWord>, transcribeArea': bool)
    requires forall k :: 0 <= k < |ds| ==> ds[k] < 10
    requires 0 < |ds| && |ds| == 3 * g + 1 && next == 1
    requires DigitLoopState(ds, 0, r, transcribeArea, g)
    requires Emitted(r, transcribeArea, NumberAt(ds, 0), |ds|, r', transcribeArea')
    ensures DigitLoopState(ds, next, r', transcribeArea', g)
  {
    PositionGroup(|ds|, g);
    assert NumberAt(ds, 0) == ds[0];
    assert PrefixValue(ds, 1) == ds[0];
    CloseGroupAt(0, 0, ds[0], g, |ds|, r, transcribeArea, ds[0]);
  }

  /** The scale word the loop emits at a tens or ones position of group `g`. */
  lemma PositionGroup(p: int, g: nat)
    requires p == 3 * g + 1 || p == 3 * g + 2
    ensures p % 3 == p - 3 * g && p / 3 == g
    ensures DigitArea(p) != "" <==> g > 0
    ensures g > 0 ==> AreaGroup(p) == Min(g, 6)
  {
  }

  /** A position with remainder 0 is not a tens or ones position of group `g`. */
  lemma NotGroupPosition(p: int, g: nat)
    requires p % 3 == 0
    ensures p != 3 * g + 1 && p != 3 * g + 2
  {
  }

  /** A position with a nonzero remainder is not a hundreds position of group `g`. */
  lemma NotHundredsPosition(p: int, g: nat)
    requires p % 3 != 0
    ensures p != 3 * g
  {
  }

  /** `lookUpNumeral`: walks the digits of the integer part left to right,
      emitting a hundreds digit with "hundred", a tens/ones pair as one number, and
      the scale word at the end of every group that had a nonzero digit; then the
      decimal part digit by digit. */
  method LookUpNumeral(integerPart: nat, decimalPart: string) returns (r: seq<NumberWord>)
    requires AllDigits(decimalPart)
    ensures r == NumeralWords(integerPart, decimalPart)
  {
    r := IntegerPartWords(integerPart);
    if decimalPart != "" {
      ghost var whole := r;
      r := r + [Dot];
      var j := 0;
      while j < |decimalPart|
        invariant 0 <= j <= |decimalPart|
        invariant r == whole + [Dot] + DigitWords(decimalPart[..j])
      {
        DigitWordsSnoc(decimalPart, j);
        r := r + [Small(DigitValue(decimalPart[j]))];
        j := j + 1;
      }
      assert decimalPart[..|decimalPart|] == decimalPart;
      NumeralWordsDecimal(integerPart, decimalPart);
    }
  }

  lemma DigitWordsSnoc(d: string, j: nat)
    requires AllDigits(d) && j < |d|
    ensures DigitWords(d[..j + 1]) == DigitWords(d[..j]) + [Small(DigitValue(d[j]))]
  {
    var a := DigitWords(d[..j + 1]);
    var b := DigitWords(d[..j]) + [Small(DigitValue(d[j]))];
    assert |a| == |b|;
    forall k | 0 <= k < |a|
      ensures a[k] == b[k]
    {
      assert d[..j + 1][k] == d[k];
    }
  }

  /** The integer half of `lookUpNumeral`. */
  method IntegerPartWords(integerPart: nat) returns (r: seq<NumberWord>)
    ensures r == NumeralWords(integerPart, "")
  {
    r := [];
    if integerPart == 0 {
      r := [Small(0)];
    } else {
      var ds := Digits(integerPart);
      var i := 0;
      var transcribeArea := false;
      ghost var g: nat := |ds| / 3;
      while i < |ds|
        invariant 0 <= i <= |ds|
        invariant DigitLoopState(ds, i, r, transcribeArea, g)
        decreases |ds| - i
      {
        i, r, transcribeArea, g := DigitStep(ds, i, r, transcribeArea, g);
      }
      DigitLoopDone(integerPart, ds, r, transcribeArea, g);
    }
  }

  /** After the last digit the loop holds the words of the whole number. */
  lemma DigitLoopDone(n: nat, ds: seq<nat>, r: seq<NumberWord>, transcribeArea: bool, g: nat)
    requires n > 0 && ds == Digits(n)
    requires DigitLoopState(ds, |ds|, r, transcribeArea, g)
    ensures r == NumeralWords(n, "")
  {
    DigitsRoundTrip(n);
    assert r == IntegerWords(n, 0);
    assert NumeralWords(n, "") == IntegerWords(n, 0) + [];
  }

  /** One pass of the digit loop, dispatched on the position of digit `i`
      counted from the right; returns the position after the digits consumed. */
  method DigitStep(ds: seq<nat>, i: nat, r: seq<NumberWord>, transcribeArea: bool, ghost g: nat)
    returns (next: nat, r': seq<NumberWord>, transcribeArea': bool, ghost g': nat)
    requires forall k :: 0 <= k < |ds| ==> ds[k] < 10
    requires i < |ds| && DigitLoopState(ds, i, r, transcribeArea, g)
    ensures i < next <= |ds| && DigitLoopState(ds, next, r', transcribeArea', g')
  {
    var p := |ds| - i;
    if p % 3 == 0 {
      r', transcribeArea' := HundredsDigit(r, transcribeArea, ds[i]);
      next := i + 1;
      g' := HundredsLoopStep(ds, i, next, r, transcribeArea, g, r', transcribeArea');
    } else {
      next, r', transcribeArea' := TensAndOnesDigits(ds, i, r, transcribeArea);
      PairLoopStep(ds, i, next, r, transcribeArea, g, r', transcribeArea');
      g' := g;
    }
  }

  /** The digit loop keeps its state across a hundreds digit and moves to the
      next lower group. */
  lemma HundredsLoopStep(ds: seq<nat>, i: nat, next: nat, r: seq<NumberWord>, transcribeArea: bool, g: nat,
                         r': seq<NumberWord>, transcribeArea': bool) returns (g': nat)
    requires forall k :: 0 <= k < |ds| ==> ds[k] < 10
    requires i < |ds| && DigitLoopState(ds, i, r, transcribeArea, g)
    requires (|ds| - i) % 3 == 0 && next == i + 1
    requires r' == r + HundredsWords(ds[i]) && transcribeArea' == (transcribeArea || ds[i] != 0)
    ensures i < next <= |ds| && DigitLoopState(ds, next, r', transcribeArea', g')
  {
    var p := |ds| - i;
    NotGroupPosition(p, g);
    HundredsStep(ds, i, next, r, transcribeArea, g, r', transcribeArea');
    g' := g - 1;
  }

  /** The digit loop keeps its state across a tens/ones pair or a lone ones digit
      and stays in its group. */
  lemma PairLoopStep(ds: seq<nat>, i: nat, next: nat, r: seq<NumberWord>, transcribeArea: bool, g: nat,
                     r': seq<NumberWord>, transcribeArea': bool)
    requires forall k :: 0 <= k < |ds| ==> ds[k] < 10
    requires i < |ds| && DigitLoopState(ds, i, r, transcribeArea, g)
    requires (|ds| - i) % 3 != 0 && next == (if (|ds| - i) % 3 == 2 then i + 2 else i + 1)
    requires Emitted(r, transcribeArea, NumberAt(ds, i), |ds| - i, r', transcribeArea')
    ensures i < next <= |ds| && DigitLoopState(ds, next, r', transcribeArea', g)
  {
    var p := |ds| - i;
    NotHundredsPosition(p, g);
    PositionGroup(p, g);
    if p == 3 * g + 2 {
      TensStep(ds, i, next, r, transcribeArea, g, r', transcribeArea');
    } else {
      OnesStep(ds, next, r, transcribeArea, g, r', transcribeArea');
    }
  }

  /** The loop body at a hundreds digit `temp`: its words and "hundred", nothing for 0. */
  method HundredsDigit(r: seq<NumberWord>, transcribeArea: bool, temp: nat)
    returns (r': seq<NumberWord>, transcribeArea': bool)
    requires temp < 10
    ensures r' == r + HundredsWords(temp) && transcribeArea' == (transcribeArea || temp != 0)
  {
    r', transcribeArea' := r, transcribeArea;
    if temp != 0 {
      transcribeArea' := true;
      r' := r' + TensAndOnesWords(temp) + [Hundred];
    }
    HundredsAppend(r, temp, r');
  }

  /** The loop body at a tens digit (which also takes the ones digit after it) or
      at a leading ones digit; returns the position after the ones digit. */
  method TensAndOnesDigits(ds: seq<nat>, i: nat, r: seq<NumberWord>, transcribeArea: bool)
    returns (next: nat, r': seq<NumberWord>, transcribeArea': bool)
    requires forall k :: 0 <= k < |ds| ==> ds[k] < 10
    requires i < |ds| && (|ds| - i) % 3 != 0
    ensures next == (if (|ds| - i) % 3 == 2 then i + 2 else i + 1)
    ensures Emitted(r, transcribeArea, NumberAt(ds, i), |ds| - i, r', transcribeArea')
  {
    var p := |ds| - i;
    var area := DigitArea(p);
    if p % 3 == 2 {
      var temp := 10 * ds[i] + ds[i + 1];
      r', transcribeArea' := EmitTensAndOnes(r, transcribeArea, temp, area, p);
      next := i + 2;
    } else {
      var temp := ds[i];
      r', transcribeArea' := EmitTensAndOnes(r, transcribeArea, temp, area, p);
      next := i + 1;
    }
  }

  /** The shared tail of a tens or ones position: the number below 100 unless it
      is 0, then the scale word if the group had a nonzero digit. */
  method EmitTensAndOnes(r: seq<NumberWord>, transcribeArea: bool, temp: nat, area: string, p: int)
    returns (r': seq<NumberWord>, transcribeArea': bool)
    requires temp < 100 && (area != "" <==> p > 3)
    ensures var f := transcribeArea || temp != 0;
            && r' == r + (if temp != 0 then TensAndOnesWords(temp) else [])
                       + (if p > 3 && f then [Scale(AreaGroup(p))] else [])
            && transcribeArea' == (f && p <= 3)
  {
    r', transcribeArea' := r, transcribeArea;
    if temp != 0 {
      transcribeArea' := true;
      r' := r' + TensAndOnesWords(temp);
    }
    if area != "" && transcribeArea' {
      transcribeArea' := false;
      r' := r' + [Scale(AreaGroup(p))];
    }
  }
}
