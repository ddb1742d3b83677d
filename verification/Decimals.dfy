/** Decimal integers as Go prints and parses them, and JSON arrays of integers. */
module Decimals {
  import opened Wrappers

  predicate IsDigit(c: char) {
    '0' <= c <= '9'
  }

  function DigitValue(c: char): (d: nat)
    requires IsDigit(c)
    ensures d < 10
  {
    (c - '0') as nat
  }

  function DigitChar(d: nat): (c: char)
    requires d < 10
    ensures IsDigit(c) && DigitValue(c) == d
  {
    '0' + d as char
  }

  ghost predicate AllDigits(s: string) {
    forall i | 0 <= i < |s| :: IsDigit(s[i])
  }

  function Digits(n: nat): (s: string)
    ensures s != [] && AllDigits(s)
  {
    if n < 10 then [DigitChar(n)] else Digits(n / 10) + [DigitChar(n % 10)]
  }

  /** strconv.Itoa. */
  function Itoa(n: int): (s: string)
    ensures s != [] && (s[0] == '-' || IsDigit(s[0]))
  {
    if n < 0 then "-" + Digits(-n) else Digits(n)
  }

  function ValueOf(s: string): Option<nat> {
    if s == [] then Some(0)
    else if !IsDigit(s[|s| - 1]) then None
    else
      match ValueOf(s[..|s| - 1])
      case Some(n) => Some(10 * n + DigitValue(s[|s| - 1]))
      case None => None
  }

  lemma {:induction false} DigitsValue(n: nat)
    ensures ValueOf(Digits(n)) == Some(n)
  {
    if n < 10 {
      assert Digits(n)[..0] == [];
    } else {
      DigitsValue(n / 10);
      assert Digits(n)[..|Digits(n)| - 1] == Digits(n / 10);
    }
  }

  /** No zero stands before other digits. */
  lemma {:induction false} NoLeadingZero(n: nat)
    ensures Digits(n)[0] == '0' ==> Digits(n) == "0"
    ensures n > 0 ==> Digits(n)[0] != '0'
  {
    if n < 10 {
      assert DigitValue(DigitChar(n)) == n;
    } else {
      NoLeadingZero(n / 10);
    }
  }

  lemma OneMoreDigit(s: string, n: nat, c: char)
    requires ValueOf(s) == Some(n) && Digits(n) == s && n > 0 && IsDigit(c)
    ensures ValueOf(s + [c]) == Some(10 * n + DigitValue(c)) && Digits(10 * n + DigitValue(c)) == s + [c]
  {
    var m := 10 * n + DigitValue(c);
    assert (s + [c])[..|s|] == s;
    assert m / 10 == n && m % 10 == DigitValue(c);
  }

  lemma {:induction false} ValueDigits(s: string)
    requires s != [] && AllDigits(s) && (s[0] == '0' ==> |s| == 1)
    ensures ValueOf(s).Some? && Digits(ValueOf(s).value) == s
    ensures s[0] != '0' ==> ValueOf(s).value > 0
  {
    var last := |s| - 1;
    if last == 0 {
      assert s[..0] == [];
      assert s == [s[0]];
    } else {
      ValueDigits(s[..last]);
      OneMoreDigit(s[..last], ValueOf(s[..last]).value, s[last]);
      assert s == s[..last] + [s[last]];
    }
  }

  /** The value of some decimal digits: one more digit counts once, and what stands before it tenfold. */
  lemma ValueByDigits(s: string, c: char)
    requires ValueOf(s).Some?
    ensures ValueOf([]) == Some(0)
    ensures ValueOf(s + [c]) == if '0' <= c <= '9' then Some(10 * ValueOf(s).value + (c as int - '0' as int)) else None
  {
    assert (s + [c])[..|s|] == s;
  }

  /** Itoa is the decimal as it is usually written: a minus sign before a negative number, then its digits, and no
      zero before other digits. No other string has these properties. */
  lemma ItoaIsDecimal(n: int, s: string)
    ensures s == Itoa(n) <==>
              && s != [] && ((n < 0) == (s[0] == '-'))
              && var digits := if n < 0 then s[1..] else s;
                 && digits != [] && AllDigits(digits) && (digits[0] == '0' ==> |digits| == 1)
                 && ValueOf(digits) == Some(if n < 0 then -n else n)
  {
    var m: nat := if n < 0 then -n else n;
    NoLeadingZero(m);
    DigitsValue(m);
    if n < 0 {
      assert Itoa(n)[1..] == Digits(m);
      if s != [] && s[0] == '-' && s[1..] != [] && AllDigits(s[1..]) && (s[1..][0] == '0' ==> |s[1..]| == 1) {
        ValueDigits(s[1..]);
        assert s == "-" + s[1..];
      }
    } else if s != [] && AllDigits(s) && (s[0] == '0' ==> |s| == 1) {
      ValueDigits(s);
    }
  }

  const MAX_INT := 0x7fff_ffff_ffff_ffff

  /** strconv.Atoi: an optional sign, at least one digit, nothing else, and a value that fits an int. */
  function Atoi(s: string): Option<int> {
    var negative := s != [] && s[0] == '-';
    var digits := if s != [] && (s[0] == '-' || s[0] == '+') then s[1..] else s;
    if digits == [] then None
    else
      match ValueOf(digits)
      case Some(n) =>
        var value := if negative then -(n as int) else n as int;
        if -MAX_INT - 1 <= value <= MAX_INT then Some(value) else None
      case None => None
  }

  /** Parsing undoes printing. */
  lemma AtoiItoa(n: int)
    requires -MAX_INT - 1 <= n <= MAX_INT
    ensures Atoi(Itoa(n)) == Some(n)
  {
    if n < 0 {
      DigitsValue(-n);
      assert Itoa(n)[1..] == Digits(-n);
    } else {
      DigitsValue(n);
    }
  }

  lemma {:induction false} OnlyDigitsHaveValue(s: string)
    ensures ValueOf(s).Some? <==> AllDigits(s)
  {
    if s == [] {
    } else {
      OnlyDigitsHaveValue(s[..|s| - 1]);
    }
  }

  ghost predicate IsNumberOf(text: string, n: int, digits: string) {
    && digits != [] && AllDigits(digits)
    && (|| ((text == digits || text == "+" + digits) && ValueOf(digits) == Some(n))
        || (text == "-" + digits && ValueOf(digits) == Some(-n)))
  }

  /** The text is a number: digits, with a sign or without. */
  ghost predicate IsNumber(text: string, n: int) {
    exists digits: string :: IsNumberOf(text, n, digits)
  }

  lemma SignIsCut(digits: string)
    ensures ("+" + digits)[1..] == digits && ("-" + digits)[1..] == digits
  {}

  /** Just the numbers that fit 64 bits are read, with their values. */
  lemma AtoiReads(text: string, n: int)
    ensures Atoi(text) == Some(n) <==> IsNumber(text, n) && -MAX_INT - 1 <= n <= MAX_INT
  {
    var digits := if text != [] && (text[0] == '-' || text[0] == '+') then text[1..] else text;
    OnlyDigitsHaveValue(digits);
    if Atoi(text) == Some(n) {
      assert IsNumberOf(text, n, digits);
    }
    if IsNumber(text, n) {
      var cut: string :| IsNumberOf(text, n, cut);
      SignIsCut(cut);
      assert digits == cut;
    }
  }

  lemma FirstOfRest(x: string, restX: string, y: string, restY: string)
    requires x + restX == y + restY && |x| > |y|
    ensures restY != [] && restY[0] == x[|y|]
  {
    assert (x + restX)[|y|] == x[|y|] && (y + restY)[|y|] == restY[0];
  }

  lemma SameNumberLength(x: string, restX: string, y: string, restY: string)
    requires x + restX == y + restY && y != []
    requires forall i | 1 <= i < |x| :: IsDigit(x[i])
    requires restY != [] ==> !IsDigit(restY[0])
    ensures |x| <= |y|
  {
    if |x| > |y| {
      FirstOfRest(x, restX, y, restY);
    }
  }

  /** A number ends where its digits do: printed numbers followed by a non-digit can be told apart. */
  lemma ItoaPrefix(a: int, restA: string, b: int, restB: string)
    requires restA != [] ==> !IsDigit(restA[0])
    requires restB != [] ==> !IsDigit(restB[0])
    requires Itoa(a) + restA == Itoa(b) + restB
    ensures a == b && restA == restB
  {
    var whole := Itoa(a) + restA;
    assert whole[0] == Itoa(a)[0] && whole[0] == Itoa(b)[0];
    SameNumberLength(Itoa(a), restA, Itoa(b), restB);
    SameNumberLength(Itoa(b), restB, Itoa(a), restA);
    assert Itoa(a) == whole[..|Itoa(a)|] && Itoa(b) == whole[..|Itoa(b)|];
    assert restA == whole[|Itoa(a)|..] && restB == whole[|Itoa(b)|..];
    DigitsValue(if a < 0 then -a else a);
    DigitsValue(if b < 0 then -b else b);
    assert a < 0 ==> Itoa(a)[1..] == Digits(-a);
    assert b < 0 ==> Itoa(b)[1..] == Digits(-b);
  }

  // ---------- JSON arrays of integers (section 5 of RFC 8259) ----------

  function JsonTail(xs: seq<int>): string {
    if xs == [] then "]" else "," + (Itoa(xs[0]) + JsonTail(xs[1..]))
  }

  /** json.Marshal of a non-nil []int. */
  function JsonInts(xs: seq<int>): (s: string)
    ensures s != [] && s[0] == '['
  {
    if xs == [] then "[]" else "[" + (Itoa(xs[0]) + JsonTail(xs[1..]))
  }

  lemma JsonTailCons(xs: seq<int>)
    ensures xs == [] ==> JsonTail(xs)[0] == ']'
    ensures xs != [] ==> xs == [xs[0]] + xs[1..] && JsonTail(xs)[0] == ','
    ensures xs != [] ==> JsonTail(xs)[1..] == Itoa(xs[0]) + JsonTail(xs[1..])
  {}

  lemma TailStartsWithSeparator(xs: seq<int>)
    ensures JsonTail(xs) != [] && !IsDigit(JsonTail(xs)[0])
  {}

  /** Equal listings of the elements start with the same number and go on alike. */
  lemma ElementsInjective(xs: seq<int>, ys: seq<int>)
    requires xs != [] && ys != []
    requires Itoa(xs[0]) + JsonTail(xs[1..]) == Itoa(ys[0]) + JsonTail(ys[1..])
    ensures xs[0] == ys[0] && JsonTail(xs[1..]) == JsonTail(ys[1..])
  {
    TailStartsWithSeparator(xs[1..]);
    TailStartsWithSeparator(ys[1..]);
    ItoaPrefix(xs[0], JsonTail(xs[1..]), ys[0], JsonTail(ys[1..]));
  }

  lemma {:induction false} JsonTailInjective(xs: seq<int>, ys: seq<int>)
    requires JsonTail(xs) == JsonTail(ys)
    ensures xs == ys
  {
    JsonTailCons(xs);
    JsonTailCons(ys);
    if xs != [] && ys != [] {
      ElementsInjective(xs, ys);
      JsonTailInjective(xs[1..], ys[1..]);
    }
  }

  /** Different arrays are printed differently. */
  lemma JsonIntsInjective(xs: seq<int>, ys: seq<int>)
    requires JsonInts(xs) == JsonInts(ys)
    ensures xs == ys
  {
    if xs != [] && ys != [] {
      assert JsonInts(xs)[1..] == Itoa(xs[0]) + JsonTail(xs[1..]);
      assert JsonInts(ys)[1..] == Itoa(ys[0]) + JsonTail(ys[1..]);
      ElementsInjective(xs, ys);
      JsonTailInjective(xs[1..], ys[1..]);
      JsonTailCons(xs);
      JsonTailCons(ys);
    } else {
      assert JsonInts(xs)[1] == JsonInts(ys)[1];
    }
  }

  lemma JoinLater(a: string, b: string, c: string, d: string)
    ensures a + (b + (c + d)) == a + b + c + d && a + (b + (c + d)) == (a + (b + c)) + d
  {}

  lemma {:induction false} JsonTailSnoc(xs: seq<int>, x: int) returns (elements: string)
    ensures JsonTail(xs) == elements + "]"
    ensures JsonTail(xs + [x]) == elements + ("," + Itoa(x) + "]")
  {
    if xs == [] {
      elements := "";
      assert [x][1..] == [];
      JoinLater("", ",", Itoa(x), "]");
    } else {
      var rest := JsonTailSnoc(xs[1..], x);
      elements := "," + (Itoa(xs[0]) + rest);
      assert (xs + [x])[1..] == xs[1..] + [x];
      JoinLater(",", Itoa(xs[0]), rest, "]");
      JoinLater(",", Itoa(xs[0]), rest, "," + Itoa(x) + "]");
    }
  }

  /** How arrays are printed: the elements in their order, between brackets, with commas and nothing else. */
  lemma JsonIntsByElement(xs: seq<int>, x: int) returns (elements: string)
    ensures JsonInts([]) == "[]" && JsonInts([x]) == "[" + Itoa(x) + "]"
    ensures xs != [] ==> JsonInts(xs) == elements + "]" && JsonInts(xs + [x]) == elements + ("," + Itoa(x) + "]")
  {
    assert JsonTail([x][1..]) == "]";
    JoinLater("", "[", Itoa(x), "]");
    elements := "";
    if xs != [] {
      var rest := JsonTailSnoc(xs[1..], x);
      elements := "[" + (Itoa(xs[0]) + rest);
      assert (xs + [x])[1..] == xs[1..] + [x];
      JoinLater("[", Itoa(xs[0]), rest, "]");
      JoinLater("[", Itoa(xs[0]), rest, "," + Itoa(x) + "]");
    }
  }
}
