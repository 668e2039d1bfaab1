/** Numbers as decimal text: sprintf "%d" and atoi. */
module DecimalText {
  import opened HexText

  /** The digits of n, most significant first. */
  function Digits(n: nat): (s: string)
    ensures s != [] && AllDigits(s)
  {
    if n < 10 then [DigitChar(n)] else Digits(n / 10) + [DigitChar(n % 10)]
  }

  function DigitChar(d: nat): (c: char)
    requires d < 10
    ensures IsDigit(c)
  {
    (d + 0x30) as char
  }

  /** sprintf "%d". */
  function Print(n: int): string {
    if n < 0 then "-" + Digits(-n) else Digits(n)
  }

  /** The digit loop of atoi, continuing from the number read so far. */
  function ReadDigits(s: string, sofar: nat): nat {
    if s == [] || !IsDigit(s[0]) then sofar else ReadDigits(s[1..], sofar * 10 + (s[0] as int - 0x30))
  }

  predicate IsSpace(c: char) {
    c == ' ' || 0x09 as char <= c <= 0x0D as char
  }

  /** atoi, for numbers that fit an int: white space, a sign, digits; anything after them is ignored. */
  function Atoi(s: string): int {
    if s == [] then 0
    else if IsSpace(s[0]) then Atoi(s[1..])
    else if s[0] == '-' then -(ReadDigits(s[1..], 0) as int)
    else if s[0] == '+' then ReadDigits(s[1..], 0)
    else ReadDigits(s, 0)
  }

  function Power10(k: nat): (p: nat)
    ensures p > 0
  {
    if k == 0 then 1 else 10 * Power10(k - 1)
  }

  /** The decimal digits, one by one: the i-th from the right tells how often 10^i goes in, modulo ten. */
  lemma {:induction false} DigitAt(n: nat, i: nat)
    ensures i < |Digits(n)| ==> Digits(n)[|Digits(n)| - 1 - i] == "0123456789"[n / Power10(i) % 10]
    ensures i >= |Digits(n)| ==> n / Power10(i) == 0
    decreases n
  {
    var p := Power10(i);
    if i == 0 {
      DigitLiteral(n % 10);
      assert n / 1 == n;
    } else if n < 10 {
      PowerGrows(i);
      Below(n, p);
    } else {
      DigitAt(n / 10, i - 1);
      DivideTwice(n, Power10(i - 1));
    }
  }

  lemma DigitLiteral(d: nat)
    requires d < 10
    ensures DigitChar(d) == "0123456789"[d]
  {
    assert d == 0 || d == 1 || d == 2 || d == 3 || d == 4 || d == 5 || d == 6 || d == 7 || d == 8 || d == 9;
  }

  lemma Below(n: nat, p: nat)
    requires n < p
    ensures n / p == 0
  {
  }

  lemma DivideTwice(n: nat, p: nat)
    requires p > 0
    ensures n / (10 * p) == n / 10 / p
  {
    var a, b := n / (10 * p), n / 10 / p;
    var r, u, v := n % (10 * p), n % 10, n / 10 % p;
    assert n == 10 * p * a + r && n / 10 == p * b + v && n == 10 * (n / 10) + u;
    assert 10 * p * (a - b) == 10 * v + u - r;
    if a > b {
      Multiple(p, a - b);
    } else if b > a {
      Multiple(p, b - a);
    }
  }

  lemma Multiple(p: nat, k: nat)
    requires p > 0 && k > 0
    ensures 10 * p * k >= 10 * p
  {
    assert p * k == p + p * (k - 1) && p * (k - 1) >= 0;
  }

  /** Reading digits shifts what was read before by their number. */
  lemma {:induction false} ReadAppend(s: string, d: char, rest: string, sofar: nat)
    requires AllDigits(s) && IsDigit(d) && (rest == [] || !IsDigit(rest[0]))
    ensures ReadDigits(s + [d] + rest, sofar) == ReadDigits(s, sofar) * 10 + (d as int - 0x30)
    decreases |s|
  {
    if s == [] {
      assert s + [d] + rest == [d] + rest;
      assert ([d] + rest)[1..] == rest;
    } else {
      assert (s + [d] + rest)[1..] == s[1..] + [d] + rest;
      ReadAppend(s[1..], d, rest, sofar * 10 + (s[0] as int - 0x30));
    }
  }

  /** atoi undoes "%d", whatever non-digit follows. */
  lemma {:induction false} ReadDigitsOfPrinted(n: nat, rest: string)
    requires rest == [] || !IsDigit(rest[0])
    ensures ReadDigits(Digits(n) + rest, 0) == n
    decreases n
  {
    if n < 10 {
      ReadAppend([], DigitChar(n), rest, 0);
      assert [] + [DigitChar(n)] + rest == Digits(n) + rest;
    } else {
      ReadAppend(Digits(n / 10), DigitChar(n % 10), rest, 0);
      assert Digits(n) + rest == Digits(n / 10) + [DigitChar(n % 10)] + rest;
      ReadDigitsOfPrinted(n / 10, []);
      assert Digits(n / 10) + [] == Digits(n / 10);
    }
  }

  lemma AtoiPlain(s: string)
    requires s != [] && IsDigit(s[0])
    ensures Atoi(s) == ReadDigits(s, 0)
  {
  }

  lemma AtoiOfPrinted(n: int, rest: string)
    requires rest == [] || !IsDigit(rest[0])
    ensures Atoi(Print(n) + rest) == n
  {
    hide Digits, ReadDigits, Atoi, IsSpace;
    var digits := Digits(if n < 0 then -n else n);
    ReadDigitsOfPrinted(if n < 0 then -n else n, rest);
    if n < 0 {
      assert "-" + digits + rest == ['-'] + (digits + rest);
      AtoiMinus(digits + rest);
    } else {
      assert IsDigit(digits[0]);
      AtoiPlain(digits + rest);
    }
  }

  lemma AtoiMinus(s: string)
    ensures Atoi(['-'] + s) == -(ReadDigits(s, 0) as int)
  {
    assert (['-'] + s)[1..] == s;
  }

  /** What else atoi accepts: white space in front, and a plus sign; where no digit comes it reads zero. */
  lemma AtoiSpace(c: char, s: string)
    requires c == ' ' || 0x09 as char <= c <= 0x0D as char
    ensures Atoi([c] + s) == Atoi(s)
  {
    assert ([c] + s)[1..] == s;
    hide ReadDigits;
  }

  lemma AtoiPlus(n: nat, rest: string)
    requires rest == [] || !IsDigit(rest[0])
    ensures Atoi(['+'] + (Digits(n) + rest)) == n
  {
    assert (['+'] + (Digits(n) + rest))[1..] == Digits(n) + rest;
    ReadDigitsOfPrinted(n, rest);
    hide Digits, ReadDigits;
  }

  lemma AtoiNothing(s: string)
    requires s == [] || ('!' <= s[0] && s[0] != '+' && s[0] != '-' && !('0' <= s[0] <= '9'))
    ensures Atoi(s) == 0
  {
  }

  lemma PrintInjective(m: int, n: int)
    requires Print(m) == Print(n)
    ensures m == n
  {
    AtoiOfPrinted(m, []);
    AtoiOfPrinted(n, []);
    assert Print(m) + [] == Print(n) + [];
  }

  /** A number has at most k digits exactly when it is below the k-th power of ten. */
  lemma {:induction false} DigitCount(n: nat, k: nat)
    requires k > 0
    ensures |Digits(n)| <= k <==> n < Power10(k)
    decreases k
  {
    if k == 1 {
      assert Power10(1) == 10 by { assert Power10(0) == 1; }
    } else if n >= 10 {
      DigitCount(n / 10, k - 1);
    } else {
      assert Power10(k) >= 10 by { PowerGrows(k); }
    }
  }

  lemma {:induction false} PowerGrows(k: nat)
    requires k > 0
    ensures Power10(k) >= 10
  {
    if k > 1 { PowerGrows(k - 1); }
  }
}
