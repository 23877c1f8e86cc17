/**
 * The link codec of src/config.py: a folder reference and its name become a
 * text token "<crypt(id)>:<crypt(name)>" that another user can paste back.
 *
 * crypt reads a string as a big-endian numeral over one table and writes the
 * same number over the other table, so encoding and decoding are the same
 * routine with the tables swapped. Python integers are unbounded, and so are
 * Dafny's.
 */
module LinkCodec {
  import opened Wrappers
  import opened Alphabets

  /** Longest folder name a token can carry; shorter names are padded to it. */
  const MAX_LEN_NAME: nat := 50

  // ---------------------------------------------------------------------------
  // my_pow

  /** Reference definition of exponentiation. */
  function Pow(b: int, e: nat): int {
    if e == 0 then 1 else b * Pow(b, e - 1)
  }

  lemma {:induction false} PowSquare(b: int, k: nat)
    ensures Pow(b * b, k) == Pow(b, 2 * k)
  {
    if k > 0 {
      PowSquare(b, k - 1);
      calc {
        Pow(b, 2 * k);
        b * Pow(b, 2 * k - 1);
        b * (b * Pow(b, 2 * (k - 1)));
        (b * b) * Pow(b * b, k - 1);
        Pow(b * b, k);
      }
    }
  }

  /** Exponentiation by squaring, as my_pow computes it. */
  function MyPow(value: int, power: nat): (r: int)
    ensures r == Pow(value, power)
    decreases power
  {
    if power == 0 then 1
    else if power % 2 == 0 then
      PowSquare(value, power / 2);
      MyPow(value * value, power / 2)
    else
      PowSquare(value, (power - 1) / 2);
      value * MyPow(value * value, (power - 1) / 2)
  }

  // ---------------------------------------------------------------------------
  // Tables as dictionaries

  /** All characters of s occur in the table. */
  predicate Over(s: string, table: string) {
    forall i :: 0 <= i < |s| ==> s[i] in table
  }

  /**
   * The dictionary {char: idx for idx, char in enumerate(table)}: the last
   * position of c, or None where Python raises KeyError.
   */
  function IndexIn(table: string, c: char): (r: Option<nat>)
    ensures r.Some? <==> c in table
    ensures r.Some? ==> r.value < |table| && table[r.value] == c
    ensures r.Some? ==> forall j :: r.value < j < |table| ==> table[j] != c
    decreases |table|
  {
    if |table| == 0 then None
    else if table[|table| - 1] == c then Some(|table| - 1)
    else IndexIn(table[..|table| - 1], c)
  }

  lemma IndexInDistinct(table: string, d: nat)
    requires Distinct(table) && d < |table|
    ensures IndexIn(table, table[d]) == Some(d)
  {
  }

  /** The digit values of the characters of s, or None if one is not in the table. */
  function DigitsOf(table: string, s: string): (r: Option<seq<nat>>)
    ensures r.Some? <==> Over(s, table)
    ensures r.Some? ==> |r.value| == |s|
    ensures r.Some? ==> forall i :: 0 <= i < |s| ==> r.value[i] < |table| && table[r.value[i]] == s[i]
    decreases |s|
  {
    if |s| == 0 then Some([])
    else
      match DigitsOf(table, s[..|s| - 1])
      case None => None
      case Some(ds) =>
        match IndexIn(table, s[|s| - 1])
        case None => None
        case Some(d) => Some(ds + [d])
  }

  /** Renders digit values as characters of the table. */
  function Render(ds: seq<nat>, table: string): string
    requires forall i :: 0 <= i < |ds| ==> ds[i] < |table|
  {
    seq(|ds|, i requires 0 <= i < |ds| => table[ds[i]])
  }

  // ---------------------------------------------------------------------------
  // Numerals

  /** The big-endian value Σ ds[i]·base^(|ds|-i-1). */
  function BigEndian(ds: seq<nat>, base: nat): nat
    decreases |ds|
  {
    if |ds| == 0 then 0 else BigEndian(ds[..|ds| - 1], base) * base + ds[|ds| - 1]
  }

  /**
   * The digits of n in the given base, most significant first; no leading
   * zero digit, and none at all for 0.
   */
  function BaseDigits(n: nat, base: nat): (r: seq<nat>)
    requires base >= 2
    ensures forall i :: 0 <= i < |r| ==> r[i] < base
    ensures |r| > 0 ==> r[0] != 0
    ensures BigEndian(r, base) == n
    decreases n
  {
    if n == 0 then [] else
      DivShrinks(n, base);
      var q, d := n / base, n % base;
      DivModSplit(n, base, q, d);
      var p := BaseDigits(q, base);
      var r := p + [d];
      assert r[..|r| - 1] == p;
      r
  }

  /** Digit strings with their leading zeros removed. */
  function DropZeros(ds: seq<nat>): (r: seq<nat>)
    ensures |r| <= |ds|
    ensures forall i :: 0 <= i < |r| ==> r[i] == ds[|ds| - |r| + i]
  {
    if |ds| > 0 && ds[0] == 0 then DropZeros(ds[1..]) else ds
  }

  predicate AllZero(ds: seq<nat>) {
    forall i :: 0 <= i < |ds| ==> ds[i] == 0
  }

  lemma {:induction false} DropZerosEmpty(ds: seq<nat>)
    ensures DropZeros(ds) == [] <==> AllZero(ds)
    decreases |ds|
  {
    if |ds| > 0 && ds[0] == 0 {
      DropZerosEmpty(ds[1..]);
      assert AllZero(ds) <==> AllZero(ds[1..]) by {
        if AllZero(ds[1..]) {
          forall i | 0 <= i < |ds| ensures ds[i] == 0 {
            if i > 0 { assert ds[i] == ds[1..][i - 1]; }
          }
        }
      }
    }
  }

  lemma {:induction false} BigEndianZero(ds: seq<nat>, base: nat)
    requires base >= 1
    ensures BigEndian(ds, base) == 0 <==> AllZero(ds)
    decreases |ds|
  {
    if |ds| > 0 {
      var p := ds[..|ds| - 1];
      BigEndianZero(p, base);
      assert AllZero(ds) <==> AllZero(p) && ds[|ds| - 1] == 0 by {
        if AllZero(p) && ds[|ds| - 1] == 0 {
          forall i | 0 <= i < |ds| ensures ds[i] == 0 {
            if i < |ds| - 1 { assert ds[i] == p[i]; }
          }
        }
      }
    }
  }

  lemma {:induction false} DropZerosSnoc(p: seq<nat>, d: nat)
    ensures DropZeros(p + [d]) == if DropZeros(p) == [] && d == 0 then [] else DropZeros(p) + [d]
    decreases |p|
  {
    if |p| > 0 && p[0] == 0 {
      assert (p + [d])[1..] == p[1..] + [d];
      DropZerosSnoc(p[1..], d);
    } else if |p| == 0 {
      assert p + [d] == [d];
    }
  }

  lemma DivModDigit(x: nat, base: nat, d: nat)
    requires base >= 1 && d < base
    ensures (x * base + d) / base == x && (x * base + d) % base == d
  {
    var n := x * base + d;
    var q, r := n / base, n % base;
    assert n == q * base + r && 0 <= r < base;
    assert (x - q) * base == r - d;
    if x > q {
      MulAtLeast(x - q, base);
    } else if x < q {
      MulAtLeast(q - x, base);
    }
  }

  lemma DivModSplit(n: nat, base: nat, q: int, d: int)
    requires base >= 1 && q == n / base && d == n % base
    ensures n == q * base + d && 0 <= d < base
    ensures q == 0 ==> d == n
  {
  }

  lemma DivShrinks(n: nat, base: nat)
    requires n > 0 && base >= 2
    ensures n / base < n
  {
    var q := n / base;
    if q > 0 {
      MulAtLeast(base, q);
      assert q * base >= 2 * q;
    }
  }

  lemma MulAtLeast(k: int, b: nat)
    requires k >= 1
    ensures k * b >= b
  {
  }

  /** Writing out the value of a digit string gives the digits back, minus leading zeros. */
  lemma {:induction false} BaseDigitsOfBigEndian(ds: seq<nat>, base: nat)
    requires base >= 2
    requires forall i :: 0 <= i < |ds| ==> ds[i] < base
    ensures BaseDigits(BigEndian(ds, base), base) == DropZeros(ds)
    decreases |ds|
  {
    if |ds| > 0 {
      var p, d := ds[..|ds| - 1], ds[|ds| - 1];
      assert ds == p + [d];
      BaseDigitsOfBigEndian(p, base);
      BaseDigitsSnoc(p, d, base);
    }
  }

  lemma BaseDigitsSnoc(p: seq<nat>, d: nat, base: nat)
    requires base >= 2 && d < base
    requires BaseDigits(BigEndian(p, base), base) == DropZeros(p)
    ensures BaseDigits(BigEndian(p + [d], base), base) == DropZeros(p + [d])
  {
    var v := BigEndian(p, base);
    BigEndianSnoc(p, d, base);
    DropZerosSnoc(p, d);
    BigEndianZero(p, base);
    DropZerosEmpty(p);
    if v != 0 || d != 0 {
      BaseDigitsPeel(BigEndian(p + [d], base), v, d, base);
    }
  }

  /** The last digit of v·base + d is d, and the digits before it are those of v. */
  lemma BaseDigitsPeel(m: nat, v: nat, d: nat, base: nat)
    requires base >= 2 && d < base && m == v * base + d && (v != 0 || d != 0)
    ensures BaseDigits(m, base) == BaseDigits(v, base) + [d]
  {
    if v > 0 {
      MulAtLeast(v, base);
    }
    DivModDigit(v, base, d);
  }

  /** Rendering without leading zero digits drops the leading zero characters. */
  function DropLeading(s: string, c: char): string {
    if |s| > 0 && s[0] == c then DropLeading(s[1..], c) else s
  }

  lemma {:induction false} RenderDropZeros(ds: seq<nat>, table: string)
    requires Distinct(table) && |table| > 0
    requires forall i :: 0 <= i < |ds| ==> ds[i] < |table|
    ensures Render(DropZeros(ds), table) == DropLeading(Render(ds, table), table[0])
    decreases |ds|
  {
    if |ds| > 0 {
      var s := Render(ds, table);
      assert s[0] == table[ds[0]];
      if ds[0] == 0 {
        assert s[1..] == Render(ds[1..], table);
        RenderDropZeros(ds[1..], table);
      } else {
        assert s[0] != table[0];
      }
    }
  }

  lemma {:induction false} DigitsOfRender(table: string, ds: seq<nat>)
    requires Distinct(table)
    requires forall i :: 0 <= i < |ds| ==> ds[i] < |table|
    ensures DigitsOf(table, Render(ds, table)) == Some(ds)
    decreases |ds|
  {
    if |ds| > 0 {
      var s := Render(ds, table);
      var p := ds[..|ds| - 1];
      assert s[..|s| - 1] == Render(p, table);
      DigitsOfRender(table, p);
      IndexInDistinct(table, ds[|ds| - 1]);
      assert ds == p + [ds[|ds| - 1]];
    }
  }

  lemma RenderDigitsOf(table: string, s: string)
    requires DigitsOf(table, s).Some?
    ensures Render(DigitsOf(table, s).value, table) == s
  {
  }

  // ---------------------------------------------------------------------------
  // crypt

  /**
   * The base change crypt performs: the value of s over `from`, written over
   * `to`; None where a character of s is not in `from` (KeyError).
   */
  function Rebase(s: string, from: string, to: string): (r: Option<string>)
    requires |to| >= 2
    ensures r.Some? <==> Over(s, from)
  {
    match NumeralValue(s, from)
    case None => None
    case Some(n) => Some(Render(BaseDigits(n, |to|), to))
  }

  /** The number s spells over the table, or None where a character is not in it. */
  function NumeralValue(s: string, table: string): (r: Option<nat>)
    ensures r.Some? <==> Over(s, table)
  {
    match DigitsOf(table, s)
    case None => None
    case Some(ds) => Some(BigEndian(ds, |table|))
  }

  /** crypt(s, is_encode) as a function of its arguments. */
  function CryptValue(s: string, isEncode: bool): (r: Option<string>)
    ensures r.Some? <==> Over(s, if isEncode then ALPHABET else SYMBOLS)
  {
    if isEncode then Rebase(s, ALPHABET, SYMBOLS) else Rebase(s, SYMBOLS, ALPHABET)
  }

  /** Python's result[::-1]. */
  function Reverse(s: string): (r: string)
    ensures |r| == |s| && forall i :: 0 <= i < |s| ==> r[i] == s[|s| - 1 - i]
    decreases |s|
  {
    if |s| == 0 then [] else Reverse(s[1..]) + [s[0]]
  }

  lemma {:induction false} ReverseSnoc(s: string, c: char)
    ensures Reverse(s + [c]) == [c] + Reverse(s)
    decreases |s|
  {
    if |s| > 0 {
      assert (s + [c])[1..] == s[1..] + [c];
      ReverseSnoc(s[1..], c);
    } else {
      assert s + [c] == [c];
    }
  }

  lemma DigitsOfSnoc(table: string, s: string, i: nat, d: nat)
    requires i < |s| && DigitsOf(table, s[..i]).Some? && IndexIn(table, s[i]) == Some(d)
    ensures DigitsOf(table, s[..i + 1]) == Some(DigitsOf(table, s[..i]).value + [d])
  {
    assert s[..i + 1][..i] == s[..i];
  }

  lemma ShiftDigit(number: int, v: int, b: int, d: int, p: int, p1: int, y: int)
    requires number == v * p1 && p1 == b * p && y == v * b + d
    ensures number + d * p == y * p
  {
    calc {
      number + d * p;
      v * (b * p) + d * p;
      (v * b) * p + d * p;
      (v * b + d) * p;
      y * p;
    }
  }

  /** The arithmetic of one turn of crypt's first loop. */
  lemma AccumulateArith(b: nat, n: nat, i: nat, d: nat, number: int, v: int, y: int)
    requires i < n && number == v * Pow(b, n - i) && y == v * b + d
    ensures number + d * Pow(b, n - i - 1) == y * Pow(b, n - (i + 1))
  {
    var k := n - i - 1;
    ShiftDigit(number, v, b, d, Pow(b, k), Pow(b, k + 1), y);
  }

  lemma BigEndianSnoc(ds: seq<nat>, d: nat, base: nat)
    ensures BigEndian(ds + [d], base) == BigEndian(ds, base) * base + d
  {
    assert (ds + [d])[..|ds|] == ds;
  }

  /** One turn of crypt's second loop: the lowest digit is number % base. */
  lemma PeelStep(number: nat, outputChars: string)
    requires number != 0 && |outputChars| >= 2
    ensures Render(BaseDigits(number, |outputChars|), outputChars)
         == Render(BaseDigits(number / |outputChars|, |outputChars|), outputChars)
            + [outputChars[number % |outputChars|]]
  {
  }

  /**
   * crypt: accumulate the value of the input over its table with my_pow, then
   * peel off output digits by repeated division and reverse them.
   */
  method Crypt(s: string, isEncode: bool) returns (r: Option<string>)
    ensures r == CryptValue(s, isEncode)
  {
    if isEncode {
      r := Convert(s, ALPHABET, SYMBOLS);
    } else {
      r := Convert(s, SYMBOLS, ALPHABET);
    }
  }

  /** crypt for the table pair it has chosen: read the number, then write it. */
  method Convert(s: string, table: string, outputChars: string) returns (r: Option<string>)
    requires |outputChars| >= 2
    ensures r == Rebase(s, table, outputChars)
  {
    var number := ReadNumeral(s, table);
    if number.None? {
      return None;
    }
    var written := WriteNumeral(number.value, outputChars);
    r := Some(written);
  }

  lemma PowNonNegative(b: nat, e: nat)
    ensures Pow(b, e) >= 0
  {
    if e > 0 {
      PowNonNegative(b, e - 1);
    }
  }

  /**
   * crypt's first loop: number += table[char] * my_pow(base, length - i - 1)
   * for each character in turn; None where a character has no index.
   */
  method ReadNumeral(s: string, table: string) returns (n: Option<nat>)
    ensures n == NumeralValue(s, table)
  {
    var length := |s|;
    var number: nat := 0;
    var inputBase := |table|;
    ghost var ds: seq<nat> := [];

    for i := 0 to length
      invariant DigitsOf(table, s[..i]) == Some(ds)
      invariant number == BigEndian(ds, inputBase) * Pow(inputBase, length - i)
    {
      var d := IndexIn(table, s[i]);
      if d.None? {
        assert !Over(s, table);
        return None;
      }
      DigitsOfSnoc(table, s, i, d.value);
      BigEndianSnoc(ds, d.value, inputBase);
      AccumulateArith(inputBase, length, i, d.value, number, BigEndian(ds, inputBase),
        BigEndian(ds + [d.value], inputBase));
      PowNonNegative(inputBase, length - i - 1);
      number := number + d.value * MyPow(inputBase, length - i - 1);
      ds := ds + [d.value];
    }
    assert s[..length] == s;
    n := Some(number);
  }

  /**
   * crypt's second loop: take number % base as the next digit from the right
   * until the number is used up, then reverse the collected characters.
   */
  method WriteNumeral(number: nat, outputChars: string) returns (written: string)
    requires |outputChars| >= 2
    ensures written == Render(BaseDigits(number, |outputChars|), outputChars)
  {
    var outputBase := |outputChars|;
    var rest: nat := number;
    var result := "";
    assert Reverse(result) == [];
    while rest != 0
      invariant Render(BaseDigits(number, outputBase), outputChars)
             == Render(BaseDigits(rest, outputBase), outputChars) + Reverse(result)
      decreases rest
    {
      var c := outputChars[rest % outputBase];
      PeelStep(rest, outputChars);
      ReverseSnoc(result, c);
      assert Render(BaseDigits(rest, outputBase), outputChars) + Reverse(result)
          == Render(BaseDigits(rest / outputBase, outputBase), outputChars) + Reverse(result + [c]);
      result := result + [c];
      DivShrinks(rest, outputBase);
      rest := rest / outputBase;
    }
    written := Reverse(result);
  }

  // ---------------------------------------------------------------------------
  // What crypt promises

  /**
   * crypt keeps the number: the output, read over the output table, has the
   * value the input has over the input table, and starts with no zero digit.
   */
  lemma RebaseKeepsValue(s: string, from: string, to: string)
    requires Distinct(to) && |to| >= 2 && Over(s, from)
    ensures Rebase(s, from, to).Some?
    ensures Over(Rebase(s, from, to).value, to)
    ensures BigEndian(DigitsOf(to, Rebase(s, from, to).value).value, |to|)
         == BigEndian(DigitsOf(from, s).value, |from|)
    ensures Rebase(s, from, to).value == [] || Rebase(s, from, to).value[0] != to[0]
  {
    var n := BigEndian(DigitsOf(from, s).value, |from|);
    var ds := BaseDigits(n, |to|);
    DigitsOfRender(to, ds);
  }

  /**
   * Decoding undoes encoding up to leading zero characters: the two directions
   * swap tables, and the number between them has no leading zeros.
   */
  lemma RebaseRoundTrip(s: string, from: string, to: string)
    requires Distinct(from) && Distinct(to) && |from| >= 2 && |to| >= 2 && Over(s, from)
    ensures Rebase(s, from, to).Some?
    ensures Rebase(Rebase(s, from, to).value, to, from) == Some(DropLeading(s, from[0]))
  {
    var ds := DigitsOf(from, s).value;
    var n := BigEndian(ds, |from|);
    var e := Render(BaseDigits(n, |to|), to);
    DigitsOfRender(to, BaseDigits(n, |to|));
    assert Rebase(e, to, from) == Some(Render(BaseDigits(n, |from|), from));
    BaseDigitsOfBigEndian(ds, |from|);
    RenderDropZeros(ds, from);
    RenderDigitsOf(from, s);
  }

  /** crypt(crypt(s, True), False) is s without its leading spaces. */
  lemma CryptRoundTrip(s: string)
    requires Over(s, ALPHABET)
    ensures CryptValue(s, true).Some?
    ensures CryptValue(CryptValue(s, true).value, false) == Some(LStrip(s))
  {
    AlphabetDistinct();
    AlphabetShape();
    SymbolsDistinct();
    RebaseRoundTrip(s, ALPHABET, SYMBOLS);
    DropLeadingSpaces(s);
  }

  /** ... and exactly s when s does not start with a space. */
  lemma CryptRoundTripExact(s: string)
    requires Over(s, ALPHABET) && (s == [] || s[0] != ' ')
    ensures CryptValue(CryptValue(s, true).value, false) == Some(s)
  {
    CryptRoundTrip(s);
  }

  // ---------------------------------------------------------------------------
  // Padding and stripping

  function Spaces(n: nat): (r: string)
    ensures |r| == n && forall i :: 0 <= i < n ==> r[i] == ' '
  {
    seq(n, _ => ' ')
  }

  /** folder_name.ljust(MAX_LEN_NAME). */
  function PadName(name: string): (r: string)
    requires |name| <= MAX_LEN_NAME
    ensures |r| == MAX_LEN_NAME && r[..|name|] == name
    ensures forall i :: |name| <= i < MAX_LEN_NAME ==> r[i] == ' '
  {
    name + Spaces(MAX_LEN_NAME - |name|)
  }

  /**
   * str.strip() on decoded text. Every decoded character is from ALPHABET,
   * whose only whitespace character is the space.
   */
  function Strip(s: string): (r: string)
    ensures var i := |s| - |LStrip(s)|;
      && 0 <= i <= |s| - |r| && r == s[i..][..|r|]
      && (forall k :: 0 <= k < i ==> s[k] == ' ')
      && (forall k :: i + |r| <= k < |s| ==> s[k] == ' ')
    ensures |r| > 0 ==> r[0] != ' ' && r[|r| - 1] != ' '
  {
    var left := LStrip(s);
    var r := RStrip(left);
    var i := |s| - |left|;
    assert r == s[i..][..|r|];
    r
  }

  /** str.lstrip() over spaces: the longest suffix that does not start with a space. */
  function LStrip(s: string): (r: string)
    ensures |r| <= |s| && r == s[|s| - |r|..]
    ensures forall k :: 0 <= k < |s| - |r| ==> s[k] == ' '
    ensures |r| > 0 ==> r[0] != ' '
    decreases |s|
  {
    if |s| > 0 && s[0] == ' ' then LStrip(s[1..]) else s
  }

  /** str.rstrip() over spaces: the longest prefix that does not end with a space. */
  function RStrip(s: string): (r: string)
    ensures |r| <= |s| && r == s[..|r|]
    ensures forall k :: |r| <= k < |s| ==> s[k] == ' '
    ensures |r| > 0 ==> r[|r| - 1] != ' '
    decreases |s|
  {
    if |s| > 0 && s[|s| - 1] == ' ' then RStrip(s[..|s| - 1]) else s
  }

  lemma {:induction false} DropLeadingSpaces(s: string)
    ensures DropLeading(s, ' ') == LStrip(s)
    decreases |s|
  {
    if |s| > 0 && s[0] == ' ' { DropLeadingSpaces(s[1..]); }
  }

  lemma {:induction false} LStripIdempotent(s: string)
    ensures LStrip(LStrip(s)) == LStrip(s)
    decreases |s|
  {
    if |s| > 0 && s[0] == ' ' { LStripIdempotent(s[1..]); }
  }

  lemma {:induction false} LStripAppend(x: string, y: string)
    ensures LStrip(x + y) == if LStrip(x) == [] then LStrip(y) else LStrip(x) + y
    decreases |x|
  {
    if |x| > 0 {
      if x[0] == ' ' {
        assert (x + y)[1..] == x[1..] + y;
        LStripAppend(x[1..], y);
      }
    } else {
      assert x + y == y;
    }
  }

  lemma {:induction false} LStripSpaces(n: nat)
    ensures LStrip(Spaces(n)) == []
    decreases n
  {
    if n > 0 {
      assert Spaces(n)[1..] == Spaces(n - 1);
      LStripSpaces(n - 1);
    }
  }

  lemma {:induction false} RStripSpaces(x: string, n: nat)
    ensures RStrip(x + Spaces(n)) == RStrip(x)
    decreases n
  {
    if n > 0 {
      var s := x + Spaces(n);
      assert s[..|s| - 1] == x + Spaces(n - 1);
      RStripSpaces(x, n - 1);
    } else {
      assert x + Spaces(0) == x;
    }
  }

  /** Stripping the padded name, even after its leading spaces were lost, gives the stripped name. */
  lemma StripPadded(name: string)
    requires |name| <= MAX_LEN_NAME
    ensures Strip(LStrip(PadName(name))) == Strip(name)
  {
    var n := MAX_LEN_NAME - |name|;
    assert PadName(name) == name + Spaces(n);
    StripTrailingSpaces(name, n);
  }

  lemma StripTrailingSpaces(name: string, n: nat)
    ensures Strip(LStrip(name + Spaces(n))) == Strip(name)
  {
    var pad := Spaces(n);
    var left := LStrip(name);
    LStripAppend(name, pad);
    if left == [] {
      LStripSpaces(n);
      assert LStrip(name + pad) == [];
      assert Strip(name) == RStrip([]);
    } else {
      LStripIdempotent(name);
      LStripAppend(left, pad);
      RStripSpaces(left, n);
      assert LStrip(name + pad) == left + pad;
      assert LStrip(left + pad) == left + pad;
      assert Strip(left + pad) == RStrip(left);
    }
  }

  // ---------------------------------------------------------------------------
  // str.split

  /** Python's s.split(sep): the parts between separators, at least one. */
  function Split(s: string, sep: char): (r: seq<string>)
    ensures |r| >= 1
    ensures forall k :: 0 <= k < |r| ==> sep !in r[k]
    decreases |s|
  {
    if |s| == 0 then [""]
    else
      var rest := Split(s[1..], sep);
      if s[0] == sep then [""] + rest else [[s[0]] + rest[0]] + rest[1..]
  }

  /** sep.join(parts), the inverse of Split. */
  function JoinParts(parts: seq<string>, sep: char): string
    requires |parts| >= 1
  {
    if |parts| == 1 then parts[0] else parts[0] + [sep] + JoinParts(parts[1..], sep)
  }

  /** Joining the parts back with the separator gives the original string. */
  lemma {:induction false} SplitJoin(s: string, sep: char)
    ensures JoinParts(Split(s, sep), sep) == s
    decreases |s|
  {
    if |s| > 0 {
      var rest := Split(s[1..], sep);
      SplitJoin(s[1..], sep);
      if s[0] == sep {
        assert Split(s, sep)[1..] == rest;
        assert [] + [sep] + s[1..] == s;
      } else {
        var r := Split(s, sep);
        assert r[0] == [s[0]] + rest[0];
        if |rest| == 1 {
          assert [s[0]] + s[1..] == s;
        } else {
          assert r[1..] == rest[1..];
          assert [s[0]] + rest[0] + [sep] + JoinParts(rest[1..], sep) == [s[0]] + (rest[0] + [sep] + JoinParts(rest[1..], sep));
          assert [s[0]] + s[1..] == s;
        }
      }
    }
  }

  /** A separator-free string joined from parts splits back into exactly those parts. */
  lemma {:induction false} JoinSplit(parts: seq<string>, sep: char)
    requires |parts| >= 1 && forall k :: 0 <= k < |parts| ==> sep !in parts[k]
    ensures Split(JoinParts(parts, sep), sep) == parts
    decreases |parts|
  {
    if |parts| == 1 {
      SplitNoSeparator(parts[0], [], sep);
      assert parts[0] + [] == parts[0];
      assert parts[0] + "" == parts[0];
    } else {
      var tail := JoinParts(parts[1..], sep);
      JoinSplit(parts[1..], sep);
      assert ([sep] + tail)[1..] == tail;
      assert Split([sep] + tail, sep) == [""] + parts[1..];
      assert parts[0] + [sep] + tail == parts[0] + ([sep] + tail);
      SplitNoSeparator(parts[0], [sep] + tail, sep);
      assert parts[0] + "" == parts[0];
      assert [parts[0]] + parts[1..] == parts;
    }
  }

  lemma {:induction false} SplitNoSeparator(x: string, z: string, sep: char)
    requires sep !in x
    ensures Split(x + z, sep) == [x + Split(z, sep)[0]] + Split(z, sep)[1..]
    decreases |x|
  {
    if |x| > 0 {
      assert (x + z)[1..] == x[1..] + z;
      SplitNoSeparator(x[1..], z, sep);
      assert [x[0]] + (x[1..] + Split(z, sep)[0]) == x + Split(z, sep)[0];
    } else {
      assert x + z == z;
      assert x + Split(z, sep)[0] == Split(z, sep)[0];
      assert Split(z, sep) == [Split(z, sep)[0]] + Split(z, sep)[1..];
    }
  }

  /** Two separator-free parts joined by one separator split back into those two parts. */
  lemma SplitTwo(x: string, y: string, sep: char)
    requires sep !in x && sep !in y
    ensures Split(x + [sep] + y, sep) == [x, y]
  {
    SplitNoSeparator(y, [], sep);
    assert y + [] == y;
    assert ([sep] + y)[1..] == y;
    assert Split([sep] + y, sep) == ["", y];
    assert x + [sep] + y == x + ([sep] + y);
    SplitNoSeparator(x, [sep] + y, sep);
    assert x + "" == x;
  }

  // ---------------------------------------------------------------------------
  // Folder tokens

  datatype CodecError =
    | NameTooLong        // ValueError: the folder name is over MAX_LEN_NAME
    | UnknownCharacter   // KeyError: a character is not in the table being read

  /** encoding_folder: "<crypt(id)>:<crypt(padded name)>". */
  function EncodingFolder(id: string, folderName: string): (r: Result<string, CodecError>)
    ensures r == Err(NameTooLong) <==> |folderName| > MAX_LEN_NAME
    ensures r.Ok? <==> |folderName| <= MAX_LEN_NAME && Over(id, ALPHABET) && Over(PadName(folderName), ALPHABET)
  {
    if |folderName| > MAX_LEN_NAME then Err(NameTooLong)
    else
      match (CryptValue(id, true), CryptValue(PadName(folderName), true))
      case (Some(encodedId), Some(encodedName)) => Ok(encodedId + ":" + encodedName)
      case _ => Err(UnknownCharacter)
  }

  /**
   * Decodes each part with crypt(part, False).strip(), the decoding tables
   * being `from` and `to`; None on KeyError.
   */
  function DecodeParts(parts: seq<string>, from: string, to: string): (r: Option<seq<string>>)
    requires |to| >= 2
    ensures r.Some? <==> forall k :: 0 <= k < |parts| ==> Over(parts[k], from)
    ensures r.Some? ==> |r.value| == |parts|
    ensures r.Some? ==> forall k :: 0 <= k < |parts| ==> r.value[k] == Strip(Rebase(parts[k], from, to).value)
    decreases |parts|
  {
    if |parts| == 0 then Some([])
    else
      var first := Rebase(parts[0], from, to);
      var rest := DecodeParts(parts[1..], from, to);
      if first.Some? && rest.Some? then Some([Strip(first.value)] + rest.value) else None
  }

  /** decoding_folder: split the token on ':' and decode every part. */
  function DecodingFolder(codingString: string): (r: Option<seq<string>>)
    ensures r.Some? ==> forall k :: 0 <= k < |Split(codingString, ':')| ==> Over(Split(codingString, ':')[k], SYMBOLS)
    ensures (forall k :: 0 <= k < |Split(codingString, ':')| ==> Over(Split(codingString, ':')[k], SYMBOLS)) ==> r.Some?
    ensures r.Some? ==> |r.value| == |Split(codingString, ':')|
    ensures r.Some? ==> forall k :: 0 <= k < |r.value| ==> r.value[k] == Strip(CryptValue(Split(codingString, ':')[k], false).value)
  {
    DecodeParts(Split(codingString, ':'), SYMBOLS, ALPHABET)
  }

  /** Padding keeps a name over ALPHABET, since the space is in it. */
  lemma PadOver(name: string)
    requires |name| <= MAX_LEN_NAME
    ensures Over(PadName(name), ALPHABET) <==> Over(name, ALPHABET)
  {
    AlphabetShape();
    var p := PadName(name);
    assert forall i :: 0 <= i < |name| ==> p[i] == name[i];
    assert forall i :: |name| <= i < |p| ==> p[i] == ALPHABET[0];
  }

  /** A token is the two encoded halves around its only ':'. */
  lemma TokenShape(id: string, folderName: string)
    requires EncodingFolder(id, folderName).Ok?
    ensures Over(CryptValue(id, true).value, SYMBOLS)
    ensures Over(CryptValue(PadName(folderName), true).value, SYMBOLS)
    ensures Split(EncodingFolder(id, folderName).value, ':')
         == [CryptValue(id, true).value, CryptValue(PadName(folderName), true).value]
  {
    SymbolsDistinct();
    ColonNotSymbol();
    var e1, e2 := CryptValue(id, true).value, CryptValue(PadName(folderName), true).value;
    RebaseKeepsValue(id, ALPHABET, SYMBOLS);
    RebaseKeepsValue(PadName(folderName), ALPHABET, SYMBOLS);
    assert ':' !in e1 && ':' !in e2;
    SplitTwo(e1, e2, ':');
  }

  lemma DecodeTwo(a: string, b: string, from: string, to: string)
    requires |to| >= 2 && Over(a, from) && Over(b, from)
    ensures DecodeParts([a, b], from, to)
         == Some([Strip(Rebase(a, from, to).value), Strip(Rebase(b, from, to).value)])
  {
    var parts := [a, b];
    assert parts[0] == a && parts[1] == b;
    var r := DecodeParts(parts, from, to);
    assert r.Some? && |r.value| == 2;
    assert r.value == [r.value[0], r.value[1]];
  }

  /** decoding_folder(encoding_folder(id, name)) recovers both halves, stripped. */
  lemma FolderTokenRoundTrip(id: string, folderName: string)
    requires |folderName| <= MAX_LEN_NAME && Over(id, ALPHABET) && Over(folderName, ALPHABET)
    ensures EncodingFolder(id, folderName).Ok?
    ensures DecodingFolder(EncodingFolder(id, folderName).value) == Some([Strip(id), Strip(folderName)])
  {
    PadOver(folderName);
    TokenShape(id, folderName);
    var padded := PadName(folderName);
    CryptRoundTrip(id);
    CryptRoundTrip(padded);
    DecodeTwo(CryptValue(id, true).value, CryptValue(padded, true).value, SYMBOLS, ALPHABET);
    LStripIdempotent(id);
    StripPadded(folderName);
  }

  /** Names and ids without surrounding spaces come back exactly. */
  lemma FolderTokenRoundTripExact(id: string, folderName: string)
    requires |folderName| <= MAX_LEN_NAME && Over(id, ALPHABET) && Over(folderName, ALPHABET)
    requires Strip(id) == id && Strip(folderName) == folderName
    ensures EncodingFolder(id, folderName).Ok?
    ensures DecodingFolder(EncodingFolder(id, folderName).value) == Some([id, folderName])
  {
    FolderTokenRoundTrip(id, folderName);
  }
}
