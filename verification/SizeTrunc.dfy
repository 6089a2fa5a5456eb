/** Printing a file size in a few characters (lib/sub-util.c, size_trunc_len), with an uintmax_t of
    eight bytes. */
module SizeTrunc {
  import opened Numbers
  import opened PathBuffer

  const WORD := 0x1_0000_0000_0000_0000
  const LAST_SUFFIX := 8

  /** Units are multiples of 1000 or of 1024. */
  function Base(si: bool): nat {
    if si then 1000 else 1024
  }

  function Half(si: bool): nat {
    if si then 500 else 512
  }

  function WidthOf(len: nat): (w: nat)
    ensures 1 <= w <= 19
  {
    if len == 0 then 9 else if len > 19 then 19 else len
  }

  function Suffix(j: nat, si: bool): (s: string)
    requires j <= LAST_SUFFIX
    ensures |s| == if j == 0 then 0 else 1
  {
    if j == 0 then "" else [(if si then "kmgtpezy" else "KMGTPEZY")[j - 1]]
  }

  // ----- the arithmetic of the program -----

  /** One turn of the conversion from multiples of 1024 to multiples of 1000. */
  function RescaleOnce(size: nat): (r: nat)
    ensures r < WORD
  {
    (size / 125 * 128 % WORD + size % 125 * 1024 / 1000) % WORD
  }

  function Rescale(size: nat, units: nat): (r: nat)
    ensures size < WORD ==> r < WORD
  {
    if units == 0 then size else RescaleOnce(Rescale(size, units - 1))
  }

  /** The number that is divided. */
  function Start(size: nat, units: nat, si: bool): (r: nat)
    ensures size < WORD ==> r < WORD
  {
    if si then Rescale(size, units) else size
  }

  /** One division with rounding. */
  function Divide(size: nat, si: bool): (r: nat)
    ensures 0 < size < WORD ==> r < size
  {
    (size + Half(si)) % WORD / Base(si)
  }

  function Fits(size: nat, width: nat, j: nat): bool
    requires width >= 1
  {
    size < Pow10(width - (if j > 0 then 1 else 0))
  }

  /** How many divisions are done, from unit j on. */
  function Divisions(size: nat, width: nat, j: nat, si: bool): nat
    requires size < WORD && width >= 1
    decreases size
  {
    if size == 0 || Fits(size, width, j) then 0
    else 1 + Divisions(Divide(size, si), width, j + 1, si)
  }

  function Divided(size: nat, k: nat, si: bool): (r: nat)
    ensures size < WORD ==> r < WORD
  {
    if k == 0 then size else Divide(Divided(size, k - 1, si), si)
  }

  /** What is printed for a number of unit j. */
  function SizeText(n: nat, j: nat, units: nat, width: nat, si: bool): string
    requires units <= j <= LAST_SUFFIX
  {
    if n != 0 then Decimal(n) + Suffix(j, si)
    else if j == units then "0"
    else (if width > 1 then "~" else "") + (if j > 1 then Suffix(j - 1, si) else "B")
  }

  // ----- the program -----

  /** g_snprintf: at most room - 1 characters, and a NUL. */
  method Snprintf(buffer: array<char>, room: nat, text: string)
    requires 1 <= room <= buffer.Length && '\0' !in text
    modifies buffer
    ensures Holds(buffer, 0, if |text| < room then text else text[..room - 1])
  {
    var n := if |text| < room then |text| else room - 1;
    for i := 0 to n
      invariant forall k :: 0 <= k < i ==> buffer[k] == text[k]
    {
      buffer[i] := text[i];
    }
    buffer[n] := '\0';
  }

  function Shown(size: nat, len: nat, units: nat, si: bool): string
    requires size < WORD
    requires units + Divisions(size, WidthOf(len), units, si) <= LAST_SUFFIX
  {
    var k := Divisions(size, WidthOf(len), units, si);
    SizeText(Divided(size, k, si), units + k, units, WidthOf(len), si)
  }

  function Cut(text: string, width: nat): string {
    if |text| <= width then text else text[..width]
  }

  /** The conversion to multiples of 1000. */
  method ToThousands(size: nat, units: nat) returns (n: nat)
    ensures n == Rescale(size, units)
  {
    n := size;
    for i := 0 to units
      invariant n == Rescale(size, i)
    {
      var remain := n % 125 * 1024 / 1000;
      n := n / 125;
      n := n * 128 % WORD;
      n := (n + remain) % WORD;
    }
  }

  /** The two ways of printing. */
  method WriteSize(buffer: array<char>, n: nat, j: nat, units: nat, width: nat, si: bool)
    requires units <= j <= LAST_SUFFIX && 1 <= width < buffer.Length
    modifies buffer
    ensures Holds(buffer, 0, Cut(SizeText(n, j, units, width, si), width))
  {
    hide Decimal;
    var text: string;
    if n == 0 {
      if j == units {
        text := "0";
      } else {
        text := if j > 1 then Suffix(j - 1, si) else "B";
        if width > 1 { text := "~" + text; } else { assert "" + text == text; }
      }
    } else {
      text := Decimal(n) + Suffix(j, si);
    }
    Snprintf(buffer, width + 1, text);
  }

  lemma OneMoreDivision(n: nat, width: nat, j: nat, si: bool)
    requires 0 < n < WORD && width >= 1 && !Fits(n, width, j)
    ensures Divisions(n, width, j, si) == 1 + Divisions(Divide(n, si), width, j + 1, si)
  {
  }

  /** Prints the first number that fits, with its unit. Where the units run out before one fits, nothing
      is written. */
  method SizeTruncLen(buffer: array<char>, len: nat, size: nat, units: nat, useSi: bool)
    requires size < WORD && units <= LAST_SUFFIX && buffer.Length > WidthOf(len)
    modifies buffer
    ensures var r := Start(size, units, useSi);
            if units + Divisions(r, WidthOf(len), units, useSi) <= LAST_SUFFIX
            then Holds(buffer, 0, Cut(Shown(r, len, units, useSi), WidthOf(len)))
            else buffer[..] == old(buffer[..])
  {
    hide Divisions, Divide, Rescale, Pow10, SizeText;
    var width := if len == 0 then 9 else if len > 19 then 19 else len;
    var n := size;
    if useSi {
      n := ToThousands(size, units);
    }
    ghost var start := n;
    var j := units;
    while j <= LAST_SUFFIX
      invariant units <= j <= LAST_SUFFIX + 1 && n < WORD
      invariant n == Divided(start, j - units, useSi)
      invariant Divisions(start, width, units, useSi) == j - units + Divisions(n, width, j, useSi)
      invariant buffer[..] == old(buffer[..])
    {
      if n == 0 || n < Pow10(width - (if j > 0 then 1 else 0)) {
        Settled(n, width, j, useSi);
        WriteSize(buffer, n, j, units, width, useSi);
        return;
      }
      OneMoreDivision(n, width, j, useSi);
      n := Divide(n, useSi);
      j := j + 1;
    }
  }

  lemma Settled(n: nat, width: nat, j: nat, si: bool)
    requires n < WORD && width >= 1 && (n == 0 || Fits(n, width, j))
    ensures Divisions(n, width, j, si) == 0
  {
  }

  // ----- what it prints -----

  /** The turn with 125 and 128 is the multiplication by 1024/1000, rounded down, without the overflow of
      a product. */
  lemma RescaleExact(size: nat)
    ensures RescaleOnce(size) == size * 1024 / 1000 % WORD
  {
    var q, r := size / 125, size % 125;
    assert size == 125 * q + r;
    assert size * 1024 == 1000 * (128 * q) + r * 1024;
    DivideSum(128 * q, r * 1024, 1000);
    RemainderSum(q * 128, r * 1024 / 1000);
  }

  lemma RemainderSum(a: nat, b: nat)
    ensures (a % WORD + b) % WORD == (a + b) % WORD
  {
    assert a == WORD * (a / WORD) + a % WORD;
  }

  lemma DivideSum(a: nat, b: nat, d: nat)
    requires d > 0
    ensures (d * a + b) / d == a + b / d
  {
    var k := b / d;
    assert b == d * k + b % d;
    assert d * a + b == d * (a + k) + b % d;
    DivideUnique(d * a + b, d, a + k, b % d);
  }

  lemma DivideUnique(x: nat, d: nat, q: nat, r: nat)
    requires d > 0 && x == d * q + r && r < d
    ensures x / d == q
  {
    var e := x / d - q;
    assert d * e == r - x % d;
    Multiple(d, e);
  }

  lemma Multiple(d: int, e: int)
    requires d > 0
    ensures e >= 1 ==> d * e >= d
    ensures e <= -1 ==> d * e <= -d
  {
  }

  function Power(b: nat, k: nat): (p: nat)
    ensures b >= 1 ==> p >= 1
  {
    if k == 0 then 1 else b * Power(b, k - 1)
  }

  function Abs(x: int): nat {
    if x < 0 then -x else x
  }

  /** n units of Base^k are as near to the size as k roundings allow. */
  ghost predicate Near(n: nat, k: nat, size: nat, si: bool) {
    var b, h := if si then 1000 else 1024, if si then 500 else 512;
    (b - 1) * Abs(n * Power(b, k) - size) <= h * (Power(b, k) - 1)
  }

  lemma DivideRounds(n: nat, si: bool)
    requires n + Half(si) < WORD
    ensures Divide(n, si) == (n + Half(si)) / Base(si)
    ensures Abs(Divide(n, si) * Base(si) - n) <= Half(si)
    ensures Divide(n, si) <= n
  {
    var b, h := Base(si), Half(si);
    assert (n + h) % WORD == n + h;
    var m := (n + h) / b;
    if si {
      assert n + 500 == 1000 * m + (n + 500) % 1000;
    } else {
      assert n + 512 == 1024 * m + (n + 512) % 1024;
    }
  }

  lemma {:induction false} DividedShrinks(size: nat, k: nat, si: bool)
    requires size + Half(si) < WORD
    ensures Divided(size, k, si) <= size
  {
    if k == 0 {
    } else {
      DividedShrinks(size, k - 1, si);
      DivideRounds(Divided(size, k - 1, si), si);
    }
  }

  /** Each division adds at most half a unit to the error. */
  lemma {:induction false} DividedIsNear(size: nat, k: nat, si: bool)
    requires size + Half(si) < WORD
    ensures Near(Divided(size, k, si), k, size, si)
  {
    hide Divide;
    if k == 0 {
    } else {
      var b, h, p := Base(si), Half(si), Power(Base(si), k - 1);
      var n, m := Divided(size, k - 1, si), Divided(size, k, si);
      DividedIsNear(size, k - 1, si);
      DividedShrinks(size, k - 1, si);
      DivideRounds(n, si);
      NearStep(b, h, p, n, m, size);
    }
  }

  lemma NearStep(b: nat, h: nat, p: nat, n: nat, m: nat, size: nat)
    requires b >= 1 && (b - 1) * Abs(n * p - size) <= h * (p - 1) && Abs(m * b - n) <= h
    ensures (b - 1) * Abs(m * (b * p) - size) <= h * (b * p - 1)
  {
    var d, e := m * b - n, n * p - size;
    assert m * (b * p) - size == d * p + e by { Spread(m, b, p, n); }
    assert Abs(d * p) <= h * p by { AbsProduct(d, p, h); }
    assert Abs(d * p + e) <= h * p + Abs(e);
    Scale(b - 1, Abs(d * p + e), h * p + Abs(e));
    assert (b - 1) * (h * p + Abs(e)) == (b - 1) * (h * p) + (b - 1) * Abs(e) by { Distribute(b - 1, h * p, Abs(e)); }
    assert (b - 1) * (h * p) + h * (p - 1) == h * (b * p - 1) by { Collect(b, h, p); }
  }

  lemma Spread(m: int, b: int, p: int, n: int)
    ensures m * (b * p) == (m * b - n) * p + n * p
  {
    assert (m * b - n) * p == (m * b) * p - n * p;
  }

  lemma AbsProduct(d: int, p: nat, h: nat)
    requires Abs(d) <= h
    ensures Abs(d * p) <= h * p
  {
    assert d * p <= h * p && -(h * p) <= d * p by { Scale(p, d, h); Scale(p, 0 - h, d); }
  }

  lemma Scale(c: nat, x: int, y: int)
    requires x <= y
    ensures c * x <= c * y
  {
  }

  lemma Distribute(a: int, x: int, y: int)
    ensures a * (x + y) == a * x + a * y
  {
  }

  lemma Collect(b: int, h: int, p: int)
    ensures (b - 1) * (h * p) + h * (p - 1) == h * (b * p - 1)
  {
    assert (b - 1) * (h * p) == b * (h * p) - h * p;
    assert b * (h * p) == h * (b * p);
    assert h * (b * p - 1) == h * (b * p) - h;
  }

  // ----- the number of divisions -----

  lemma {:induction false} DividedFirst(size: nat, k: nat, si: bool)
    ensures Divided(size, k + 1, si) == Divided(Divide(size, si), k, si)
  {
    hide Divide;
    if k == 0 {
    } else {
      DividedFirst(size, k - 1, si);
    }
  }

  /** The number printed fits or is zero; all those before are neither. */
  lemma {:induction false} FirstThatFits(size: nat, width: nat, j: nat, si: bool)
    requires size < WORD && width >= 1
    ensures var k := Divisions(size, width, j, si);
            && (Divided(size, k, si) == 0 || Fits(Divided(size, k, si), width, j + k))
            && forall i :: 0 <= i < k ==> Divided(size, i, si) != 0 && !Fits(Divided(size, i, si), width, j + i)
    decreases size
  {
    hide Divide, Fits;
    if size == 0 || Fits(size, width, j) {
    } else {
      var next := Divide(size, si);
      FirstThatFits(next, width, j + 1, si);
      var k := Divisions(next, width, j + 1, si);
      DividedFirst(size, k, si);
      forall i | 0 <= i < k + 1
        ensures Divided(size, i, si) != 0 && !Fits(Divided(size, i, si), width, j + i)
      {
        if i > 0 { DividedFirst(size, i - 1, si); }
      }
    }
  }

  lemma {:induction false} ZeroStaysZero(size: nat, k: nat, m: nat, si: bool)
    requires Divided(size, k, si) == 0 && k <= m
    ensures Divided(size, m, si) == 0
  {
    hide Divide;
    if k == m {
    } else {
      ZeroStaysZero(size, k, m - 1, si);
      DivideZero(si);
    }
  }

  lemma DivideZero(si: bool)
    ensures Divide(0, si) == 0
  {
    assert Half(si) < Base(si) && Half(si) % WORD == Half(si);
  }

  /** Seven divisions bring every size down to zero. */
  lemma SevenSteps(size: nat, si: bool)
    requires size < WORD
    ensures Divided(size, 7, si) == 0
  {
    var bounds := if si then [WORD, 18446744073709553, 18446744073711, 18446744075, 18446746, 18448, 20]
                  else [WORD, 18014398509481985, 17592186044417, 17179869185, 16777217, 16385, 18];
    StepBound(size, 1, si, bounds[0], bounds[1]);
    StepBound(size, 2, si, bounds[1], bounds[2]);
    StepBound(size, 3, si, bounds[2], bounds[3]);
    StepBound(size, 4, si, bounds[3], bounds[4]);
    StepBound(size, 5, si, bounds[4], bounds[5]);
    StepBound(size, 6, si, bounds[5], bounds[6]);
    StepBound(size, 7, si, bounds[6], 1);
  }

  lemma StepBound(size: nat, k: nat, si: bool, b: nat, c: nat)
    requires k >= 1 && Divided(size, k - 1, si) < b <= WORD && (b + Half(si)) / Base(si) < c
    ensures Divided(size, k, si) < c
  {
    var n := Divided(size, k - 1, si);
    assert (n + Half(si)) % WORD <= b + Half(si);
  }

  // ----- the promise -----

  /** The size in multiples of 1000 or of 1024 bytes. */
  function InUnits(size: nat, units: nat, si: bool): nat
    requires units <= 1
  {
    if si && units == 1 then size * 1024 / 1000 else size
  }

  lemma InUnitsIsStart(size: nat, units: nat, si: bool)
    requires size < WORD && units <= 1
    ensures Start(size, units, si) == InUnits(size, units, si) % WORD
  {
    if si && units == 1 {
      RescaleExact(size);
      assert Rescale(size, 0) == size;
    }
  }

  /** The power of 1000 (small letters) or of 1024 (capitals) that a letter stands for; a byte is B in both. */
  function PowerOf(letter: char, si: bool): (e: int)
    ensures e <= 8
  {
    match letter
    case 'B' => 0
    case 'k' => if si then 1 else -1
    case 'm' => if si then 2 else -1
    case 'g' => if si then 3 else -1
    case 't' => if si then 4 else -1
    case 'p' => if si then 5 else -1
    case 'e' => if si then 6 else -1
    case 'z' => if si then 7 else -1
    case 'y' => if si then 8 else -1
    case 'K' => if si then -1 else 1
    case 'M' => if si then -1 else 2
    case 'G' => if si then -1 else 3
    case 'T' => if si then -1 else 4
    case 'P' => if si then -1 else 5
    case 'E' => if si then -1 else 6
    case 'Z' => if si then -1 else 7
    case 'Y' => if si then -1 else 8
    case _ => -1
  }

  /** The text says the number n times the e-th power of the base: digits, and a letter unless e is 0. */
  predicate Says(text: string, n: nat, e: nat, si: bool) {
    if e == 0 then text == Decimal(n)
    else text != "" && text[..|text| - 1] == Decimal(n) && PowerOf(text[|text| - 1], si) == e
  }

  /** The text says less than half the e-th power of the base: a tilde if there is room for it, and the letter
      of the power before that. */
  predicate SaysLess(text: string, e: nat, room: nat, si: bool) {
    text != "" && text[..|text| - 1] == (if room > 1 then "~" else "") && PowerOf(text[|text| - 1], si) == e - 1
  }

  lemma SuffixPower(j: nat, si: bool)
    requires j <= LAST_SUFFIX
    ensures j > 0 ==> PowerOf(Suffix(j, si)[0], si) == j
  {
  }

  lemma LastOf(a: string, u: string)
    requires |u| == 1
    ensures a + u != "" && (a + u)[..|a + u| - 1] == a && (a + u)[|a + u| - 1] == u[0]
  {
  }

  lemma TextSays(n: nat, j: nat, units: nat, width: nat, si: bool)
    requires units <= j <= LAST_SUFFIX
    ensures n == 0 && j == units ==> SizeText(n, j, units, width, si) == "0"
    ensures n != 0 ==> Says(SizeText(n, j, units, width, si), n, j, si)
    ensures n == 0 && j != units ==> SaysLess(SizeText(n, j, units, width, si), j, width, si)
  {
    hide Decimal, Suffix, PowerOf;
    if n != 0 {
      SuffixPower(j, si);
      if j > 0 { LastOf(Decimal(n), Suffix(j, si)); } else { assert Decimal(n) + Suffix(j, si) == Decimal(n); }
    } else if j != units {
      var tilde := if width > 1 then "~" else "";
      if j > 1 {
        SuffixPower(j - 1, si);
        LastOf(tilde, Suffix(j - 1, si));
      } else {
        LastOf(tilde, "B");
        BytePower(si);
      }
    }
  }

  lemma BytePower(si: bool)
    ensures PowerOf('B', si) == 0
  {
  }

  lemma NotFitting(n: nat, width: nat, j: nat)
    requires width >= 1 && n != 0
    ensures !Fits(n, width, j) <==> |Decimal(n)| + (if j > 0 then 1 else 0) > width
  {
    hide Decimal;
    var digits := if j > 0 then width - 1 else width;
    if digits > 0 { DecimalLength(n, digits); }
  }

  lemma TextHasRoom(n: nat, j: nat, units: nat, width: nat, si: bool)
    requires units <= j <= LAST_SUFFIX && width >= 1 && (n == 0 || Fits(n, width, j))
    ensures |SizeText(n, j, units, width, si)| <= width
  {
    hide Decimal;
    if n != 0 {
      var digits := if j > 0 then width - 1 else width;
      if digits > 0 { DecimalLength(n, digits); }
    }
  }

  /** For bytes and for kilobytes, and unless the rounding overflows, the number that is divided is the
      size in its units; a text is always written, all of it has room, and its number is as near to the
      size as its unit allows; the text says that number of that unit; no earlier unit would do. */
  lemma SizeIsShown(size: nat, len: nat, units: nat, si: bool)
    requires size < WORD && units <= 1 && InUnits(size, units, si) + Half(si) < WORD
    ensures var r, room := Start(size, units, si), if len == 0 then 9 else if len > 19 then 19 else len;
            var k := Divisions(r, room, units, si);
            var n := Divided(r, k, si);
            && r == InUnits(size, units, si)
            && units + k <= LAST_SUFFIX && room == WidthOf(len)
            && Near(n, k, InUnits(size, units, si), si)
            && |Shown(r, len, units, si)| <= room
            && (if n != 0 then Says(Shown(r, len, units, si), n, units + k, si)
                else if k == 0 then Shown(r, len, units, si) == "0"
                else SaysLess(Shown(r, len, units, si), units + k, room, si))
            && forall i :: 0 <= i < k ==>
                 Divided(r, i, si) != 0 && |Decimal(Divided(r, i, si))| + (if units + i > 0 then 1 else 0) > room
  {
    hide Divided, Divisions, Near, Pow10, Decimal, Rescale, Says, SaysLess, Fits;
    InUnitsIsStart(size, units, si);
    var r, w := Start(size, units, si), WidthOf(len);
    var k := Divisions(r, w, units, si);
    FirstThatFits(r, w, units, si);
    SevenSteps(r, si);
    assert k <= 7;
    DividedIsNear(r, k, si);
    TextHasRoom(Divided(r, k, si), units + k, units, w, si);
    TextSays(Divided(r, k, si), units + k, units, w, si);
    forall i | 0 <= i < k
      ensures Divided(r, i, si) != 0 && |Decimal(Divided(r, i, si))| + (if units + i > 0 then 1 else 0) > w
    {
      NotFitting(Divided(r, i, si), w, units + i);
    }
  }

  /** The sizes whose rounding overflows are printed as nothing. */
  lemma BiggestVanish(r: nat, len: nat, units: nat, si: bool)
    requires units <= 1 && r < WORD <= r + Half(si)
    ensures var w := WidthOf(len);
            Divisions(r, w, units, si) == 1 && Divided(r, 1, si) == 0 && !Near(0, 1, r, si)
    ensures SaysLess(Shown(r, len, units, si), units + 1, if len == 0 then 9 else len, si)
  {
    var w := WidthOf(len);
    TextSays(0, units + 1, units, w, si);
    PowersGrow(w - (if units > 0 then 1 else 0), 19);
    assert Pow10(4) == 10000;
    assert Pow10(8) == 100000000;
    assert Pow10(12) == 1000000000000;
    assert Pow10(16) == 10000000000000000;
    assert Pow10(19) == 10000000000000000000;
    assert Divide(r, si) == 0;
    OneMoreDivision(r, w, units, si);
    assert Divided(r, 0, si) == r;
    assert Power(Base(si), 1) == Base(si) * Power(Base(si), 0);
  }

  lemma {:induction false} PowersGrow(k: nat, m: nat)
    requires k <= m
    ensures Pow10(k) <= Pow10(m)
  {
    if k == m {
    } else {
      PowersGrow(k, m - 1);
    }
  }

  /** What is left of a size in units of 1000 that does not fit 64 bits. */
  const MOST_WRAPPED := 442721857769029238

  lemma SixSteps(size: nat)
    requires size < MOST_WRAPPED
    ensures Divided(size, 6, true) == 0
  {
    StepBound(size, 1, true, MOST_WRAPPED, 442721857769031);
    StepBound(size, 2, true, 442721857769031, 442721857771);
    StepBound(size, 3, true, 442721857771, 442721859);
    StepBound(size, 4, true, 442721859, 442723);
    StepBound(size, 5, true, 442723, 444);
    StepBound(size, 6, true, 444, 1);
  }

  lemma PowerBound(k: nat)
    requires k <= 6
    ensures Power(1000, k) <= 1_000_000_000_000_000_000
  {
    assert Power(1000, 2) == 1_000_000;
    assert Power(1000, 4) == 1_000_000_000_000;
    assert Power(1000, 6) == 1_000_000_000_000_000_000;
    PowerGrows(k, 6);
  }

  lemma {:induction false} PowerGrows(k: nat, m: nat)
    requires k <= m
    ensures Power(1000, k) <= Power(1000, m)
  {
    if k == m {
    } else {
      PowerGrows(k, m - 1);
    }
  }

  /** A number that is near what is left is far from the size. */
  lemma WrappedIsFar(r: nat, len: nat)
    requires r < MOST_WRAPPED
    ensures var k := Divisions(r, WidthOf(len), 1, true); !Near(Divided(r, k, true), k, r + WORD, true)
  {
    hide Divided, Divisions, Fits;
    var k := Divisions(r, WidthOf(len), 1, true);
    var n, p := Divided(r, k, true), Power(1000, k);
    FirstThatFits(r, WidthOf(len), 1, true);
    SixSteps(r);
    assert k <= 6;
    PowerBound(k);
    DividedIsNear(r, k, true);
    FarApart(n * p, r, p);
  }

  lemma FarApart(x: nat, r: nat, p: nat)
    requires 1 <= p <= 1_000_000_000_000_000_000 && 999 * Abs(x - r) <= 500 * (p - 1)
    ensures !(999 * Abs(x - (r + WORD)) <= 500 * (p - 1))
  {
    assert Abs(x - r) + Abs(x - (r + WORD)) >= WORD;
  }

  /** So the number printed is near the size in its units if and only if that, rounded, fits 64 bits. */
  lemma NearIffNoOverflow(size: nat, len: nat, units: nat, si: bool)
    requires size < WORD && units <= 1
    ensures var r := Start(size, units, si);
            var k := Divisions(r, WidthOf(len), units, si);
            Near(Divided(r, k, si), k, InUnits(size, units, si), si) <==> InUnits(size, units, si) + Half(si) < WORD
  {
    hide Near, Divided, Divisions, Rescale;
    InUnitsIsStart(size, units, si);
    var r, all := Start(size, units, si), InUnits(size, units, si);
    if all + Half(si) < WORD {
      DividedIsNear(r, Divisions(r, WidthOf(len), units, si), si);
    } else if all < WORD {
      BiggestVanish(r, len, units, si);
    } else {
      assert si && units == 1 && all < WORD + MOST_WRAPPED;
      assert r == all - WORD;
      WrappedIsFar(r, len);
    }
  }
}
