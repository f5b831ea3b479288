/** What printf prints, and what atoi makes of it. Words are 32 bits wide. */
module Printf {
  import opened Arithmetic

  const WORD: nat := 0x1_0000_0000
  const HALF: int := 0x8000_0000

  /** A word read as a signed number. */
  function Signed(w: int): (v: int)
    ensures -HALF <= v < HALF && (v - w) % WORD == 0
    ensures -HALF <= w < HALF ==> v == w
  {
    if w % WORD < HALF then w % WORD else w % WORD - WORD
  }

  // ----- one field

  /** What the characters between % and the type have said. */
  datatype Field = Field(long: bool, spacing: int, right: bool, fill: char, alt: bool)

  const NO_FIELD: Field := Field(false, 0, false, ' ', false)

  predicate Modifier(ch: char) {
    ch == '#' || ch == '-' || ch == 'q' || ch == 'l' || '0' <= ch <= '9'
  }

  /** The fill character is a space or a zero. */
  predicate Sane(f: Field) {
    f.fill == ' ' || f.fill == '0'
  }

  function Modified(f: Field, ch: char): (g: Field)
    requires Modifier(ch)
    ensures Sane(f) ==> Sane(g)
  {
    if ch == '#' then f.(alt := true)
    else if ch == '-' then f.(right := true)
    else if ch == 'l' || ch == 'q' then f.(long := true)
    else if ch == '0' then if f.spacing > 0 then f.(spacing := Signed(f.spacing * 10)) else f.(fill := '0')
    else f.(spacing := Signed(f.spacing * 10 + (ch as int - '0' as int)))
  }

  function Fill(ch: char, n: int): (s: string)
    ensures |s| == (if n > 0 then n else 0) && forall i: nat | i < |s| :: s[i] == ch
  {
    if n <= 0 then [] else seq(n, i => ch)
  }

  /** The padding that brings a text of length `len` to the field width. */
  function Pad(f: Field, len: nat): nat {
    if f.spacing > len then f.spacing - len else 0
  }

  /** Space padding goes before the sign and the prefix, zero padding after them. */
  function Stuff(f: Field, prefix: string, prefix2: string, stuff: string): string {
    var spc := Pad(f, |prefix| + |prefix2| + |stuff|);
    (if !f.right && f.fill != '0' then Fill(f.fill, spc) else [])
    + prefix + prefix2
    + (if !f.right && f.fill == '0' then Fill(f.fill, spc) else [])
    + stuff
    + (if f.right then Fill(f.fill, spc) else [])
  }

  lemma StuffLength(f: Field, prefix: string, prefix2: string, stuff: string)
    ensures var len := |prefix| + |prefix2| + |stuff|;
            |Stuff(f, prefix, prefix2, stuff)| == (if f.spacing > len then f.spacing else len)
  {
  }

  // ----- numbers

  function DigitChar(d: nat): (c: char)
    requires d < 16
    ensures d < 10 ==> c == '0' + d as char
  {
    "0123456789abcdef"[d]
  }

  function Digits(n: nat, base: nat): (s: string)
    requires 8 <= base <= 16
    ensures |s| > 0
  {
    if n < base then [DigitChar(n)] else Digits(n / base, base) + [DigitChar(n % base)]
  }

  predicate NumberType(ch: char) {
    ch == 'd' || ch == 'o' || ch == 'u' || ch == 'p' || ch == 'x'
  }

  function BaseOf(ch: char): (b: nat)
    ensures b == 8 || b == 10 || b == 16
  {
    if ch == 'd' || ch == 'u' then 10 else if ch == 'o' then 8 else 16
  }

  /** Only %d looks at the sign. */
  function Negative(ch: char, w: nat): bool {
    ch == 'd' && w >= HALF
  }

  function Magnitude(ch: char, w: nat): (m: nat)
    requires w < WORD
    ensures m < WORD
  {
    if Negative(ch, w) then WORD - w else w
  }

  function BasePrefix(f: Field, ch: char): string {
    if !(f.alt || ch == 'p') then "" else if BaseOf(ch) == 16 then "0x" else if BaseOf(ch) == 8 then "0" else ""
  }

  function Number(f: Field, ch: char, w: nat): string
    requires w < WORD
  {
    Stuff(f, if Negative(ch, w) then "-" else "", BasePrefix(f, ch), Digits(Magnitude(ch, w), BaseOf(ch)))
  }

  // ----- formats

  /** An argument: a word, or a pointer to a string that may be null. */
  datatype Arg = Word(w: nat) | Str(s: string) | Null

  /** What one character of the format prints, what it leaves of the field and how many arguments it takes. */
  datatype Sent = Sent(text: string, field: Field, inPct: bool, taken: nat)

  /** A format character finds the argument that it asks for. */
  predicate Served(inPct: bool, ch: char, args: seq<Arg>) {
    inPct && !Modifier(ch) ==>
      if NumberType(ch) || ch == 'c' then args != [] && args[0].Word? && args[0].w < WORD
      else ch == 's' ==> args != [] && !args[0].Word?
  }

  /** A string of one character; C takes a NUL as its end. */
  function OneChar(code: nat): string {
    if code % 256 == 0 then "" else [(code % 256) as char]
  }

  function Send(f: Field, inPct: bool, ch: char, args: seq<Arg>): (s: Sent)
    requires Served(inPct, ch, args)
    ensures s.taken <= |args|
  {
    if !inPct then (if ch == '%' then Sent("", f, true, 0) else Sent([ch], f, false, 0))
    else if Modifier(ch) then Sent("", Modified(f, ch), true, 0)
    else if NumberType(ch) then Sent(Number(f, ch, args[0].w), NO_FIELD, false, 1)
    else if ch == 's' then Sent(Stuff(f, "", "", if args[0].Null? then "(null)" else args[0].s), NO_FIELD, false, 1)
    else if ch == 'c' then Sent(Stuff(f, "", "", OneChar(args[0].w)), NO_FIELD, false, 1)
    else Sent(Stuff(f, "", "", [ch]), NO_FIELD, false, 0)
  }

  predicate AllServed(f: Field, inPct: bool, format: string, args: seq<Arg>)
    decreases |format|
  {
    format != [] ==>
      && Served(inPct, format[0], args)
      && var s := Send(f, inPct, format[0], args); AllServed(s.field, s.inPct, format[1..], args[s.taken..])
  }

  /** All that printf sends for a format. */
  function Text(f: Field, inPct: bool, format: string, args: seq<Arg>): string
    requires AllServed(f, inPct, format, args)
    decreases |format|
  {
    if format == [] then []
    else var s := Send(f, inPct, format[0], args); s.text + Text(s.field, s.inPct, format[1..], args[s.taken..])
  }

  /** The field that a run of modifiers describes. */
  function FieldOf(f: Field, mods: string): (g: Field)
    requires forall i: nat | i < |mods| :: Modifier(mods[i])
    ensures Sane(f) ==> Sane(g)
    decreases |mods|
  {
    if mods == [] then f else FieldOf(Modified(f, mods[0]), mods[1..])
  }

  lemma {:induction false} ModifiersThenNumber(f: Field, mods: string, ch: char, w: nat)
    requires (forall i: nat | i < |mods| :: Modifier(mods[i])) && NumberType(ch) && w < WORD
    ensures AllServed(f, true, mods + [ch], [Word(w)])
    ensures Text(f, true, mods + [ch], [Word(w)]) == Number(FieldOf(f, mods), ch, w)
    decreases |mods|
  {
    var format, args := mods + [ch], [Word(w)];
    if mods == [] {
      assert format[1..] == [] && format[0] == ch;
      var s := Send(f, true, ch, args);
      assert Text(s.field, s.inPct, [], args[1..]) == [];
    } else {
      assert format[0] == mods[0] && format[1..] == mods[1..] + [ch] && args[0..] == args;
      ModifiersThenNumber(Modified(f, mods[0]), mods[1..], ch, w);
    }
  }

  /** A whole format of one numeric conversion prints that number in the field its modifiers describe. */
  lemma OneNumber(mods: string, ch: char, w: nat)
    requires (forall i: nat | i < |mods| :: Modifier(mods[i])) && NumberType(ch) && w < WORD
    ensures AllServed(NO_FIELD, false, "%" + mods + [ch], [Word(w)])
    ensures Text(NO_FIELD, false, "%" + mods + [ch], [Word(w)]) == Number(FieldOf(NO_FIELD, mods), ch, w)
  {
    hide Number, FieldOf, Text, AllServed, NumberType, Modifier;
    ModifiersThenNumber(NO_FIELD, mods, ch, w);
    PercentFirst(mods + [ch], [Word(w)]);
    assert "%" + mods + [ch] == "%" + (mods + [ch]);
  }

  /** The % only starts a field. */
  lemma PercentFirst(rest: string, args: seq<Arg>)
    requires AllServed(NO_FIELD, true, rest, args)
    ensures AllServed(NO_FIELD, false, "%" + rest, args)
    ensures Text(NO_FIELD, false, "%" + rest, args) == Text(NO_FIELD, true, rest, args)
  {
    var format := "%" + rest;
    assert format[0] == '%' && format[1..] == rest && args[0..] == args;
  }

  lemma {:induction false} FieldOfMore(f: Field, mods: string, ch: char)
    requires (forall i: nat | i < |mods| :: Modifier(mods[i])) && Modifier(ch)
    ensures FieldOf(f, mods + [ch]) == Modified(FieldOf(f, mods), ch)
    decreases |mods|
  {
    if mods == [] {
      assert ([] + [ch])[1..] == [];
    } else {
      assert (mods + [ch])[1..] == mods[1..] + [ch];
      FieldOfMore(Modified(f, mods[0]), mods[1..], ch);
    }
  }

  /** A width written in decimal digits is read as that width. */
  lemma {:induction false} WidthIsRead(f: Field, width: nat)
    requires 0 < width < HALF && f.spacing == 0
    ensures forall i: nat | i < |Digits(width, 10)| :: Modifier(Digits(width, 10)[i])
    ensures FieldOf(f, Digits(width, 10)) == f.(spacing := width)
    decreases width
  {
    if width >= 10 {
      WidthIsRead(f, width / 10);
      FieldOfMore(f, Digits(width / 10, 10), DigitChar(width % 10));
      assert width == width / 10 * 10 + width % 10;
    } else {
      assert FieldOf(f, [DigitChar(width)]) == FieldOf(Modified(f, DigitChar(width)), []);
    }
  }

  // ----- reading a number back

  predicate IsDigit(ch: char) {
    '0' <= ch <= '9'
  }

  /** The digits at the front of a string, continued from `val`, in 32 bits. */
  function ReadFrom(val: nat, s: string): (v: nat)
    requires val < WORD
    ensures v < WORD
    decreases |s|
  {
    if s == [] || !IsDigit(s[0]) then val else ReadFrom((val * 10 + (s[0] as nat - '0' as nat)) % WORD, s[1..])
  }

  function SkipBlanks(s: string): string {
    if s != [] && (s[0] == ' ' || s[0] == '\t') then SkipBlanks(s[1..]) else s
  }

  function Atoi(s: string): int {
    var t := SkipBlanks(s);
    if t != [] && t[0] == '-' then Signed(0 - ReadFrom(0, t[1..])) else Signed(ReadFrom(0, t))
  }

  function Pow10(k: nat): nat {
    if k == 0 then 1 else 10 * Pow10(k - 1)
  }

  /** Digits, a number of zeros, and then something else. */
  predicate Stops(rest: string) {
    rest == [] || !IsDigit(rest[0])
  }

  lemma {:induction false} ReadDigits(n: nat, rest: string)
    ensures ReadFrom(0, Digits(n, 10) + rest) == ReadFrom(n % WORD, rest)
    decreases n
  {
    if n < 10 {
      var s := [DigitChar(n)] + rest;
      assert s[0] == DigitChar(n) && s[1..] == rest;
    } else {
      var last := [DigitChar(n % 10)];
      assert Digits(n, 10) + rest == Digits(n / 10, 10) + (last + rest);
      ReadDigits(n / 10, last + rest);
      assert (last + rest)[0] == DigitChar(n % 10) && (last + rest)[1..] == rest;
      Carry(n);
    }
  }

  lemma Carry(n: nat)
    ensures ((n / 10) % WORD * 10 + n % 10) % WORD == n % WORD
  {
    var q := n / 10;
    assert q == q / WORD * WORD + q % WORD;
    assert n == q % WORD * 10 + n % 10 + (q / WORD * 10) * WORD;
    ModShift(q % WORD * 10 + n % 10, q / WORD * 10);
  }

  lemma {:induction false} ModShift(x: nat, k: nat)
    ensures (x + k * WORD) % WORD == x % WORD
  {
    if k > 0 {
      ModShift(x, k - 1);
      AddModulus(x + (k - 1) * WORD, WORD);
    }
  }

  /** Leading zeros say nothing. */
  lemma {:induction false} LeadingZeros(k: nat, s: string)
    ensures ReadFrom(0, Fill('0', k) + s) == ReadFrom(0, s)
  {
    if k == 0 {
      assert Fill('0', 0) + s == s;
    } else {
      var t := Fill('0', k) + s;
      assert t[0] == '0' && t[1..] == Fill('0', k - 1) + s;
      LeadingZeros(k - 1, s);
    }
  }

  lemma {:induction false} LeadingBlanks(k: nat, s: string)
    ensures SkipBlanks(Fill(' ', k) + s) == SkipBlanks(s)
  {
    if k == 0 {
      assert Fill(' ', 0) + s == s;
    } else {
      var t := Fill(' ', k) + s;
      assert t[0] == ' ' && t[1..] == Fill(' ', k - 1) + s;
      LeadingBlanks(k - 1, s);
    }
  }

  /** Each trailing zero is read as one more digit. */
  lemma {:induction false} TrailingZeros(val: nat, k: nat)
    requires val < WORD
    ensures ReadFrom(val, Fill('0', k)) == (val * Pow10(k)) % WORD
    decreases k
  {
    if k > 0 {
      var t := Fill('0', k);
      assert t[0] == '0' && t[1..] == Fill('0', k - 1);
      TrailingZeros((val * 10) % WORD, k - 1);
      OneZero(val, Pow10(k - 1));
    }
  }

  lemma OneZero(val: nat, p: nat)
    ensures ((val * 10) % WORD * p) % WORD == (val * (10 * p)) % WORD
  {
    var v, q := (val * 10) % WORD, val * 10 / WORD;
    assert val * 10 == v + q * WORD;
    Products(val, p, v, q);
    ModShift(v * p, q * p);
  }

  lemma Products(val: nat, p: nat, v: nat, q: nat)
    requires val * 10 == v + q * WORD
    ensures val * (10 * p) == v * p + (q * p) * WORD
  {
    assert val * (10 * p) == (val * 10) * p;
    assert (v + q * WORD) * p == v * p + (q * WORD) * p;
    assert (q * WORD) * p == (q * p) * WORD;
  }

  lemma {:induction false} DigitsAreDigits(n: nat)
    ensures forall i: nat | i < |Digits(n, 10)| :: IsDigit(Digits(n, 10)[i])
    decreases n
  {
    if n >= 10 {
      DigitsAreDigits(n / 10);
    }
  }

  /** The zeros that a field puts behind the number. */
  function ZerosBehind(f: Field, w: nat): nat
    requires w < WORD
  {
    if f.right && f.fill == '0' then Pad(f, (if Negative('d', w) then 1 else 0) + |Digits(Magnitude('d', w), 10)|)
        else 0
  }

  /** What atoi reads of a number that %d has printed. */
  lemma ReadBack(f: Field, w: nat)
    requires Sane(f) && w < WORD
    ensures var v := (Magnitude('d', w) * Pow10(ZerosBehind(f, w))) % WORD;
            Atoi(Number(f, 'd', w)) == Signed(if Negative('d', w) then 0 - v else v)
  {
    hide Number, Digits, Fill, SkipBlanks, ReadFrom, Signed, Pow10, Stuff;
    var m := Magnitude('d', w);
    var d, sign := Digits(m, 10), if Negative('d', w) then "-" else "";
    var spc := Pad(f, |sign| + |d|);
    var before := if !f.right && f.fill != '0' then spc else 0;
    var zeros := if !f.right && f.fill == '0' then spc else 0;
    var behind := Fill(f.fill, if f.right then spc else 0);
    var body := Fill('0', zeros) + (d + behind);
    NumberShape(f, w);
    DigitsAreDigits(m);
    LeadingBlanks(before, sign + body);
    BodyStarts(zeros, d, behind);
    LeadingZeros(zeros, d + behind);
    ReadDigits(m, behind);
    ReadBehind(m, f.fill, if f.right then spc else 0);
    SignFirst(sign, body);
    NoPower(m);
    assert m % WORD == m;
  }

  lemma NoPower(m: nat)
    ensures m * Pow10(0) == m
  {
  }

  lemma SignFirst(sign: string, body: string)
    requires sign == "-" || (sign == "" && body != [] && IsDigit(body[0]))
    ensures sign == "-" ==> (sign + body)[1..] == body && SkipBlanks(sign + body) == sign + body
    ensures sign == "" ==> sign + body == body
  {
  }

  /** Spaces, the sign, zeros, the digits, and the fill character again. */
  lemma NumberShape(f: Field, w: nat)
    requires Sane(f) && w < WORD
    ensures var m := Magnitude('d', w);
            var d, sign := Digits(m, 10), if Negative('d', w) then "-" else "";
            var spc := Pad(f, |sign| + |d|);
            Number(f, 'd', w) == Fill(' ', if !f.right && f.fill != '0' then spc else 0)
              + (sign + (Fill('0', if !f.right && f.fill == '0' then spc else 0)
                  + (d + Fill(f.fill, if f.right then spc else 0))))
  {
    hide Digits;
    assert BasePrefix(f, 'd') == "";
  }

  lemma BodyStarts(zeros: nat, d: string, behind: string)
    requires d != [] && IsDigit(d[0])
    ensures var body := Fill('0', zeros) + (d + behind); body != [] && IsDigit(body[0]) && SkipBlanks(body) == body
  {
  }

  lemma ReadBehind(m: nat, fill: char, k: nat)
    requires m < WORD && (fill == ' ' || fill == '0')
    ensures ReadFrom(m, Fill(fill, k)) == if fill == '0' then (m * Pow10(k)) % WORD else m
  {
    if fill == '0' {
      TrailingZeros(m, k);
    }
  }

  // ----- the round trip

  /** An odd factor cannot make a multiple of a power of two. */
  lemma {:induction false} OddFactor(n: nat, m: nat, p: nat)
    requires m % 2 == 1 && (n * m) % TwoTo(p) == 0
    ensures n % TwoTo(p) == 0
    decreases p
  {
    hide TwoTo;
    TwoToStep(p);
    if p > 0 {
      var h, t, u := n / 2, n * m / TwoTo(p), TwoTo(p - 1);
      TwiceProduct(t, u);
      assert n * m == 2 * (t * u);
      if n % 2 == 1 {
        OddProduct(n, m);
        assert false;
      }
      TwiceProduct(m, h);
      assert h * m == t * u;
      MultipleIs(t, u);
      OddFactor(h, m, p - 1);
      var q := h / u;
      assert h == q * u;
      TwiceProduct(q, u);
      MultipleIs(q, TwoTo(p));
    }
  }

  lemma TwoToStep(p: nat)
    ensures p == 0 ==> TwoTo(p) == 1
    ensures p > 0 ==> TwoTo(p) == 2 * TwoTo(p - 1)
  {
  }

  lemma TwiceProduct(t: nat, u: nat)
    ensures t * (2 * u) == 2 * (t * u) == 2 * (u * t) == (2 * u) * t
  {
  }

  lemma OddProduct(n: nat, m: nat)
    requires n % 2 == 1 && m % 2 == 1
    ensures (n * m) % 2 == 1
  {
    var a, b := n / 2, m / 2;
    assert n * m == (2 * a + 1) * (2 * b + 1) == 2 * (2 * a * b + a + b) + 1;
  }

  function TwoTo(p: nat): (n: nat)
    ensures n > 0
  {
    if p == 0 then 1 else 2 * TwoTo(p - 1)
  }

  lemma WordIsPower()
    ensures TwoTo(32) == WORD
  {
    assert TwoTo(8) == 256;
    assert TwoTo(16) == 65536;
    assert TwoTo(24) == 0x100_0000;
  }

  lemma Pow10Odd(k: nat)
    requires k > 0
    ensures Pow10(k) % 2 == 0 && Pow10(k) > 1
  {
  }

  /** A word times ten to some power is that word again only when it is 0. */
  lemma OnlyZero(m: nat, k: nat)
    requires m < WORD && k > 0
    ensures (m * Pow10(k)) % WORD == m <==> m == 0
  {
    Pow10Odd(k);
    var p := Pow10(k);
    if (m * p) % WORD == m {
      var q := m * p / WORD;
      assert m * p == q * WORD + m;
      assert m * (p - 1) == q * WORD;
      MultipleIs(q, WORD);
      WordIsPower();
      OddFactor(m, p - 1, 32);
    }
  }

  /** A magnitude is the right one when it gives the right number. */
  lemma SignedSame(v: nat, w: nat)
    requires v < WORD && w < WORD
    ensures Signed(if Negative('d', w) then 0 - v else v) == Signed(w) <==> v == Magnitude('d', w)
    ensures Magnitude('d', w) == 0 <==> w == 0
  {
  }

  /**
   * For every word and every field: atoi gives back the number that %d printed, unless zeros were put behind it
   * and it is not 0.
   */
  lemma RoundTrip(f: Field, w: nat)
    requires Sane(f) && w < WORD
    ensures Atoi(Number(f, 'd', w)) == Signed(w) <==> ZerosBehind(f, w) == 0 || w == 0
  {
    hide Number, Atoi, Pow10, Digits, ZerosBehind, Signed;
    ReadBack(f, w);
    var m, k := Magnitude('d', w), ZerosBehind(f, w);
    SignedSame((m * Pow10(k)) % WORD, w);
    if k > 0 {
      OnlyZero(m, k);
    } else {
      NoPower(m);
    }
  }

  /** In particular for every width without the flag -, and with it when the fill is a space. */
  lemma WidthRoundTrip(mods: string, w: nat)
    requires (forall i: nat | i < |mods| :: Modifier(mods[i])) && w < WORD
    ensures AllServed(NO_FIELD, false, "%" + mods + "d", [Word(w)])
    ensures var f := FieldOf(NO_FIELD, mods);
            !(f.right && f.fill == '0') ==> Atoi(Text(NO_FIELD, false, "%" + mods + "d", [Word(w)])) == Signed(w)
  {
    OneNumber(mods, 'd', w);
    RoundTrip(FieldOf(NO_FIELD, mods), w);
  }

  /** The format %-05d prints 7 so that atoi reads 70000. */
  lemma ZerosOnTheRight()
    ensures Atoi(Number(Field(false, 5, true, '0', false), 'd', 7)) == 70000
  {
    hide Number, Atoi;
    var f := Field(false, 5, true, '0', false);
    ReadBack(f, 7);
    assert Digits(7, 10) == "7";
    assert Pow10(1) == 10 && Pow10(2) == 100 && Pow10(3) == 1000 && Pow10(4) == 10000;
  }
}
