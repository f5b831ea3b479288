/** The code of printf, of the bounded sink of snprintf, and of atoi. */
module PrintfCode {
  import opened Arithmetic
  import opened Printf

  /** Digits of a 32-bit number in base 8, and the NUL. */
  const NUMBER_BUF_SIZE: nat := 32 / 3 + 2
  const NUL: char := 0 as char

  function Min(a: nat, b: nat): nat {
    if a < b then a else b
  }

  // ----- the sink

  class Snp {
    const buf: array<char>
    const buflen: nat
    var bufpos: nat

    /** All that was sent, and the buffer as it was found. */
    ghost var all: string
    ghost const before: seq<char>

    /** The buffer holds as much of what was sent as there is room for, and is otherwise as before. */
    ghost predicate Valid()
      reads this, buf
    {
      && buflen <= buf.Length == |before| && bufpos == Min(buflen, |all|)
      && buf[..bufpos] == all[..bufpos] && buf[bufpos..] == before[bufpos..]
    }

    constructor (b: array<char>, len: nat)
      requires len <= b.Length
      ensures Valid() && buf == b && all == [] && before == b[..] && buflen == if len == 0 then 0 else len - 1
    {
      buf := b;
      buflen := if len == 0 then 0 else len - 1;
      bufpos := 0;
      all := [];
      before := b[..];
    }

    method Send(data: string)
      requires Valid()
      modifies this, buf
      ensures Valid() && all == old(all) + data
    {
      var i := 0;
      ghost var was := all;
      while i < |data|
        invariant i <= |data| && Valid() && all == was + data[..i]
      {
        ghost var sent := all;
        if bufpos < buflen {
          ghost var p := bufpos;
          ghost var stored := buf[..p];
          ghost var rest := buf[p..];
          buf[bufpos] := data[i];
          bufpos := bufpos + 1;
          assert buf[..p + 1] == stored + [data[i]];
          assert buf[p + 1..] == rest[1..] == before[p + 1..];
        }
        all := all + [data[i]];
        assert data[..i + 1] == data[..i] + [data[i]];
        i := i + 1;
      }
      assert data[..i] == data;
    }
  }

  // ----- the digit buffer

  /** After `k` digits the rest of a 32-bit number is below this, in every base from 8 on. */
  function Limit(k: nat): (n: nat)
    ensures n > 0
  {
    if k == 0 then WORD else (Limit(k - 1) + 7) / 8
  }

  lemma NextLimit(n: nat, base: nat, k: nat)
    requires n < Limit(k) && base >= 8
    ensures Div(n, base) < Limit(k + 1)
  {
    var m := Limit(k);
    assert n / base <= n / 8 by { SmallerBase(n, base); }
    assert n / 8 <= (m - 1) / 8 && (m + 7) / 8 == (m - 1) / 8 + 1;
  }

  lemma SmallerBase(n: nat, base: nat)
    requires base >= 8
    ensures n / base <= n / 8
  {
    var q := n / base;
    assert q * 8 <= q * base <= n;
  }

  /** Eleven digits are always enough. */
  lemma ElevenDigits()
    ensures Limit(11) == 1
  {
    assert Limit(1) == 536870912 && Limit(2) == 67108864 && Limit(3) == 8388608 && Limit(4) == 1048576;
    assert Limit(5) == 131072 && Limit(6) == 16384 && Limit(7) == 2048 && Limit(8) == 256 && Limit(9) == 32
        && Limit(10) == 4;
  }

  /** The digit loop of __pf_printnum: it fills the buffer from its end and never leaves it. */
  method PutDigits(num: nat, base: nat) returns (buf: array<char>, x: nat)
    requires num < WORD && 8 <= base <= 16
    ensures fresh(buf) && buf.Length == NUMBER_BUF_SIZE && x < buf.Length - 1
    ensures buf[buf.Length - 1] == NUL && buf[x..buf.Length - 1] == Digits(num, base)
  {
    hide Mod, Div, DigitChar, Printing, Digits;
    buf := new char[NUMBER_BUF_SIZE];
    buf[buf.Length - 1] := NUL;
    var xnum := num;
    var at: int := buf.Length - 2;
    var more := true;
    ghost var k := 0;
    PrintNone(num, base);
    assert buf[at + 1..11] == [];
    while more
      invariant k <= 11 && at == 10 - k && buf[11] == NUL && (k > 0 ==> more == (xnum > 0)) && (k == 0 ==> more)
      invariant Printing(num, base, xnum, k, buf[at + 1..11])
      decreases 11 - k
    {
      ghost var tail := buf[at + 1..11];
      PrintOne(num, base, xnum, k, tail);
      var digit := Mod(xnum, base);
      buf[at] := DigitChar(digit);
      assert buf[at..11] == [DigitChar(digit)] + tail;
      at := at - 1;
      xnum := Div(xnum, base);
      k := k + 1;
      more := xnum > 0;
    }
    PrintAll(num, base, k, buf[at + 1..11]);
    x := at + 1;
  }

  /** `k` digits of the number are in the text, and `xnum` is what is left of it. */
  ghost predicate Printing(num: nat, base: nat, xnum: nat, k: nat, text: string)
    requires 8 <= base <= 16
  {
    && k <= 11 && xnum < Limit(k) && |text| == k && (k == 0 ==> xnum == num)
    && (k > 0 ==> Digits(num, base) == (if xnum > 0 then Digits(xnum, base) else []) + text)
  }

  lemma PrintNone(num: nat, base: nat)
    requires num < WORD && 8 <= base <= 16
    ensures Printing(num, base, num, 0, [])
  {
    FirstLimit();
  }

  /** The loop has room for one digit more, and moves the last one into the text. */
  lemma PrintOne(num: nat, base: nat, xnum: nat, k: nat, text: string)
    requires 8 <= base <= 16 && Printing(num, base, xnum, k, text) && (k == 0 || xnum > 0)
    ensures k <= 10 && Mod(xnum, base) < 16
    ensures Printing(num, base, Div(xnum, base), k + 1, [DigitChar(Mod(xnum, base))] + text)
  {
    hide Limit, Digits, Mod, Div;
    ElevenDigits();
    DigitsStep(xnum, base);
    NextLimit(xnum, base, k);
    LastDigit(num, xnum, Div(xnum, base), Mod(xnum, base), base, k, text);
  }

  lemma PrintAll(num: nat, base: nat, k: nat, text: string)
    requires 8 <= base <= 16 && Printing(num, base, 0, k, text) && k > 0
    ensures Digits(num, base) == text
  {
    hide Digits;
    assert [] + text == text;
  }

  /** One digit more has moved from the number to the text. */
  lemma LastDigit(num: nat, xnum: nat, rest: nat, digit: nat, base: nat, k: nat, tail: string)
    requires 8 <= base <= 16 && digit < 16 && (k == 0 ==> xnum == num && tail == [])
    requires k > 0 ==> xnum > 0 && Digits(num, base) == Digits(xnum, base) + tail
    requires Digits(xnum, base) == (if rest > 0 then Digits(rest, base) else []) + [DigitChar(digit)]
    ensures Digits(num, base) == (if rest > 0 then Digits(rest, base) else []) + ([DigitChar(digit)] + tail)
  {
    hide Digits;
    var front := if rest > 0 then Digits(rest, base) else [];
    assert front + [DigitChar(digit)] + tail == front + ([DigitChar(digit)] + tail);
    if k == 0 {
      assert [DigitChar(digit)] + [] == [DigitChar(digit)];
    }
  }

  lemma FirstLimit()
    ensures Limit(0) == WORD
  {
  }

  lemma DigitsStep(n: nat, base: nat)
    requires 8 <= base <= 16
    ensures Mod(n, base) < 16
    ensures Digits(n, base) == (if Div(n, base) > 0 then Digits(Div(n, base), base) else []) + [DigitChar(Mod(n, base))]
  {
    SmallQuotient(n, base);
  }

  lemma SmallQuotient(n: nat, base: nat)
    requires base > 0
    ensures n / base == 0 <==> n < base
    ensures n < base ==> n % base == n
    ensures n % base < base
  {
    var q := n / base;
    assert n == q * base + n % base;
    if q > 0 {
      assert q * base >= base;
    }
  }

  // ----- printf

  lemma ServedNumber(ch: char, args: seq<Arg>)
    requires NumberType(ch) && Served(true, ch, args)
    ensures args != [] && args[0].Word? && args[0].w < WORD
  {
  }

  lemma NoFill(ch: char, n: int)
    ensures n <= 0 ==> Fill(ch, n) == []
  {
  }

  lemma StuffIs(f: Field, prefix: string, prefix2: string, stuff: string, spc: nat)
    requires spc == Pad(f, |prefix| + |prefix2| + |stuff|)
    ensures Stuff(f, prefix, prefix2, stuff)
         == (if !f.right && f.fill != '0' then Fill(f.fill, spc) else []) + prefix + prefix2
            + (if !f.right && f.fill == '0' then Fill(f.fill, spc) else []) + stuff
            + (if f.right then Fill(f.fill, spc) else [])
  {
  }

  lemma Regroup(was: string, a: string, p: string, q: string, b: string, s: string, c: string)
    ensures was + a + p + q + b + s + c == was + (a + p + q + b + s + c)
  {
  }

  class PF {
    const sink: Snp
    var args: seq<Arg>
    var charcount: int
    var inPct: bool
    var long: bool
    var num: nat
    var sign: int
    var spacing: int
    var rightspc: bool
    var fillchar: char
    var base: nat
    var baseprefix: bool
    var altformat: bool

    ghost function F(): Field
      reads this
    {
      Field(long, spacing, rightspc, fillchar, altformat)
    }

    ghost predicate Valid()
      reads this, sink, sink.buf
    {
      && sink.Valid() && charcount == Signed(|sink.all|) && Sane(F())
      && num < WORD && sign == 0 && !baseprefix
    }

    constructor (s: Snp, ap: seq<Arg>)
      requires s.Valid() && s.all == []
      ensures Valid() && sink == s && args == ap && F() == NO_FIELD && !inPct
    {
      sink := s;
      args := ap;
      charcount := 0;
      inPct, long, num, sign, spacing := false, false, 0, 0, 0;
      rightspc, fillchar, base, baseprefix, altformat := false, ' ', 0, false, false;
    }

    /** __pf_print. */
    method Print(txt: string)
      requires sink.Valid() && charcount == Signed(|sink.all|)
      modifies this`charcount, sink, sink.buf
      ensures sink.Valid() && charcount == Signed(|sink.all|) && sink.all == old(sink.all) + txt
    {
      sink.Send(txt);
      SignedSum(|old(sink.all)|, |txt|);
      charcount := Signed(charcount + |txt|);
    }

    method EndField()
      requires sink.Valid() && charcount == Signed(|sink.all|)
      modifies this
      ensures Valid() && F() == NO_FIELD && !inPct && args == old(args) && charcount == old(charcount)
    {
      hide Signed;
      inPct, long, num, sign, spacing := false, false, 0, 0, 0;
      rightspc, fillchar, base, baseprefix, altformat := false, ' ', 0, false, false;
    }

    /** __pf_modifier. */
    method Modify(ch: char)
      requires Valid() && Modifier(ch)
      modifies this`altformat, this`rightspc, this`long, this`spacing, this`fillchar
      ensures Valid() && F() == Modified(old(F()), ch)
    {
      if ch == '#' {
        altformat := true;
      } else if ch == '-' {
        rightspc := true;
      } else if ch == 'l' || ch == 'q' {
        long := true;
      } else if ch == '0' {
        if spacing > 0 {
          spacing := Signed(spacing * 10);
        } else {
          fillchar := '0';
        }
      } else {
        spacing := Signed(spacing * 10 + (ch as int - '0' as int));
      }
    }

    /** __pf_fill. */
    method PutFill(spc: int)
      requires sink.Valid() && charcount == Signed(|sink.all|)
      modifies this`charcount, sink, sink.buf
      ensures sink.Valid() && charcount == Signed(|sink.all|) && sink.all == old(sink.all) + Fill(fillchar, spc)
    {
      var i := 0;
      ghost var was := sink.all;
      while i < spc
        invariant (spc >= 0 ==> i <= spc) && (spc < 0 ==> i == 0) && i >= 0 && sink.Valid()
                  && charcount == Signed(|sink.all|)
        invariant sink.all == was + Fill(fillchar, i)
      {
        assert Fill(fillchar, i + 1) == Fill(fillchar, i) + [fillchar];
        Print([fillchar]);
        i := i + 1;
      }
      assert Fill(fillchar, i) == Fill(fillchar, spc);
    }

    /** __pf_printstuff. */
    method PrintStuff(prefix: string, prefix2: string, stuff: string)
      requires sink.Valid() && charcount == Signed(|sink.all|)
      modifies this`charcount, sink, sink.buf
      ensures sink.Valid() && charcount == Signed(|sink.all|)
              && sink.all == old(sink.all) + Stuff(F(), prefix, prefix2, stuff)
    {
      hide Fill, Signed, Stuff;
      var len := |prefix| + |prefix2| + |stuff|;
      var spc := spacing;
      if spc > len {
        spc := spc - len;
      } else {
        spc := 0;
      }
      assert spc == Pad(F(), len);
      ghost var was := sink.all;
      ghost var a := if !rightspc && fillchar != '0' then Fill(fillchar, spc) else [];
      ghost var b := if !rightspc && fillchar == '0' then Fill(fillchar, spc) else [];
      ghost var c := if rightspc then Fill(fillchar, spc) else [];
      NoFill(fillchar, spc);
      if spc > 0 && !rightspc && fillchar != '0' {
        PutFill(spc);
      }
      assert sink.all == was + a;
      Print(prefix);
      Print(prefix2);
      if spc > 0 && !rightspc && fillchar == '0' {
        PutFill(spc);
      }
      assert sink.all == was + a + prefix + prefix2 + b;
      Print(stuff);
      if spc > 0 && rightspc {
        PutFill(spc);
      }
      assert sink.all == was + a + prefix + prefix2 + b + stuff + c;
      StuffIs(F(), prefix, prefix2, stuff, spc);
      Regroup(was, a, prefix, prefix2, b, stuff, c);
    }

    /** __pf_getnum, __pf_setbase and __pf_printnum, one after the other. */
    method PrintNumber(ch: char)
      requires Valid() && NumberType(ch) && Served(true, ch, args)
      modifies this, sink, sink.buf
      ensures sink.Valid() && charcount == Signed(|sink.all|) && args == old(args)[1..]
      ensures sink.all == old(sink.all) + Number(old(F()), ch, old(args)[0].w)
    {
      hide Digits, Stuff, Signed, Sane, Fill, Served;
      assert args != [] && args[0].Word? && args[0].w < WORD by { ServedNumber(ch, args); }
      ghost var f, w := F(), args[0].w;
      GetNum(ch);
      if ch == 'd' || ch == 'u' {
        base := 10;
      } else if ch == 'x' || ch == 'p' {
        base := 16;
      } else {
        base := 8;
      }
      if altformat || ch == 'p' {
        baseprefix := true;
      }
      var buf, x := PutDigits(num, base);
      var bprefix := if baseprefix && base == 16 then "0x" else if baseprefix && base == 8 then "0" else "";
      var sprefix := if sign != 0 then "-" else "";
      assert F() == f && num == Magnitude(ch, w) && base == BaseOf(ch) && bprefix == BasePrefix(f, ch);
      PrintStuff(sprefix, bprefix, buf[x..buf.Length - 1]);
    }

    method GetNum(ch: char)
      requires sign == 0 && NumberType(ch) && Served(true, ch, args)
      modifies this`num, this`sign, this`args
      ensures num == Magnitude(ch, old(args)[0].w) && (sign != 0 <==> Negative(ch, old(args)[0].w))
              && args == old(args)[1..]
    {
      var w := args[0].w;
      args := args[1..];
      if ch == 'd' {
        var signednum := Signed(w);
        if signednum < 0 {
          sign := -1;
          num := (-signednum) % WORD;
        } else {
          num := signednum;
        }
      } else {
        num := w;
      }
    }

    /** __pf_send. */
    method SendChar(ch: char)
      requires Valid() && Served(inPct, ch, args)
      modifies this, sink, sink.buf
      ensures Valid()
      ensures var s := Send(old(F()), old(inPct), ch, old(args));
              sink.all == old(sink.all) + s.text && F() == s.field && inPct == s.inPct && args == old(args)[s.taken..]
    {
      hide Number, Stuff, Signed, Sane;
      assert args == args[0..];
      if !inPct && ch != '%' {
        Print([ch]);
      } else if !inPct {
        inPct := true;
        assert sink.all == sink.all + "";
      } else if Modifier(ch) {
        Modify(ch);
        assert sink.all == sink.all + "";
      } else if NumberType(ch) {
        PrintNumber(ch);
        EndField();
      } else if ch == 's' {
        var str := if args[0].Null? then "(null)" else args[0].s;
        args := args[1..];
        PrintStuff("", "", str);
        EndField();
      } else {
        var x := [ch];
        if ch == 'c' {
          x := OneChar(args[0].w);
          args := args[1..];
        }
        PrintStuff("", "", x);
        EndField();
      }
    }

    /** __vprintf. */
    method Vprintf(format: string) returns (chars: int)
      requires Valid() && sink.all == [] && F() == NO_FIELD && !inPct && AllServed(NO_FIELD, false, format, args)
      modifies this, sink, sink.buf
      ensures Valid() && sink.all == Text(NO_FIELD, false, format, old(args)) && chars == Signed(|sink.all|)
    {
      hide Signed, Sane, Send, Served;
      ghost var t := Text(NO_FIELD, false, format, args);
      var i := 0;
      assert format[0..] == format;
      while i < |format|
        invariant i <= |format| && Valid() && AllServed(F(), inPct, format[i..], args)
        invariant t == sink.all + Text(F(), inPct, format[i..], args)
      {
        ghost var rest := format[i..];
        assert rest[0] == format[i] && rest[1..] == format[i + 1..];
        ghost var s := Send(F(), inPct, format[i], args);
        ghost var later := Text(s.field, s.inPct, rest[1..], args[s.taken..]);
        assert sink.all + (s.text + later) == (sink.all + s.text) + later;
        SendChar(format[i]);
        i := i + 1;
      }
      assert t == sink.all + [] == sink.all;
      chars := charcount;
    }
  }

  lemma SignedSum(a: int, b: int)
    ensures Signed(Signed(a) + b) == Signed(a + b)
  {
    hide Signed;
    Congruent(Signed(a) + b, a + b);
  }

  lemma Congruent(x: int, y: int)
    requires (x - y) % WORD == 0
    ensures Signed(x) == Signed(y)
  {
    var k := (x - y) / WORD;
    assert x == y + k * WORD;
  }

  /** vsnprintf: a terminated prefix is stored and the length of the whole text returned. */
  method Vsnprintf(buf: array<char>, len: nat, format: string, args: seq<Arg>) returns (chars: int)
    requires len <= buf.Length && AllServed(NO_FIELD, false, format, args)
    modifies buf
    ensures var t := Text(NO_FIELD, false, format, args);
            && chars == Signed(|t|)
            && (len == 0 ==> buf[..] == old(buf[..]))
            && (len > 0 ==> var k := Min(len - 1, |t|);
                 buf[..k] == t[..k] && buf[k] == NUL && buf[k + 1..] == old(buf[..])[k + 1..])
  {
    var snp := new Snp(buf, len);
    var pf := new PF(snp, args);
    chars := pf.Vprintf(format);
    ghost var p, rest := snp.bufpos, buf[snp.bufpos..];
    if len > 0 {
      buf[snp.bufpos] := NUL;
      assert buf[p + 1..] == rest[1..];
    } else {
      assert buf[0..] == buf[..] && snp.before[0..] == snp.before;
    }
  }

  // ----- atoi

  method AtoiLoop(s: string) returns (v: int)
    ensures v == Atoi(s)
  {
    hide Signed;
    var i := 0;
    assert s[0..] == s;
    while i < |s| && (s[i] == ' ' || s[i] == '\t')
      invariant i <= |s| && SkipBlanks(s[i..]) == SkipBlanks(s)
    {
      assert s[i..][0] == s[i] && s[i..][1..] == s[i + 1..];
      i := i + 1;
    }
    ghost var t := s[i..];
    assert SkipBlanks(t) == t by {
      if t != [] {
        assert t[0] == s[i];
      }
    }
    var neg := false;
    if i < |s| && s[i] == '-' {
      neg := true;
      i := i + 1;
    }
    ghost var digits := s[i..];
    var val: nat := 0;
    while i < |s| && IsDigit(s[i])
      invariant i <= |s| && val < WORD && ReadFrom(val, s[i..]) == ReadFrom(0, digits)
    {
      assert s[i..][0] == s[i] && s[i..][1..] == s[i + 1..];
      val := (val * 10 + (s[i] as nat - '0' as nat)) % WORD;
      i := i + 1;
    }
    v := Signed(val);
    if neg {
      v := Signed(0 - val);
    }
  }
}
