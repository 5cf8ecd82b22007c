/**
  The bounded formatter of ngx_string.c: ngx_cpystrn, ngx_sprintf_num, ngx_sprintf_str and
  the directive loop of ngx_vslprintf.

  A destination is the room between `buf` and `last`. Every writer here returns the bytes
  it writes there, and the pointer it returns is `buf` plus their number. Memory read
  through a pointer (a source string, the format) is the sequence of bytes found there:
  a read past that sequence is a read of memory the model does not know, and makes the
  result Undefined.
 */
module Format {
  import opened Config

  /** The byte of an ASCII character. */
  function Ascii(c: char): Byte
    requires c as int < 128
  {
    c as int
  }

  const Nul: Byte := 0
  const Lf: Byte := 10
  const Space: Byte := 32
  const Percent: Byte := 37
  const Minus: Byte := 45
  const Digit0: Byte := 48

  /** 2^32, the modulus of uint32_t. */
  const Uint32Modulus: nat := 0x1_0000_0000

  /** NGX_ATOMIC_T_LEN for 64-bit atomics (ngx_atomic.h is not part of this model). */
  const AtomicTLen: nat := Int64Len

  predicate IsDigit(c: Byte)
  {
    Digit0 <= c <= Digit0 + 9
  }

  /** k copies of b. */
  function Repeat(b: Byte, k: nat): (r: seq<Byte>)
    ensures |r| == k && forall j | 0 <= j < k :: r[j] == b
  {
    seq(k, _ => b)
  }

  // ---------------------------------------------------------------------------------
  // ngx_cpystrn (ngx_string.c:13-31)
  // ---------------------------------------------------------------------------------

  /** The index of the first NUL of s, or |s| when there is none. */
  function NulIndex(s: seq<Byte>): (k: nat)
    ensures k <= |s|
    ensures k < |s| ==> s[k] == Nul
    ensures forall j | 0 <= j < k :: s[j] != Nul
  {
    if s == [] || s[0] == Nul then 0 else 1 + NulIndex(s[1..])
  }

  /** What ngx_cpystrn writes at dst, and the offset of the pointer it returns. */
  datatype Copy = Copy(written: seq<Byte>, end: nat)

  /** The bytes ngx_cpystrn reads exist: a NUL among them, or the n - 1 bytes it copies. */
  predicate CpyReadable(src: seq<Byte>, n: nat)
  {
    n == 0 || n - 1 <= |src| || NulIndex(src) < |src|
  }

  /**
    ngx_cpystrn(dst, src, n). With n == 0 nothing is written and dst is returned. Otherwise
    at most n - 1 bytes are copied, the copy stops at a NUL of the source, a NUL always
    ends what is written, and the returned pointer is the position of that NUL.
   */
  function CpyStrn(src: seq<Byte>, n: nat): (r: Copy)
    requires CpyReadable(src, n)
    ensures n == 0 ==> r == Copy([], 0)
    ensures n > 0 ==>
              && r.end < n && |r.written| == r.end + 1 && r.written[r.end] == Nul
              && r.end <= |src| && r.written[..r.end] == src[..r.end]
              && (forall j | 0 <= j < r.end :: src[j] != Nul)
              && (r.end < n - 1 ==> src[r.end] == Nul)
  {
    if n == 0 then Copy([], 0)
    else
      var k := Min(NulIndex(src), n - 1);
      Copy(src[..k] + [Nul], k)
  }

  /** The loop of ngx_string.c:18-30, which agrees with CpyStrn. */
  method CpyStrnLoop(src: seq<Byte>, n0: nat) returns (written: seq<Byte>, end: nat)
    requires CpyReadable(src, n0)
    ensures Copy(written, end) == CpyStrn(src, n0)
  {
    if n0 == 0 {
      return [], 0;
    }
    written, end := [], 0;
    var n: nat := n0 - 1;
    while n != 0
      invariant end + n == n0 - 1
      invariant end <= NulIndex(src) && end <= |src|
      invariant written == src[..end]
      decreases n
    {
      var b := src[end];
      if b == Nul {
        return written + [Nul], end;
      }
      written := written + [b];
      end := end + 1;
      n := n - 1;
    }
    written := written + [Nul];
  }

  // ---------------------------------------------------------------------------------
  // Digits (ngx_string.c:472-514)
  // ---------------------------------------------------------------------------------

  /** hex[d] and HEX[d] of ngx_string.c:472-473; the first ten are the decimal digits. */
  function DigitChar(d: nat, upper: bool): Byte
    requires d < 16
  {
    if d < 10 then Digit0 + d else if upper then 55 + d else 87 + d
  }

  /** The value of a digit character, decimal or hexadecimal in either case. */
  function DigitValue(c: Byte): (d: nat)
    ensures d < 16
  {
    if Digit0 <= c <= Digit0 + 9 then c - Digit0
    else if 65 <= c <= 70 then c - 55
    else if 97 <= c <= 102 then c - 87
    else 0
  }

  lemma DigitValueOfChar(d: nat, upper: bool)
    requires d < 16
    ensures DigitValue(DigitChar(d, upper)) == d
  {
  }


  /** The minimal digit string of n in the given base, most significant digit first. */
  function Digits(n: nat, base: nat, upper: bool): (r: seq<Byte>)
    requires base == 10 || base == 16
    ensures |r| >= 1
    decreases n
  {
    if n < base then [DigitChar(n, upper)]
    else Digits(n / base, base, upper) + [DigitChar(n % base, upper)]
  }

  /** Reading a digit string back, most significant digit first. */
  function ValueOf(s: seq<Byte>, base: nat): nat
  {
    if s == [] then 0 else ValueOf(s[..|s| - 1], base) * base + DigitValue(s[|s| - 1])
  }

  /** Reading the digits back yields the number. */
  lemma {:induction false} DigitsRoundTrip(n: nat, base: nat, upper: bool)
    requires base == 10 || base == 16
    ensures ValueOf(Digits(n, base, upper), base) == n
    decreases n
  {
    var ds := Digits(n, base, upper);
    DigitValueOfChar(n % base, upper);
    if n >= base {
      DigitsRoundTrip(n / base, base, upper);
      assert ds[..|ds| - 1] == Digits(n / base, base, upper);
    } else {
      assert ds[..|ds| - 1] == [];
    }
  }

  /** The digit string is minimal: a leading '0' only for 0 itself, and only digit characters. */
  lemma {:induction false} DigitsMinimal(n: nat, base: nat, upper: bool)
    requires base == 10 || base == 16
    ensures var ds := Digits(n, base, upper); ds[0] == Digit0 <==> n == 0
    decreases n
  {
    if n >= base {
      var hi := Digits(n / base, base, upper);
      DivAtLeastOne(n, base);
      DigitsMinimal(n / base, base, upper);
      assert Digits(n, base, upper)[0] == hi[0] != Digit0;
    } else {
      assert Digits(n, base, upper) == [DigitChar(n, upper)];
    }
  }


  /** A number below base^k has at most k digits. */
  lemma {:induction false} DigitsBound(n: nat, base: nat, upper: bool, k: nat)
    requires base == 10 || base == 16
    requires k >= 1 && n < Power(base, k)
    ensures |Digits(n, base, upper)| <= k
    decreases k
  {
    if n >= base {
      DivBelow(n, base, Power(base, k - 1));
      DivAtLeastOne(n, base);
      DigitsBound(n / base, base, upper, k - 1);
    }
  }

  /** A leading '0' does not change the value read back. */
  lemma LeadingZero(t: seq<Byte>, base: nat)
    ensures ValueOf([Digit0] + t, base) == ValueOf(t, base)
  {
    ValueOfFront(Digit0, t, base);
    assert DigitValue(Digit0) == 0;
  }

  /** Leading '0's do not change the value read back. */
  lemma {:induction false} LeadingZeros(k: nat, t: seq<Byte>, base: nat)
    ensures ValueOf(Repeat(Digit0, k) + t, base) == ValueOf(t, base)
    decreases k
  {
    if k > 0 {
      var rest := Repeat(Digit0, k - 1) + t;
      RepeatCons(Digit0, k - 1, t);
      LeadingZero(rest, base);
      LeadingZeros(k - 1, t, base);
    } else {
      assert Repeat(Digit0, k) + t == t;
    }
  }

  lemma RepeatCons(b: Byte, k: nat, t: seq<Byte>)
    ensures Repeat(b, k + 1) + t == [b] + (Repeat(b, k) + t)
  {
    assert Repeat(b, k + 1) == [b] + Repeat(b, k);
  }

  /** The base selected by ngx_sprintf_num's `hexadecimal` argument. */
  function Base(hexadecimal: nat): nat
  {
    if hexadecimal == 0 then 10 else 16
  }

  /** The digits ngx_sprintf_num builds in temp: decimal, lower-case hex (1) or upper-case hex (2). */
  function NumDigits(ui64: nat, hexadecimal: nat): seq<Byte>
  {
    Digits(ui64, Base(hexadecimal), hexadecimal == 2)
  }

  /** The do/while loops of ngx_string.c:496-513, filling temp from its end. */
  method DigitLoop(n0: nat, base: nat, upper: bool) returns (temp: seq<Byte>)
    requires base == 10 || base == 16
    ensures temp == Digits(n0, base, upper)
  {
    var n: nat := n0;
    temp := [DigitChar(n % base, upper)];
    n := n / base;
    while n != 0
      invariant n == 0 ==> temp == Digits(n0, base, upper)
      invariant n != 0 ==> Digits(n, base, upper) + temp == Digits(n0, base, upper)
      decreases n
    {
      assert Digits(n, base, upper) == Digits(n / base, base, upper) + [DigitChar(n % base, upper)]
             || (n < base && n / base == 0);
      temp := [DigitChar(n % base, upper)] + temp;
      n := n / base;
    }
  }

  /**
    ngx_string.c:475-514: the digits of a 64-bit value. The 32-bit branch for small decimal
    values produces the same digits, and NGX_INT64_LEN bytes of temp always suffice.
   */
  method ConvertNumber(ui64: nat, hexadecimal: nat) returns (temp: seq<Byte>)
    requires ui64 < Uint64Modulus && hexadecimal <= 2
    ensures temp == NumDigits(ui64, hexadecimal)
    ensures |temp| <= Int64Len
  {
    if hexadecimal == 0 {
      if ui64 <= MaxUint32 {
        var ui32 := ui64;
        temp := DigitLoop(ui32, 10, false);
      } else {
        temp := DigitLoop(ui64, 10, false);
      }
    } else if hexadecimal == 1 {
      temp := DigitLoop(ui64, 16, false);
    } else {
      temp := DigitLoop(ui64, 16, true);
    }
    DigitsFitTemp(ui64, hexadecimal);
  }

  /** Every 64-bit value has at most 20 decimal and 16 hexadecimal digits. */
  /** 10^10 and 16^8, the powers the buffer bounds need. */
  lemma PowerConstants()
    ensures Power(10, 10) == 10_000_000_000 && Power(10, 20) == 100_000_000_000_000_000_000
    ensures Power(16, 16) == Uint64Modulus
  {
    assert Power(10, 2) == 100;
    assert Power(10, 5) == 100_000 by {
      assert Power(10, 3) == 1000;
      assert Power(10, 4) == 10_000;
    }
    PowerAdd(10, 5, 5);
    PowerAdd(10, 10, 10);
    assert Power(16, 2) == 256;
    PowerAdd(16, 2, 2);
    PowerAdd(16, 4, 4);
    PowerAdd(16, 8, 8);
  }

  lemma DigitsFitTemp(ui64: nat, hexadecimal: nat)
    requires ui64 < Uint64Modulus
    ensures |NumDigits(ui64, hexadecimal)| <= Int64Len
    ensures hexadecimal != 0 ==> |NumDigits(ui64, hexadecimal)| <= 16
    ensures hexadecimal == 0 && ui64 <= MaxUint32 ==> |NumDigits(ui64, hexadecimal)| < Int32Len
  {
    if hexadecimal == 0 {
      PowerConstants();
      DigitsBound(ui64, 10, false, 20);
      if ui64 <= MaxUint32 {
        DigitsBound(ui64, 10, false, 10);
      }
    } else {
      PowerConstants();
      DigitsBound(ui64, 16, hexadecimal == 2, 16);
    }
  }

  // ---------------------------------------------------------------------------------
  // ngx_sprintf_num (ngx_string.c:464-530)
  // ---------------------------------------------------------------------------------

  /**
    ngx_sprintf_num into `room` bytes: padding with `zero` up to `width`, then the digits,
    cut short where the room ends. The padding comes first and is all `zero`; the digits
    that follow are a prefix of the number's digits.
   */
  function SprintfNum(room: nat, ui64: nat, zero: Byte, hexadecimal: nat, width: nat): (out: seq<Byte>)
    requires ui64 < Uint64Modulus && hexadecimal <= 2
    ensures var ds := NumDigits(ui64, hexadecimal);
            var pad := Min(room, Max(width, |ds|) - |ds|);
            && |out| == Min(room, Max(width, |ds|))
            && (forall j | 0 <= j < pad :: out[j] == zero)
            && out[pad..] == ds[..|out| - pad]
  {
    var ds := NumDigits(ui64, hexadecimal);
    var pad := if |ds| < width then Min(width - |ds|, room) else 0;
    Repeat(zero, pad) + ds[..Min(|ds|, room - pad)]
  }

  /** ngx_string.c:516-529 step by step, which agrees with SprintfNum. */
  method SprintfNumLoop(room: nat, ui64: nat, zero: Byte, hexadecimal: nat, width: nat) returns (out: seq<Byte>)
    requires ui64 < Uint64Modulus && hexadecimal <= 2
    ensures out == SprintfNum(room, ui64, zero, hexadecimal, width)
  {
    var temp := ConvertNumber(ui64, hexadecimal);
    var len := |temp|;
    out := [];
    while len < width && |out| < room
      invariant |temp| <= len <= Max(width, |temp|) && |out| == len - |temp| && |out| <= room
      invariant out == Repeat(zero, |out|)
      invariant |temp| < width ==> |out| <= width - |temp|
      decreases width - len
    {
      out := out + [zero];
      len := len + 1;
    }
    assert |out| == (if |temp| < width then Min(width - |temp|, room) else 0);
    len := |temp|;
    if |out| + len > room {
      len := room - |out|;
    }
    out := out + temp[..len];
  }

  /**
    When nothing is cut short, the output is the padding followed by all the digits, and
    reading the digits back yields the number; with '0' padding the whole output reads back.
   */
  lemma NumRoundTrip(room: nat, ui64: nat, zero: Byte, hexadecimal: nat, width: nat)
    requires ui64 < Uint64Modulus && hexadecimal <= 2
    requires room >= Max(width, |NumDigits(ui64, hexadecimal)|)
    ensures var out := SprintfNum(room, ui64, zero, hexadecimal, width);
            var ds := NumDigits(ui64, hexadecimal);
            && |out| == Max(width, |ds|)
            && out == Repeat(zero, |out| - |ds|) + ds
            && ValueOf(out[|out| - |ds|..], Base(hexadecimal)) == ui64
            && (zero == Digit0 ==> ValueOf(out, Base(hexadecimal)) == ui64)
  {
    var out := SprintfNum(room, ui64, zero, hexadecimal, width);
    var ds := NumDigits(ui64, hexadecimal);
    var b := Base(hexadecimal);
    var pad := |out| - |ds|;
    assert |out| == Max(width, |ds|);
    assert out[pad..] == ds;
    assert out == Repeat(zero, pad) + ds by {
      assert out == out[..pad] + out[pad..];
      assert out[..pad] == Repeat(zero, pad);
    }
    DigitsRoundTrip(ui64, b, hexadecimal == 2);
    if zero == Digit0 {
      LeadingZeros(pad, ds, b);
    }
  }

  // ---------------------------------------------------------------------------------
  // ngx_sprintf_str (ngx_string.c:532-578)
  // ---------------------------------------------------------------------------------

  /** The two hex characters of a byte, high nibble first. */
  function HexPair(b: Byte, upper: bool): seq<Byte>
  {
    [DigitChar(b / 16, upper), DigitChar(b % 16, upper)]
  }

  function HexEncode(s: seq<Byte>, upper: bool): (r: seq<Byte>)
    ensures |r| == 2 * |s|
  {
    if s == [] then [] else HexEncode(s[..|s| - 1], upper) + HexPair(s[|s| - 1], upper)
  }

  /** Reading hex pairs back into bytes. */
  function HexDecode(h: seq<Byte>): (r: seq<Byte>)
    requires |h| % 2 == 0
  {
    if h == [] then []
    else HexDecode(h[..|h| - 2]) + [DigitValue(h[|h| - 2]) * 16 + DigitValue(h[|h| - 1])]
  }

  lemma {:induction false} HexRoundTrip(s: seq<Byte>, upper: bool)
    ensures HexDecode(HexEncode(s, upper)) == s
    decreases |s|
  {
    if s != [] {
      var h := HexEncode(s, upper);
      var b := s[|s| - 1];
      HexRoundTrip(s[..|s| - 1], upper);
      assert h[..|h| - 2] == HexEncode(s[..|s| - 1], upper);
      DigitValueOfChar(b / 16, upper);
      DigitValueOfChar(b % 16, upper);
      assert s == s[..|s| - 1] + [b];
    }
  }

  /** The source bytes exist: a NUL-terminated string for (size_t) -1, else len bytes. */
  predicate StrReadable(src: seq<Byte>, len: nat)
  {
    if len == SizeMax then NulIndex(src) < |src| else len <= |src|
  }

  /** How many source bytes there are to copy: up to the NUL for (size_t) -1, else len. */
  function Avail(src: seq<Byte>, len: nat): nat
  {
    if len == SizeMax then NulIndex(src) else len
  }

  /**
    ngx_sprintf_str into `room` bytes. Raw mode copies the source up to its NUL or its
    length, cut at the room. Hex mode writes two characters per byte and only while two
    bytes of room remain, so its output has even length and reads back as the source's
    first bytes.
   */
  function SprintfStr(room: nat, src: seq<Byte>, len: nat, hexadecimal: nat): (out: seq<Byte>)
    requires StrReadable(src, len) && hexadecimal <= 2
    ensures |out| <= room
    ensures hexadecimal == 0 ==> |out| == Min(room, Avail(src, len)) && out == src[..|out|]
    ensures hexadecimal != 0 ==>
              && |out| == 2 * Min(room / 2, Avail(src, len))
              && out == HexEncode(src[..|out| / 2], hexadecimal == 2)
              && HexDecode(out) == src[..|out| / 2]
  {
    var n := Avail(src, len);
    if hexadecimal == 0 then src[..Min(room, n)]
    else
      var k := Min(room / 2, n);
      HexRoundTrip(src[..k], hexadecimal == 2);
      HexEncode(src[..k], hexadecimal == 2)
  }

  /** The raw copy of a NUL-terminated source, ngx_string.c:538-540. */
  method CopyToNul(room: nat, src: seq<Byte>) returns (out: seq<Byte>)
    requires NulIndex(src) < |src|
    ensures out == src[..Min(room, NulIndex(src))]
  {
    out := [];
    var i := 0;
    while src[i] != Nul && i < room
      invariant i <= NulIndex(src) && i <= room && out == src[..i]
      decreases room - i
    {
      out := out + [src[i]];
      i := i + 1;
    }
  }

  /** The hex dump of a NUL-terminated source, ngx_string.c:556-559. */
  method HexToNul(room: nat, src: seq<Byte>, upper: bool) returns (out: seq<Byte>)
    requires NulIndex(src) < |src|
    ensures out == HexEncode(src[..Min(room / 2, NulIndex(src))], upper)
  {
    out := [];
    var i := 0;
    while src[i] != Nul && 2 * i + 1 < room
      invariant i <= NulIndex(src) && 2 * i <= room && out == HexEncode(src[..i], upper)
      decreases room - 2 * i
    {
      assert src[..i + 1][..i] == src[..i];
      out := out + HexPair(src[i], upper);
      i := i + 1;
    }
  }

  /** The hex dump of len source bytes, ngx_string.c:563-566. */
  method HexOfLength(room: nat, src: seq<Byte>, len0: nat, upper: bool) returns (out: seq<Byte>)
    requires len0 <= |src|
    ensures out == HexEncode(src[..Min(room / 2, len0)], upper)
  {
    out := [];
    var i := 0;
    var len := len0;
    while len != 0 && 2 * i + 1 < room
      invariant i + len == len0 && 2 * i <= room && out == HexEncode(src[..i], upper)
      decreases len
    {
      assert src[..i + 1][..i] == src[..i];
      out := out + HexPair(src[i], upper);
      i := i + 1;
      len := len - 1;
    }
  }

  /** ngx_string.c:536-575 branch by branch, which agrees with SprintfStr. */
  method SprintfStrLoop(room: nat, src: seq<Byte>, len: nat, hexadecimal: nat) returns (out: seq<Byte>)
    requires StrReadable(src, len) && hexadecimal <= 2
    ensures out == SprintfStr(room, src, len, hexadecimal)
  {
    if hexadecimal == 0 {
      if len == SizeMax {
        out := CopyToNul(room, src);
      } else {
        out := src[..Min(room, len)];
      }
    } else if len == SizeMax {
      out := HexToNul(room, src, hexadecimal == 2);
    } else {
      out := HexOfLength(room, src, len, hexadecimal == 2);
    }
  }

  // ---------------------------------------------------------------------------------
  // ngx_vslprintf (ngx_string.c:99-462), without %f
  // ---------------------------------------------------------------------------------

  /**
    A variadic argument: an integer of whatever C type the directive reads it at, a
    `u_char *` to the bytes found there, or an `ngx_str_t *` / `ngx_variable_value_t *`
    to a string of known length.
   */
  datatype Arg = Int(v: int) | CStr(bytes: seq<Byte>) | NgxStr(bytes: seq<Byte>)

  /** The modifiers of one directive (ngx_string.c:138-195). */
  datatype Spec = Spec(zero: Byte, width: nat, sign: bool, hex: nat, maxWidth: bool, fracWidth: nat, slen: nat)

  /** A parsed directive: its modifiers, the index of its conversion character, the next argument. */
  datatype Parsed = Parsed(spec: Spec, at: nat, nextArg: nat)

  /** What one pass of the loop writes, and where the format and the arguments stand after it. */
  datatype Step = Step(out: seq<Byte>, next: nat, nextArg: nat)

  datatype FmtResult = Written(out: seq<Byte>) | Undefined

  /** width * 10 + digit in an ngx_uint_t, which wraps at 2^64. */
  function Accumulate(w: nat, c: Byte): nat
    requires IsDigit(c)
  {
    (w * 10 + (c - Digit0)) % Uint64Modulus
  }

  /**
    The digit loops of ngx_string.c:146-148 and 179-181: the number the digits from i on
    accumulate into w, and the index of the first byte after them.
   */
  function ParseNumber(fmt: seq<Byte>, i: nat, w: nat): (r: Option<(nat, nat)>)
    ensures r.Some? ==>
              && i <= r.value.1 < |fmt| && !IsDigit(fmt[r.value.1])
              && forall j | i <= j < r.value.1 :: IsDigit(fmt[j])
    decreases |fmt| - i
  {
    if i >= |fmt| then None
    else if IsDigit(fmt[i]) then ParseNumber(fmt, i + 1, Accumulate(w, fmt[i]))
    else Some((w, i))
  }

  /**
    ngx_string.c:151-195: the modifiers after the width, up to the conversion character.
    `*` takes the string length from the next argument (a size_t); `.` reads the fraction
    width and ends the modifiers.
   */
  function ParseFlags(fmt: seq<Byte>, i: nat, s: Spec, args: seq<Arg>, a: nat): (r: Option<Parsed>)
    requires a <= |args| && s.hex <= 2
    ensures r.Some? ==> i <= r.value.at < |fmt| && a <= r.value.nextArg <= |args| && r.value.spec.hex <= 2
    ensures r.Some? ==> r.value.spec.zero == s.zero && r.value.spec.width == s.width
    decreases |fmt| - i
  {
    if i >= |fmt| then None
    else
      var c := fmt[i];
      if c == Ascii('u') then ParseFlags(fmt, i + 1, s.(sign := false), args, a)
      else if c == Ascii('m') then ParseFlags(fmt, i + 1, s.(maxWidth := true), args, a)
      else if c == Ascii('X') then ParseFlags(fmt, i + 1, s.(hex := 2, sign := false), args, a)
      else if c == Ascii('x') then ParseFlags(fmt, i + 1, s.(hex := 1, sign := false), args, a)
      else if c == Ascii('.') then
        match ParseNumber(fmt, i + 1, s.fracWidth)
        case None => None
        case Some((f, k)) => Some(Parsed(s.(fracWidth := f), k, a))
      else if c == Ascii('*') then
        if a < |args| && args[a].Int? then ParseFlags(fmt, i + 1, s.(slen := args[a].v % Uint64Modulus), args, a + 1)
        else None
      else Some(Parsed(s, i, a))
  }

  /**
    ngx_string.c:138-195 for the '%' at index i: '0' right after it selects zero padding
    (and is read again as the first width digit), then the width, then the modifiers.
   */
  function ParseDirective(fmt: seq<Byte>, i: nat, args: seq<Arg>, a: nat): (r: Option<Parsed>)
    requires a <= |args|
    ensures r.Some? ==> i < r.value.at < |fmt| && a <= r.value.nextArg <= |args| && r.value.spec.hex <= 2
  {
    if i + 1 >= |fmt| then None
    else
      var zero := if fmt[i + 1] == Digit0 then Digit0 else Space;
      match ParseNumber(fmt, i + 1, 0)
      case None => None
      case Some((w, k)) => ParseFlags(fmt, k, Spec(zero, w, true, 0, false, 0, SizeMax), args, a)
  }

  /** An integer read at a signed 64-bit type (two's complement). */
  function Signed64(v: int): (r: int)
    ensures -0x8000_0000_0000_0000 <= r < 0x8000_0000_0000_0000
  {
    var u := v % Uint64Modulus;
    if u >= 0x8000_0000_0000_0000 then u - Uint64Modulus else u
  }

  function Signed32(v: int): (r: int)
    ensures -0x8000_0000 <= r < 0x8000_0000
  {
    var u := v % Uint32Modulus;
    if u >= 0x8000_0000 then u - Uint32Modulus else u
  }

  function Unsigned64(v: int): (r: nat)
    ensures r < Uint64Modulus
  {
    v % Uint64Modulus
  }

  function Unsigned32(v: int): (r: nat)
    ensures r < Uint32Modulus
  {
    v % Uint32Modulus
  }

  /** The number a numeric directive prints, with its final padding, base and width. */
  datatype Number = Number(sign: bool, i64: int, ui64: nat, zero: Byte, hex: nat, width: nat)

  predicate WellFormedNumber(n: Number)
  {
    -0x8000_0000_0000_0000 <= n.i64 < 0x8000_0000_0000_0000 && n.ui64 < Uint64Modulus && n.hex <= 2
  }

  /** The numeric conversion characters of ngx_string.c:224-387. */
  predicate IsNumeric(c: Byte)
  {
    c in {Ascii('O'), Ascii('P'), Ascii('T'), Ascii('M'), Ascii('z'), Ascii('i'), Ascii('d'),
          Ascii('l'), Ascii('D'), Ascii('L'), Ascii('A'), Ascii('r'), Ascii('p')}
  }

  /**
    ngx_string.c:224-387: the value a numeric directive reads, at the C type of its
    argument. 'O', 'P', 'T' and 'r' are always signed; 'M' is signed only for -1; 'p'
    forces upper-case hex, zero padding and a width of two characters per pointer byte;
    'm' sets the width of 'i' and 'A' to their longest value.
   */
  function NumberArg(c: Byte, s: Spec, v: int): (n: Number)
    requires IsNumeric(c) && s.hex <= 2
    ensures WellFormedNumber(n)
  {
    var signed64 := Number(true, Signed64(v), 0, s.zero, s.hex, s.width);
    var unsigned64 := Number(false, 0, Unsigned64(v), s.zero, s.hex, s.width);
    if c == Ascii('O') || c == Ascii('T') || c == Ascii('r') then signed64
    else if c == Ascii('P') then signed64.(i64 := Signed32(v))
    else if c == Ascii('M') then
      if Unsigned64(v) == Uint64Modulus - 1 then signed64.(i64 := -1) else unsigned64
    else if c == Ascii('d') || c == Ascii('D') then
      if s.sign then signed64.(i64 := Signed32(v)) else unsigned64.(ui64 := Unsigned32(v))
    else if c == Ascii('p') then unsigned64.(hex := 2, zero := Digit0, width := 2 * PtrSize)
    else
      var n := if s.sign then signed64 else unsigned64;
      if c == Ascii('i') && s.maxWidth then n.(width := IntTLen)
      else if c == Ascii('A') && s.maxWidth then n.(width := AtomicTLen)
      else n
  }

  /**
    ngx_string.c:441-451: a negative signed value prints '-' and then its magnitude;
    everything else prints as unsigned.
   */
  function PrintNumber(room: nat, n: Number): (out: seq<Byte>)
    requires room >= 1 && WellFormedNumber(n)
    ensures |out| <= room
    ensures n.sign && n.i64 < 0 ==> |out| >= 1 && out[0] == Minus && out[1..] == SprintfNum(room - 1, -n.i64, n.zero, n.hex, n.width)
    ensures !(n.sign && n.i64 < 0) ==> out == SprintfNum(room, if n.sign then n.i64 else n.ui64, n.zero, n.hex, n.width)
  {
    if n.sign && n.i64 < 0 then [Minus] + SprintfNum(room - 1, -n.i64, n.zero, n.hex, n.width)
    else SprintfNum(room, if n.sign then n.i64 else n.ui64, n.zero, n.hex, n.width)
  }

  /**
    ngx_string.c:198-416: what the conversion character of a parsed directive writes, with
    at least one byte of room. A missing or mistyped argument is Undefined, and so is %f,
    which this model leaves out.
   */
  function Convert(fmt: seq<Byte>, p: Parsed, args: seq<Arg>, room: nat): (r: Option<Step>)
    requires p.at < |fmt| && p.nextArg <= |args| && room >= 1 && p.spec.hex <= 2
    ensures r.Some? ==> |r.value.out| <= room && r.value.next == p.at + 1 && p.nextArg <= r.value.nextArg <= |args|
  {
    var c := fmt[p.at];
    var a := p.nextArg;
    var s := p.spec;
    if c == Ascii('V') || c == Ascii('v') then
      if a < |args| && args[a].NgxStr? && StrReadable(args[a].bytes, |args[a].bytes|)
      then Some(Step(SprintfStr(room, args[a].bytes, |args[a].bytes|, s.hex), p.at + 1, a + 1))
      else None
    else if c == Ascii('s') then
      if a < |args| && args[a].CStr? && StrReadable(args[a].bytes, s.slen)
      then Some(Step(SprintfStr(room, args[a].bytes, s.slen, s.hex), p.at + 1, a + 1))
      else None
    else if IsNumeric(c) then
      if a < |args| && args[a].Int?
      then Some(Step(PrintNumber(room, NumberArg(c, s, args[a].v)), p.at + 1, a + 1))
      else None
    else if c == Ascii('c') then
      if a < |args| && args[a].Int? then Some(Step([args[a].v % 256], p.at + 1, a + 1)) else None
    else if c == Ascii('f') then None
    else if c == Ascii('Z') then Some(Step([Nul], p.at + 1, a))
    else if c == Ascii('N') then Some(Step([Lf], p.at + 1, a))
    else Some(Step([c], p.at + 1, a))
  }

  /** One pass of the loop at index i: a directive, or one plain byte copied. */
  function StepAt(fmt: seq<Byte>, i: nat, args: seq<Arg>, a: nat, room: nat): (r: Option<Step>)
    requires i < |fmt| && a <= |args| && room >= 1
    ensures r.Some? ==> |r.value.out| <= room && i < r.value.next && a <= r.value.nextArg <= |args|
  {
    if fmt[i] == Percent then
      match ParseDirective(fmt, i, args, a)
      case None => None
      case Some(p) => Convert(fmt, p, args, room)
    else Some(Step([fmt[i]], i + 1, a))
  }

  /**
    ngx_vslprintf(buf, last, fmt, args) with `room` = last - buf, from format index i and
    argument index a. The loop runs while the format has not reached its NUL and there is
    room; the result never exceeds the room, so the returned pointer lies in [buf, last].
   */
  function Vslprintf(fmt: seq<Byte>, i: nat, args: seq<Arg>, a: nat, room: nat): (r: FmtResult)
    requires a <= |args|
    ensures r.Written? ==> |r.out| <= room
    decreases |fmt| - i
  {
    if i >= |fmt| then Undefined
    else if fmt[i] == Nul || room == 0 then Written([])
    else
      match StepAt(fmt, i, args, a, room)
      case None => Undefined
      case Some(st) =>
        match Vslprintf(fmt, st.next, args, st.nextArg, room - |st.out|)
        case Undefined => Undefined
        case Written(rest) => Written(st.out + rest)
  }

  /** A format without directives is copied up to its NUL, cut where the room ends. */
  lemma {:induction false} PlainFormatCopied(fmt: seq<Byte>, i: nat, args: seq<Arg>, a: nat, room: nat)
    requires a <= |args| && i <= |fmt| && NulIndex(fmt[i..]) < |fmt| - i
    requires forall j | i <= j < i + NulIndex(fmt[i..]) :: fmt[j] != Percent
    ensures Vslprintf(fmt, i, args, a, room) == Written(fmt[i..][..Min(room, NulIndex(fmt[i..]))])
    decreases |fmt| - i
  {
    if fmt[i] != Nul && room > 0 {
      assert fmt[i..][0] == fmt[i];
      assert fmt[i + 1..] == fmt[i..][1..];
      PlainFormatCopied(fmt, i + 1, args, a, room - 1);
      assert fmt[i..][..Min(room, NulIndex(fmt[i..]))]
             == [fmt[i]] + fmt[i + 1..][..Min(room - 1, NulIndex(fmt[i + 1..]))];
    } else if fmt[i] == Nul {
      assert fmt[i..][0] == Nul;
    }
  }

  /** The conversion characters and modifiers the directive parser knows. */
  predicate IsKnown(c: Byte)
  {
    IsNumeric(c) || IsDigit(c)
    || c in {Ascii('V'), Ascii('v'), Ascii('s'), Ascii('c'), Ascii('f'), Ascii('Z'), Ascii('N'),
             Ascii('u'), Ascii('m'), Ascii('x'), Ascii('X'), Ascii('.'), Ascii('*')}
  }

  /** An unknown conversion character, '%' among them, is copied as it stands. */
  lemma UnknownDirectiveCopied(fmt: seq<Byte>, i: nat, args: seq<Arg>, a: nat, room: nat)
    requires a <= |args| && room >= 1 && i + 1 < |fmt| && fmt[i] == Percent && !IsKnown(fmt[i + 1])
    ensures StepAt(fmt, i, args, a, room) == Some(Step([fmt[i + 1]], i + 2, a))
  {
    assert ParseDirective(fmt, i, args, a) == Some(Parsed(Spec(Space, 0, true, 0, false, 0, SizeMax), i + 1, a));
  }

  /** Reading a digit string from its first digit: the leading digit weighs base^(rest). */
  lemma {:induction false} ValueOfFront(d: Byte, t: seq<Byte>, base: nat)
    ensures ValueOf([d] + t, base) == DigitValue(d) * Power(base, |t|) + ValueOf(t, base)
    decreases |t|
  {
    var s := [d] + t;
    if t == [] {
      assert s[..|s| - 1] == [];
    } else {
      var t1 := t[..|t| - 1];
      var z := DigitValue(t[|t| - 1]);
      assert s[..|s| - 1] == [d] + t1;
      assert s[|s| - 1] == t[|t| - 1];
      ValueOfFront(d, t1, base);
      var x, y, p := DigitValue(d), ValueOf(t1, base), Power(base, |t1|);
      assert ValueOf(s, base) == (x * p + y) * base + z;
      assert ValueOf(t, base) == y * base + z;
      assert Power(base, |t|) == base * p;
      MulDistributes(x * p, y, base);
      MulRotates(x, p, base);
    }
  }

  lemma ModAddMultiple(x: int, q: int, m: nat)
    requires m > 0
    ensures (x + q * m) % m == x % m
  {
    var r := x % m;
    DivModUnique(x + q * m, m, x / m + q, r);
  }

  /** (x % m) * p + y and x * p + y agree modulo m. */
  lemma ModTimesPlus(x: nat, p: nat, y: nat, m: nat)
    requires m > 0
    ensures ((x % m) * p + y) % m == (x * p + y) % m
  {
    var q := x / m;
    assert x == q * m + x % m;
    assert x * p + y == ((x % m) * p + y) + (q * p) * m;
    ModAddMultiple((x % m) * p + y, q * p, m);
  }

  /**
    The width digits accumulate in an ngx_uint_t: the number parsed from w over the digits
    fmt[i..k] is w shifted by those digits plus their decimal value, modulo 2^64.
   */
  lemma {:induction false} ParseNumberValue(fmt: seq<Byte>, i: nat, w: nat)
    requires w < Uint64Modulus && ParseNumber(fmt, i, w).Some?
    ensures var (v, k) := ParseNumber(fmt, i, w).value;
            v == (w * Power(10, k - i) + ValueOf(fmt[i..k], 10)) % Uint64Modulus
    decreases |fmt| - i
  {
    var (v, k) := ParseNumber(fmt, i, w).value;
    if k == i {
      assert fmt[i..k] == [];
    } else {
      var d := fmt[i];
      assert IsDigit(d);
      var w1 := Accumulate(w, d);
      assert ParseNumber(fmt, i, w) == ParseNumber(fmt, i + 1, w1);
      ParseNumberValue(fmt, i + 1, w1);
      var t := fmt[i + 1..k];
      assert fmt[i..k] == [d] + t;
      ValueOfFront(d, t, 10);
      var p := Power(10, |t|);
      var x := w * 10 + DigitValue(d);
      assert w1 == x % Uint64Modulus;
      assert v == (w1 * p + ValueOf(t, 10)) % Uint64Modulus;
      ModTimesPlus(x, p, ValueOf(t, 10), Uint64Modulus);
      var big := Power(10, k - i);
      assert big == p * 10;
      MulDistributes(w * 10, DigitValue(d), p);
      MulRotates(w, 10, p);
      assert x * p + ValueOf(t, 10) == w * big + ValueOf(fmt[i..k], 10);
    }
  }

  /**
    The padding and width of a directive: '0' right after '%' selects zero padding and
    anything else space padding, and the width is the decimal value of the digits after
    '%', modulo 2^64; the modifiers that follow change neither.
   */
  lemma DirectiveWidth(fmt: seq<Byte>, i: nat, args: seq<Arg>, a: nat)
    requires a <= |args| && ParseDirective(fmt, i, args, a).Some?
    ensures ParseNumber(fmt, i + 1, 0).Some?
    ensures var s := ParseDirective(fmt, i, args, a).value.spec;
            var k := ParseNumber(fmt, i + 1, 0).value.1;
            && (s.zero == Digit0 <==> fmt[i + 1] == Digit0)
            && (s.zero == Space <==> fmt[i + 1] != Digit0)
            && s.width == ValueOf(fmt[i + 1..k], 10) % Uint64Modulus
  {
    ParseNumberValue(fmt, i + 1, 0);
  }

  /** The modifiers that only set flags. */
  predicate IsFlag(c: Byte)
  {
    c == Ascii('u') || c == Ascii('m') || c == Ascii('x') || c == Ascii('X')
  }

  predicate IsHexFlag(c: Byte)
  {
    c == Ascii('x') || c == Ascii('X')
  }

  /** The spec after one flag character. */
  function ApplyFlag(s: Spec, c: Byte): (s1: Spec)
    requires IsFlag(c)
  {
    if c == Ascii('u') then s.(sign := false)
    else if c == Ascii('m') then s.(maxWidth := true)
    else if c == Ascii('X') then s.(hex := 2, sign := false)
    else s.(hex := 1, sign := false)
  }

  /** ParseFlags over a flag character moves on with that flag applied. */
  lemma FlagStep(fmt: seq<Byte>, i: nat, s: Spec, args: seq<Arg>, a: nat)
    requires a <= |args| && s.hex <= 2 && i < |fmt| && IsFlag(fmt[i])
    ensures ApplyFlag(s, fmt[i]).hex <= 2
    ensures ParseFlags(fmt, i, s, args, a) == ParseFlags(fmt, i + 1, ApplyFlag(s, fmt[i]), args, a)
  {
  }

  /**
    A run of flags fmt[i..k] ends at the conversion character k: any of 'u', 'x', 'X'
    makes the directive unsigned, any 'm' selects the maximal width, and nothing else
    changes but the hex case.
   */
  lemma {:induction false} FlagsSummary(fmt: seq<Byte>, i: nat, k: nat, s: Spec, args: seq<Arg>, a: nat)
    requires a <= |args| && s.hex <= 2 && i <= k < |fmt|
    requires forall j | i <= j < k :: IsFlag(fmt[j])
    requires !IsFlag(fmt[k]) && fmt[k] != Ascii('.') && fmt[k] != Ascii('*')
    ensures ParseFlags(fmt, i, s, args, a).Some?
    ensures var p := ParseFlags(fmt, i, s, args, a).value;
            && p.at == k && p.nextArg == a
            && p.spec.zero == s.zero && p.spec.width == s.width
            && p.spec.fracWidth == s.fracWidth && p.spec.slen == s.slen
            && (p.spec.sign <==> s.sign && forall j | i <= j < k :: fmt[j] == Ascii('m'))
            && (p.spec.maxWidth <==> s.maxWidth || exists j | i <= j < k :: fmt[j] == Ascii('m'))
    decreases k - i
  {
    if i < k {
      FlagStep(fmt, i, s, args, a);
      FlagsSummary(fmt, i + 1, k, ApplyFlag(s, fmt[i]), args, a);
    }
  }

  /** In a run of flags fmt[i..k], the last of 'x' and 'X' decides the hex case. */
  lemma {:induction false} FlagsHex(fmt: seq<Byte>, i: nat, k: nat, s: Spec, args: seq<Arg>, a: nat)
    requires a <= |args| && s.hex <= 2 && i <= k < |fmt|
    requires forall j | i <= j < k :: IsFlag(fmt[j])
    requires !IsFlag(fmt[k]) && fmt[k] != Ascii('.') && fmt[k] != Ascii('*')
    ensures ParseFlags(fmt, i, s, args, a).Some?
    ensures var p := ParseFlags(fmt, i, s, args, a).value;
            && ((forall j | i <= j < k :: !IsHexFlag(fmt[j])) ==> p.spec.hex == s.hex)
            && (forall j | i <= j < k && IsHexFlag(fmt[j]) && (forall l | j < l < k :: !IsHexFlag(fmt[l])) ::
                  p.spec.hex == if fmt[j] == Ascii('X') then 2 else 1)
    decreases k - i
  {
    if i < k {
      FlagStep(fmt, i, s, args, a);
      FlagsHex(fmt, i + 1, k, ApplyFlag(s, fmt[i]), args, a);
    }
  }

  /** The modifiers of a directive that has none. */
  const PlainSpec := Spec(Space, 0, true, 0, false, 0, SizeMax)

  /** A conversion character right after '%' is parsed with no modifiers. */
  lemma BareDirective(fmt: seq<Byte>, i: nat, args: seq<Arg>, a: nat, room: nat)
    requires a <= |args| && room >= 1 && i + 1 < |fmt| && fmt[i] == Percent
    requires !IsDigit(fmt[i + 1]) && !IsFlag(fmt[i + 1]) && fmt[i + 1] != Ascii('.') && fmt[i + 1] != Ascii('*')
    ensures ParseDirective(fmt, i, args, a) == Some(Parsed(PlainSpec, i + 1, a))
    ensures StepAt(fmt, i, args, a, room) == Convert(fmt, Parsed(PlainSpec, i + 1, a), args, room)
  {
  }

  /** A numeric conversion prints the number its argument reads as. */
  lemma NumericConversion(fmt: seq<Byte>, p: Parsed, args: seq<Arg>, room: nat)
    requires p.at < |fmt| && p.nextArg < |args| && room >= 1 && p.spec.hex <= 2
    requires IsNumeric(fmt[p.at]) && args[p.nextArg].Int?
    ensures Convert(fmt, p, args, room)
            == Some(Step(PrintNumber(room, NumberArg(fmt[p.at], p.spec, args[p.nextArg].v)), p.at + 1, p.nextArg + 1))
  {
  }

  /** The number "%p" prints: the pointer as 2 * sizeof(void *) upper-case hex digits, zero padded. */
  lemma PointerNumber(room: nat, v: int)
    requires room >= 2 * PtrSize
    ensures |Digits(Unsigned64(v), 16, true)| <= 2 * PtrSize
    ensures var out := PrintNumber(room, NumberArg(Ascii('p'), PlainSpec, v));
            var ds := Digits(Unsigned64(v), 16, true);
            && |out| == 2 * PtrSize
            && out == Repeat(Digit0, 2 * PtrSize - |ds|) + ds
            && ValueOf(out, 16) == Unsigned64(v)
  {
    var n := NumberArg(Ascii('p'), PlainSpec, v);
    assert n == Number(false, 0, Unsigned64(v), Digit0, 2, 2 * PtrSize);
    DigitsFitTemp(Unsigned64(v), 2);
    NumRoundTrip(room, Unsigned64(v), Digit0, 2, 2 * PtrSize);
  }

  /** "%p" consumes one argument and prints it as PointerNumber says. */
  lemma PointerDirective(fmt: seq<Byte>, i: nat, args: seq<Arg>, a: nat, room: nat, v: int)
    requires i + 1 < |fmt| && fmt[i] == Percent && fmt[i + 1] == Ascii('p')
    requires a < |args| && args[a] == Int(v) && room >= 2 * PtrSize
    ensures StepAt(fmt, i, args, a, room)
            == Some(Step(PrintNumber(room, NumberArg(Ascii('p'), PlainSpec, v)), i + 2, a + 1))
  {
    BareDirective(fmt, i, args, a, room);
    NumericConversion(fmt, Parsed(PlainSpec, i + 1, a), args, room);
  }

  /** The number "%d" prints for a negative int: '-' and the digits of its magnitude. */
  lemma NegativeNumber(room: nat, v: int)
    requires -0x8000_0000 <= v < 0 && room > |Digits(-v, 10, false)|
    ensures PrintNumber(room, NumberArg(Ascii('d'), PlainSpec, v)) == [Minus] + Digits(-v, 10, false)
  {
    assert Signed32(v) == v;
    var n := NumberArg(Ascii('d'), PlainSpec, v);
    assert n == Number(true, v, 0, Space, 0, 0);
    NumRoundTrip(room - 1, -v, Space, 0, 0);
    var out := PrintNumber(room, n);
    assert out == [Minus] + out[1..];
  }

  /** "%d" consumes one argument and prints it as NegativeNumber says. */
  lemma NegativeDecimal(fmt: seq<Byte>, i: nat, args: seq<Arg>, a: nat, room: nat, v: int)
    requires i + 1 < |fmt| && fmt[i] == Percent && fmt[i + 1] == Ascii('d')
    requires a < |args| && args[a] == Int(v) && -0x8000_0000 <= v < 0
    requires room > |Digits(-v, 10, false)|
    ensures StepAt(fmt, i, args, a, room) == Some(Step([Minus] + Digits(-v, 10, false), i + 2, a + 1))
  {
    BareDirective(fmt, i, args, a, room);
    NumericConversion(fmt, Parsed(PlainSpec, i + 1, a), args, room);
    NegativeNumber(room, v);
  }

  /** "%s" of a NUL-terminated string copies it up to the NUL, cut where the room ends. */
  lemma StringDirective(fmt: seq<Byte>, i: nat, args: seq<Arg>, a: nat, room: nat, b: seq<Byte>)
    requires i + 1 < |fmt| && fmt[i] == Percent && fmt[i + 1] == Ascii('s')
    requires a < |args| && args[a] == CStr(b) && NulIndex(b) < |b| && room >= 1
    ensures StepAt(fmt, i, args, a, room) == Some(Step(b[..Min(room, NulIndex(b))], i + 2, a + 1))
  {
    BareDirective(fmt, i, args, a, room);
  }
}
