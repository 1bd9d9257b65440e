/**
 * The percent-decoder `urldecode` (sendfile-fcgi.c:25-59).
 *
 * The C function is a single left-to-right pass with two pieces of loop
 * state: `esc` (0 outside an escape, 1 right after '%', 2 after the first hex
 * digit) and the accumulator `val`. `Step` is one iteration of its loop body,
 * `Run` the whole loop, `Decode` the function's result. `Reference` is an
 * independent, escape-at-a-time definition of the same decoding, and
 * `DecodeIsReference` proves the two agree. `UrlDecode` is the in-place
 * two-pointer loop itself, proved against `Run`.
 */
module Decoder {
  import opened Wrappers
  import opened CStrings

  /** The escape state `esc`. */
  type Esc = e: int | 0 <= e <= 2

  /**
   * The loop state. Only the low 8 bits of `val` are ever emitted
   * (`val & 0xff`), so the accumulator is kept as a byte; `<<` on it drops
   * the bits the C code would carry above bit 7.
   */
  datatype Machine = Machine(esc: Esc, val: bv8)

  const START: Machine := Machine(0, 0)

  /** What the loop emitted, and the state it ended in. */
  datatype Finish = Finish(out: seq<char>, last: Machine)

  /** `isxdigit` in the C locale. */
  predicate IsXDigit(c: char)
  {
    '0' <= c <= '9' || 'a' <= c <= 'f' || 'A' <= c <= 'F'
  }

  /**
   * The number the C code ORs into `val` for a hex digit (:42-47). For a
   * lower-case digit it subtracts 'a' - 'A' and so yields 0x41..0x46, not
   * 10..15.
   */
  function DigitValue(c: char): bv8
    requires IsXDigit(c)
  {
    if c >= 'a' then (c as int - ('a' as int - 'A' as int)) as bv8
    else if c >= 'A' then (c as int - ('A' as int - 10)) as bv8
    else (c as int - '0' as int) as bv8
  }

  /** The byte `val & 0xff` stored through `dst`. */
  function ByteChar(b: bv8): char
  {
    (b as int) as char
  }

  /** One iteration of the loop body (:33-54): the next state and the characters written through `dst`. */
  function Step(m: Machine, c: char): (Machine, seq<char>)
  {
    if m.esc == 0 then
      if c == '%' then (Machine(1, m.val), [])
      else if c == '+' then (m, [' '])
      else (m, [c])
    else if IsXDigit(c) then
      var v := (m.val << 4) | DigitValue(c);
      if m.esc == 2 then (Machine(0, v), [ByteChar(v)])
      else (Machine(2, v), [])
    else
      // :41 has no else: a non-hex byte inside an escape is dropped, the state kept
      (m, [])
  }

  /** The loop `while (*src)` run from state `m` over the characters `s`. */
  function Run(m: Machine, s: seq<char>): (f: Finish)
    ensures |f.out| <= |s|
    decreases |s|
  {
    if s == [] then Finish([], m)
    else
      var (m', e) := Step(m, s[0]);
      var rest := Run(m', s[1..]);
      Finish(e + rest.out, rest.last)
  }

  /** `urldecode`: the decoded text, or None where the C function returns NULL (input ends inside an escape). */
  function Decode(s: seq<char>): (r: Option<seq<char>>)
    ensures r.Some? ==> |r.value| <= |s|
  {
    var f := Run(START, s);
    if f.last.esc == 0 then Some(f.out) else None
  }

  // ---------------------------------------------------------------------------
  // An independent definition: one escape at a time
  // ---------------------------------------------------------------------------

  /** The first hex digit in `s` and what follows it; the non-hex characters before it are skipped. */
  function NextHex(s: seq<char>): (r: Option<(char, seq<char>)>)
    ensures r.Some? ==> IsXDigit(r.value.0) && |r.value.1| < |s|
    ensures r.Some? ==> s[|s| - |r.value.1| - 1] == r.value.0 && r.value.1 == s[|s| - |r.value.1|..]
    ensures r.Some? ==> forall i :: 0 <= i < |s| - |r.value.1| - 1 ==> !IsXDigit(s[i])
    ensures r.None? <==> forall i :: 0 <= i < |s| ==> !IsXDigit(s[i])
  {
    if s == [] then None
    else if IsXDigit(s[0]) then Some((s[0], s[1..]))
    else NextHex(s[1..])
  }

  /** The byte an escape with hex digits `hi` and `lo` stands for: `(hi << 4 | lo) & 0xff`. */
  function EscapeByte(hi: char, lo: char): bv8
    requires IsXDigit(hi) && IsXDigit(lo)
  {
    (DigitValue(hi) << 4) | DigitValue(lo)
  }

  /** The rest of an escape, after its '%': the byte its first two hex digits give, and what follows them. */
  function Escape(s: seq<char>): (r: Option<(bv8, seq<char>)>)
    ensures r.Some? ==> |r.value.1| <= |s| - 2
  {
    match NextHex(s)
    case None => None
    case Some((hi, r1)) =>
      match NextHex(r1)
      case None => None
      case Some((lo, r2)) => Some((EscapeByte(hi, lo), r2))
  }

  /**
   * Decoding read as a grammar: a '%' is followed by two hex digits (anything
   * else in between is ignored) and stands for one byte; '+' stands for a
   * space; every other character stands for itself. A '%' without two hex
   * digits after it makes the whole input malformed.
   */
  function Reference(s: seq<char>): Option<seq<char>>
    decreases |s|
  {
    if s == [] then Some([])
    else if s[0] == '%' then
      match Escape(s[1..])
      case None => None
      case Some((b, r)) =>
        match Reference(r)
        case None => None
        case Some(t) => Some([ByteChar(b)] + t)
    else
      match Reference(s[1..])
      case None => None
      case Some(t) => Some([if s[0] == '+' then ' ' else s[0]] + t)
  }

  /** Inside an escape the machine passes over non-hex characters until the next hex digit. */
  lemma {:induction false} SkipToHex(m: Machine, s: seq<char>)
    requires m.esc != 0
    ensures NextHex(s).None? ==> Run(m, s) == Finish([], m)
    ensures NextHex(s).Some? ==>
              var (h, r) := NextHex(s).value;
              var (m', e) := Step(m, h);
              Run(m, s) == Finish(e + Run(m', r).out, Run(m', r).last)
  {
    if s != [] && !IsXDigit(s[0]) {
      assert Step(m, s[0]) == (m, []);
      assert Run(m, s) == Run(m, s[1..]);
      SkipToHex(m, s[1..]);
    }
  }

  /**
   * The two digit steps of an escape. Two nibble shifts push whatever `val`
   * held before the escape out of the low byte, so the byte emitted depends
   * only on the escape's own digits.
   */
  lemma EscapeSteps(v: bv8, hi: char, lo: char)
    requires IsXDigit(hi) && IsXDigit(lo)
    ensures Step(Machine(1, v), hi) == (Machine(2, (v << 4) | DigitValue(hi)), [])
    ensures Step(Machine(2, (v << 4) | DigitValue(hi)), lo) == (Machine(0, EscapeByte(hi, lo)), [ByteChar(EscapeByte(hi, lo))])
  {
    var x, y := DigitValue(hi), DigitValue(lo);
    assert (((v << 4) | x) << 4) | y == (x << 4) | y;
  }

  /** After a '%' the machine either ends inside the escape or emits the escape's byte and leaves it with `val` equal to that byte. */
  lemma EscapeRun(v: bv8, s: seq<char>)
    ensures Escape(s).None? ==> Run(Machine(1, v), s).last.esc != 0
    ensures Escape(s).Some? ==>
              var (b, r) := Escape(s).value;
              Run(Machine(1, v), s) == Finish([ByteChar(b)] + Run(Machine(0, b), r).out, Run(Machine(0, b), r).last)
  {
    var m1 := Machine(1, v);
    SkipToHex(m1, s);
    if NextHex(s).Some? {
      var (hi, r1) := NextHex(s).value;
      var m2 := Machine(2, (v << 4) | DigitValue(hi));
      SkipToHex(m2, r1);
      if NextHex(r1).Some? {
        var (lo, r2) := NextHex(r1).value;
        EscapeSteps(v, hi, lo);
      } else {
        EscapeSteps(v, hi, hi);
      }
    }
  }

  /** Started outside an escape, with any accumulator, the machine decodes exactly as `Reference` does. */
  lemma {:induction false} RunAgreesWithReference(v: bv8, s: seq<char>)
    ensures Run(Machine(0, v), s).last.esc == 0 <==> Reference(s).Some?
    ensures Reference(s).Some? ==> Run(Machine(0, v), s).out == Reference(s).value
    decreases |s|
  {
    if s == [] {
    } else if s[0] == '%' {
      assert Run(Machine(0, v), s) == Run(Machine(1, v), s[1..]);
      EscapeRun(v, s[1..]);
      match Escape(s[1..])
      case None =>
      case Some((b, r)) =>
        RunAgreesWithReference(b, r);
    } else {
      RunAgreesWithReference(v, s[1..]);
    }
  }

  /** Outside an escape, text without '%' or '+' is copied as it is and leaves the state alone. */
  lemma {:induction false} RunPlain(m: Machine, s: seq<char>)
    requires m.esc == 0
    requires forall i :: 0 <= i < |s| ==> s[i] != '%' && s[i] != '+'
    ensures Run(m, s) == Finish(s, m)
    ensures m == START ==> Decode(s) == Some(s)
    decreases |s|
  {
    if s != [] {
      assert Step(m, s[0]) == (m, [s[0]]);
      RunPlain(m, s[1..]);
      assert [s[0]] + s[1..] == s;
    }
  }

  /** `urldecode` decodes by the grammar of `Reference`, and returns NULL exactly where that grammar fails. */
  lemma DecodeIsReference(s: seq<char>)
    ensures Decode(s) == Reference(s)
  {
    RunAgreesWithReference(0, s);
  }

  // ---------------------------------------------------------------------------
  // What an escape stands for
  // ---------------------------------------------------------------------------

  /** The digit that spells `x` in upper-case hexadecimal: 0-9, then A-F. */
  function HexDigit(x: nat): char
    requires x < 16
  {
    if x < 10 then ('0' as int + x) as char else ('A' as int + (x - 10)) as char
  }

  /** The lower-case digit 'a'..'f' that spells 10 + `y`. */
  function LowerDigit(y: nat): char
    requires y < 6
  {
    ('a' as int + y) as char
  }

  /** A decimal or upper-case hex digit adds its own value to `val`. */
  lemma UpperDigitValue(x: nat)
    requires x < 16
    ensures IsXDigit(HexDigit(x)) && DigitValue(HexDigit(x)) == x as bv8
    ensures DigitValue(HexDigit(x)) as int == x
  {
    var c := HexDigit(x);
    if x < 10 {
      assert c as int == '0' as int + x;
    } else {
      assert c as int == 'A' as int + (x - 10);
    }
    NibbleByte(x);
  }

  /** `%` followed by the digits of `x` and `y` (0-9, A-F) stands for the byte `16 * x + y`. */
  lemma EscapeByteIsHexValue(x: nat, y: nat)
    requires x < 16 && y < 16
    ensures EscapeByte(HexDigit(x), HexDigit(y)) as int == 16 * x + y
  {
    UpperDigitValue(x);
    UpperDigitValue(y);
    Nibbles(x as bv8, y as bv8);
  }

  /** A lower-case digit adds 0x41..0x46 to `val`, where its value is 10..15. */
  lemma LowercaseDigitValue(y: nat)
    requires y < 6
    ensures IsXDigit(LowerDigit(y)) && DigitValue(LowerDigit(y)) == (0x41 + y) as bv8
    ensures DigitValue(LowerDigit(y)) as int == 0x41 + y
  {
    assert LowerDigit(y) as int == 'a' as int + y;
    LetterByte(0x41 + y);
  }

  /** The number a hex digit spells, in either case: what a correct decoder would add. */
  function HexValue(c: char): (v: nat)
    requires IsXDigit(c)
    ensures v < 16
  {
    if 'a' <= c <= 'f' then c as int - 'a' as int + 10
    else if 'A' <= c <= 'F' then c as int - 'A' as int + 10
    else c as int - '0' as int
  }

  /** With a lower-case second digit, the low nibble of the byte is 1..6 instead of 10..15. */
  lemma LowercaseLowNibble(hi: char, y: nat)
    requires IsXDigit(hi) && y < 6
    ensures EscapeByte(hi, LowerDigit(y)) as int % 16 == 1 + y
  {
    LowercaseDigitValue(y);
    LowNibble(DigitValue(hi), (0x41 + y) as bv8);
  }

  /** An escape whose second digit is lower-case never stands for the byte its digits spell. */
  lemma LowercaseEscapeIsMisread(hi: char, y: nat)
    requires IsXDigit(hi) && y < 6
    ensures EscapeByte(hi, LowerDigit(y)) as int != 16 * HexValue(hi) + 10 + y
  {
    LowercaseLowNibble(hi, y);
    ModSixteen(HexValue(hi), 10 + y);
  }

  /** A lower-case first digit a-f counts as 1..6, not 10..15: the 0x40 it carries is shifted out. */
  lemma LowercaseFirstDigit(y: nat, x: nat)
    requires y < 6 && x < 16
    ensures EscapeByte(LowerDigit(y), HexDigit(x)) as int == 16 * (1 + y) + x
  {
    LowercaseDigitValue(y);
    UpperDigitValue(x);
    LetterShift((0x41 + y) as bv8, x as bv8);
  }

  /** Shifting a code 'A'..'F' left by four keeps only its low nibble. */
  lemma LetterShift(b: bv8, lo: bv8)
    requires 0x41 <= b < 0x47 && lo < 16
    ensures ((b << 4) | lo) as int == 16 * (b as int - 0x40) + lo as int
  {
    assert (b << 4) | lo == ((b - 0x40) << 4) | lo;
    Nibbles(b - 0x40, lo);
  }

  /** The remainder of `16 * x + r` by 16, for `r` below 16. */
  lemma ModSixteen(x: nat, r: nat)
    requires r < 16
    ensures (16 * x + r) % 16 == r
  {
  }

  /** A digit's value read back from its byte. */
  lemma NibbleByte(n: int)
    requires 0 <= n < 16
    ensures (n as bv8) as int == n
  {
  }

  /** A code 'A'..'F' read back from its byte. */
  lemma LetterByte(n: int)
    requires 0x41 <= n < 0x47
    ensures (n as bv8) as int == n
  {
  }

  /** Two nibbles put together: the high one counts sixteen times. */
  lemma Nibbles(hi: bv8, lo: bv8)
    requires hi < 16 && lo < 16
    ensures ((hi << 4) | lo) as int == hi as int * 16 + lo as int
  {
  }

  /** The low four bits of `(a << 4) | b` are those of `b`. */
  lemma LowNibble(a: bv8, b: bv8)
    ensures ((a << 4) | b) as int % 16 == b as int % 16
  {
  }

  /**
   * The loop streams: running over `a + b` is running over `a` and then over
   * `b` from the state `a` left behind.
   */
  lemma {:induction false} RunAppend(m: Machine, a: seq<char>, b: seq<char>)
    ensures var f := Run(m, a);
            var g := Run(f.last, b);
            Run(m, a + b) == Finish(f.out + g.out, g.last)
    decreases |a|
  {
    if a == [] {
      assert a + b == b;
    } else {
      var (m', e) := Step(m, a[0]);
      assert (a + b)[0] == a[0] && (a + b)[1..] == a[1..] + b;
      RunAppend(m', a[1..], b);
      var f := Run(m', a[1..]);
      var g := Run(f.last, b);
      assert e + (f.out + g.out) == (e + f.out) + g.out;
    }
  }

  /** Running the machine over one more character: the loop's invariant read from the left. */
  lemma {:induction false} RunSnoc(m: Machine, s: seq<char>, c: char)
    ensures var f := Run(m, s);
            Run(m, s + [c]) == Finish(f.out + Step(f.last, c).1, Step(f.last, c).0)
    decreases |s|
  {
    if s == [] {
      assert [c][1..] == [];
    } else {
      var (m', e) := Step(m, s[0]);
      assert (s + [c])[1..] == s[1..] + [c];
      RunSnoc(m', s[1..], c);
      var f := Run(m', s[1..]);
      assert e + (f.out + Step(f.last, c).1) == (e + f.out) + Step(f.last, c).1;
    }
  }

  // ---------------------------------------------------------------------------
  // The in-place loop
  // ---------------------------------------------------------------------------

  /**
   * The branches of one turn of the loop (:33-54): the new `esc` and `val`,
   * and whether a character `x` is stored through `dst`.
   */
  method Turn(esc: Esc, val: bv8, c: char) returns (esc': Esc, val': bv8, put: bool, x: char)
    ensures Step(Machine(esc, val), c) == (Machine(esc', val'), if put then [x] else [])
  {
    esc', val', put, x := esc, val, false, c;
    if esc == 0 {
      if c == '%' {
        esc' := 1;
      } else if c == '+' {
        put, x := true, ' ';
      } else {
        put := true;
      }
    } else if IsXDigit(c) {
      val' := (val << 4) | DigitValue(c);
      if esc == 2 {
        put, x := true, ByteChar(val');
        esc' := 0;
      } else {
        esc' := esc + 1;
      }
    }
  }

  /**
   * The loop `while (*src)` of `urldecode` (:32-55) over the C string
   * `buf[start..start + n]`: it stores the decoded characters from `start` up
   * to `dst` and ends in state `m`. Every store lies at or behind the
   * character being read (`dst <= src`), so the loop never overwrites input
   * it has yet to read.
   */
  method Transcribe(buf: array<char>, start: nat, ghost n: nat) returns (dst: nat, m: Machine)
    requires start + n < buf.Length && buf[start + n] == NUL
    requires forall j :: start <= j < start + n ==> buf[j] != NUL
    modifies buf
    ensures start <= dst <= start + n
    ensures Run(START, old(buf[start..start + n])) == Finish(buf[start..dst], m)
    ensures forall i :: 0 <= i < start ==> buf[i] == old(buf[i])
    ensures forall i :: dst <= i < buf.Length ==> buf[i] == old(buf[i])
  {
    ghost var orig := buf[..];
    assert orig[start + n] == NUL;
    var src := start;
    dst := start;
    var esc: Esc, val: bv8 := 0, 0;
    ghost var done: seq<char> := [];
    while buf[src] != NUL
      invariant start <= dst <= src <= start + n
      invariant dst == start + |done|
      invariant forall i :: 0 <= i < start ==> buf[i] == orig[i]
      invariant forall i :: start <= i < dst ==> buf[i] == done[i - start]
      invariant forall i :: dst <= i < buf.Length ==> buf[i] == orig[i]
      invariant Run(START, orig[start..src]) == Finish(done, Machine(esc, val))
      decreases start + n - src
    {
      var c := buf[src];
      assert c == orig[src] && src != start + n;
      RunSnoc(START, orig[start..src], c);
      assert orig[start..src + 1] == orig[start..src] + [c];
      src := src + 1;
      var put, x;
      esc, val, put, x := Turn(esc, val, c);
      if put {
        buf[dst] := x;
        dst := dst + 1;
        done := done + [x];
      }
    }
    assert src == start + n;
    assert old(buf[start..start + n]) == orig[start..src];
    assert buf[start..dst] == done;
    m := Machine(esc, val);
  }

  /**
   * `urldecode(buf + start)`: decodes, in place, the C string that starts at
   * `start`, and ends the result with a NUL at `*dst`. `ok` is false where the
   * C function returns NULL; `len` is the length of the decoded string.
   */
  method UrlDecode(buf: array<char>, start: nat) returns (ok: bool, len: nat)
    requires start < buf.Length && NUL in buf[start..]
    modifies buf
    ensures var token := CStr(old(buf[start..]));
            && start + |token| < buf.Length && len <= |token|
            && Run(START, token).out == buf[start..start + len]
            && ok == (Run(START, token).last.esc == 0)
    ensures start + len < buf.Length && buf[start + len] == NUL
    ensures Decode(CStr(old(buf[start..]))) == if ok then Some(buf[start..start + len]) else None
    ensures forall i :: 0 <= i < start ==> buf[i] == old(buf[i])
    ensures forall i :: start + len < i < buf.Length ==> buf[i] == old(buf[i])
  {
    ghost var n := Terminator(buf[..], start);
    assert buf[start..] == buf[..][start..];
    ghost var token := buf[start..start + n];
    var dst, m := Transcribe(buf, start, n);
    ghost var out := buf[start..dst];
    buf[dst] := NUL;
    assert buf[start..dst] == out;
    ok := m.esc == 0;
    len := dst - start;
  }
}
