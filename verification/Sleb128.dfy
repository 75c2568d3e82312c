/** The SLEB128 decoder of xh_elf.c and the encoding that it reads (section 7.6 of DWARF Version 5). */
module Sleb128 {
  import opened Arithmetic
  import opened Errno
  import opened Words
  import opened Wrappers

  /** The number that a sequence of bytes, low digits first, stands for. */
  function SlebValue(s: seq<byte>): int
    requires s != []
  {
    if |s| == 1 then (if s[0] % 128 < 64 then s[0] % 128 else s[0] % 128 - 128)
    else s[0] % 128 + 128 * SlebValue(s[1..])
  }

  /** The encoding of a number, without redundant bytes. */
  function Encode(v: int): (s: seq<byte>)
    ensures s != []
    decreases if v < 0 then -v else v
  {
    var low, rest := v % 128, v / 128;
    if (rest == 0 && low < 64) || (rest == -1 && low >= 64) then [low] else [low + 128] + Encode(rest)
  }

  /** Where the encoding that starts at `cur` ends: behind the first byte with its high bit clear. */
  function EndOf(data: seq<byte>, cur: nat): (end: Option<nat>)
    requires cur <= |data|
    ensures end.Some? ==> cur < end.value <= |data| && data[end.value - 1] < 128
    ensures end.Some? ==> forall k :: cur <= k < end.value - 1 ==> data[k] >= 128
    ensures end.None? ==> forall k :: cur <= k < |data| ==> data[k] >= 128
    decreases |data| - cur
  {
    if cur == |data| then None
    else if data[cur] < 128 then Some(cur + 1)
    else EndOf(data, cur + 1)
  }

  /** What decoding at `cur` should give: the value as a word, and the position behind the encoding. */
  function Decoded(data: seq<byte>, cur: nat, bits: nat): Option<(nat, nat)>
    requires cur <= |data|
  {
    match EndOf(data, cur)
    case None => None
    case Some(end) => Some((Wrap(SlebValue(data[cur..end]), bits), end))
  }

  // ----- digits

  /** The seven-bit digits, added up. */
  function Digits(s: seq<byte>): (d: nat)
  {
    if s == [] then 0 else Digits(s[..|s| - 1]) + (s[|s| - 1] % 128) * Pow2(7 * (|s| - 1))
  }

  lemma Pow2Seven(n: nat)
    ensures Pow2(7 * (n + 1)) == 128 * Pow2(7 * n)
  {
    Pow2Sum(7, 7 * n);
    Pow2Values();
  }

  lemma {:induction false} DigitsBelow(s: seq<byte>)
    ensures Digits(s) < Pow2(7 * |s|)
  {
    if s != [] {
      DigitsBelow(s[..|s| - 1]);
      Pow2Seven(|s| - 1);
      BelowProduct(Digits(s[..|s| - 1]), s[|s| - 1] % 128, Pow2(7 * (|s| - 1)), 128);
    }
  }

  lemma {:induction false} DigitsFront(s: seq<byte>)
    requires s != []
    ensures Digits(s) == s[0] % 128 + 128 * Digits(s[1..])
  {
    var front, last := s[..|s| - 1], s[|s| - 1];
    if |s| == 1 {
      assert Pow2(0) == 1;
    } else {
      DigitsFront(front);
      assert s[1..][..|s[1..]| - 1] == front[1..];
      Pow2Seven(|s| - 2);
      var p := Pow2(7 * (|s| - 2));
      assert (last % 128) * (128 * p) == 128 * ((last % 128) * p);
    }
  }

  /** The signed value is the sum of the digits, less the weight of the digit behind them if the sign bit is set. */
  lemma {:induction false} ValueOfDigits(s: seq<byte>)
    requires s != []
    ensures SlebValue(s) == Digits(s) - (if s[|s| - 1] % 128 < 64 then 0 else Pow2(7 * |s|))
  {
    DigitsFront(s);
    if |s| == 1 {
      Pow2Seven(0);
      assert Digits(s[1..]) == 0;
    } else {
      ValueOfDigits(s[1..]);
      Pow2Seven(|s| - 1);
    }
  }

  /** OR-ing a digit into the bits above a sum is adding it, in a word. */
  lemma OrDigit(sum: nat, d: int, shift: nat, bits: nat)
    requires sum < Pow2(shift)
    ensures Or(Wrap(sum, bits), Wrap(d * Pow2(shift), bits)) == Wrap(sum + d * Pow2(shift), bits)
  {
    if shift >= bits {
      DigitBeyondWord(sum, d, shift, bits);
    } else {
      var q, p := Pow2(bits - shift), Pow2(shift);
      Pow2Sum(bits - shift, shift);
      DigitInWord(sum, d, p, q);
      BelowProduct(sum, d % q, p, q);
      OrIsSum(sum, shift, d % q);
    }
  }

  lemma DigitBeyondWord(sum: nat, d: int, shift: nat, bits: nat)
    requires shift >= bits
    ensures Wrap(d * Pow2(shift), bits) == 0 && Wrap(sum + d * Pow2(shift), bits) == Wrap(sum, bits)
  {
    Pow2Sum(shift - bits, bits);
    var q := Pow2(shift - bits);
    SplitProduct(d, q, 0, Pow2(bits));
    WrapMultiple(0, d * q, bits);
    WrapMultiple(sum, d * q, bits);
  }

  lemma DigitInWord(sum: nat, d: int, p: int, q: int)
    requires sum < p && q > 0
    ensures q * p > 0 && sum % (q * p) == sum
    ensures (d * p) % (q * p) == (d % q) * p && (sum + d * p) % (q * p) == sum + (d % q) * p
  {
    var e, r := d / q, d % q;
    SplitProduct(e, q, r, p);
    BelowProduct(sum, r, p, q);
    BelowProduct(sum, 0, p, q);
    ModUnique(sum, 0, sum, q * p);
    ModUnique(d * p, e, r * p, q * p);
    ModUnique(sum + d * p, e, sum + r * p, q * p);
  }

  /** One turn of the loop. */
  lemma {:induction false} AddDigit(s: seq<byte>, b: byte, bits: nat)
    ensures Or(Wrap(Digits(s), bits), Wrap((b % 128) * Pow2(7 * |s|), bits)) == Wrap(Digits(s + [b]), bits)
  {
    DigitsOfOneMore(s, b);
    DigitsBelow(s);
    OrDigit(Digits(s), b % 128, 7 * |s|, bits);
  }

  lemma DigitsOfOneMore(s: seq<byte>, b: byte)
    ensures Digits(s + [b]) == Digits(s) + (b % 128) * Pow2(7 * |s|)
  {
    assert (s + [b])[..|s|] == s;
  }

  lemma AddByte(data: seq<byte>, start: nat, cur: nat, bits: nat, value: nat, b: byte, shift: nat)
    requires start < cur <= |data| && b == data[cur - 1] && shift == 7 * (cur - 1 - start)
    requires value == Wrap(Digits(data[start..cur - 1]), bits)
    ensures Or(value, Wrap((b % 128) * Pow2(shift), bits)) == Wrap(Digits(data[start..cur]), bits)
  {
    assert data[start..cur] == data[start..cur - 1] + [b];
    AddDigit(data[start..cur - 1], b, bits);
  }

  /** The sign extension behind the loop. */
  lemma ExtendSign(s: seq<byte>, bits: nat)
    requires s != []
    ensures Wrap(SlebValue(s), bits) ==
      if 7 * |s| < bits && s[|s| - 1] % 128 >= 64 then Or(Wrap(Digits(s), bits), Wrap(-Pow2(7 * |s|), bits))
      else Wrap(Digits(s), bits)
  {
    ValueOfDigits(s);
    DigitsBelow(s);
    OrDigit(Digits(s), -1, 7 * |s|, bits);
    if 7 * |s| >= bits {
      DigitBeyondWord(Digits(s), -1, 7 * |s|, bits);
    }
  }

  // ----- the decoder

  class Decoder {
    const data: seq<byte>
    const bits: nat   // the width of size_t
    var cur: nat

    constructor (data: seq<byte>, bits: nat)
      ensures this.data == data && this.bits == bits && cur == 0
    {
      this.data, this.bits, cur := data, bits, 0;
    }

    /** Reads one number, or reports a format error when the bytes run out. */
    method Next() returns (r: int, value: nat)
      requires cur <= |data|
      modifies this
      ensures cur <= |data|
      ensures match Decoded(data, old(cur), bits)
              case Some((v, end)) => r == 0 && value == v && cur == end
              case None => r == XH_ERRNO_FORMAT && cur == |data|
    {
      ghost var start := cur;
      var shift, b;
      r, value, shift, b := NextDigits();
      if r != 0 { return; }
      ExtendSign(data[start..cur], bits);
      if shift < bits && b % 128 >= 64 {
        value := Or(value, Wrap(-Pow2(shift), bits));
      }
    }

    /** The loop over the digits; `b` is the last byte, and `shift` the weight of the digit that would be next. */
    method NextDigits() returns (r: int, value: nat, shift: nat, b: byte)
      requires cur <= |data|
      modifies this
      ensures old(cur) <= cur <= |data|
      ensures match EndOf(data, old(cur))
              case Some(end) =>
                r == 0 && cur == end > old(cur) && value == Wrap(Digits(data[old(cur)..cur]), bits)
                && shift == 7 * (cur - old(cur)) && b == data[cur - 1]
              case None => r == XH_ERRNO_FORMAT && cur == |data|
    {
      ghost var start := cur;
      value, shift, b := 0, 0, 128;
      ModUnique(0, 0, 0, Pow2(bits));
      assert data[start..start] == [];
      while b >= 128
        invariant start <= cur <= |data|
        invariant shift == 7 * (cur - start)
        invariant value == Wrap(Digits(data[start..cur]), bits)
        invariant if b >= 128 then EndOf(data, start) == EndOf(data, cur)
                  else start < cur && b == data[cur - 1] && EndOf(data, start) == Some(cur)
        decreases b >= 128, |data| - cur
      {
        if cur >= |data| {
          return XH_ERRNO_FORMAT, 0, 0, 0;
        }
        b := data[cur];
        cur := cur + 1;
        AddByte(data, start, cur, bits, value, b, shift);
        value := Or(value, Wrap((b % 128) * Pow2(shift), bits));
        shift := shift + 7;
      }
      r := 0;
    }
  }

  // ----- decoding undoes encoding

  lemma {:induction false} EncodeValue(v: int)
    ensures SlebValue(Encode(v)) == v
    ensures forall k :: 0 <= k < |Encode(v)| ==> (Encode(v)[k] < 128 <==> k == |Encode(v)| - 1)
    decreases if v < 0 then -v else v
  {
    var low, rest := v % 128, v / 128;
    if !((rest == 0 && low < 64) || (rest == -1 && low >= 64)) {
      EncodeValue(rest);
      assert Encode(v)[1..] == Encode(rest);
    }
  }

  /** The examples of section 7.6 of DWARF Version 5. */
  lemma Examples()
    ensures Encode(2) == [2] && Encode(-2) == [0x7e]
    ensures Encode(127) == [0xff, 0] && Encode(-127) == [0x81, 0x7f]
    ensures Encode(128) == [0x80, 1] && Encode(-128) == [0x80, 0x7f]
    ensures Encode(129) == [0x81, 1] && Encode(-129) == [0xff, 0x7e]
  {
  }

  lemma {:induction false} EndOfEncoding(data: seq<byte>, cur: nat, end: nat)
    requires cur < end <= |data| && data[end - 1] < 128 && forall k :: cur <= k < end - 1 ==> data[k] >= 128
    ensures EndOf(data, cur) == Some(end)
    decreases end - cur
  {
    if cur != end - 1 {
      EndOfEncoding(data, cur + 1, end);
    }
  }

  /** Wherever the encoding of `v` stands in the data, decoding there gives `v` modulo 2^bits and stops behind it. */
  lemma DecodeUndoesEncode(before: seq<byte>, v: int, after: seq<byte>, bits: nat)
    ensures Decoded(before + Encode(v) + after, |before|, bits) == Some((Wrap(v, bits), |before| + |Encode(v)|))
  {
    var data := before + Encode(v) + after;
    var end := |before| + |Encode(v)|;
    EncodeValue(v);
    assert data[|before|..end] == Encode(v);
    assert forall k :: |before| <= k < end ==> data[k] == Encode(v)[k - |before|];
    EndOfEncoding(data, |before|, end);
  }

  /** The encoding of a word-sized number is short enough for every shift of the decoder to be below the word size. */
  lemma {:induction false} EncodingIsShort(v: int, n: nat)
    requires -Pow2(7 * n) <= 2 * v < Pow2(7 * n) && n > 0
    ensures |Encode(v)| <= n
    decreases n
  {
    var low, rest := v % 128, v / 128;
    if n == 1 {
      Pow2Seven(0);
    } else {
      Pow2Seven(n - 1);
      Pow2Seven(n - 2);
      if !((rest == 0 && low < 64) || (rest == -1 && low >= 64)) {
        EncodingIsShort(rest, n - 1);
      }
    }
  }

  lemma NoShiftTooFar(v: int, bits: nat)
    requires bits > 0 && -Pow2(bits) <= 2 * v < Pow2(bits)
    ensures 7 * (|Encode(v)| - 1) < bits
  {
    var n := (bits + 6) / 7;
    Pow2Monotonic(bits, 7 * n);
    EncodingIsShort(v, n);
  }
}
