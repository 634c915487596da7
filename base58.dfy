/**
 * Base58 and Base58Check, the text encoding of legacy addresses. The
 * checksum is the first four bytes of SHA-256 applied twice; SHA-256 itself
 * is a parameter. Decoding is defined next to encoding so that the round
 * trip can be stated.
 */
module Base58 {
  import opened Wrappers
  import opened Bytes

  /** A SHA-256 digest. */
  type Digest = s: seq<byte> | |s| == 32 witness Zeros(32)

  /** Base58Check's checksum of data. */
  function Checksum(sha256: seq<byte> -> Digest, data: seq<byte>): (r: seq<byte>)
    ensures |r| == 4
  {
    sha256(sha256(data))[..4]
  }

  // ---------------------------------------------------------------------
  // Positional numerals

  predicate IsDigits(ds: seq<int>, base: int) {
    forall k :: 0 <= k < |ds| ==> 0 <= ds[k] < base
  }

  /** The value of the big-endian numeral ds. */
  function FromDigits(ds: seq<int>, base: nat): (n: int)
    ensures IsDigits(ds, base) ==> n >= 0
  {
    if ds == [] then 0 else FromDigits(ds[..|ds| - 1], base) * base + ds[|ds| - 1]
  }

  /** The big-endian numeral of n, with no leading zero digit (no digit at all for 0). */
  function ToDigits(n: nat, base: nat): (ds: seq<int>)
    requires base >= 2
    ensures IsDigits(ds, base)
    ensures ds != [] ==> ds[0] != 0
    ensures FromDigits(ds, base) == n
    decreases n
  {
    if n == 0 then []
    else
      DivMod(n, base);
      var high := ToDigits(n / base, base);
      var ds := high + [n % base];
      assert ds[..|ds| - 1] == high;
      assert FromDigits(ds, base) == FromDigits(high, base) * base + n % base;
      assert high == [] ==> ds[0] == n;
      assert high != [] ==> ds[0] == high[0];
      ds
  }

  lemma DivMod(n: nat, base: nat)
    requires base >= 2
    ensures n == (n / base) * base + n % base
    ensures 0 <= n % base < base
    ensures n > 0 ==> n / base < n
    ensures n / base == 0 ==> n % base == n
  {
  }

  lemma MulAtLeast(d: int, base: nat)
    requires base >= 1 && d > 0
    ensures d * base >= base
  {
  }

  lemma MulSub(a: int, b: int, c: int)
    ensures a * c - b * c == (a - b) * c
  {
  }

  lemma DivModUnique(q: nat, r: nat, base: nat)
    requires 2 <= base && r < base
    ensures (q * base + r) / base == q && (q * base + r) % base == r
  {
    var n := q * base + r;
    DivMod(n, base);
    var d := n / base - q;
    MulSub(n / base, q, base);
    assert d * base == r - n % base;
    if d > 0 {
      MulAtLeast(d, base);
    } else if d < 0 {
      MulAtLeast(-d, base);
    }
  }

  lemma {:induction false} FromDigitsPositive(ds: seq<int>, base: nat)
    requires base >= 1 && IsDigits(ds, base) && ds != [] && ds[0] != 0
    ensures FromDigits(ds, base) > 0
  {
    var init := ds[..|ds| - 1];
    if init != [] {
      assert init[0] == ds[0];
      assert IsDigits(init, base);
      FromDigitsPositive(init, base);
    }
  }

  /** A numeral without leading zeros is the numeral of its value. */
  lemma {:induction false} ToDigitsFromDigits(ds: seq<int>, base: nat)
    requires base >= 2 && IsDigits(ds, base) && (ds == [] || ds[0] != 0)
    ensures ToDigits(FromDigits(ds, base), base) == ds
  {
    if ds != [] {
      var init, last := ds[..|ds| - 1], ds[|ds| - 1];
      assert ds == init + [last];
      assert IsDigits(init, base);
      var q: nat := FromDigits(init, base);
      var n: nat := FromDigits(ds, base);
      assert n == q * base + last;
      assert n > 0 by {
        FromDigitsPositive(ds, base);
      }
      assert n / base == q && n % base == last by {
        DivModUnique(q, last, base);
      }
      assert ToDigits(n, base) == ToDigits(n / base, base) + [n % base];
      assert ToDigits(q, base) == init by {
        if init != [] {
          assert init[0] == ds[0];
        }
        ToDigitsFromDigits(init, base);
      }
    }
  }

  /** Leading zero digits do not change a numeral's value. */
  lemma {:induction false} FromDigitsZeroPrefix(ds: seq<int>, base: nat)
    ensures FromDigits([0] + ds, base) == FromDigits(ds, base)
  {
    if ds != [] {
      var init := ds[..|ds| - 1];
      assert ([0] + ds)[..|ds|] == [0] + init;
      FromDigitsZeroPrefix(init, base);
    }
  }

  lemma {:induction false} FromDigitsZerosPrefix(z: nat, ds: seq<int>, base: nat)
    ensures FromDigits(Zeros(z) + ds, base) == FromDigits(ds, base)
  {
    if z > 0 {
      var tail: seq<int> := Zeros(z - 1) + ds;
      assert Zeros(z) == [0] + Zeros(z - 1);
      assert Zeros(z) + ds == [0] + tail;
      FromDigitsZeroPrefix(tail, base);
      FromDigitsZerosPrefix(z - 1, ds, base);
    } else {
      assert Zeros(z) + ds == ds;
    }
  }

  /** The number of leading zero bytes. */
  function LeadingZeros(s: seq<byte>): (z: nat)
    ensures z <= |s|
  {
    if s == [] || s[0] != 0 then 0 else 1 + LeadingZeros(s[1..])
  }

  /** A byte string is its leading zeros followed by a part that starts with a non-zero byte. */
  lemma {:induction false} LeadingZerosSplit(s: seq<byte>)
    ensures s == Zeros(LeadingZeros(s)) + s[LeadingZeros(s)..]
    ensures LeadingZeros(s) < |s| ==> s[LeadingZeros(s)] != 0
  {
    if s != [] && s[0] == 0 {
      var z := LeadingZeros(s[1..]);
      LeadingZerosSplit(s[1..]);
      assert LeadingZeros(s) == z + 1;
      assert s[z + 1..] == s[1..][z..];
      assert Zeros(z + 1) == [0] + Zeros(z);
      assert s == [0] + s[1..];
    }
  }

  /** The big-endian bytes of n, without leading zero bytes. */
  function BytesOf(n: nat): (r: seq<byte>)
    ensures r != [] ==> r[0] != 0
  {
    ToDigits(n, 256)
  }

  // ---------------------------------------------------------------------
  // The alphabet 123456789ABCDEFGHJKLMNPQRSTUVWXYZabcdefghijkmnopqrstuvwxyz

  /** The character of digit d: the alphabet leaves out 0, I, O and l. */
  function DigitChar(d: int): char
    requires 0 <= d < 58
  {
    if d < 9 then ('1' as int + d) as char
    else if d < 17 then ('A' as int + d - 9) as char
    else if d < 22 then ('J' as int + d - 17) as char
    else if d < 33 then ('P' as int + d - 22) as char
    else if d < 44 then ('a' as int + d - 33) as char
    else ('m' as int + d - 44) as char
  }

  /** The digit a character stands for, if it belongs to the alphabet. */
  function DigitValue(c: char): Option<int>
  {
    if '1' <= c <= '9' then Some(c as int - '1' as int)
    else if 'A' <= c <= 'H' then Some(c as int - 'A' as int + 9)
    else if 'J' <= c <= 'N' then Some(c as int - 'J' as int + 17)
    else if 'P' <= c <= 'Z' then Some(c as int - 'P' as int + 22)
    else if 'a' <= c <= 'k' then Some(c as int - 'a' as int + 33)
    else if 'm' <= c <= 'z' then Some(c as int - 'm' as int + 44)
    else None
  }

  lemma DigitValueOfChar(d: int)
    requires 0 <= d < 58
    ensures DigitValue(DigitChar(d)) == Some(d)
    ensures DigitChar(d) == '1' <==> d == 0
  {
  }

  function DigitsToChars(ds: seq<int>): (s: string)
    requires IsDigits(ds, 58)
    ensures |s| == |ds|
  {
    if ds == [] then "" else [DigitChar(ds[0])] + DigitsToChars(ds[1..])
  }

  function CharsToDigits(s: string): (r: Option<seq<int>>)
    ensures r.Some? ==> IsDigits(r.value, 58)
  {
    if s == [] then Some([])
    else
      match DigitValue(s[0])
      case None => None
      case Some(d) =>
        match CharsToDigits(s[1..])
        case None => None
        case Some(ds) => if 0 <= d < 58 then Some([d] + ds) else None
  }

  lemma {:induction false} CharsToDigitsToChars(ds: seq<int>)
    requires IsDigits(ds, 58)
    ensures CharsToDigits(DigitsToChars(ds)) == Some(ds)
  {
    if ds != [] {
      var s := DigitsToChars(ds);
      assert s[0] == DigitChar(ds[0]) && s[1..] == DigitsToChars(ds[1..]);
      assert DigitValue(s[0]) == Some(ds[0]) by {
        DigitValueOfChar(ds[0]);
      }
      assert CharsToDigits(s[1..]) == Some(ds[1..]) by {
        assert IsDigits(ds[1..], 58);
        CharsToDigitsToChars(ds[1..]);
      }
      assert ds == [ds[0]] + ds[1..];
    }
  }

  /** Every character of the alphabet is the character of its own digit. */
  lemma CharOfValue(c: char)
    requires DigitValue(c).Some?
    ensures 0 <= DigitValue(c).value < 58 && DigitChar(DigitValue(c).value) == c
    ensures DigitValue(c).value == 0 <==> c == '1'
  {
  }

  lemma {:induction false} DigitsToCharsOfCharsToDigits(s: string)
    requires CharsToDigits(s).Some?
    ensures DigitsToChars(CharsToDigits(s).value) == s
    ensures s != [] ==> (CharsToDigits(s).value[0] == 0 <==> s[0] == '1')
  {
    if s != [] {
      CharOfValue(s[0]);
      DigitsToCharsOfCharsToDigits(s[1..]);
      assert s == [s[0]] + s[1..];
    }
  }

  /** n copies of '1', the character of digit zero. */
  function Ones(n: nat): (s: string)
    ensures |s| == n
  {
    if n == 0 then "" else "1" + Ones(n - 1)
  }

  function LeadingOnes(s: string): (z: nat)
    ensures z <= |s|
  {
    if s == [] || s[0] != '1' then 0 else 1 + LeadingOnes(s[1..])
  }

  lemma {:induction false} LeadingOnesPrefix(n: nat, t: string)
    requires t == [] || t[0] != '1'
    ensures LeadingOnes(Ones(n) + t) == n
    ensures (Ones(n) + t)[n..] == t
  {
    if n > 0 {
      assert (Ones(n) + t)[1..] == Ones(n - 1) + t;
      LeadingOnesPrefix(n - 1, t);
    }
  }

  /** A string is its leading '1's followed by a part that does not start with '1'. */
  lemma {:induction false} LeadingOnesSplit(s: string)
    ensures s == Ones(LeadingOnes(s)) + s[LeadingOnes(s)..]
    ensures LeadingOnes(s) < |s| ==> s[LeadingOnes(s)] != '1'
  {
    if s != [] && s[0] == '1' {
      var z := LeadingOnes(s[1..]);
      LeadingOnesSplit(s[1..]);
      assert LeadingOnes(s) == z + 1;
      assert s[z + 1..] == s[1..][z..];
      assert Ones(z + 1) == "1" + Ones(z);
      assert s == "1" + s[1..];
    }
  }

  /** z zero bytes before a part that does not start with zero are its leading zeros. */
  lemma {:induction false} LeadingZerosOf(z: nat, b: seq<byte>)
    requires b == [] || b[0] != 0
    ensures LeadingZeros(Zeros(z) + b) == z
  {
    if z > 0 {
      assert (Zeros(z) + b)[1..] == Zeros(z - 1) + b;
      LeadingZerosOf(z - 1, b);
    } else {
      assert Zeros(z) + b == b;
    }
  }

  // ---------------------------------------------------------------------
  // Encoding and decoding

  /** Base58: one '1' per leading zero byte, then the digits of the value of the bytes. */
  function Encode(data: seq<byte>): string
  {
    Ones(LeadingZeros(data)) + DigitsToChars(ToDigits(FromDigits(data, 256), 58))
  }

  function Decode(s: string): Option<seq<byte>>
  {
    var z := LeadingOnes(s);
    match CharsToDigits(s[z..])
    case None => None
    case Some(ds) => Some(Zeros(z) + BytesOf(FromDigits(ds, 58)))
  }

  /** Base58 decoding undoes Base58 encoding, leading zero bytes included. */
  lemma DecodeEncode(data: seq<byte>)
    ensures Decode(Encode(data)) == Some(data)
  {
    var z := LeadingZeros(data);
    var rest := data[z..];
    LeadingZerosSplit(data);
    FromDigitsZerosPrefix(z, rest, 256);
    var n := FromDigits(data, 256);
    assert n == FromDigits(rest, 256);
    var ds := ToDigits(n, 58);
    var t := DigitsToChars(ds);
    if ds != [] {
      DigitValueOfChar(ds[0]);
    }
    LeadingOnesPrefix(z, t);
    CharsToDigitsToChars(ds);
    ToDigitsFromDigits(rest, 256);
  }

  /** Base58 encoding undoes Base58 decoding: a string that decodes is the encoding of its bytes. */
  lemma EncodeDecode(s: string)
    requires Decode(s).Some?
    ensures Encode(Decode(s).value) == s
  {
    var z := LeadingOnes(s);
    var t := s[z..];
    LeadingOnesSplit(s);
    var ds := CharsToDigits(t).value;
    DigitsToCharsOfCharsToDigits(t);
    var n := FromDigits(ds, 58);
    var b := BytesOf(n);
    LeadingZerosOf(z, b);
    FromDigitsZerosPrefix(z, b, 256);
    ToDigitsFromDigits(ds, 58);
  }

  /** Base58Check: the data followed by its checksum, in Base58. */
  function EncodeCheck(sha256: seq<byte> -> Digest, data: seq<byte>): (s: string)
    ensures DecodeCheck(sha256, s) == Some(data)
  {
    var raw := data + Checksum(sha256, data);
    DecodeEncode(raw);
    assert raw[..|raw| - 4] == data;
    Encode(raw)
  }

  /** The data of a Base58Check string, if it decodes and its checksum matches. */
  function DecodeCheck(sha256: seq<byte> -> Digest, s: string): Option<seq<byte>>
  {
    match Decode(s)
    case None => None
    case Some(raw) =>
      if |raw| < 4 then None
      else if raw[|raw| - 4..] == Checksum(sha256, raw[..|raw| - 4]) then Some(raw[..|raw| - 4])
      else None
  }

  /** A string that Base58Check-decodes to data is the Base58Check encoding of that data. */
  lemma EncodeCheckUnique(sha256: seq<byte> -> Digest, s: string)
    requires DecodeCheck(sha256, s).Some?
    ensures EncodeCheck(sha256, DecodeCheck(sha256, s).value) == s
  {
    var raw := Decode(s).value;
    var data := raw[..|raw| - 4];
    assert raw == data + Checksum(sha256, data);
    EncodeDecode(s);
  }
}
