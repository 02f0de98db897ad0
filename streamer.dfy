/**
 * The arithmetic at the start of the streaming engine's `play`: the `Icy-Br`
 * response header is parsed as an unsigned 64-bit integer (a SHOUTcast/ICY
 * bitrate in kbit/s), turned into a prefetch size of two seconds of audio, and
 * paired with the fixed capacity of the bounded in-memory buffer.
 */
module Streamer {
  import opened Wrappers

  /** 2^64: every value of Rust's `u64` is below it. */
  const U64_LIMIT: nat := 0x1_0000_0000_0000_0000

  /** Bitrates whose byte rate is below this bound keep `bitrate / 8 * 1024 * 2` inside `u64`. */
  const PREFETCH_INPUT_LIMIT: nat := 0x20_0000_0000_0000

  const BITS_PER_BYTE: nat := 8
  const BYTES_PER_KILOBYTE: nat := 1024
  const PREFETCH_SECONDS: nat := 2

  /** Capacity of the bounded storage provider: 512 KiB, whatever the bitrate or stream length. */
  const BUFFER_CAPACITY: nat := 512 * 1024

  /** Why `str::parse::<u64>` rejects its input. */
  datatype ParseError = Empty | InvalidDigit | PosOverflow

  /** Why the engine gives up before any storage or sink is created. */
  datatype OpenError = MissingBitrate | BadBitrate(reason: ParseError)

  /** What the engine hands to the bounded stream download. */
  datatype StreamSettings = StreamSettings(prefetchBytes: nat, capacity: nat)

  predicate IsDigit(c: char) { '0' <= c <= '9' }

  predicate AllDigits(s: string) { forall i :: 0 <= i < |s| ==> IsDigit(s[i]) }

  function DigitValue(c: char): nat
    requires IsDigit(c)
  {
    c as nat - '0' as nat
  }

  function DigitChar(d: nat): (c: char)
    requires d < 10
    ensures IsDigit(c) && DigitValue(c) == d
  {
    ('0' as nat + d) as char
  }

  /** The unbounded value of the decimal digits `s` read left to right after `acc`. */
  function FoldValue(acc: nat, s: string): nat
    requires AllDigits(s)
    decreases |s|
  {
    if |s| == 0 then acc else FoldValue(acc * 10 + DigitValue(s[0]), s[1..])
  }

  /** The value of a string of decimal digits. */
  function DecimalValue(s: string): nat
    requires AllDigits(s)
  {
    FoldValue(0, s)
  }

  /**
   * The digit loop of `u64::from_str_radix`: digits are consumed left to right,
   * the first non-digit is an `InvalidDigit`, and a step whose checked
   * `acc * 10 + digit` leaves `u64` is a `PosOverflow`.
   */
  function Accumulate(acc: nat, s: string): (r: Result<nat, ParseError>)
    requires acc < U64_LIMIT
    ensures r.Ok? ==> acc <= r.value < U64_LIMIT
    ensures r != Err(Empty)
    decreases |s|
  {
    if |s| == 0 then Ok(acc)
    else if !IsDigit(s[0]) then Err(InvalidDigit)
    else
      var next := acc * 10 + DigitValue(s[0]);
      if next >= U64_LIMIT then Err(PosOverflow) else Accumulate(next, s[1..])
  }

  /**
   * `str::parse::<u64>`: the empty string is `Empty`, a lone sign is
   * `InvalidDigit`, one leading `+` is skipped, and the rest is the digit loop.
   */
  function ParseU64(s: string): (r: Result<nat, ParseError>)
    ensures r == Err(Empty) <==> |s| == 0
    ensures r.Ok? ==> r.value < U64_LIMIT
  {
    if |s| == 0 then Err(Empty)
    else if (s[0] == '+' || s[0] == '-') && |s| == 1 then Err(InvalidDigit)
    else Accumulate(0, Unsigned(s))
  }

  /** The digits of `s` that the parser reads: `s` without one leading `+`. */
  function Unsigned(s: string): string
  {
    if |s| > 0 && s[0] == '+' then s[1..] else s
  }

  /** `u64::to_string`: the shortest decimal spelling of `n`. */
  function ToDecimal(n: nat): (s: string)
    ensures |s| > 0 && AllDigits(s)
    ensures |s| > 1 ==> s[0] != '0'
  {
    if n < 10 then [DigitChar(n)] else ToDecimal(n / 10) + [DigitChar(n % 10)]
  }

  /**
   * `bitrate / 8 * 1024 * 2`: two seconds of audio at `bitrate` kbit/s, with
   * the division truncating before the multiplications.
   */
  function PrefetchBytes(bitrate: nat): (bytes: nat)
    requires bitrate / BITS_PER_BYTE < PREFETCH_INPUT_LIMIT
    ensures bytes < U64_LIMIT
    ensures bytes % 2048 == 0
    ensures bytes == 0 <==> bitrate < BITS_PER_BYTE
    ensures bytes <= bitrate * 256 < bytes + 2048
  {
    bitrate / BITS_PER_BYTE * BYTES_PER_KILOBYTE * PREFETCH_SECONDS
  }

  /** The precondition `Configure` needs: a bitrate that parses is small enough for `PrefetchBytes`. */
  predicate NoPrefetchOverflow(icyBr: Option<string>)
  {
    icyBr.Some? && ParseU64(icyBr.value).Ok? ==> ParseU64(icyBr.value).value / BITS_PER_BYTE < PREFETCH_INPUT_LIMIT
  }

  /**
   * The header handling of `play`: a missing `Icy-Br` header or one that does
   * not parse aborts (the source unwraps both) before any storage is built;
   * otherwise the download is set up with the prefetch size and the fixed capacity.
   */
  function Configure(icyBr: Option<string>): (r: Result<StreamSettings, OpenError>)
    requires NoPrefetchOverflow(icyBr)
    ensures r == Err(MissingBitrate) <==> icyBr.None?
    ensures r.Ok? <==> icyBr.Some? && ParseU64(icyBr.value).Ok?
    ensures icyBr.Some? && ParseU64(icyBr.value).Err? ==> r == Err(BadBitrate(ParseU64(icyBr.value).error))
    ensures r.Ok? ==> r.value.capacity == BUFFER_CAPACITY && r.value.prefetchBytes % 2048 == 0
    ensures r.Ok? ==> r.value.prefetchBytes == PrefetchBytes(ParseU64(icyBr.value).value)
  {
    match icyBr
    case None => Err(MissingBitrate)
    case Some(header) =>
      match ParseU64(header)
      case Err(e) => Err(BadBitrate(e))
      case Ok(bitrate) => Ok(StreamSettings(PrefetchBytes(bitrate), BUFFER_CAPACITY))
  }

  // ---------------------------------------------------------------- lemmas

  /** Reading more digits never makes the value smaller. */
  lemma {:induction false} FoldValueGrows(acc: nat, s: string)
    requires AllDigits(s)
    ensures FoldValue(acc, s) >= acc
    decreases |s|
  {
    if |s| > 0 {
      FoldValueGrows(acc * 10 + DigitValue(s[0]), s[1..]);
    }
  }

  /**
   * The checked digit loop succeeds exactly when the input is all digits and
   * its value fits in `u64`, and then it yields that value.
   */
  lemma {:induction false} AccumulateIsCheckedValue(acc: nat, s: string)
    requires acc < U64_LIMIT
    ensures Accumulate(acc, s).Ok? <==> AllDigits(s) && FoldValue(acc, s) < U64_LIMIT
    ensures Accumulate(acc, s).Ok? ==> Accumulate(acc, s).value == FoldValue(acc, s)
    decreases |s|
  {
    if |s| > 0 {
      if IsDigit(s[0]) {
        var next := acc * 10 + DigitValue(s[0]);
        if next >= U64_LIMIT {
          if AllDigits(s) {
            FoldValueGrows(next, s[1..]);
          }
        } else {
          AccumulateIsCheckedValue(next, s[1..]);
          assert AllDigits(s) <==> AllDigits(s[1..]) by {
            assert forall i :: 0 < i < |s| ==> s[i] == s[1..][i - 1];
          }
        }
      } else {
        assert !AllDigits(s);
      }
    }
  }

  /**
   * `ParseU64` accepts exactly the strings that are an optional `+` followed by
   * at least one digit and nothing else, whose decimal value is below 2^64,
   * and returns that value.
   */
  lemma ParseU64Accepts(s: string)
    ensures ParseU64(s).Ok? <==>
      |Unsigned(s)| > 0 && AllDigits(Unsigned(s)) && DecimalValue(Unsigned(s)) < U64_LIMIT
    ensures ParseU64(s).Ok? ==> ParseU64(s).value == DecimalValue(Unsigned(s))
  {
    if |s| > 0 {
      AccumulateIsCheckedValue(0, Unsigned(s));
      if s[0] == '-' {
        assert !IsDigit(Unsigned(s)[0]);
      }
    }
  }

  lemma {:induction false} FoldValueAppend(acc: nat, a: string, b: string)
    requires AllDigits(a) && AllDigits(b)
    ensures AllDigits(a + b)
    ensures FoldValue(acc, a + b) == FoldValue(FoldValue(acc, a), b)
    decreases |a|
  {
    if |a| == 0 {
      assert a + b == b;
    } else {
      assert (a + b)[1..] == a[1..] + b;
      FoldValueAppend(acc * 10 + DigitValue(a[0]), a[1..], b);
    }
  }

  lemma {:induction false} DecimalValueOfToDecimal(n: nat)
    ensures DecimalValue(ToDecimal(n)) == n
  {
    if n >= 10 {
      var c := DigitChar(n % 10);
      DecimalValueOfToDecimal(n / 10);
      FoldValueAppend(0, ToDecimal(n / 10), [c]);
      assert FoldValue(n / 10, [c]) == FoldValue((n / 10) * 10 + n % 10, []);
      assert ToDecimal(n) == ToDecimal(n / 10) + [c];
    } else {
      assert FoldValue(0, [DigitChar(n)]) == FoldValue(n, []);
    }
  }

  /** Round trip: the decimal spelling a server sends for any `u64` parses back to it. */
  lemma ParseToDecimal(n: nat)
    requires n < U64_LIMIT
    ensures ParseU64(ToDecimal(n)) == Ok(n)
  {
    DecimalValueOfToDecimal(n);
    ParseU64Accepts(ToDecimal(n));
  }

  /** Round trip through `play`: a header carrying `n` sets up a prefetch of `PrefetchBytes(n)`. */
  lemma ConfigureFromHeader(n: nat)
    requires n / BITS_PER_BYTE < PREFETCH_INPUT_LIMIT
    ensures NoPrefetchOverflow(Some(ToDecimal(n)))
    ensures Configure(Some(ToDecimal(n))) == Ok(StreamSettings(PrefetchBytes(n), BUFFER_CAPACITY))
  {
    ParseToDecimal(n);
  }

  /** A larger bitrate never buffers less. */
  lemma PrefetchMonotone(a: nat, b: nat)
    requires a <= b
    requires b / BITS_PER_BYTE < PREFETCH_INPUT_LIMIT
    ensures PrefetchBytes(a) <= PrefetchBytes(b)
  {
  }

  /** The sample sizes for common stream bitrates. */
  lemma PrefetchSamples()
    ensures PrefetchBytes(64) == 16384
    ensures PrefetchBytes(128) == 32768
    ensures PrefetchBytes(320) == 81920
  {
  }

  /** The buffer capacity is the non-zero 524288 bytes, so `NonZeroUsize::new` never fails. */
  lemma BufferCapacityNonZero()
    ensures BUFFER_CAPACITY == 524288 && BUFFER_CAPACITY > 0
  {
  }
}
