/** services/kova-auth/src/crypto.rs: six-digit codes by rejection sampling. */
module Otp {
  import opened Common
  import opened Decimals
  import Arithmetic

  const CODES: nat := 1_000_000
  const DRAWS: nat := 0x1_0000_0000
  const OTP_REJECT_THRESHOLD: nat := 4_294_000_000

  /** What the generator fills the buffer with. */
  type Buffer = s: seq<Byte> | |s| == 4 witness [0, 0, 0, 0]

  /** u32::from_be_bytes. */
  function Value(buf: Buffer): (n: nat)
    ensures n < DRAWS
  {
    var a: nat, b: nat, c: nat, d: nat := buf[0], buf[1], buf[2], buf[3];
    ((a * 256 + b) * 256 + c) * 256 + d
  }

  function BufferOf(n: nat): Buffer
    requires n < DRAWS
  {
    [n / 256 / 256 / 256, n / 256 / 256 % 256, n / 256 % 256, n % 256]
  }

  /** Every number below 2^32 comes from exactly one buffer. */
  lemma BuffersAreNumbers(n: nat, buf: Buffer)
    requires n < DRAWS
    ensures Value(buf) == 16_777_216 * buf[0] as int + 65_536 * buf[1] as int + 256 * buf[2] as int + buf[3]
    ensures Value(BufferOf(n)) == n
    ensures Value(buf) == n ==> buf == BufferOf(n)
  {
    if Value(buf) == n {
      var a: nat, b: nat, c: nat, d: nat := buf[0], buf[1], buf[2], buf[3];
      Arithmetic.QuotientUnique(n, 256, (a * 256 + b) * 256 + c, d);
      Arithmetic.QuotientUnique((a * 256 + b) * 256 + c, 256, a * 256 + b, c);
      Arithmetic.QuotientUnique(a * 256 + b, 256, a, b);
      assert buf == BufferOf(n);
    }
  }

  predicate Accepted(n: nat) {
    n < OTP_REJECT_THRESHOLD
  }

  function Code(n: nat): (code: string)
    ensures |code| >= 6
  {
    Digits(n % CODES, 6)
  }

  lemma CodeMeans(n: nat)
    ensures IsOtp(Code(n)) && DigitsValue(Code(n)) == n % 1_000_000
  {
    MillionIsPow10();
    DigitsWidth(n % CODES, 6);
    DigitsRoundTrip(n % CODES, 6);
  }

  /** generate_otp, given what the generator yields: a buffer, or a failure. It returns
      nothing if it is still drawing when they run out; otherwise the first draw that failed or
      is below the threshold decides, with the six digits of its residue. */
  method GenerateOtp(draws: seq<Option<Buffer>>) returns (otp: Option<Result<string>>)
    ensures match otp
            case None => forall k :: 0 <= k < |draws| ==> draws[k].Some? && Value(draws[k].value) >= 4_294_000_000
            case Some(r) =>
              exists i :: 0 <= i < |draws|
                && (forall k :: 0 <= k < i ==> draws[k].Some? && Value(draws[k].value) >= 4_294_000_000)
                && if draws[i].None? then r.Err?
                   else
                     var n := Value(draws[i].value);
                     && n < 4_294_000_000 && r == Ok(Code(n)) && IsOtp(r.value)
                     && DigitsValue(r.value) == n % 1_000_000
  {
    var i := 0;
    while i < |draws|
      invariant 0 <= i <= |draws|
      invariant forall k :: 0 <= k < i ==> draws[k].Some? && Value(draws[k].value) >= 4_294_000_000
    {
      if draws[i].None? {
        return Some(Err(Database));
      }
      var n := Value(draws[i].value);
      if n < OTP_REJECT_THRESHOLD {
        CodeMeans(n);
        return Some(Ok(Digits(n % CODES, 6)));
      }
      i := i + 1;
    }
    return None;
  }

  // ---- Six digits -----------------------------------------------------------

  lemma {:induction false} DigitsWidth(n: nat, width: nat)
    requires n < Pow10(width)
    ensures |Digits(n, width)| == width
    decreases width
  {
    if width > 0 {
      DigitsWidth(n / 10, width - 1);
    }
  }

  lemma {:induction false} DigitsOfValue(s: string)
    requires forall i :: 0 <= i < |s| ==> IsDigit(s[i])
    ensures DigitsValue(s) < Pow10(|s|) && Digits(DigitsValue(s), |s|) == s
    decreases |s|
  {
    if |s| > 0 {
      var init, last := s[..|s| - 1], DigitValue(s[|s| - 1]);
      DigitsOfValue(init);
      Arithmetic.QuotientUnique(DigitsValue(s), 10, DigitsValue(init), last);
      assert s == init + [DigitChar(last)];
    }
  }

  predicate IsOtp(code: string) {
    |code| == 6 && forall i :: 0 <= i < 6 ==> IsDigit(code[i])
  }

  lemma MillionIsPow10()
    ensures Pow10(6) == CODES
  {
    assert Pow10(3) == 1000;
  }

  /** A code has exactly six digits, and is a given one exactly if the draw has its value
      as residue. */
  lemma CodeIs(n: nat, code: string)
    requires IsOtp(code)
    ensures IsOtp(Code(n)) && DigitsValue(code) < CODES
    ensures Code(n) == code <==> n % CODES == DigitsValue(code)
  {
    MillionIsPow10();
    DigitsWidth(n % CODES, 6);
    DigitsRoundTrip(n % CODES, 6);
    DigitsOfValue(code);
  }

  // ---- Counting -------------------------------------------------------------

  /** How many numbers below n have residue r modulo m. */
  function WithResidue(n: nat, m: nat, r: nat): nat
    requires m > 0
  {
    if n == 0 then 0 else WithResidue(n - 1, m, r) + (if (n - 1) % m == r then 1 else 0)
  }

  lemma NextResidue(n: nat, m: nat)
    requires m > 0
    ensures if n % m == m - 1 then (n + 1) / m == n / m + 1 && (n + 1) % m == 0
            else (n + 1) / m == n / m && (n + 1) % m == n % m + 1
  {
    var q, s := n / m, n % m;
    assert n == q * m + s;
    if s == m - 1 {
      assert (q + 1) * m == q * m + m;
      Arithmetic.QuotientUnique(n + 1, m, q + 1, 0);
    } else {
      Arithmetic.QuotientUnique(n + 1, m, q, s + 1);
    }
  }

  /** One for every full round, and one more for the residues of a round begun. */
  lemma {:induction false} ResidueCount(n: nat, m: nat, r: nat)
    requires r < m
    ensures WithResidue(n, m, r) == n / m + (if r < n % m then 1 else 0)
  {
    if n > 0 {
      ResidueCount(n - 1, m, r);
      NextResidue(n - 1, m);
    }
  }

  /** So below k * m every residue occurs exactly k times. */
  lemma ResiduesBalanced(k: nat, m: nat, r: nat)
    requires r < m
    ensures k * m >= 0 && WithResidue(k * m, m, r) == k
  {
    Arithmetic.MulStep(0, k, m);
    ResidueCount(k * m, m, r);
    Arithmetic.QuotientUnique(k * m, m, k, 0);
  }

  /** How many of the draws below n are accepted and yield the given code. */
  function Yielding(n: nat, code: string): nat {
    if n == 0 then 0
    else Yielding(n - 1, code) + (if Accepted(n - 1) && Code(n - 1) == code then 1 else 0)
  }

  lemma {:induction false} YieldingIsResidue(n: nat, code: string)
    requires IsOtp(code)
    ensures var accepted := if n < OTP_REJECT_THRESHOLD then n else OTP_REJECT_THRESHOLD;
      Yielding(n, code) == WithResidue(accepted, CODES, DigitsValue(code))
  {
    if n > 0 {
      YieldingIsResidue(n - 1, code);
      CodeIs(n - 1, code);
    }
  }

  /** No code is likelier than another: of all draws, exactly 4294 yield each six-digit
      code. */
  lemma CodesUniform(code: string, n: nat)
    requires IsOtp(code) && n == DRAWS
    ensures Yielding(n, code) == 4294
  {
    YieldingIsResidue(n, code);
    CodeIs(0, code);
    var k := 4294;
    assert k * CODES == OTP_REJECT_THRESHOLD;
    ResiduesBalanced(k, CODES, DigitsValue(code));
  }

  /** The threshold is the largest multiple of the number of codes that a draw can reach,
      so no smaller part of the draws could be rejected. */
  lemma ThresholdIsLargest(k: nat)
    ensures OTP_REJECT_THRESHOLD % CODES == 0 && OTP_REJECT_THRESHOLD <= DRAWS
    ensures k * CODES <= DRAWS ==> k * CODES <= OTP_REJECT_THRESHOLD
  {
  }

  /** Without the rejection the codes below 967296 would come up once more than the rest. */
  lemma UnrejectedIsBiased(r: nat, n: nat)
    requires r < CODES && n == DRAWS
    ensures WithResidue(n, CODES, r) == if r < 967_296 then 4295 else 4294
  {
    ResidueCount(n, CODES, r);
  }
}
