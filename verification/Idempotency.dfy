/** services/kova-ledger/src/idempotency.rs: the payload hash of a posting. SHA-256 is
    taken to be injective, so a digest is represented by the bytes that were hashed. */
module Idempotency {
  import opened Common
  import Decimals

  datatype Digest = Sha256(preimage: seq<Byte>)

  predicate Supported(currency: string) {
    currency in {"NGN", "GBP", "USD", "KES"}
  }

  predicate IsAscii(s: string) {
    forall i :: 0 <= i < |s| ==> s[i] < 128 as char
  }

  /** The UTF-8 bytes of an ASCII string. */
  function Ascii(s: string): (b: seq<Byte>)
    requires IsAscii(s)
    ensures |b| == |s|
  {
    seq(|s|, i requires 0 <= i < |s| => s[i] as Byte)
  }

  lemma AsciiInjective(a: string, b: string)
    requires IsAscii(a) && IsAscii(b) && Ascii(a) == Ascii(b)
    ensures a == b
  {
    forall i | 0 <= i < |a|
      ensures a[i] == b[i]
    {
      assert Ascii(a)[i] == Ascii(b)[i];
    }
  }

  lemma TextIsAscii(d: Decimals.Decimal)
    ensures IsAscii(Decimals.Text(d))
  {
    var ds := Decimals.Digits(Decimals.Abs(d.mantissa), d.scale + 1);
    assert IsAscii(ds);
    var body := Decimals.Body(d);
    assert IsAscii(body) by {
      if d.scale > 0 {
        var p := |ds| - d.scale;
        forall i | 0 <= i < |body|
          ensures body[i] < 128 as char
        {
          if i < p {
            assert body[i] == ds[i];
          } else if i > p {
            assert body[i] == ds[i - 1];
          }
        }
      }
    }
  }

  /** The bytes fed to the digest: debit, credit, amount text, currency. */
  function Preimage(debit: Id, credit: Id, amount: Decimals.Decimal, currency: string): (p: seq<Byte>)
    requires Supported(currency)
  {
    TextIsAscii(amount);
    debit + credit + Ascii(Decimals.Text(amount)) + Ascii(currency)
  }

  function PayloadHash(debit: Id, credit: Id, amount: Decimals.Decimal, currency: string): Digest
    requires Supported(currency)
  {
    Sha256(Preimage(debit, credit, amount, currency))
  }

  /** What is hashed, byte by byte: both account ids, the characters of the amount's text and
      those of the currency. */
  lemma HashedBytes(debit: Id, credit: Id, amount: Decimals.Decimal, currency: string)
    requires Supported(currency)
    ensures var p, text := PayloadHash(debit, credit, amount, currency).preimage, Decimals.Text(amount);
      && |p| == 35 + |text| && p[..16] == debit && p[16..32] == credit
      && (forall i :: 0 <= i < |text| ==> p[32 + i] == text[i] as int)
      && (forall i :: 0 <= i < 3 ==> p[32 + |text| + i] == currency[i] as int)
  {
    TextIsAscii(amount);
    var p, text := PayloadHash(debit, credit, amount, currency).preimage, Decimals.Text(amount);
    var front := debit + credit;
    assert p == front + Ascii(text) + Ascii(currency);
    assert p[..16] == debit && p[16..32] == credit;
  }

  /** Two postings hash alike exactly when they name the same accounts, the same
      currency and the same amount with the same number of decimals. */
  lemma PayloadHashDecidesPosting(d1: Id, c1: Id, a1: Decimals.Decimal, cur1: string,
                                  d2: Id, c2: Id, a2: Decimals.Decimal, cur2: string)
    requires Supported(cur1) && Supported(cur2)
    ensures PayloadHash(d1, c1, a1, cur1) == PayloadHash(d2, c2, a2, cur2)
       <==> d1 == d2 && c1 == c2 && a1 == a2 && cur1 == cur2
  {
    if PayloadHash(d1, c1, a1, cur1) == PayloadHash(d2, c2, a2, cur2) {
      TextIsAscii(a1);
      TextIsAscii(a2);
      FieldsRecovered(d1, c1, Ascii(Decimals.Text(a1)), Ascii(cur1),
                      d2, c2, Ascii(Decimals.Text(a2)), Ascii(cur2));
      AsciiInjective(cur1, cur2);
      AsciiInjective(Decimals.Text(a1), Decimals.Text(a2));
      Decimals.TextInjective(a1, a2);
    }
  }

  /** Two leading fields of 16 bytes and a last one of 3 leave no doubt where the
      variable-length field in the middle starts and ends. */
  lemma FieldsRecovered(d1: Id, c1: Id, m1: seq<Byte>, z1: seq<Byte>, d2: Id, c2: Id, m2: seq<Byte>, z2: seq<Byte>)
    requires |z1| == |z2| == 3
    requires d1 + c1 + m1 + z1 == d2 + c2 + m2 + z2
    ensures d1 == d2 && c1 == c2 && m1 == m2 && z1 == z2
  {
    var p1, p2 := d1 + c1 + m1 + z1, d2 + c2 + m2 + z2;
    assert p1[..16] == d1 && p2[..16] == d2;
    assert p1[16..32] == c1 && p2[16..32] == c2;
    assert p1[32..|p1| - 3] == m1 && p2[32..|p2| - 3] == m2;
    assert p1[|p1| - 3..] == z1 && p2[|p2| - 3..] == z2;
  }

  /** A retry that writes the same amount with one more decimal is a different payload,
      although the column would store the same number. */
  lemma RescaledRetryIsDifferentPayload(debit: Id, credit: Id, amount: Decimals.Decimal, currency: string)
    requires Supported(currency) && amount.scale < 4
    ensures var rescaled := Decimals.Decimal(amount.mantissa * 10, amount.scale + 1);
      && Decimals.StoredUnits(rescaled) == Decimals.StoredUnits(amount)
      && PayloadHash(debit, credit, rescaled, currency) != PayloadHash(debit, credit, amount, currency)
  {
    var rescaled := Decimals.Decimal(amount.mantissa * 10, amount.scale + 1);
    PayloadHashDecidesPosting(debit, credit, rescaled, currency, debit, credit, amount, currency);
    var k := 4 - amount.scale;
    assert Decimals.Pow10(k) == 10 * Decimals.Pow10(k - 1);
    assert amount.mantissa * 10 * Decimals.Pow10(k - 1) == amount.mantissa * (10 * Decimals.Pow10(k - 1));
  }

  /** The streaming digest. What has been fed so far is its whole state. */
  class DigestContext {
    var fed: seq<Byte>

    constructor ()
      ensures fed == []
    {
      fed := [];
    }

    method Update(bytes: seq<Byte>)
      modifies this
      ensures fed == old(fed) + bytes
    {
      fed := fed + bytes;
    }

    method Finish() returns (d: Digest)
      ensures d == Sha256(fed)
    {
      d := Sha256(fed);
    }
  }

  method ComputePayloadHash(debit: Id, credit: Id, amount: Decimals.Decimal, currency: string)
      returns (h: Digest)
    requires Supported(currency)
    ensures h == PayloadHash(debit, credit, amount, currency)
  {
    TextIsAscii(amount);
    var ctx := new DigestContext();
    ctx.Update(debit);
    ctx.Update(credit);
    ctx.Update(Ascii(Decimals.Text(amount)));
    ctx.Update(Ascii(currency));
    h := ctx.Finish();
  }
}
