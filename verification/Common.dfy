/** Types shared by every service model: options, results, 16-byte identifiers and
    the byte order MySQL uses on BINARY(16) columns. */
module Common {

  datatype Option<+T> = None | Some(value: T)

  datatype LedgerError = InvalidArgument | IdempotencyMismatch | Database

  datatype Result<+T> = Ok(value: T) | Err(error: LedgerError)

  type Byte = b: int | 0 <= b < 256

  /** A UUID as its 16 raw bytes. */
  type Id = s: seq<Byte> | |s| == 16
    witness [0, 0, 0, 0, 0, 0, 0, 0, 0, 0, 0, 0, 0, 0, 0, 0]

  /** Bytewise comparison of binary strings, most significant byte first. */
  predicate LexLess(a: seq<Byte>, b: seq<Byte>)
    decreases |a|
  {
    && |b| > 0
    && (|a| == 0 || a[0] < b[0] || (a[0] == b[0] && LexLess(a[1..], b[1..])))
  }

  lemma {:induction false} LexIrreflexive(a: seq<Byte>)
    ensures !LexLess(a, a)
    decreases |a|
  {
    if |a| > 0 {
      LexIrreflexive(a[1..]);
    }
  }

  lemma {:induction false} LexTransitive(a: seq<Byte>, b: seq<Byte>, c: seq<Byte>)
    requires LexLess(a, b) && LexLess(b, c)
    ensures LexLess(a, c)
    decreases |a|
  {
    if |a| > 0 && a[0] == b[0] == c[0] {
      LexTransitive(a[1..], b[1..], c[1..]);
    }
  }

  lemma {:induction false} LexTotal(a: seq<Byte>, b: seq<Byte>)
    requires |a| == |b|
    ensures a == b || LexLess(a, b) || LexLess(b, a)
    decreases |a|
  {
    if |a| > 0 && a[0] == b[0] {
      LexTotal(a[1..], b[1..]);
      assert a == [a[0]] + a[1..] && b == [b[0]] + b[1..];
    }
  }

  /** At the first byte where they differ, a has the smaller one. */
  ghost predicate FirstDifferenceLess(a: seq<Byte>, b: seq<Byte>) {
    exists k: nat :: DiffersAt(a, b, k) && a[k] < b[k]
  }

  ghost predicate DiffersAt(a: seq<Byte>, b: seq<Byte>, k: nat) {
    k < |a| && k < |b| && a[..k] == b[..k] && a[k] != b[k]
  }

  lemma SameBefore(a: seq<Byte>, b: seq<Byte>, k: nat)
    requires DiffersAt(a, b, k)
    ensures k > 0 ==> a[0] == b[0]
  {
    if k > 0 {
      assert a[0] == a[..k][0] && b[0] == b[..k][0];
    }
  }

  lemma {:induction false} LexLessMeans(a: seq<Byte>, b: seq<Byte>)
    requires |a| == |b|
    ensures LexLess(a, b) <==> FirstDifferenceLess(a, b)
    decreases |a|
  {
    if |a| > 0 && a[0] == b[0] {
      var a', b' := a[1..], b[1..];
      LexLessMeans(a', b');
      if FirstDifferenceLess(a', b') {
        var k: nat :| DiffersAt(a', b', k) && a'[k] < b'[k];
        assert a[..k + 1] == [a[0]] + a'[..k] && b[..k + 1] == [b[0]] + b'[..k];
        assert DiffersAt(a, b, k + 1);
      }
      if FirstDifferenceLess(a, b) {
        var k: nat :| DiffersAt(a, b, k) && a[k] < b[k];
        assert a'[..k - 1] == a[..k][1..] && b'[..k - 1] == b[..k][1..];
        assert DiffersAt(a', b', k - 1);
      }
    } else if |a| > 0 {
      assert DiffersAt(a, b, 0);
      if FirstDifferenceLess(a, b) {
        var k: nat :| DiffersAt(a, b, k) && a[k] < b[k];
        SameBefore(a, b, k);
      }
    }
  }

  /** The element of a list of scripted environment steps, or nothing past its end. */
  function At<T>(script: seq<seq<T>>, i: nat): (r: seq<T>) {
    if i < |script| then script[i] else []
  }
}
