/** Big-endian byte strings. A byte is a number below 256.  */
module ByteOrder {
  import opened Arithmetic

  ghost predicate IsBytes(s: seq<nat>) {
    forall i :: 0 <= i < |s| ==> s[i] < 256
  }

  /** The low-order bytes of n, most significant first. */
  function BigEndian(n: nat, bytes: nat): (r: seq<nat>)
    ensures |r| == bytes && IsBytes(r)
  {
    if bytes == 0 then [] else BigEndian(n / 256, bytes - 1) + [n % 256]
  }

  function FromBigEndian(s: seq<nat>): nat {
    if s == [] then 0 else 256 * FromBigEndian(s[..|s| - 1]) + s[|s| - 1]
  }

  function Pow256(k: nat): (p: nat)
    ensures p > 0
  {
    if k == 0 then 1 else 256 * Pow256(k - 1)
  }

  /** Writing and reading back gives the number, cut to that many bytes. */
  lemma {:induction false} RoundTrip(n: nat, bytes: nat)
    requires n < Pow256(bytes)
    ensures FromBigEndian(BigEndian(n, bytes)) == n
  {
    if bytes > 0 {
      var head := BigEndian(n / 256, bytes - 1);
      assert BigEndian(n, bytes)[..bytes - 1] == head;
      RoundTrip(n / 256, bytes - 1);
    }
  }

  /** Reading and writing back gives the bytes. */
  lemma {:induction false} RoundTripBytes(s: seq<nat>)
    requires IsBytes(s)
    ensures FromBigEndian(s) < Pow256(|s|) && BigEndian(FromBigEndian(s), |s|) == s
  {
    if s != [] {
      var head := s[..|s| - 1];
      RoundTripBytes(head);
      assert FromBigEndian(s) / 256 == FromBigEndian(head) && FromBigEndian(s) % 256 == s[|s| - 1];
      assert s == head + [s[|s| - 1]];
    }
  }

  /** Byte j is the value shifted right by whole bytes, cut to eight bits. */
  lemma {:induction false} BigEndianAt(n: nat, bytes: nat, j: nat)
    requires j < bytes
    ensures BigEndian(n, bytes)[j] == (n / Pow256(bytes - 1 - j)) % 256
  {
    if j < bytes - 1 {
      BigEndianAt(n / 256, bytes - 1, j);
      DivDiv(n, Pow256(bytes - 2 - j));
    }
  }

  lemma DivDiv(n: nat, p: nat)
    requires p > 0
    ensures (n / 256) / p == n / (256 * p)
  {
    var q := (n / 256) / p;
    var r := (n / 256) % p;
    assert n / 256 == p * q + r;
    assert n == 256 * (p * q + r) + n % 256;
    assert 256 * (p * q) == (256 * p) * q;
    assert 0 <= 256 * r + n % 256 < 256 * p;
    Quotient(n, 256 * p, q, 256 * r + n % 256);
  }
}
