/** Big-endian numbers on the wire, and the shape of an encoded domain name (RFC 1035, section 3.1). */
module Wire {
  import opened RustInt
  import opened Text

  function U16At(bytes: Bytes, pos: nat): u16
    requires pos + 1 < |bytes|
  {
    var high: int, low: int := bytes[pos], bytes[pos + 1];
    high * 256 + low
  }

  /** `to_be_bytes` of a number of `k` bytes. */
  function BigEndian(n: nat, k: nat): (s: Bytes)
    ensures |s| == k
  {
    if k == 0 then [] else BigEndian(n / 256, k - 1) + [n % 256]
  }

  /** The number that bytes stand for, the most significant first. */
  function Number(s: Bytes): nat {
    if s == [] then 0 else Number(s[..|s| - 1]) * 256 + s[|s| - 1]
  }

  function Pow256(k: nat): nat {
    if k == 0 then 1 else 256 * Pow256(k - 1)
  }

  lemma {:induction false} BigEndianReadsBack(n: nat, k: nat)
    requires n < Pow256(k)
    ensures Number(BigEndian(n, k)) == n
  {
    if k == 0 {
    } else {
      BigEndianReadsBack(n / 256, k - 1);
      assert BigEndian(n, k)[..k - 1] == BigEndian(n / 256, k - 1);
    }
  }

  lemma U16ReadsBack(n: u16)
    ensures BigEndian(n, 2) == [n / 256, n % 256]
    ensures Number(BigEndian(n, 2)) == n
  {
    assert BigEndian(n, 2) == BigEndian(n / 256, 1) + [n % 256];
    assert BigEndian(n / 256, 1) == BigEndian(n / 256 / 256, 0) + [n / 256 % 256];
    assert Pow256(2) == 256 * Pow256(1);
    BigEndianReadsBack(n, 2);
  }

  /** A name on the wire: each label behind its length octet, and the empty label at the end. */
  function EncodeName(labels: seq<Bytes>): (s: Bytes)
    ensures |s| > 0 && s[|s| - 1] == 0
  {
    if labels == [] then [0] else [AsU8(|labels[0]|)] + labels[0] + EncodeName(labels[1..])
  }

  /** Labels separated by dots. */
  function Dotted(labels: seq<Bytes>): Bytes {
    if labels == [] then []
    else if |labels| == 1 then labels[0]
    else labels[0] + ['.' as int] + Dotted(labels[1..])
  }

  predicate NonEmpty(labels: seq<Bytes>) {
    forall i :: 0 <= i < |labels| ==> 0 < |labels[i]|
  }

  predicate AllAscii(labels: seq<Bytes>) {
    forall i :: 0 <= i < |labels| ==> IsAscii(labels[i])
  }

  /** Labels short enough for a length octet with the top two bits clear. */
  predicate Short(labels: seq<Bytes>) {
    forall i :: 0 <= i < |labels| ==> |labels[i]| < 64
  }

  lemma {:induction false} EncodedLength(labels: seq<Bytes>)
    requires NonEmpty(labels)
    ensures |EncodeName(labels)| == if labels == [] then 1 else |Dotted(labels)| + 2
  {
    if labels == [] {
    } else {
      EncodedLength(labels[1..]);
    }
  }
}
