/** A reader of DNS messages by RFC 1035, section 4.1, written from the format and not from the
    printer. It reads names of section 3.1, without compression. */
module Rfc1035 {
  import opened RustInt
  import opened Text
  import opened Wire

  datatype Header = Header(
    id: nat, qr: bool, opcode: nat, aa: bool, tc: bool, rd: bool, ra: bool, z: bool, ad: bool, cd: bool, rcode: nat)

  datatype Question = Question(name: Bytes, qtype: nat, qclass: nat)

  datatype Record = Record(name: Bytes, rtype: nat, rclass: nat, ttl: nat, rdata: Bytes)

  datatype Message = Message(
    header: Header, questions: seq<Question>, answers: seq<Record>, authority: seq<Record>, additional: seq<Record>)

  function Bit(octet: u8, weight: nat): bool
    requires weight > 0
  {
    octet / weight % 2 == 1
  }

  function TakeNumber(s: Bytes, k: nat): Option<(nat, Bytes)> {
    if |s| < k then None else Some((Number(s[..k]), s[k..]))
  }

  /** A name: labels of 1 to 63 octets behind their lengths, then a zero octet. */
  function TakeName(s: Bytes): Option<(Bytes, Bytes)> {
    if s == [] then None
    else if s[0] == 0 then Some(([0], s[1..]))
    else if s[0] >= 64 || |s| < 1 + s[0] then None
    else
      var (name, rest) :- TakeName(s[1 + s[0]..]);
      Some((s[..1 + s[0]] + name, rest))
  }

  function TakeQuestion(s: Bytes): Option<(Question, Bytes)> {
    var (name, s1) :- TakeName(s);
    var (qtype, s2) :- TakeNumber(s1, 2);
    var (qclass, s3) :- TakeNumber(s2, 2);
    Some((Question(name, qtype, qclass), s3))
  }

  function TakeRecord(s: Bytes): Option<(Record, Bytes)> {
    var (name, s1) :- TakeName(s);
    var (rtype, s2) :- TakeNumber(s1, 2);
    var (rclass, s3) :- TakeNumber(s2, 2);
    var (ttl, s4) :- TakeNumber(s3, 4);
    var (length, s5) :- TakeNumber(s4, 2);
    if |s5| < length then None else Some((Record(name, rtype, rclass, ttl, s5[..length]), s5[length..]))
  }

  /** `n` items in a row. */
  function TakeMany<T>(take: Bytes -> Option<(T, Bytes)>, s: Bytes, n: nat): Option<(seq<T>, Bytes)>
    decreases n
  {
    if n == 0 then Some(([], s))
    else
      var (item, s1) :- take(s);
      var (items, s2) :- TakeMany(take, s1, n - 1);
      Some(([item] + items, s2))
  }

  function HeaderOf(s: Bytes): Header
    requires |s| >= 12
  {
    Header(Number(s[..2]), Bit(s[2], 128), s[2] / 8 % 16, Bit(s[2], 4), Bit(s[2], 2), Bit(s[2], 1),
           Bit(s[3], 128), Bit(s[3], 64), Bit(s[3], 32), Bit(s[3], 16), s[3] % 16)
  }

  /** A whole message; nothing may follow the last record. */
  function Decode(s: Bytes): Option<Message> {
    if |s| < 12 then None
    else
      var (questions, s1) :- TakeMany(TakeQuestion, s[12..], Number(s[4..6]));
      var (answers, s2) :- TakeMany(TakeRecord, s1, Number(s[6..8]));
      var (authority, s3) :- TakeMany(TakeRecord, s2, Number(s[8..10]));
      var (additional, s4) :- TakeMany(TakeRecord, s3, Number(s[10..12]));
      if s4 == [] then Some(Message(HeaderOf(s), questions, answers, authority, additional)) else None
  }

  /** The text of a TXT record (section 3.3.14): one or more character strings, each behind its length
      octet, joined. */
  function JoinedStrings(rdata: Bytes): (r: Option<Bytes>)
    ensures r.Some? ==> |r.value| < |rdata|
  {
    if rdata == [] then None
    else
      var length: int := rdata[0];
      if |rdata| < 1 + length then None
      else if |rdata| == 1 + length then Some(rdata[1..])
      else
        var rest :- JoinedStrings(rdata[1 + length..]);
        Some(rdata[1..1 + length] + rest)
  }

  /** The name at `at` by section 4.1.4: labels up to a zero octet, or up to a pointer, which ends the
      name with the name at its target. At most `hops` pointers are followed. The result is the labels
      and the position behind the name. */
  function CompressedName(s: Bytes, at: nat, hops: nat): Option<(seq<Bytes>, nat)>
    decreases hops, |s| - at
  {
    if at >= |s| then None
    else if s[at] == 0 then Some(([], at + 1))
    else if s[at] < 64 then
      var next: int := at + 1 + s[at];
      if next > |s| then None
      else
        var (labels, end) :- CompressedName(s, next, hops);
        Some(([s[at + 1..next]] + labels, end))
    else if s[at] < 192 || at + 1 >= |s| || hops == 0 then None
    else
      var (labels, _) :- CompressedName(s, PointerTarget(s, at), hops - 1);
      Some((labels, at + 2))
  }

  /** The offset in the fourteen low bits of a pointer. */
  function PointerTarget(s: Bytes, at: nat): nat
    requires at + 1 < |s| && s[at] >= 192
  {
    var high: int := s[at];
    (high - 192) * 256 + s[at + 1]
  }

  /** A complete name and nothing else. */
  predicate IsWireName(name: Bytes) {
    TakeName(name) == Some((name, []))
  }

  lemma {:induction false} TakeNameInFront(name: Bytes, rest: Bytes)
    requires IsWireName(name)
    ensures TakeName(name + rest) == Some((name, rest))
    decreases |name|
  {
    var s := name + rest;
    if name[0] == 0 {
      assert name == [0];
      assert s[1..] == rest;
    } else {
      var k: int := name[0] + 1;
      var tail := name[k..];
      assert IsWireName(tail) by {
        var part := TakeName(tail).value.0;
        assert (name[..k] + part)[k..] == part;
      }
      TakeNameInFront(tail, rest);
      assert s[k..] == tail + rest && s[..k] == name[..k];
    }
  }

  /** An encoded name is read back exactly if its labels have at most 63 octets. */
  lemma {:induction false} EncodedNameIsTaken(labels: seq<Bytes>, rest: Bytes)
    requires NonEmpty(labels) && forall i :: 0 <= i < |labels| ==> |labels[i]| < 256
    ensures TakeName(EncodeName(labels) + rest) == if Short(labels) then Some((EncodeName(labels), rest)) else None
  {
    var s := EncodeName(labels) + rest;
    if labels == [] {
      assert s[1..] == rest;
    } else {
      var part, more := labels[0], labels[1..];
      CastKeeps(|part|);
      assert Short(labels) <==> |part| < 64 && Short(more) by {
        assert labels == [part] + more;
      }
      EncodedNameIsTaken(more, rest);
      var first := [AsU8(|part|)] + part;
      assert s == first + (EncodeName(more) + rest);
      assert s[0] == |part| && s[..1 + |part|] == first && s[1 + |part|..] == EncodeName(more) + rest;
    }
  }

  lemma NumberInFront(n: nat, k: nat, rest: Bytes)
    requires n < Pow256(k)
    ensures TakeNumber(BigEndian(n, k) + rest, k) == Some((n, rest))
  {
    BigEndianReadsBack(n, k);
    var s := BigEndian(n, k) + rest;
    assert s[..k] == BigEndian(n, k) && s[k..] == rest;
  }
}
