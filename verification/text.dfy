/** Rust strings and byte slices, as the bytes they hold. */
module Text {
  import opened RustInt

  type Bytes = seq<u8>

  predicate IsAscii(s: Bytes) {
    forall i :: 0 <= i < |s| ==> s[i] < 128
  }

  /** `to_ascii_lowercase` of one byte. */
  function Lower(b: u8): u8 {
    if 'A' as int <= b <= 'Z' as int then b + 32 else b
  }

  /** Two octets are equal, or one letter in its two cases. */
  predicate SameUpToCase(b: u8, c: u8) {
    b == c || (65 <= b <= 90 && c == b + 32) || (65 <= c <= 90 && b == c + 32)
  }

  /** `eq_ignore_ascii_case`. */
  predicate EqIgnoreCase(s: Bytes, t: Bytes) {
    |s| == |t| && forall i :: 0 <= i < |s| ==> Lower(s[i]) == Lower(t[i])
  }

  /** Two bytes agree up to case exactly if they are equal or the same letter, upper and lower. */
  lemma LowerForgetsCaseOnly(b: u8, c: u8)
    ensures Lower(b) == Lower(c) <==> SameUpToCase(b, c)
  {
  }

  /** Two texts agree up to case exactly if they have the same length and agree octet by octet. */
  lemma EqIgnoreCaseMeans(s: Bytes, t: Bytes)
    ensures EqIgnoreCase(s, t) <==> |s| == |t| && forall i :: 0 <= i < |s| ==> SameUpToCase(s[i], t[i])
    ensures |s| == 1 == |t| ==> (EqIgnoreCase(s, t) <==> SameUpToCase(s[0], t[0]))
  {
    forall i | 0 <= i < |s| && i < |t| ensures Lower(s[i]) == Lower(t[i]) <==> SameUpToCase(s[i], t[i]) {
      LowerForgetsCaseOnly(s[i], t[i]);
    }
  }

  lemma EqIgnoreCaseIsEquivalence(s: Bytes, t: Bytes, u: Bytes)
    ensures EqIgnoreCase(s, s)
    ensures EqIgnoreCase(s, t) <==> EqIgnoreCase(t, s)
    ensures EqIgnoreCase(s, t) && EqIgnoreCase(t, u) ==> EqIgnoreCase(s, u)
    ensures EqIgnoreCase(s, t) ==> |s| == |t|
  {
  }

  /** Agreement up to case splits over concatenation. */
  lemma EqIgnoreCaseSplits(x: Bytes, y: Bytes, x': Bytes, y': Bytes)
    requires |x| == |x'|
    ensures EqIgnoreCase(x + y, x' + y') <==> EqIgnoreCase(x, x') && EqIgnoreCase(y, y')
  {
    var s, t := x + y, x' + y';
    if EqIgnoreCase(s, t) {
      assert forall i :: 0 <= i < |x| ==> x[i] == s[i] && x'[i] == t[i];
      assert forall i :: 0 <= i < |y| ==> y[i] == s[|x| + i] && y'[i] == t[|x| + i];
    }
  }
}
