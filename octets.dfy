/** Bytes as the wire sees them, and the byte string of a text whose characters are all below 256. */
module Octets {

  newtype byte = b: int | 0 <= b < 256

  /** True when every character of `s` fits in one byte. */
  predicate IsOctetText(s: string)
  {
    forall i :: 0 <= i < |s| ==> s[i] as int < 256
  }

  /** The bytes of an octet text, one per character (for ASCII text this is its UTF-8 encoding). */
  function OctetsOf(s: string): (r: seq<byte>)
    requires IsOctetText(s)
    ensures |r| == |s|
    ensures forall i :: 0 <= i < |s| ==> r[i] as int == s[i] as int
  {
    seq(|s|, i requires 0 <= i < |s| => s[i] as int as byte)
  }

  /** The text whose characters are the given bytes. */
  function TextOf(b: seq<byte>): (r: string)
    ensures |r| == |b|
    ensures forall i :: 0 <= i < |b| ==> r[i] as int == b[i] as int
  {
    seq(|b|, i requires 0 <= i < |b| => b[i] as int as char)
  }

  /** Reading an octet text's bytes back as text gives the text again. */
  lemma {:induction false} TextOfOctets(s: string)
    requires IsOctetText(s)
    ensures TextOf(OctetsOf(s)) == s
  {
    var r := TextOf(OctetsOf(s));
    assert |r| == |s|;
    forall i | 0 <= i < |s| ensures r[i] == s[i] {
      assert r[i] as int == s[i] as int;
    }
  }
}
