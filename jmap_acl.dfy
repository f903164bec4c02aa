/**
 * The JMAP access-control right (`Acl`): its sixteen variants with their fixed
 * numeric values, the name each one prints as, the conversions to and from a
 * 64-bit integer, the bounds used when rights are kept in a bitmap, and the
 * parser that turns a JSON string's bytes back into a right.
 *
 * The parser does not compare strings: it packs at most sixteen bytes into a
 * little-endian base-256 number and matches that number against ten constants.
 */
module JmapAcl {
  import opened Octets

  newtype u64 = x: int | 0 <= x < 0x1_0000_0000_0000_0000

  datatype Acl =
    | Read
    | Modify
    | Delete
    | ReadItems
    | AddItems
    | ModifyItems
    | RemoveItems
    | CreateChild
    | Administer
    | Submit
    | SchedulingReadFreeBusy
    | SchedulingInvite
    | SchedulingReply
    | ModifyItemsOwn
    | ModifyPrivateProperties
    | None

  /** The enum's discriminant, as `From<Acl> for u64` gives it. */
  function ToU64(a: Acl): (r: u64)
    ensures r < 16
  {
    match a
    case Read => 0
    case Modify => 1
    case Delete => 2
    case ReadItems => 3
    case AddItems => 4
    case ModifyItems => 5
    case RemoveItems => 6
    case CreateChild => 7
    case Administer => 8
    case Submit => 9
    case SchedulingReadFreeBusy => 10
    case SchedulingInvite => 11
    case SchedulingReply => 12
    case ModifyItemsOwn => 13
    case ModifyPrivateProperties => 14
    case None => 15
  }

  /** `From<u64> for Acl`: total, with every value from 15 upwards falling on `None`. */
  function FromU64(v: u64): (a: Acl)
    ensures v >= 15 ==> a == None
    ensures v < 15 ==> ToU64(a) == v
  {
    match v
    case 0 => Read
    case 1 => Modify
    case 2 => Delete
    case 3 => ReadItems
    case 4 => AddItems
    case 5 => ModifyItems
    case 6 => RemoveItems
    case 7 => CreateChild
    case 8 => Administer
    case 9 => Submit
    case 10 => SchedulingReadFreeBusy
    case 11 => SchedulingInvite
    case 12 => SchedulingReply
    case 13 => ModifyItemsOwn
    case 14 => ModifyPrivateProperties
    case _ => None
  }

  /** `BitmapItem::max`: the largest value a right can take in a bitmap. */
  function Max(): (m: u64)
    ensures forall a: Acl :: ToU64(a) <= m
    ensures ToU64(None) == m
  {
    ToU64(None)
  }

  /** `BitmapItem::is_valid`: every right except the `None` placeholder. */
  predicate IsValid(a: Acl): (v: bool)
    ensures v <==> ToU64(a) < Max()
  {
    a != None
  }

  /** `as_str`: the right's JMAP name; only `None` prints as the empty string. */
  function Name(a: Acl): (r: string)
    ensures r == "" <==> a == None
    ensures forall i :: 0 <= i < |r| ==> 0 < r[i] as int < 128
  {
    match a
    case Read => "read"
    case Modify => "modify"
    case Delete => "delete"
    case ReadItems => "readItems"
    case AddItems => "addItems"
    case ModifyItems => "modifyItems"
    case RemoveItems => "removeItems"
    case CreateChild => "createChild"
    case Administer => "administer"
    case Submit => "submit"
    case ModifyItemsOwn => "modifyItemsOwn"
    case ModifyPrivateProperties => "modifyPrivateProperties"
    case None => ""
    case SchedulingReadFreeBusy => "schedulingReadFreeBusy"
    case SchedulingInvite => "schedulingInvite"
    case SchedulingReply => "schedulingReply"
  }

  /** The bytes a JSON string holding the right's name unescapes to. */
  function NameBytes(a: Acl): (r: seq<byte>)
    ensures |r| == |Name(a)|
    ensures forall i :: 0 <= i < |r| ==> r[i] != 0
  {
    OctetsOf(Name(a))
  }

  // ---------------------------------------------------------------------------
  // Byte packing

  function Pow2(n: nat): (p: nat)
    ensures p > 0
  {
    if n == 0 then 1 else 2 * Pow2(n - 1)
  }

  function Pow256(n: nat): (p: nat)
    ensures p > 0
  {
    if n == 0 then 1 else 256 * Pow256(n - 1)
  }

  /** The little-endian base-256 number whose digits are the bytes of `s`. */
  function Pack(s: seq<byte>): nat
  {
    PackFrom(s, 0)
  }

  /** The bytes of `s` from index `i` on, as a little-endian base-256 number. */
  function PackFrom(s: seq<byte>, i: nat): nat
    requires i <= |s|
    decreases |s| - i
  {
    if i == |s| then 0 else s[i] as nat + 256 * PackFrom(s, i + 1)
  }

  /** The number of bytes the parser accepts before its `shift < 128` guard fails. */
  const MaxNameBytes: nat := 16

  /** The outcome of parsing a right: a right, or the parser's "invalid value" error. */
  datatype ParseResult = Parsed(acl: Acl) | InvalidValue

  /**
   * The match on the packed value. It accepts exactly the packed names of the
   * ten rights `Read` .. `Submit` (those whose value is below 10).
   */
  function Lookup(hash: nat): (r: ParseResult)
    ensures r.Parsed? ==> ToU64(r.acl) < 10
    ensures hash == 0 ==> r == InvalidValue
  {
    if hash == 0x6461_6572 then Parsed(Read)
    else if hash == 0x7966_6964_6f6d then Parsed(Modify)
    else if hash == 0x6574_656c_6564 then Parsed(Delete)
    else if hash == 0x0073_6d65_7449_6461_6572 then Parsed(ReadItems)
    else if hash == 0x736d_6574_4964_6461 then Parsed(AddItems)
    else if hash == 0x0073_6d65_7449_7966_6964_6f6d then Parsed(ModifyItems)
    else if hash == 0x0073_6d65_7449_6576_6f6d_6572 then Parsed(RemoveItems)
    else if hash == 0x0064_6c69_6843_6574_6165_7263 then Parsed(CreateChild)
    else if hash == 0x7265_7473_696e_696d_6461 then Parsed(Administer)
    else if hash == 0x7469_6d62_7573 then Parsed(Submit)
    else InvalidValue
  }

  /** What parsing the bytes `s` of a JSON string yields. */
  function Decode(s: seq<byte>): (r: ParseResult)
    ensures |s| > MaxNameBytes ==> r == InvalidValue
    ensures s == [] ==> r == InvalidValue
  {
    if |s| > MaxNameBytes then InvalidValue else Lookup(Pack(s))
  }

  /**
   * `JsonObjectParser::parse`: reads the unescaped bytes one at a time and ORs
   * each into `hash` at bit offset `shift`. Since `hash < 2^shift` before each
   * step, the OR sets bits that are all zero, so it is the addition below.
   */
  method Parse(input: seq<byte>) returns (r: ParseResult)
    ensures r == Decode(input)
    ensures |input| > MaxNameBytes ==> r == InvalidValue
  {
    var hash: nat := 0;
    var shift: nat := 0;
    var i := 0;
    while i < |input|
      invariant 0 <= i <= |input| && i <= MaxNameBytes
      invariant shift == 8 * i
      invariant hash == Pack(input[..i]) && hash < Pow2(shift)
    {
      var ch := input[i];
      if shift < 128 {
        ghost var done := input[..i + 1];
        assert done == input[..i] + [ch];
        PackSnoc(input[..i], ch);
        PackBound(done);
        Pow2Bytes(i);
        Pow2Bytes(i + 1);
        hash := hash + ch as nat * Pow2(shift);
        shift := shift + 8;
        i := i + 1;
      } else {
        return InvalidValue;
      }
    }
    assert input[..i] == input;
    r := Lookup(hash);
  }

  // ---------------------------------------------------------------------------
  // Lemmas about the packing

  lemma {:induction false} Pow2Bytes(i: nat)
    ensures Pow2(8 * i) == Pow256(i)
  {
    if i > 0 {
      Pow2Bytes(i - 1);
      var n := 8 * (i - 1);
      calc {
        Pow2(8 * i);
        2 * Pow2(n + 7);
        4 * Pow2(n + 6);
        8 * Pow2(n + 5);
        16 * Pow2(n + 4);
        32 * Pow2(n + 3);
        64 * Pow2(n + 2);
        128 * Pow2(n + 1);
        256 * Pow2(n);
      }
    }
  }

  lemma {:induction false} PackFromSuffix(s: seq<byte>, i: nat)
    requires i <= |s|
    ensures PackFrom(s, i) == Pack(s[i..])
    decreases |s| - i
  {
    var t := s[i..];
    if i < |s| {
      PackFromSuffix(s, i + 1);
      PackFromSuffix(t, 1);
      assert t[1..] == s[i + 1..];
      assert t[1..][0..] == t[1..];
    } else {
      assert t == [];
    }
  }

  /** The lowest digit of a packed number is its first byte. */
  lemma PackCons(s: seq<byte>)
    requires s != []
    ensures Pack(s) == s[0] as nat + 256 * Pack(s[1..])
  {
    PackFromSuffix(s, 1);
  }

  /** Packing `s ++ t` puts the digits of `t` above those of `s`. */
  lemma {:induction false} PackAppend(s: seq<byte>, t: seq<byte>)
    ensures Pack(s + t) == Pack(s) + Pow256(|s|) * Pack(t)
  {
    if s == [] {
      assert s + t == t;
    } else {
      PackAppend(s[1..], t);
      PackCons(s);
      PackCons(s + t);
      assert (s + t)[1..] == s[1..] + t;
      var x, p := Pack(t), Pow256(|s| - 1);
      var px := p * x;
      MulAssoc(256, p, x);
      assert Pack(s + t) == s[0] as nat + 256 * Pack(s[1..]) + 256 * px;
    }
  }

  lemma MulAssoc(a: int, b: int, c: int)
    ensures a * (b * c) == (a * b) * c
  {
  }

  lemma MulAtLeast(p: nat, k: nat)
    requires k > 0
    ensures p * k >= p
  {
  }

  /** A single byte packs to itself. */
  lemma PackSingle(b: byte)
    ensures Pack([b]) == b as nat
  {
    assert PackFrom([b], 1) == 0;
  }

  lemma PackSnoc(s: seq<byte>, b: byte)
    ensures Pack(s + [b]) == Pack(s) + b as nat * Pow256(|s|)
  {
    PackSingle(b);
    PackAppend(s, [b]);
  }

  function Zeros(n: nat): (z: seq<byte>)
    ensures |z| == n && forall i :: 0 <= i < n ==> z[i] == 0
  {
    seq(n, _ => 0)
  }

  /** A packed number of `n` bytes is below 256^n. */
  lemma {:induction false} PackBound(s: seq<byte>)
    ensures Pack(s) < Pow256(|s|)
  {
    if s != [] {
      PackBound(s[1..]);
      PackCons(s);
      assert Pack(s[1..]) + 1 <= Pow256(|s| - 1);
      assert Pack(s) < 256 * (Pack(s[1..]) + 1);
    }
  }

  /** Zero bytes pack to zero. */
  lemma {:induction false} PackZeros(n: nat)
    ensures Pack(Zeros(n)) == 0
  {
    if n > 0 {
      PackZeros(n - 1);
      PackCons(Zeros(n));
      assert Zeros(n)[1..] == Zeros(n - 1);
    }
  }

  /** Trailing zero bytes leave the packed number unchanged. */
  lemma PackTrailingZeros(s: seq<byte>, n: nat)
    ensures Pack(s + Zeros(n)) == Pack(s)
  {
    PackAppend(s, Zeros(n));
    PackZeros(n);
  }

  /** A packed number is zero only when every byte is zero. */
  lemma {:induction false} PackIsZero(s: seq<byte>)
    requires Pack(s) == 0
    ensures s == Zeros(|s|)
  {
    if s != [] {
      PackCons(s);
      PackIsZero(s[1..]);
      assert s == [s[0]] + s[1..];
    }
  }

  /** Two byte strings of one length with the same packed number are equal. */
  lemma {:induction false} PackInjective(s: seq<byte>, t: seq<byte>)
    requires |s| == |t| && Pack(s) == Pack(t)
    ensures s == t
  {
    if s != [] {
      PackCons(s);
      PackCons(t);
      assert s[0] as nat == Pack(s) % 256 == t[0] as nat;
      assert Pack(s[1..]) == Pack(s) / 256 == Pack(t[1..]);
      PackInjective(s[1..], t[1..]);
      assert s == [s[0]] + s[1..] && t == [t[0]] + t[1..];
    }
  }

  /**
   * If `s` packs to the same number as `n`, whose last byte is not zero, then
   * `s` is `n` followed by zero bytes.
   */
  lemma PackedAs(s: seq<byte>, n: seq<byte>)
    requires n != [] && n[|n| - 1] != 0
    requires Pack(s) == Pack(n)
    ensures |s| >= |n| && s[..|n|] == n && s[|n|..] == Zeros(|s| - |n|)
  {
    if |s| < |n| {
      var padded := s + Zeros(|n| - |s|);
      PackTrailingZeros(s, |n| - |s|);
      PackInjective(padded, n);
      assert false;
    }
    var p := Pow256(|n|);
    PackBound(n);
    assert s == s[..|n|] + s[|n|..];
    PackAppend(s[..|n|], s[|n|..]);
    var k := Pack(s[|n|..]);
    if k > 0 {
      MulAtLeast(p, k);
      assert false;
    }
    PackIsZero(s[|n|..]);
    PackInjective(s[..|n|], n);
  }

  // ---------------------------------------------------------------------------
  // The ten constants of the match, evaluated one name at a time

  lemma PackedRead() ensures Pack(NameBytes(Read)) == 0x6461_6572 { }
  lemma PackedModify() ensures Pack(NameBytes(Modify)) == 0x7966_6964_6f6d { }
  lemma PackedDelete() ensures Pack(NameBytes(Delete)) == 0x6574_656c_6564 { }
  lemma PackedReadItems() ensures Pack(NameBytes(ReadItems)) == 0x0073_6d65_7449_6461_6572 { }
  lemma PackedAddItems() ensures Pack(NameBytes(AddItems)) == 0x736d_6574_4964_6461 { }
  lemma PackedModifyItems() ensures Pack(NameBytes(ModifyItems)) == 0x0073_6d65_7449_7966_6964_6f6d { }
  lemma PackedRemoveItems() ensures Pack(NameBytes(RemoveItems)) == 0x0073_6d65_7449_6576_6f6d_6572 { }
  lemma PackedCreateChild() ensures Pack(NameBytes(CreateChild)) == 0x0064_6c69_6843_6574_6165_7263 { }
  lemma PackedAdminister() ensures Pack(NameBytes(Administer)) == 0x7265_7473_696e_696d_6461 { }
  lemma PackedSubmit() ensures Pack(NameBytes(Submit)) == 0x7469_6d62_7573 { }

  /** Only `Read` .. `Submit` are accepted, each at exactly its packed name. */
  lemma LookupAccepts(hash: nat, a: Acl)
    ensures Lookup(hash) == Parsed(a) <==> ToU64(a) < 10 && hash == Pack(NameBytes(a))
  {
    match a
    case Read => PackedRead();
    case Modify => PackedModify();
    case Delete => PackedDelete();
    case ReadItems => PackedReadItems();
    case AddItems => PackedAddItems();
    case ModifyItems => PackedModifyItems();
    case RemoveItems => PackedRemoveItems();
    case CreateChild => PackedCreateChild();
    case Administer => PackedAdminister();
    case Submit => PackedSubmit();
    case _ =>
  }

  // ---------------------------------------------------------------------------
  // Properties of the right's codecs

  /** No two rights share a name. */
  lemma NameInjective(a: Acl, b: Acl)
    requires Name(a) == Name(b)
    ensures a == b
  {
  }

  /** No two rights share a byte string. */
  lemma NameBytesInjective(a: Acl, b: Acl)
    requires NameBytes(a) == NameBytes(b)
    ensures a == b
  {
    var x, y := Name(a), Name(b);
    assert |x| == |y|;
    forall i | 0 <= i < |x| ensures x[i] == y[i] {
      assert x[i] as int == NameBytes(a)[i] as int == y[i] as int;
    }
    assert x == y;
    NameInjective(a, b);
  }

  /**
   * Parsing accepts exactly the names of `Read` .. `Submit`, each possibly
   * followed by zero bytes up to sixteen bytes in all; everything else, the
   * empty string included, is an invalid value.
   */
  lemma DecodeExactly(s: seq<byte>, a: Acl)
    ensures Decode(s) == Parsed(a) <==>
      var n := NameBytes(a);
      && ToU64(a) < 10
      && |n| <= |s| <= MaxNameBytes
      && s[..|n|] == n
      && s[|n|..] == Zeros(|s| - |n|)
  {
    var n := NameBytes(a);
    LookupAccepts(Pack(s), a);
    if Decode(s) == Parsed(a) {
      assert n != [] && n[|n| - 1] != 0;
      PackedAs(s, n);
    }
    if ToU64(a) < 10 && |n| <= |s| <= MaxNameBytes && s[..|n|] == n && s[|n|..] == Zeros(|s| - |n|) {
      assert s == n + Zeros(|s| - |n|);
      PackTrailingZeros(n, |s| - |n|);
    }
  }

  /** Printing one of `Read` .. `Submit` and parsing the name gives the right back. */
  lemma NameRoundTrip(a: Acl)
    requires ToU64(a) < 10
    ensures Decode(NameBytes(a)) == Parsed(a)
  {
    var n := NameBytes(a);
    assert n[..|n|] == n && n[|n|..] == [];
    DecodeExactly(n, a);
  }

  /**
   * The names of the other six rights do not parse: `None`'s empty name, the
   * three that fit in sixteen bytes (`modifyItemsOwn`, `schedulingReply`,
   * `schedulingInvite`), and the two that are too long for the parser
   * (`schedulingReadFreeBusy`, `modifyPrivateProperties`).
   */
  lemma OtherNamesRejected(a: Acl)
    requires ToU64(a) >= 10
    ensures Decode(NameBytes(a)) == InvalidValue
  {
    var s := NameBytes(a);
    if Decode(s).Parsed? {
      var b := Decode(s).acl;
      var n := NameBytes(b);
      DecodeExactly(s, b);
      ZeroTail(s, |n|);
      assert s == s[..|n|];
      NameBytesInjective(a, b);
    }
  }

  /** An all-zero tail starts with a zero byte unless it is empty. */
  lemma ZeroTail(s: seq<byte>, k: nat)
    requires k <= |s| && s[k..] == Zeros(|s| - k)
    ensures k == |s| || s[k] == 0
  {
    if k < |s| {
      assert s[k] == s[k..][0];
    }
  }

  /** Zero bytes appended within the sixteen-byte limit do not change the outcome. */
  lemma DecodeIgnoresTrailingZeros(s: seq<byte>, k: nat)
    requires |s| + k <= MaxNameBytes
    ensures Decode(s + Zeros(k)) == Decode(s)
  {
    PackTrailingZeros(s, k);
  }

  /** Converting a right to its integer and back gives the right again. */
  lemma IntegerRoundTrip(a: Acl)
    ensures FromU64(ToU64(a)) == a
  {
  }

  /** Every value below 15 names a distinct right: `ToU64` undoes `FromU64` there. */
  lemma IntegerRoundTripBack(v: u64)
    ensures ToU64(FromU64(v)) == if v < 15 then v else Max()
  {
  }

  /** A right is valid in a bitmap exactly when it is below `Max()`, and exactly when its name is not empty. */
  lemma ValidRights(a: Acl)
    ensures IsValid(a) <==> ToU64(a) < Max()
    ensures IsValid(a) <==> Name(a) != ""
  {
  }
}
