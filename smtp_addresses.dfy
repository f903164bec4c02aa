/**
 * Recipient address mapping for SMTP: sub-address stripping
 * (`user+tag@domain` becomes `user@domain`), the catch-all address of a
 * domain (`@domain`), and the two-attempt resolution of a recipient against
 * the directory that uses them.
 */
module SmtpAddresses {
  import opened Wrappers

  // ---------------------------------------------------------------------------
  // Splitting a string at a character

  /** The index of the first occurrence of `c` in `s`, if any. */
  function FirstIndexOf(s: string, c: char): (r: Option<nat>)
    ensures r.None? <==> c !in s
    ensures r.Some? ==> r.value < |s| && s[r.value] == c && c !in s[..r.value]
  {
    if s == [] then None
    else if s[0] == c then Some(0)
    else match FirstIndexOf(s[1..], c)
      case None => None
      case Some(i) => assert s[..i + 1] == [s[0]] + s[1..][..i]; Some(i + 1)
  }

  /** The index of the last occurrence of `c` in `s`, if any. */
  function LastIndexOf(s: string, c: char): (r: Option<nat>)
    ensures r.None? <==> c !in s
    ensures r.Some? ==> r.value < |s| && s[r.value] == c && c !in s[r.value + 1..]
  {
    if s == [] then None
    else if s[|s| - 1] == c then Some(|s| - 1)
    else
      var init := s[..|s| - 1];
      assert s == init + [s[|s| - 1]];
      match LastIndexOf(init, c)
      case None => None
      case Some(i) => assert s[i + 1..] == init[i + 1..] + [s[|s| - 1]]; Some(i)
  }

  /** Rust's `str::split_once`: the parts before and after the first `c`. */
  function SplitOnce(s: string, c: char): Option<(string, string)>
  {
    match FirstIndexOf(s, c)
    case None => None
    case Some(i) => Some((s[..i], s[i + 1..]))
  }

  /** Rust's `str::rsplit_once`: the parts before and after the last `c`. */
  function RSplitOnce(s: string, c: char): Option<(string, string)>
  {
    match LastIndexOf(s, c)
    case None => None
    case Some(i) => Some((s[..i], s[i + 1..]))
  }

  /** The first `c` of `head ++ [c] ++ rest` is the one after `head` when `head` holds none. */
  lemma {:induction false} FirstIndexAt(head: string, c: char, rest: string)
    requires c !in head
    ensures FirstIndexOf(head + [c] + rest, c) == Some(|head|)
  {
    var s := head + [c] + rest;
    if head == [] {
      assert s[0] == c;
    } else {
      assert s[0] == head[0] != c;
      assert s[1..] == head[1..] + [c] + rest;
      FirstIndexAt(head[1..], c, rest);
    }
  }

  /** The last `c` of `init ++ [c] ++ tail` is the one before `tail` when `tail` holds none. */
  lemma {:induction false} LastIndexAt(init: string, c: char, tail: string)
    requires c !in tail
    ensures LastIndexOf(init + [c] + tail, c) == Some(|init|)
  {
    var s := init + [c] + tail;
    if tail == [] {
      assert s[|s| - 1] == c;
    } else {
      assert s[|s| - 1] == tail[|tail| - 1] != c;
      assert s[..|s| - 1] == init + [c] + tail[..|tail| - 1];
      LastIndexAt(init, c, tail[..|tail| - 1]);
    }
  }

  /** `rsplit_once` of `local ++ [c] ++ tail` when `c` does not occur in `tail`. */
  lemma RSplitOnceAt(local: string, c: char, tail: string)
    requires c !in tail
    ensures RSplitOnce(local + [c] + tail, c) == Some((local, tail))
  {
    var s := local + [c] + tail;
    LastIndexAt(local, c, tail);
    assert s[..|local|] == local && s[|local| + 1..] == tail;
  }

  /** `split_once` of `head ++ [c] ++ rest` when `c` does not occur in `head`. */
  lemma SplitOnceAt(head: string, c: char, rest: string)
    requires c !in head
    ensures SplitOnce(head + [c] + rest, c) == Some((head, rest))
  {
    var s := head + [c] + rest;
    FirstIndexAt(head, c, rest);
    assert s[..|head|] == head && s[|head| + 1..] == rest;
  }

  // ---------------------------------------------------------------------------
  // Address mapping

  /**
   * How an address is rewritten. `Custom` evaluates a configured expression on
   * the address; the expression engine is not part of this model, so the rule
   * is given by the value the expression yields for each address.
   */
  datatype AddressMapping =
    | Enable
    | Disable
    | Custom(eval: string -> Option<string>)

  /** An address whose local part (before the last `@`) holds no `+`; an address without `@` counts as one. */
  predicate Untagged(address: string)
  {
    match RSplitOnce(address, '@')
    case None => true
    case Some((local, _)) => '+' !in local
  }

  /** `AddressMapping::to_subaddress`: the address with its `+tag` sub-address removed. */
  function ToSubaddress(mapping: AddressMapping, address: string): (r: string)
    ensures mapping.Enable? ==> Untagged(r)
    ensures mapping.Enable? && Untagged(address) ==> r == address
  {
    match mapping
    case Enable =>
      (match RSplitOnce(address, '@')
       case Some((localPart, domainPart)) =>
         (match SplitOnce(localPart, '+')
          case Some((local, _)) =>
            var r := local + "@" + domainPart;
            RSplitOnceAt(local, '@', domainPart);
            r
          case None => address)
       case None => address)
    case Custom(eval) =>
      (match eval(address)
       case Some(result) => result
       case None => address)
    case Disable => address
  }

  /** `AddressMapping::to_catch_all`: the catch-all address `@domain` of an address's domain. */
  function ToCatchAll(mapping: AddressMapping, address: string): (r: Option<string>)
    ensures mapping.Enable? ==> (r.Some? <==> '@' in address)
    ensures mapping.Enable? && r.Some? ==> |r.value| >= 1 && r.value[0] == '@' && '@' !in r.value[1..]
    ensures mapping.Disable? ==> r.None?
  {
    match mapping
    case Enable =>
      (match RSplitOnce(address, '@')
       case Some((_, domainPart)) => assert ("@" + domainPart)[1..] == domainPart; Some("@" + domainPart)
       case None => None)
    case Custom(eval) => eval(address)
    case Disable => None
  }

  /** With sub-addressing enabled, `local+tag@domain` maps to `local@domain`. */
  lemma SubaddressStripsTag(local: string, tag: string, domain: string)
    requires '+' !in local && '@' !in domain
    ensures ToSubaddress(Enable, local + "+" + tag + "@" + domain) == local + "@" + domain
  {
    var localPart := local + "+" + tag;
    assert local + "+" + tag + "@" + domain == localPart + ['@'] + domain;
    RSplitOnceAt(localPart, '@', domain);
    assert localPart == local + ['+'] + tag;
    SplitOnceAt(local, '+', tag);
  }

  /** With sub-addressing enabled, an address with no `+` before its last `@`, or with no `@`, is kept. */
  lemma SubaddressKeepsUntagged(local: string, domain: string)
    requires '+' !in local && '@' !in domain
    ensures ToSubaddress(Enable, local + "@" + domain) == local + "@" + domain
    ensures '@' !in local + domain ==> ToSubaddress(Enable, local + domain) == local + domain
  {
    RSplitOnceAt(local, '@', domain);
  }

  /** With sub-addressing enabled, stripping twice is stripping once. */
  lemma SubaddressIdempotent(address: string)
    ensures ToSubaddress(Enable, ToSubaddress(Enable, address)) == ToSubaddress(Enable, address)
  {
  }

  /** A disabled mapping keeps the address and has no catch-all. */
  lemma DisabledMapping(address: string)
    ensures ToSubaddress(Disable, address) == address
    ensures ToCatchAll(Disable, address) == None
  {
  }

  /** With catch-all enabled, the catch-all of `local@domain` is `@domain`. */
  lemma CatchAllOfDomain(local: string, domain: string)
    requires '@' !in domain
    ensures ToCatchAll(Enable, local + "@" + domain) == Some("@" + domain)
  {
    RSplitOnceAt(local, '@', domain);
  }

  // ---------------------------------------------------------------------------
  // Recipient resolution

  newtype u32 = x: int | 0 <= x < 0x1_0000_0000

  /** A failure reported by the directory backend. */
  datatype DirectoryError = DirectoryError(reason: string)

  /** What the directory says about a recipient; only `Invalid` matters to the resolution rule. */
  datatype RcptType = Mailbox | List(members: seq<string>) | Invalid

  /** The session's recipient settings: how to strip sub-addresses and how to form a catch-all. */
  datatype RcptConfig = RcptConfig(subaddressing: AddressMapping, catchAll: AddressMapping)

  /**
   * The addresses a recipient is looked up under, in order: the address with
   * its sub-address stripped, then the catch-all formed from the address as
   * the client gave it.
   */
  function Candidates(config: RcptConfig, email: string): (r: seq<string>)
    ensures 1 <= |r| <= 2
    ensures r[0] == ToSubaddress(config.subaddressing, email)
    ensures |r| == 2 <==> ToCatchAll(config.catchAll, email).Some?
    ensures |r| == 2 ==> r[1] == ToCatchAll(config.catchAll, email).value
  {
    [ToSubaddress(config.subaddressing, email)] +
    match ToCatchAll(config.catchAll, email)
    case Some(catchAll) => [catchAll]
    case None => []
  }

  /**
   * `Server::email_to_id`: the account id of a recipient. The directory is
   * asked about at most two addresses, in the order of `Candidates`; `lookups`
   * records the addresses asked about. The result is the answer to the last
   * lookup: the first id found, the first error, or none when every candidate
   * was tried and none was found.
   */
  method EmailToId(config: RcptConfig, directory: string -> Result<Option<u32>, DirectoryError>, email: string)
    returns (r: Result<Option<u32>, DirectoryError>, ghost lookups: seq<string>)
    ensures 1 <= |lookups| <= |Candidates(config, email)|
    ensures lookups == Candidates(config, email)[..|lookups|]
    ensures forall i :: 0 <= i < |lookups| - 1 ==> directory(lookups[i]) == Ok(None)
    ensures r == directory(lookups[|lookups| - 1])
    ensures r == Ok(None) ==> lookups == Candidates(config, email)
    ensures directory(Candidates(config, email)[0]) != Ok(None) ==> r == directory(Candidates(config, email)[0])
    ensures directory(Candidates(config, email)[0]) == Ok(None) ==>
      r == if |Candidates(config, email)| == 2 then directory(Candidates(config, email)[1]) else Ok(None)
  {
    ghost var candidates := Candidates(config, email);
    var address := ToSubaddress(config.subaddressing, email);
    lookups := [];
    for attempt := 0 to 2
      invariant |lookups| == attempt <= |candidates|
      invariant lookups == candidates[..attempt]
      invariant forall i :: 0 <= i < attempt ==> directory(lookups[i]) == Ok(None)
      invariant attempt < 2 ==> attempt < |candidates| && address == candidates[attempt]
    {
      var result := directory(address);
      lookups := lookups + [address];
      if result.Err? || result.value.Some? {
        return result, lookups;
      }
      match ToCatchAll(config.catchAll, email)
      case Some(catchAll) =>
        address := catchAll;
      case None =>
        break;
    }
    r := Ok(None);
  }

  /**
   * `Server::rcpt`: the kind of a recipient. Like `EmailToId`, it asks the
   * directory about at most two addresses, in the order of `Candidates`, and
   * answers with the last lookup: the first answer that is not `Invalid`, the
   * first error, or `Invalid` when every candidate was `Invalid`.
   */
  method Rcpt(config: RcptConfig, directory: string -> Result<RcptType, DirectoryError>, email: string)
    returns (r: Result<RcptType, DirectoryError>, ghost lookups: seq<string>)
    ensures 1 <= |lookups| <= |Candidates(config, email)|
    ensures lookups == Candidates(config, email)[..|lookups|]
    ensures forall i :: 0 <= i < |lookups| - 1 ==> directory(lookups[i]) == Ok(Invalid)
    ensures r == directory(lookups[|lookups| - 1])
    ensures r == Ok(Invalid) ==> lookups == Candidates(config, email)
    ensures directory(Candidates(config, email)[0]) != Ok(Invalid) ==> r == directory(Candidates(config, email)[0])
    ensures directory(Candidates(config, email)[0]) == Ok(Invalid) ==>
      r == if |Candidates(config, email)| == 2 then directory(Candidates(config, email)[1]) else Ok(Invalid)
  {
    ghost var candidates := Candidates(config, email);
    var address := ToSubaddress(config.subaddressing, email);
    lookups := [];
    for attempt := 0 to 2
      invariant |lookups| == attempt <= |candidates|
      invariant lookups == candidates[..attempt]
      invariant forall i :: 0 <= i < attempt ==> directory(lookups[i]) == Ok(Invalid)
      invariant attempt < 2 ==> attempt < |candidates| && address == candidates[attempt]
    {
      var rcptType := directory(address);
      lookups := lookups + [address];
      if rcptType.Err? || rcptType.value != Invalid {
        return rcptType, lookups;
      }
      match ToCatchAll(config.catchAll, email)
      case Some(catchAll) =>
        address := catchAll;
      case None =>
        break;
    }
    r := Ok(Invalid);
  }

  /** A tagged address is looked up without its tag, then under its domain's catch-all. */
  lemma CandidatesOfTaggedAddress()
    ensures Candidates(RcptConfig(Enable, Enable), "jo+x@ex") == ["jo@ex", "@ex"]
  {
    var email := "jo+x@ex";
    assert email == "jo" + "+" + "x" + "@" + "ex";
    assert email == "jo+x" + "@" + "ex";
    SubaddressStripsTag("jo", "x", "ex");
    CatchAllOfDomain("jo+x", "ex");
    assert "jo" + "@" + "ex" == "jo@ex" && "@" + "ex" == "@ex";
  }
}
