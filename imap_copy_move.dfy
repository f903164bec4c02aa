/**
 * The argument parser of the IMAP `COPY` and `MOVE` commands: from a scanned
 * request (its tag and its argument tokens) to the sequence set, the mailbox
 * name and the tag, or to an error carrying the request's tag.
 *
 * The sequence-set parser, the token unwrapping functions and the modified
 * UTF-7 mailbox-name decoder are collaborators defined elsewhere; they are
 * parameters here, so every property below holds whatever they do.
 */
module ImapCopyMove {
  import opened Wrappers
  import opened Octets

  datatype ProtocolVersion = Rev1 | Rev2

  datatype Command = Copy | Move

  /** A scanned argument: an atom, a quoted string (escapes resolved) or a literal. */
  datatype Token =
    | Atom(bytes: seq<byte>)
    | QuotedString(text: string)
    | Literal(data: seq<byte>, nonSynchronizing: bool)

  /** A fully scanned command line. */
  datatype Request = Request(tag: string, command: Command, tokens: seq<Token>)

  /** An end of a range: a message number, or `*` for the largest one in the mailbox. */
  datatype SequenceBound = Id(n: nat) | Largest

  /** A parsed sequence set. */
  datatype Sequence =
    | Number(value: SequenceBound)
    | Range(start: SequenceBound, end: SequenceBound)
    | SavedSearch
    | List(items: seq<Sequence>)

  /** What a `COPY` or `MOVE` command operates on. */
  datatype Arguments = Arguments(sequenceSet: Sequence, mailboxName: string, tag: string)

  /**
   * The two errors this parser produces: `Bad` is what `bad(tag, message)`
   * builds, `RequestError` what the request's `into_error(message)` builds.
   */
  datatype ImapError =
    | Bad(tag: string, message: string)
    | RequestError(tag: string, command: Command, message: string)

  /** The functions the parser delegates to, which are not part of this model. */
  datatype Collaborators = Collaborators(
    parseSequenceSet: seq<byte> -> Result<Sequence, string>,
    unwrapBytes: Token -> seq<byte>,
    unwrapString: Token -> Result<string, string>,
    utf7MaybeDecode: (string, ProtocolVersion) -> string)

  const MissingArguments := "Missing arguments."

  /** The token an iterator over `tokens` yields after `position` earlier calls. */
  function Next(tokens: seq<Token>, position: nat): (r: Option<Token>)
    ensures r.Some? <==> position < |tokens|
  {
    if position < |tokens| then Some(tokens[position]) else None
  }

  /**
   * `Request::parse_copy_move`. With fewer than two tokens the request is
   * rejected. Otherwise the first token is the sequence set and the second the
   * mailbox name; the iterator cannot run dry there, so the two "missing"
   * errors of the source are dead code. Tokens after the second are ignored.
   */
  function ParseCopyMove(request: Request, version: ProtocolVersion, c: Collaborators): (r: Result<Arguments, ImapError>)
    ensures r.Ok? ==> r.value.tag == request.tag
    ensures r.Err? ==> r.error.tag == request.tag
    ensures r == Err(RequestError(request.tag, request.command, MissingArguments)) <==> |request.tokens| < 2
    ensures r.Ok? <==>
      && |request.tokens| >= 2
      && c.parseSequenceSet(c.unwrapBytes(request.tokens[0])).Ok?
      && c.unwrapString(request.tokens[1]).Ok?
    ensures r.Ok? ==>
      && c.parseSequenceSet(c.unwrapBytes(request.tokens[0])) == Ok(r.value.sequenceSet)
      && r.value.mailboxName == c.utf7MaybeDecode(c.unwrapString(request.tokens[1]).value, version)
    ensures |request.tokens| >= 2 && c.parseSequenceSet(c.unwrapBytes(request.tokens[0])).Err? ==>
      r == Err(Bad(request.tag, c.parseSequenceSet(c.unwrapBytes(request.tokens[0])).error))
    ensures |request.tokens| >= 2 && c.parseSequenceSet(c.unwrapBytes(request.tokens[0])).Ok?
            && c.unwrapString(request.tokens[1]).Err? ==>
      r == Err(Bad(request.tag, c.unwrapString(request.tokens[1]).error))
  {
    if |request.tokens| > 1 then
      match Next(request.tokens, 0)
      case None => assert false; Err(Bad(request.tag, "Missing sequence set."))
      case Some(first) =>
        match c.parseSequenceSet(c.unwrapBytes(first))
        case Err(message) => Err(Bad(request.tag, message))
        case Ok(sequenceSet) =>
          match Next(request.tokens, 1)
          case None => assert false; Err(Bad(request.tag, "Missing mailbox name."))
          case Some(second) =>
            match c.unwrapString(second)
            case Err(message) => Err(Bad(request.tag, message))
            case Ok(name) => Ok(Arguments(sequenceSet, c.utf7MaybeDecode(name, version), request.tag))
    else
      Err(RequestError(request.tag, request.command, MissingArguments))
  }

  /** Tokens after the second change nothing: there is no "too many arguments" error. */
  lemma ExtraTokensIgnored(request: Request, version: ProtocolVersion, c: Collaborators, extra: seq<Token>)
    requires |request.tokens| >= 2
    ensures ParseCopyMove(request.(tokens := request.tokens + extra), version, c) == ParseCopyMove(request, version, c)
  {
    var longer := request.(tokens := request.tokens + extra);
    assert longer.tokens[0] == request.tokens[0] && longer.tokens[1] == request.tokens[1];
  }

  /** The tag is only carried along: changing it changes the tag of the result and nothing else. */
  lemma TagIsOnlyCarried(request: Request, version: ProtocolVersion, c: Collaborators, tag: string)
    ensures
      var r, r' := ParseCopyMove(request, version, c), ParseCopyMove(request.(tag := tag), version, c);
      && r.Ok? == r'.Ok?
      && (r.Ok? ==> r'.value == r.value.(tag := tag))
      && (r.Err? ==> r'.error == r.error.(tag := tag))
  {
  }

  /** Collaborators behaving as the real ones do on the inputs of the examples below. */
  function ExampleCollaborators(): Collaborators
  {
    Collaborators(
      (b: seq<byte>) => if b == OctetsOf("2:4") then Ok(Range(Id(2), Id(4))) else Err("Invalid sequence set."),
      (t: Token) => match t
           case Atom(b) => b
           case QuotedString(s) => []
           case Literal(b, _) => b,
      (t: Token) => match t
           case Atom(b) => Ok(TextOf(b))
           case QuotedString(s) => Ok(s)
           case Literal(b, _) => Ok(TextOf(b)),
      (s: string, v: ProtocolVersion) => if s == "You &- Me" then "You & Me" else s)
  }

  /** `A003 COPY 2:4 MEETING` and `A003 COPY 2:4 "You &- Me"`. */
  lemma CopyExamples()
    ensures ParseCopyMove(Request("A003", Copy, [Atom(OctetsOf("2:4")), Atom(OctetsOf("MEETING"))]), Rev1, ExampleCollaborators())
            == Ok(Arguments(Range(Id(2), Id(4)), "MEETING", "A003"))
    ensures ParseCopyMove(Request("A003", Copy, [Atom(OctetsOf("2:4")), QuotedString("You &- Me")]), Rev1, ExampleCollaborators())
            == Ok(Arguments(Range(Id(2), Id(4)), "You & Me", "A003"))
  {
    TextOfOctets("MEETING");
  }
}
