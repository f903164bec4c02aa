# Stalwart mail server: ACL rights, recipient address mapping, IMAP COPY/MOVE arguments

This project models three small pieces of the Stalwart mail server and proves properties about them.

- **The JMAP access-control right `Acl`** (`jmap_acl.dfy`, module `JmapAcl`). It covers:
  - the sixteen variants and their fixed numeric values;
  - the conversions to and from `u64`;
  - the bitmap bounds `max` and `is_valid`;
  - the name each right prints as (`as_str`).

  It also covers the JSON parser for a right. The parser packs at most sixteen unescaped bytes into a little-endian base-256 number (a `u128`). It then matches that number against ten constants. `Parse` is the parser's loop. `Decode` is the function it is proved equal to. The lemmas tie `Decode` to the names, in both directions.
- **SMTP recipient address mapping** (`smtp_addresses.dfy`, module `SmtpAddresses`).
  - Sub-address stripping: `user+tag@domain` becomes `user@domain`.
  - The catch-all address `@domain`.
  - The rule that resolves a recipient against the directory. It tries the stripped address first, then the catch-all, with at most two lookups. It does this once for account ids (`EmailToId`) and once for recipient kinds (`Rcpt`).

  The directory is a function parameter. A ghost out-parameter records which addresses were looked up, in order.
- **The IMAP `COPY`/`MOVE` argument parser** (`imap_copy_move.dfy`, module `ImapCopyMove`). It maps a scanned request (tag and tokens) to the sequence set, the mailbox name and the tag. On failure it returns an error that carries the tag. Its collaborators are function parameters:
  - the sequence-set parser;
  - the token unwrapping functions;
  - the modified UTF-7 decoder.

`wrappers.dfy` holds `Option` and `Result`. `octets.dfy` holds the byte type and the conversion between byte-valued text and bytes.

## Model

| member | source | states |
|---|---|---|
| JmapAcl.ToU64 | crates/jmap-proto/src/types/acl.rs:28-45 | every right's discriminant is below 16 |
| JmapAcl.FromU64 | crates/jmap-proto/src/types/acl.rs:134-155 | the conversion from `u64` is total: every value of 15 or more gives `None`, and every smaller value gives the right with that discriminant |
| JmapAcl.IntegerRoundTrip | crates/jmap-proto/src/types/acl.rs:128-154 | converting a right to `u64` and back gives the same right |
| JmapAcl.IntegerRoundTripBack | crates/jmap-proto/src/types/acl.rs:134-154 | converting a `u64` to a right and back gives the value itself below 15, and `max()` otherwise |
| JmapAcl.Max | crates/jmap-proto/src/types/acl.rs:119-121 | `max()` bounds every right's value and is `None`'s value |
| JmapAcl.IsValid | crates/jmap-proto/src/types/acl.rs:123-125 | `is_valid` holds exactly for the rights whose value is below `max()`, that is every right except `None` |
| JmapAcl.ValidRights | crates/jmap-proto/src/types/acl.rs:123-125 | a right is valid exactly when its value is below `max()`, and exactly when its name is not empty |
| JmapAcl.Name | crates/jmap-proto/src/types/acl.rs:80-100 | the name is empty exactly for `None`; every other name is non-empty ASCII with no NUL |
| JmapAcl.NameBytes | crates/jmap-proto/src/types/acl.rs:80-100 | the name's bytes have the name's length, and none of them is zero |
| JmapAcl.NameInjective | crates/jmap-proto/src/types/acl.rs:81-99 | no two rights share a name |
| JmapAcl.NameBytesInjective | crates/jmap-proto/src/types/acl.rs:81-99 | no two rights share a byte string |
| JmapAcl.Lookup | crates/jmap-proto/src/types/acl.rs:64-76 | the ten-arm match on the packed value: it yields only rights whose value is below 10 (`Read` .. `Submit`), and the packed value 0 of empty input is an error |
| JmapAcl.Decode | crates/jmap-proto/src/types/acl.rs:52-76 | what parsing yields, as a function of the input bytes: input longer than 16 bytes and the empty input are errors; `Parse` is proved equal to it |
| JmapAcl.Parse | crates/jmap-proto/src/types/acl.rs:47-77 | the byte loop computes `Decode` of its input; any input longer than 16 bytes is an invalid value, because the 17th byte meets the `shift < 128` guard |
| JmapAcl.Pow2Bytes | crates/jmap-proto/src/types/acl.rs:57-58 | a shift of `8·i` bits multiplies by `256^i` |
| JmapAcl.PackSnoc | crates/jmap-proto/src/types/acl.rs:55-58 | putting one more byte in at the next shift adds `byte·256^len` to the packed value |
| JmapAcl.PackAppend | crates/jmap-proto/src/types/acl.rs:55-58 | the packed value of a concatenation is the first part's value plus the second's, scaled by `256^len` |
| JmapAcl.PackBound | crates/jmap-proto/src/types/acl.rs:52-61 | the packed value of `n` bytes is below `256^n`, so sixteen bytes fit the `u128` accumulator; this is the bound that keeps the bit ranges of successive ORs apart |
| JmapAcl.PackTrailingZeros | crates/jmap-proto/src/types/acl.rs:52-58 | trailing zero bytes do not change the packed value |
| JmapAcl.PackIsZero | crates/jmap-proto/src/types/acl.rs:52-58 | only all-zero inputs pack to 0 |
| JmapAcl.PackInjective | crates/jmap-proto/src/types/acl.rs:52-58 | inputs of equal length with equal packed values are equal |
| JmapAcl.PackedAs | crates/jmap-proto/src/types/acl.rs:52-58 | an input packing to the value of a string that ends in a non-zero byte is that string followed only by zero bytes |
| JmapAcl.PackedRead | crates/jmap-proto/src/types/acl.rs:65 | the constant for `Read` is the packed value of "read" |
| JmapAcl.PackedModify | crates/jmap-proto/src/types/acl.rs:66 | the constant for `Modify` is the packed value of "modify" |
| JmapAcl.PackedDelete | crates/jmap-proto/src/types/acl.rs:67 | the constant for `Delete` is the packed value of "delete" |
| JmapAcl.PackedReadItems | crates/jmap-proto/src/types/acl.rs:68 | the constant for `ReadItems` is the packed value of "readItems" |
| JmapAcl.PackedAddItems | crates/jmap-proto/src/types/acl.rs:69 | the constant for `AddItems` is the packed value of "addItems" |
| JmapAcl.PackedModifyItems | crates/jmap-proto/src/types/acl.rs:70 | the constant for `ModifyItems` is the packed value of "modifyItems" |
| JmapAcl.PackedRemoveItems | crates/jmap-proto/src/types/acl.rs:71 | the constant for `RemoveItems` is the packed value of "removeItems" |
| JmapAcl.PackedCreateChild | crates/jmap-proto/src/types/acl.rs:72 | the constant for `CreateChild` is the packed value of "createChild" |
| JmapAcl.PackedAdminister | crates/jmap-proto/src/types/acl.rs:73 | the constant for `Administer` is the packed value of "administer" |
| JmapAcl.PackedSubmit | crates/jmap-proto/src/types/acl.rs:74 | the constant for `Submit` is the packed value of "submit" |
| JmapAcl.LookupAccepts | crates/jmap-proto/src/types/acl.rs:64-76 | the match yields a right exactly for `Read` .. `Submit` at their packed names; every other packed value is an error |
| JmapAcl.DecodeExactly | crates/jmap-proto/src/types/acl.rs:52-76 | parsing yields right `a` exactly when `a` is one of `Read` .. `Submit` and the input is `a`'s name followed by zero bytes, 16 bytes at most in all; the empty input is an error |
| JmapAcl.NameRoundTrip | crates/jmap-proto/src/types/acl.rs:64-100 | parsing the name of any of `Read` .. `Submit` gives that right back |
| JmapAcl.OtherNamesRejected | crates/jmap-proto/src/types/acl.rs:55-100 | the names of the other six rights are errors: `None`'s empty name, the names no longer than 16 bytes, and the longer ones |
| JmapAcl.ZeroTail | crates/jmap-proto/src/types/acl.rs:52-58 | an all-zero tail is empty or starts with a zero byte |
| JmapAcl.DecodeIgnoresTrailingZeros | crates/jmap-proto/src/types/acl.rs:52-76 | zero bytes appended within the 16-byte limit do not change the outcome of parsing |
| SmtpAddresses.FirstIndexOf | crates/common/src/addresses.rs:190 | the first occurrence of a character, or none exactly when it is absent |
| SmtpAddresses.LastIndexOf | crates/common/src/addresses.rs:189 | the last occurrence of a character, or none exactly when it is absent |
| SmtpAddresses.FirstIndexAt | crates/common/src/addresses.rs:190 | in `head ++ c ++ rest`, with no `c` in `head`, the first `c` follows `head` |
| SmtpAddresses.LastIndexAt | crates/common/src/addresses.rs:189 | in `init ++ c ++ tail`, with no `c` in `tail`, the last `c` precedes `tail` |
| SmtpAddresses.RSplitOnceAt | crates/common/src/addresses.rs:189 | `rsplit_once('@')` splits at the last `@` |
| SmtpAddresses.SplitOnceAt | crates/common/src/addresses.rs:190 | `split_once('+')` splits at the first `+` |
| SmtpAddresses.ToSubaddress | crates/common/src/addresses.rs:181-207 | under `Enable`, the result has no `+` before its last `@`, and an address that already has none is returned unchanged |
| SmtpAddresses.ToCatchAll | crates/common/src/addresses.rs:209-226 | under `Enable`, there is a catch-all exactly when the address has an `@`, and it is `@` followed by text without `@`; under `Disable` there is none |
| SmtpAddresses.SubaddressStripsTag | crates/common/src/addresses.rs:188-192 | under `Enable`, `local+tag@domain` becomes `local@domain` (local part cut at its first `+`, domain after the last `@`) |
| SmtpAddresses.SubaddressKeepsUntagged | crates/common/src/addresses.rs:188-206 | under `Enable`, an address with no `+` before its last `@`, or with no `@` at all, is returned unchanged |
| SmtpAddresses.SubaddressIdempotent | crates/common/src/addresses.rs:188-194 | under `Enable`, stripping twice is the same as stripping once |
| SmtpAddresses.DisabledMapping | crates/common/src/addresses.rs:203-224 | under `Disable`, the address is kept and there is no catch-all |
| SmtpAddresses.CatchAllOfDomain | crates/common/src/addresses.rs:216-219 | under `Enable`, the catch-all of `local@domain` is `@domain` |
| SmtpAddresses.Candidates | crates/common/src/addresses.rs:26-51 | the addresses looked up: first the stripped address, then the catch-all of the original email when there is one |
| SmtpAddresses.EmailToId | crates/common/src/addresses.rs:20-56 | at most two lookups, in the order of `Candidates`; every lookup before the last found nothing; the result is the last lookup's answer (the first id found, or the first error); none only after every candidate was tried |
| SmtpAddresses.Rcpt | crates/common/src/addresses.rs:58-94 | at most two lookups, in the order of `Candidates`; every lookup before the last answered `Invalid`; the result is the first answer that is not `Invalid`, or the first error; `Invalid` only after every candidate answered `Invalid` |
| SmtpAddresses.CandidatesOfTaggedAddress | crates/common/src/addresses.rs:26-51 | with both mappings enabled, `jo+x@ex` is looked up as `jo@ex`, then as `@ex` |
| ImapCopyMove.Next | crates/imap-proto/src/parser/copy_move.rs:21-34 | the token iterator yields a token exactly while tokens remain |
| ImapCopyMove.ParseCopyMove | crates/imap-proto/src/parser/copy_move.rs:19-44 | fewer than two tokens, and only that, give the request's own error "Missing arguments."; otherwise a sequence-set parse error or a string-unwrap error comes back as `bad` with the tag and that message verbatim; success comes exactly when both succeed, with the sequence set parsed from the first token's bytes, the mailbox name the UTF-7-decoded second token, and the request's tag |
| ImapCopyMove.ExtraTokensIgnored | crates/imap-proto/src/parser/copy_move.rs:20-40 | tokens after the second do not change the result; there is no "too many arguments" error |
| ImapCopyMove.TagIsOnlyCarried | crates/imap-proto/src/parser/copy_move.rs:27-39 | changing the request's tag changes only the tag of the result or error |
| ImapCopyMove.CopyExamples | crates/imap-proto/src/parser/copy_move.rs:58-87 | `A003 COPY 2:4 MEETING` gives `Range(2, 4)`, "MEETING", "A003"; `A003 COPY 2:4 "You &- Me"` gives "You & Me", with collaborators that behave as the real ones do on these inputs |

## Left out

- JSON unescaping (`next_unescaped`) and the error it can raise are not modelled. The parser's input is the already-unescaped byte sequence.
- `Display` and `serde::Serialize` for `Acl` are not modelled. Both only write `as_str`, which is `JmapAcl.Name`.
- The rkyv and serde derive machinery is not modelled.
- `JmapAcl.Parse` models `hash |= ch << shift` as `hash + ch·2^shift`. `PackBound` gives the bound `hash < 2^shift` before each step, which keeps the bit ranges apart, so the OR equals the addition. That last step is argued, not proved in the model.
- `AddressMapping::parse` (configuration loading) is not modelled.
- `vrfy` and `expn` are not modelled. They forward to the directory.
- `AddressMapping::Custom` evaluates a configured expression through an expression engine that is not part of this model. It is a function from the address to an optional string, so the model assumes that engine is deterministic.
- `EmailToId` and `Rcpt` take the directory as a pure function from address to result. The following are not modelled:
  - the directory backend;
  - `async`;
  - the `session_id` argument;
  - the `trc` error types, which become one `DirectoryError` value.
- `EmailToId` and `Rcpt` record the addresses looked up in a ghost out-parameter. The directory has no observable trace in the model.
- The IMAP receiver and tokenizer, `parse_sequence_set`, `unwrap_bytes`, `unwrap_string` and `utf7_maybe_decode` are parameters (`ImapCopyMove.Collaborators`). They are not part of this model. The `CopyExamples` collaborators only reproduce the real ones on the example inputs.
- `bad` and `into_error` are modelled only as the error constructors `ImapError.Bad` and `ImapError.RequestError`, with the tag, the command and the message they carry. Their full trc error content is not modelled.
- `utf7_maybe_decode` returns a plain string and is used without `?` (crates/imap-proto/src/parser/copy_move.rs:31-38), so a decoding failure cannot reach the caller of `ParseCopyMove`; the model has no such error.
- With a single token, the code answers "Missing arguments.", not "Missing mailbox name.". The model follows the code, and `ParseCopyMove` proves that the "Missing sequence set." and "Missing mailbox name." branches cannot be reached.
