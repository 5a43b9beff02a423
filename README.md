# sufficit-asterisk-utils, modelled in Dafny

This project models the string helpers of the `Sufficit.Asterisk.Utils` static
class and proves properties about them:

- **Protocol normaliser** (`channel_protocol.dfy`, module `AsteriskChannelProtocols`).
  `ToAsteriskChannelProtocol` maps a technology token such as `"PJSIP"`,
  `"sip"` or `" Local "` to the `AsteriskChannelProtocol` enumeration, or fails
  with `UnrecognizedProtocol`. `TryParseAsteriskChannelProtocol` is the
  non-throwing form of it.
- **Channel identifier parser** (`asterisk_channel.dfy`, module `AsteriskChannels`).
  `AsteriskChannelGenerate` breaks a raw channel string
  `TECH/NAME[-SUFFIX][@CONTEXT]` into an `AsteriskChannel` record.
  `AsteriskChannelGenerateFromPeer` builds the same record from a
  `(protocol, name)` peer.
- **Boolean vocabulary and channel title** (`utils.dfy`, module `Utils`).
  `ToBoolean` reads Asterisk's yes/no/null spellings as a tri-state boolean;
  `ToAsteriskString` writes one back. `GetChannelTitle` extracts the display
  part of a channel string.

The supporting modules are:

- `strings.dfy` (module `Strings`): the .NET string operations the code calls.
  `IsNullOrWhiteSpace`, `Trim`, `ToUpperInvariant`, `ToLowerInvariant`,
  `Split(char)` and `LastIndexOf(char)` are defined as functions with their own
  lemmas. `Contains(char)` is Dafny's `in`. `Substring(start, length)` and
  `Remove(int)` are written as slices (`s[start..start + length]`, `s[..i]`);
  the function `Substring` serves only to state `IsInfix`. `IndexOf` is not called by the code; it is the
  helper in terms of which `Split` is defined. `Join` glues parts back
  together; `JoinSplit` and `SplitJoin` prove that it undoes `Split` and is
  undone by it, which pins down what `Split` means.
- `wrappers.dfy`: `Option`, which models C#'s `null`, and `Result`, which
  models a thrown exception. It also defines `Errors.Error`, the exceptions the
  code raises.

The string overload of `AsteriskChannelGenerate` and `GetChannelTitle` are
written as methods. Each reassigns a local variable step by step, as the C#
does. Each method's postcondition is one named predicate about its outcome:
`Generated(source, r)` and `Titled(channel, title)`.

The `-` and `@` steps appear in these predicates only declaratively, through
`SplitsAtLast` ("the split at the last `-`") and `TrackDecomposed` /
`ContextDecomposed` (what the record's fields are). The `/` and first-`@`
steps appear through the functions `TechAndTrack` and `TitleStem`, whose
bodies take the same `Split` indexes as the methods. Their postconditions
state the result declaratively: `FirstTwoSegments` ("index 0 and 1 of a
split"), and `IsTitleStem`, built on `BeforeFirst` ("index 0 of a split").

Uniqueness lemmas (`GeneratedUnique`, `TitledUnique`, `TitleStemUnique` and
those of the pieces) show that these predicates determine the result. The
lemmas about particular inputs (`RegenerateFromPeer`, `ParseChannel`,
`TitleOfChannel` and the worked examples) take the outcome as a parameter and
require only the method's predicate of it. What they prove therefore holds of
whatever the method returns.

The two titles documented in the comment of `GetChannelTitle` are proved by
`LocalTitleExample` and `PjsipTitleExample`. The source documents no parsed
records; `ParseLocalExample` and `ParsePjsipExample` state what the model's
channel parser gives for the same two strings. In the LOCAL example,
the code splits the track at its *last* `-`, and that `-` lies inside the
context `from-queues`. The parser therefore gives suffix `queues`, context
`from` and name `2344534fgdfgdfg-4543611`. A reading in which the suffix is
`4543611@from-queues` and the context is empty does not match the code; the
model follows the code.

The `withContext.Length >= 1` guard in the channel parser and the
`splitted.Length > 1` guard in `GetChannelTitle` are kept in the methods. Both
are always true, because a string containing the separator splits into at
least two parts.

## Model

| member | source | states |
|---|---|---|
| AsteriskChannelProtocols.ToAsteriskChannelProtocol | src/Utils+AsteriskChannelProtocol.cs:14-26 | On success the protocol is not UNKNOWN, and its name is the input upper-cased and trimmed. On failure the error is UnrecognizedProtocol carrying the original input. |
| AsteriskChannelProtocols.ToAsteriskChannelProtocolComplete | src/Utils+AsteriskChannelProtocol.cs:16-23 | Every input whose normalised token is the name of a protocol other than UNKNOWN is recognised as that protocol, so success holds exactly for those inputs. |
| AsteriskChannelProtocols.UnknownTokenRejected | src/Utils+AsteriskChannelProtocol.cs:16-24 | The token "UNKNOWN" has no case in the switch and is rejected with the input. |
| AsteriskChannelProtocols.ProtocolNameIsToken | src/Utils+AsteriskChannelProtocol.cs:16 | Every protocol name is unchanged by upper-casing and trimming. |
| AsteriskChannelProtocols.ProtocolNameRoundTrip | src/Utils+AsteriskChannelProtocol.cs:16-24 | Each protocol except UNKNOWN is recognised under its own name; UNKNOWN's name is rejected. |
| AsteriskChannelProtocols.TryParseAsteriskChannelProtocol | src/Utils+AsteriskChannelProtocol.cs:32-43 | Returns true exactly when the input is non-null and the throwing form succeeds, and then yields its protocol. Otherwise it yields UNKNOWN, so the flag is true iff the protocol is not UNKNOWN. |
| AsteriskChannelProtocols.ProtocolTokenDecides | src/Utils+AsteriskChannelProtocol.cs:16 | Two inputs with the same normalised token parse alike. |
| AsteriskChannelProtocols.ProtocolIgnoresPadding | src/Utils+AsteriskChannelProtocol.cs:16 | Whitespace added on either side of the input does not change the parse. |
| AsteriskChannelProtocols.ProtocolIgnoresCase | src/Utils+AsteriskChannelProtocol.cs:16 | Lower-casing the input does not change the parse. |
| AsteriskChannels.TechAndTrack | src/Utils+AsteriskChannel.cs:27-31 | For an id containing `/`: the technology and the track are the first two `/`-free segments of the id, separated by `/`, and the track ends at the next `/` or at the end. |
| AsteriskChannels.TechAndTrackOf | src/Utils+AsteriskChannel.cs:27-31 | For TECH/TRACK with no `/` in either part, the split gives back exactly TECH and TRACK. |
| AsteriskChannels.SuffixStep | src/Utils+AsteriskChannel.cs:32-37 | Cutting the track at its last `-` gives the suffix that the track's decomposition describes. |
| AsteriskChannels.ContextStep | src/Utils+AsteriskChannel.cs:43-50 | Index 0 and index 1 of the `@`-split of the name give the name and context that the decomposition describes. |
| AsteriskChannels.AsteriskChannelGenerate | src/Utils+AsteriskChannel.cs:15-54 | The outcome meets Generated: the call fails with ArgumentNull iff the source is null or blank, and otherwise the id is the source verbatim. Without `/`, only the id is set. An unknown technology fails the whole call with that error. Otherwise the protocol is the parsed one and name, suffix and context are the decomposition of the track. |
| AsteriskChannels.GeneratedUnique | src/Utils+AsteriskChannel.cs:15-54 | Generated admits one outcome per source, so the method's postcondition fixes its result. |
| AsteriskChannels.DecomposedFieldsSet | src/Utils+AsteriskChannel.cs:33-47 | The suffix is set iff the track has a `-`, and the context is set iff the track without its suffix has an `@`. |
| AsteriskChannels.TrackDecomposedUnique | src/Utils+AsteriskChannel.cs:31-50 | A track has only one decomposition, so the parser's name, suffix and context are determined by the track. |
| AsteriskChannels.DecomposedNameIsPrefix | src/Utils+AsteriskChannel.cs:31-50 | The parsed name is always set, holds no `@`, and is a prefix of the track. |
| AsteriskChannels.AsteriskChannelGenerateFromPeer | src/Utils+AsteriskChannel.cs:59-65 | The id is the protocol's name, `/` and the peer's name. The record copies the protocol and the name and leaves suffix and context unset. Splitting the id gives back the protocol's name, and for a name without `/` the name as the track. |
| AsteriskChannels.RegenerateFromPeer | src/Utils+AsteriskChannel.cs:15-65 | Whatever the string overload returns for the id built from a peer: it fails for UNKNOWN, and otherwise recovers the protocol. For a name free of `/`, `-` and `@`, it is the very record the peer overload built. |
| AsteriskChannels.TrackDecomposedOf | src/Utils+AsteriskChannel.cs:32-50 | NAME[@CONTEXT]-SUFFIX, with no `@` in name or context and no `-` in the suffix, decomposes into exactly those parts. |
| AsteriskChannels.ExpectedChannelParts | src/Utils+AsteriskChannel.cs:17-50 | The id PROTOCOL/NAME[@CONTEXT]-SUFFIX is not blank. It splits into the protocol's name and the track, the protocol's name is recognised, and the track decomposes into the expected record. |
| AsteriskChannels.ParseChannel | src/Utils+AsteriskChannel.cs:15-54 | Whatever the string overload returns for PROTOCOL/NAME[@CONTEXT]-SUFFIX, under those conditions, is exactly that protocol, name, suffix and context. |
| AsteriskChannels.ParseLocalExample | src/Utils+AsteriskChannel.cs:31-50 | The string overload's outcome for LOCAL/2344534fgdfgdfg-4543611@from-queues is name 2344534fgdfgdfg-4543611, suffix queues and context from. |
| AsteriskChannels.ParsePjsipExample | src/Utils+AsteriskChannel.cs:31-50 | The string overload's outcome for PJSIP/out-datora-4543611@external is name out-datora and suffix 4543611@external, with no context. |
| Utils.TablesDisjoint | src/Utils.cs:8-10 | No spelling belongs to two of the true, false and null tables. |
| Utils.BooleanToken | src/Utils.cs:19 | The trimmed, lower-cased token is empty iff the value is all whitespace. |
| Utils.ToBoolean | src/Utils.cs:15-25 | A null or blank value gives unset. Otherwise the result is unset, true or false exactly when the token is in the null, true or false table, and any other token fails with the value. |
| Utils.ToBooleanDependsOnToken | src/Utils.cs:19-24 | Two values with the same token give the same answer, and fail together. |
| Utils.ToBooleanIgnoresPaddingAndCase | src/Utils.cs:19 | Surrounding whitespace and upper-casing leave the token unchanged. |
| Utils.ToAsteriskString | src/Utils.cs:30-34 | Unset stays unset; true and false are written as the first spelling of their tables. |
| Utils.ToBooleanToAsteriskString | src/Utils.cs:15-34 | Reading back what ToAsteriskString wrote gives the original tri-state value. |
| Utils.TitleStem | src/Utils.cs:50-57 | The part kept before the last step meets IsTitleStem: the text before the first `@`, and of that, when it holds a `/`, the segment after the first `/`. It holds no `@` and no `/`, and is a substring of the channel. |
| Utils.TitleStemUnique | src/Utils.cs:50-57 | IsTitleStem admits one stem per channel. |
| Utils.CutStem | src/Utils.cs:60-62 | Removing everything from the stem's last `-` on keeps a substring of the channel, and it is the stem's split at its last `-`. |
| Utils.GetChannelTitle | src/Utils.cs:43-65 | The result meets Titled: a null or blank channel gives "". Otherwise the title is a substring of the channel with no `@` and no `/`: the stem cut before its last `-`, or the whole stem if it has no `-`. |
| Utils.TitledUnique | src/Utils.cs:43-65 | Titled admits one title per channel, so the method's postcondition fixes its result. |
| Utils.TitleStemOfChannel | src/Utils.cs:50-57 | For TECH/TRACK@CONTEXT with no `/` or `@` in TECH or TRACK, the stem is TRACK. |
| Utils.TitleOfChannel | src/Utils.cs:43-65 | Whatever GetChannelTitle returns for TECH/STEM-SUFFIX@CONTEXT is STEM, when TECH and STEM hold no `/` or `@` and SUFFIX holds no `/`, `@` or `-`. TECH may be empty or start with whitespace: the `/` keeps the channel from being blank. |
| Utils.LocalTitleExample | src/Utils.cs:40 | The documented title of LOCAL/2344534fgdfgdfg-4543611@from-queues is 2344534fgdfgdfg. |
| Utils.PjsipTitleExample | src/Utils.cs:41 | The documented title of PJSIP/out-datora-4543611@external is out-datora. |

## Left out

- Whitespace and casing cover only part of Unicode. `char.IsWhiteSpace` is limited to space, U+0009..U+000D, U+0085 and U+00A0. `ToUpperInvariant` and `ToLowerInvariant` change only the ASCII letters.
- Exception messages and exception classes are not modelled. A thrown exception is a `Failure` carrying the offending input: ArgumentNullException becomes `ArgumentNull`, ArgumentOutOfRangeException becomes `UnrecognizedProtocol`, and the boolean `Exception` becomes `UnrecognizedBoolean`.
- `AsteriskChannel`, `PeerInfo` and the `AsteriskChannelProtocol` enum are not part of this model. They are reduced to the properties the code reads and writes. Name, Suffix and Context are `None` when never assigned, because their default value is not visible. Protocol's default is assumed to be `UNKNOWN`, the enum's default member; the enum's definition is not part of this model. The enum's string form is taken to be its member name (`ProtocolName`).
- AsteriskChannels.AsteriskChannelGenerateFromPeer: the peer's name is taken to be non-null; a null `Name` would be written into the id as an empty string.
- AsteriskChannelProtocols.ToAsteriskChannelProtocol takes a non-null string, as its C# parameter type says. A null input would throw a NullReferenceException; TryParseAsteriskChannelProtocol catches it and reports false, and that case is modelled there.
- Concurrency, and the mutable public `TRUEVALUES`, `FALSEVALUES` and `NULLVALUES` arrays, are not modelled. The tables are constants here.
