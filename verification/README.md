# Verified model of connect-rust's algorithmic cores

This project models nine parts of connect-rust in Dafny 4.11 and proves what they promise, for all
inputs, all runs and all reachable states. `dafny verify dfyconfig.toml` checks everything.

| part | modules |
|---|---|
| doc-comment sanitizer, prose lines | `InlineSpec`, `InlineProofs`, `InlineRules`, `InlineSanitizer` |
| doc-comment sanitizer, fences and blocks | `FenceSpec`, `FenceOpeners`, `FenceProofs`, `FenceContent`, `FenceRules`, `FenceSanitizer` |
| name-collision analysis of a codegen batch | `CodegenModel`, `CodegenNames`, `CodegenBatch`, `CodegenEmit`, `CodegenOrder` |
| `google.rpc.Status` codec | `Wire`, `Base64`, `Utf8`, `GrpcStatus`, `GrpcStatusProofs` |
| descriptor-set framing and import closure | `Wire`, `Framing`, `Reflector` |
| gzip container | `GzipHeader`, `Gzip` |
| encoding negotiation | `Negotiation` |
| deadline-enforcing stream | `Deadline` |
| health registry and watch streams | `Health`, `StaticChecker` |
| module-tree emitter | `ModuleTree`, `ModuleTreeProofs` |

`Options`, `Sequences` and `Text` hold shared vocabulary. Loops of the source are methods with
invariants, proved equal to functions on values; objects that change are classes; the theorems are
lemmas about the functions and about whole runs of steps. What a function computes is also stated
without it, on the text, the bytes or the descriptors: the modules `InlineRules`, `FenceRules` and
`CodegenNames` do only that, and elsewhere lemmas named `...Rule`, `...Iff` and `...Spelled` do.

Main results, hardest first:

- **Comments.** What `sanitize_comment` emits, on lines that stand in no list item or block quote, is
  read back by a CommonMark fence reader line for line as the sanitizer meant it, exactly when no tilde
  opener's first kept info token starts with a tilde (`InStepIffReadable`). Then the reader ends outside
  every fence, and it meets only inert openers and unindented, fully escaped text exactly when every
  source line outside a fence is harmless (`FenceSafety`); the next item says which lines are not. Every
  source line comes out once and in order (`EveryLineAccountedFor`). On one prose line the sanitizer is
  a projection: its fixed points are exactly the fully escaped lines (`FixedIffSafe`), so it is
  idempotent, and it only inserts (`SanitizedIsLossless`).
- **Where the comment promises fail.** The source promises that every fence is inert, that the author's
  closing run closes it, and that no indented line reaches rustdoc as code. Four families of lines
  break this:
  - `~~~ ~rust` is emitted as `~~~~rust,ignore`, a longer run that the author's own does not close.
    Behind every opener whose first kept token starts with a tilde there is a comment that is read to
    the end inside the fence (`UnreadableOpenerSwallowsComment`).
  - `~~~ ~ignore-x` is emitted as `~~~~ignore-x,ignore`, and rustdoc then reads an `ignore-` target
    list: the block is compiled for every other target (`LiveOpenerExists`). As written, the re-read
    opener is inert if and only if it is not a tilde opener whose first kept token, without its leading
    tildes, starts with `ignore-` (`OpenerIsRead`, `WrittenInertUnlessHidden`).
  - A backtick fence with the info string `rust,ignore\-x` keeps that token, and CommonMark drops the
    backslash: `ignore-x` again. With escapes resolved, the opener is inert if and only if no word read
    from it resolves to an `ignore-` target (`OpenerIsRead`, `EscapedTargetExists`).
  - Text behind one to three spaces and a tab stands four columns in, since tab stops are four apart,
    but `is_indented` only knows four spaces or a leading tab. It is emitted as prose, and after a blank
    line rustdoc takes it for code (`HiddenIndentExists`).

  Wherever a line of the last three families stands outside a fence, behind readable openers only, the
  output is unsafe (`HarmIsMet`), and without any of the four it is safe (`SafeIffReadableAndHarmless`).
- **Code generation.** A batch is accepted exactly when nothing in it collides and every type resolves;
  then no module gets two items of one name, and every demanded local message has exactly one
  `Encodable` pair (`EmitServiceFiles`), for arbitrary case-conversion functions. The verdict does not
  depend on the order of the files (`VerdictOrderIndependent`, `VerdictFileOrder`).
- **Status codec.** Decoding an encoded error gives one canonical detail per detail, a second round
  trip is the identity, and truncating any byte string only drops details from the end.
- **Gzip.** For every streaming decompressor that keeps its interface contract the loop ends within a
  buffer of limit + 1 bytes. Compressor and decompressor have contracts of their own: the one may read
  all its input at once, since it is told to finish, and the other has to find the end of its stream
  (`MarkingPairMeetsContracts` shows a pair that meets both). With codecs that invert each other the
  container round trip returns the data or `resource_exhausted`, decided by the limit alone. Any data
  returned passed the trailer check.
- **Health, deadlines, reflection, negotiation, module tree.** Trace theorems over all interleavings
  and all polls, exact reachability over cyclic import graphs, least shared encoding, and a printed
  form that denotes its input for every escaping of identifiers, opening no module twice exactly when
  the escaping keeps the modules apart.

Conventions. Strings are sequences of Unicode characters where the source only compares ASCII, and
byte sequences in the wire formats. Behaviour that belongs to other crates (case conversion, type
resolution, deflate, CRC-32, descriptor decoding, timers) is a parameter: the theorems quantify over
it.

## Model

| member | source | states |
|---|---|---|
| InlineSanitizer.FindBacktickCloser | connectrpc-codegen/src/comments.rs:330-346 | finds the end of the first whole run of exactly the given length, looking only forward |
| InlineSanitizer.FindInlineLinkEnd | connectrpc-codegen/src/comments.rs:351-379 | finds the closing parenthesis of a complete `[text](url)` with balanced parentheses, or reports that there is none |
| InlineSanitizer.FindAutolinkEnd | connectrpc-codegen/src/comments.rs:387-394 | finds the `>` of an `http(s)` autolink |
| InlineSanitizer.FindBareUrlEnd | connectrpc-codegen/src/comments.rs:400-415 | finds where a bare URL ends once trailing sentence punctuation is given back to the prose |
| InlineSanitizer.SanitizeLine | connectrpc-codegen/src/comments.rs:239-315 | the scanning loop computes the chunk-by-chunk sanitized line |
| InlineProofs.SanitizedKeepsRuns | connectrpc-codegen/src/comments.rs:330-346 | insertions never split, join or add a backtick run, even when asked in the middle of one |
| InlineProofs.Replay | connectrpc-codegen/src/comments.rs:239-315 | the output is cut at the same places as the line: every lookahead answers the same on the output |
| InlineProofs.SanitizedIsSafe | connectrpc-codegen/src/comments.rs:239-315 | every `[ ] < >` of the output is escaped or part of what the sanitizer takes for a complete code span, link or autolink, and no bare URL is left |
| InlineProofs.FixedIffSafe | connectrpc-codegen/src/comments.rs:239-315 | a line is left alone if and only if it is fully escaped |
| InlineProofs.SanitizedIdempotent | connectrpc-codegen/src/comments.rs:239-315 | sanitizing a second time changes nothing, on every line |
| InlineProofs.SanitizedIsLossless | connectrpc-codegen/src/comments.rs:239-315 | the line is the concatenation of its chunks, and a rendering differs from its chunk only by a backslash before a bracket or angle brackets around a URL |
| InlineProofs.SanitizedKeepsText | connectrpc-codegen/src/comments.rs:239-315 | up to backslashes and angle brackets the output is the input |
| InlineRules.LinkRule | connectrpc-codegen/src/comments.rs:351-379 | `[label](url)` stays as it is, for every label without square brackets and every URL whose parentheses pair up |
| InlineRules.OpenBracketRule | connectrpc-codegen/src/comments.rs:272-280 | a `[` that starts no such link is escaped |
| InlineRules.NoUrlRule | connectrpc-codegen/src/comments.rs:351-362 | so is one whose label is not followed by `(` |
| InlineRules.AutolinkRule | connectrpc-codegen/src/comments.rs:387-394 | `<http://…>` and `<https://…>` up to the first `>` stay as they are |
| InlineRules.OpenAngleRule | connectrpc-codegen/src/comments.rs:285-293 | any other `<` is escaped |
| InlineRules.BareUrlRule | connectrpc-codegen/src/comments.rs:400-415 | a bare `http://` or `https://` URL up to whitespace, `)`, `<` or `>`, less trailing sentence punctuation, is put in angle brackets |
| InlineRules.BareUrlParts | connectrpc-codegen/src/comments.rs:400-415 | every text that starts like a URL splits that way |
| InlineRules.CodeSpanRule | connectrpc-codegen/src/comments.rs:247-260 | a code span up to the first whole backtick run of the opening length stays as it is |
| InlineRules.LoneTicksRule | connectrpc-codegen/src/comments.rs:247-260 | a backtick run that no later run matches stays, and what follows is prose |
| InlineRules.BackslashRule | connectrpc-codegen/src/comments.rs:263-271 | a backslash and the character behind it stay together |
| InlineRules.CloseBracketRule | connectrpc-codegen/src/comments.rs:281-297 | `]` and `>` are escaped |
| InlineRules.PlainRule | connectrpc-codegen/src/comments.rs:298-315 | every other character stays as it is |
| FenceSanitizer.FenceInfo | connectrpc-codegen/src/comments.rs:131-156 | the emitted info string is inert as written, for every author's info string |
| FenceOpeners.InertInfoIsInert | connectrpc-codegen/src/comments.rs:131-156 | as written, its tokens include `ignore` and no `ignore-` target, or it is `text` |
| FenceContent.AnnotationKept | connectrpc-codegen/src/comments.rs:131-156 | the author's kept tokens come first and in order in the emitted info string |
| FenceOpeners.MarkerOfParts | connectrpc-codegen/src/comments.rs:209-230 | a marker written from its parts is read back, its run lengthened by what follows it |
| FenceOpeners.MarkerParts | connectrpc-codegen/src/comments.rs:209-230 | a marker has at most three leading spaces, a run of three or more, no backtick in a backtick fence's info, and rebuilds its line |
| FenceProofs.StrippedIsContent | connectrpc-codegen/src/comments.rs:167-177 | de-indented code never closes the synthetic fence |
| FenceOpeners.OpenerIsRead | connectrpc-codegen/src/comments.rs:84-87 | the emitted opener is read back as an opener of the author's character; with the author's run length if and only if its first kept token does not lengthen a tilde run; inert, as written or with escapes resolved, if and only if no word read from it is an `ignore-` target, as written or with escapes resolved |
| FenceOpeners.WrittenInertUnlessHidden | connectrpc-codegen/src/comments.rs:131-156 | a word read from an emitted opener is a target as written exactly when it is the first of a tilde fence and stood behind tildes |
| FenceOpeners.ResolvedJoin | connectrpc-codegen/src/comments.rs:131-156 | resolving the escapes of a joined info string resolves its words one by one, and keeps `ignore` among them |
| FenceOpeners.PunctuationSpelled | connectrpc-codegen/src/comments.rs:131-156 | the characters whose backslash the reader drops |
| FenceSanitizer.LiveOpenerExists | connectrpc-codegen/src/comments.rs:84-87 | `~~~ ~ignore-x` comes out as an opener that is not inert |
| FenceSanitizer.EscapedTargetExists | connectrpc-codegen/src/comments.rs:131-156 | a readable backtick opener with the token `ignore\-x` is inert as written and live once its escape is resolved |
| FenceProofs.HarmIsMet | connectrpc-codegen/src/comments.rs:38-103 | a line with a hidden target or a hidden indentation makes the output unsafe in every comment, if the openers before it are readable |
| FenceProofs.IndentedTextIff | connectrpc-codegen/src/comments.rs:158-161 | text stands four columns in, counting tab stops, exactly when the sanitizer's test says so or one to three spaces precede a tab |
| FenceProofs.ProseStaysProse | connectrpc-codegen/src/comments.rs:88-94 | a sanitized prose line is no fence marker, and stands four columns in exactly when one to three spaces and a tab led it |
| FenceProofs.InStepIffReadable | connectrpc-codegen/src/comments.rs:38-103 | the CommonMark reader agrees with the sanitizer after every source line if and only if every opener of the source is readable |
| FenceProofs.FenceSafety | connectrpc-codegen/src/comments.rs:38-103 | with readable openers the re-read output ends outside any fence; every opener met is inert and every other line met is unindented, by columns, and fully escaped, if and only if every source line outside a fence is harmless |
| FenceProofs.SafeIffReadableAndHarmless | connectrpc-codegen/src/comments.rs:38-103 | for every comment, the reader keeps in step and meets only safe lines if and only if every opener is readable and every line outside a fence is harmless |
| FenceSanitizer.HiddenIndentExists | connectrpc-codegen/src/comments.rs:158-161 | a tab behind a space comes out unchanged, four columns in, and the output is not safe |
| FenceSanitizer.UnreadableOpenerExists | connectrpc-codegen/src/comments.rs:84-87 | `~~~ ~rust` is a fence opener that is not readable |
| FenceSanitizer.UnreadableOpenerSwallowsComment | connectrpc-codegen/src/comments.rs:38-103 | behind every unreadable opener there is a comment whose output is read to the end inside the fence |
| FenceContent.EveryLineAccountedFor | connectrpc-codegen/src/comments.rs:38-103 | every source line comes out once, in order: verbatim in an author fence, without its four spaces or its tab in code unless that would lay backticks bare, escaped in prose; only fence lines are added |
| FenceContent.StripIndentRule | connectrpc-codegen/src/comments.rs:167-177 | four spaces or a tab go from every line that is not whitespace and three backticks behind them, and stay on that one |
| Text.WhitespaceSpelled | connectrpc-codegen/src/comments.rs:167-177 | the characters that trimming takes for whitespace |
| FenceRules.OneCodeLineRule | connectrpc-codegen/src/comments.rs:79-96 | one indented line comes out without its indentation between a `text` fence's two lines |
| FenceRules.CodeBlockRule | connectrpc-codegen/src/comments.rs:52-96 | an indented block, empty lines inside it included, comes out as one `text` fence around its de-indented lines |
| FenceRules.FenceRule | connectrpc-codegen/src/comments.rs:42-51 | of a fenced block only the info string changes, and prose follows its closer |
| FenceRules.UnclosedFenceRule | connectrpc-codegen/src/comments.rs:97-101 | a fenced block without a closer is closed at the end with the opener's run |
| FenceRules.ProseRule | connectrpc-codegen/src/comments.rs:88-94 | a line that is neither is escaped |
| FenceRules.MarkerIff | connectrpc-codegen/src/comments.rs:209-230 | exactly these lines are markers: up to three spaces, three or more backticks or tildes, and an info string, without backticks behind backticks |
| FenceRules.CloserIff | connectrpc-codegen/src/comments.rs:194-196 | exactly these lines close a fence: up to three spaces, a run at least as long of the same character, then blanks |
| FenceRules.TokensRule | connectrpc-codegen/src/comments.rs:134-134 | commas, spaces and tabs separate the tokens of an info string |
| FenceRules.KeptRule | connectrpc-codegen/src/comments.rs:132-140 | the tokens that start with `ignore-` go, all others stay in their order |
| FenceRules.InfoRule | connectrpc-codegen/src/comments.rs:131-156 | no tokens give `text`, only targets `rust,ignore`, and otherwise the kept tokens are joined by commas with `ignore` added once |
| FenceRules.LanguageRule | connectrpc-codegen/src/comments.rs:121-124 | a single language word is followed by `,ignore` |
| FenceSanitizer.SanitizeComment | connectrpc-codegen/src/comments.rs:38-103 | the loop over a comment's lines computes the state machine's output, accounts for every line, and with readable openers ends outside any fence and is safe exactly when every line outside a fence is harmless |
| CodegenBatch.CollectAliasCollisions | connectrpc-codegen/src/codegen.rs:1234-1277 | exactly the aliases that two different messages of a package want, or that a service type has, are marked as colliding |
| CodegenBatch.BuffaRootTypes | connectrpc-codegen/src/codegen.rs:1159-1220 | per package exactly the declared names plus the view names claimed exactly once |
| CodegenBatch.RootTypesOrderIndependent | connectrpc-codegen/src/codegen.rs:1159-1220 | any rearrangement of the declarations gives the same root types |
| CodegenOrder.RootTypesFileOrder | connectrpc-codegen/src/codegen.rs:1159-1220 | any rearrangement of the descriptors gives the same root types |
| CodegenEmit.CheckMethodCollisions | connectrpc-codegen/src/codegen.rs:1480-1499 | accepts a service if and only if no two client methods share an identifier |
| CodegenEmit.BatchState.CheckModuleCollisions | connectrpc-codegen/src/codegen.rs:1580-1637 | claims a service's module-scope items, or fails exactly because one clashes with a root type or with an earlier item |
| CodegenEmit.BatchState.GenerateOwnedViewAliases | connectrpc-codegen/src/codegen.rs:1291-1327 | adds exactly the non-colliding aliases of a file, each once per package |
| CodegenEmit.BatchState.EncodableImplPair | connectrpc-codegen/src/codegen.rs:1364-1414 | a message gets its pair at most once in a batch, and a foreign one never |
| CodegenEmit.BatchState.Recurse | connectrpc-codegen/src/codegen.rs:1431-1456 | a message and all nested messages outside map entries are demanded |
| CodegenEmit.BatchState.GenerateConnectServices | connectrpc-codegen/src/codegen.rs:1017-1049 | one file contributes exactly its items, aliases and demanded pairs, or fails exactly when it is unacceptable |
| CodegenEmit.EmitServiceFiles | connectrpc-codegen/src/codegen.rs:177-245 | accepts exactly the collision-free batches; an accepted batch emits exactly the named types and constants of its services, no duplicate name, no root-type name, exactly the uncontested aliases, and exactly one pair per local message that some method returns or, in all-messages mode, some file defines outside map entries |
| CodegenNames.ServiceNames | connectrpc-codegen/src/codegen.rs:1516-1557 | the five types and the constants of a service, spelled out |
| CodegenNames.AliasRule | connectrpc-codegen/src/codegen.rs:938-945 | the alias of a message is `Owned`, its last name in camel case, and `View` |
| CodegenNames.ClientNames | connectrpc-codegen/src/codegen.rs:1480-1499 | each method has two client identifiers, in order |
| CodegenNames.BatchItemsNamed | connectrpc-codegen/src/codegen.rs:1528-1637 | an item is claimed if and only if some selected file has a service with a type or constant of that name |
| CodegenNames.OneServiceItems | connectrpc-codegen/src/codegen.rs:1528-1637 | one service claims its types and constants once each |
| CodegenNames.ItemsOfConcat | connectrpc-codegen/src/codegen.rs:177-245 | files claim their items one after the other |
| CodegenNames.FileItemsOfConcat | connectrpc-codegen/src/codegen.rs:1017-1049 | and so do the services of a file |
| CodegenNames.ServiceRefsNamed | connectrpc-codegen/src/codegen.rs:1234-1277 | a type is referenced if and only if some method names it as input or output |
| CodegenNames.OutputsNamed | connectrpc-codegen/src/codegen.rs:1344-1358 | a pair is asked for exactly the types that methods return |
| CodegenNames.DefinedIsCollected | connectrpc-codegen/src/codegen.rs:1431-1467 | all-messages mode collects exactly the full names of messages, at any depth, with no map entry on the way |
| CodegenNames.OneClaim | connectrpc-codegen/src/codegen.rs:1169-1208 | a message claims its view names, an enum none |
| CodegenNames.FileDeclares | connectrpc-codegen/src/codegen.rs:1185-1203 | the top-level messages and enums of a file |
| CodegenNames.OneFileDecls | connectrpc-codegen/src/codegen.rs:1179-1185 | only the files to generate declare anything |
| CodegenNames.RootTypesNamed | connectrpc-codegen/src/codegen.rs:1159-1220 | a root type is a declared name under its prefix or a view name claimed exactly once |
| CodegenNames.FindIsFirst | connectrpc-codegen/src/codegen.rs:1247-1253 | the first file of a listed name is the one that is generated |
| CodegenEmit.NoCollisions | connectrpc-codegen/src/codegen.rs:1067-1076 | exact aliases and acceptable services together leave no two equal names in a module |
| CodegenOrder.VerdictOrderIndependent | connectrpc-codegen/src/codegen.rs:177-245 | listing the files to generate in another order changes neither the verdict nor the root types |
| CodegenOrder.VerdictFileOrder | connectrpc-codegen/src/codegen.rs:177-245 | rearranging descriptors of distinct file names changes neither the selected files nor the verdict |
| Wire.DecodeEncoded | connectrpc/src/grpc_status.rs:59-66 | every 64-bit varint is read back whatever follows it |
| Wire.DecodeVarintMonotone | connectrpc/src/grpc_status.rs:59-66 | more input does not change a complete varint |
| Wire.DecodeVarintIff | connectrpc/src/grpc_status.rs:59-66 | exactly the varints of at most ten bytes and 64 bits are decoded, to the number their seven-bit digits stand for |
| Wire.EncodeIsShortest | connectrpc/src/grpc_status.rs:23-31 | a varint is written with no more bytes than it needs |
| Wire.DecodeTagIff | connectrpc/src/grpc_status.rs:59-66 | a tag is eight times the field number plus the wire type |
| Base64.UnpaddedIff | connectrpc/src/error.rs:233-235 | the strict unpadded decoder accepts exactly the encodings |
| Base64.LenientIff | connectrpc/src/error.rs:237-239 | the lenient decoder accepts exactly the encoding of a byte string, unpadded or canonically padded |
| Base64.AlphabetSpelled | connectrpc/src/error.rs:233-239 | the standard alphabet |
| Base64.PackRule | connectrpc/src/error.rs:233-239 | three bytes and their four characters are the same 24 bits, one or two bytes are filled up with zeros |
| Base64.PaddingSpelled | connectrpc/src/error.rs:236-239 | equals signs fill the last group of four |
| GrpcStatus.Encode | connectrpc/src/grpc_status.rs:23-42 | read field by field, the buffer holds the error's code, then its message if it has one, then one field per detail |
| GrpcStatus.EncodeAny | connectrpc/src/grpc_status.rs:102-135 | the message holds the type URL, a bare name behind `type.googleapis.com/`, and the decoded value unless it is absent or undecodable |
| GrpcStatus.DecodeDetails | connectrpc/src/grpc_status.rs:48-99 | the cursor loop finds the details that stand before the first malformed field |
| GrpcStatus.DecodeAny | connectrpc/src/grpc_status.rs:138-174 | the cursor loop yields the last type URL and value, or nothing |
| GrpcStatusProofs.AnyRoundTrip | connectrpc/src/grpc_status.rs:102-174 | an encoded `Any` decodes to the canonical detail |
| GrpcStatusProofs.StatusRoundTrip | connectrpc/src/grpc_status.rs:23-99 | an encoded error decodes to one canonical detail per detail, in order |
| GrpcStatusProofs.SecondRoundTrip | connectrpc/src/grpc_status.rs:23-99 | a second round trip is the identity |
| GrpcStatusProofs.TruncationMonotone | connectrpc/src/grpc_status.rs:48-99 | on every byte string, the details of a prefix are a prefix of the details |
| GrpcStatusProofs.TruncatedStatus | connectrpc/src/grpc_status.rs:23-99 | for every n, the first n bytes of an encoded error yield exactly the details whose field ends within them; none when they end inside the code or message |
| GrpcStatusProofs.UnknownIsSkipped | connectrpc/src/grpc_status.rs:59-96 | fields a status does not have are stepped over, and the details behind them are found |
| GrpcStatusProofs.AnyRule | connectrpc/src/grpc_status.rs:138-174 | the last type URL and the last value count, a type URL that is not UTF-8 spoils the detail, a fixed-width field ends the reading |
| GrpcStatusProofs.GroupEndsSearch | connectrpc/src/grpc_status.rs:59-96 | a group or what is no tag ends the search |
| Framing.ReadVarint | connectrpc-reflection/src/reflector.rs:583-594 | the digit loop reads the varint at the cursor and moves past it |
| Wire.ReadEncoded | connectrpc-reflection/src/reflector.rs:583-594 | every 64-bit varint is read back whatever follows it |
| Wire.ReadFits | connectrpc-reflection/src/reflector.rs:583-594 | whatever is read fits the room that the remaining digits have in 64 bits |
| Wire.ReadVarintIff | connectrpc-reflection/src/reflector.rs:583-594 | exactly the varints of at most ten bytes are read, to their number cut to 64 bits |
| Framing.SplitDescriptorSet | connectrpc-reflection/src/reflector.rs:543-578 | the walk finds the slices of the set, or the offset of the first field that is not framed |
| Framing.SplitOfEncoded | connectrpc-reflection/src/reflector.rs:543-578 | splitting any encoded field sequence yields exactly the field-1 payloads in order |
| Framing.SlicesAreOrdered | connectrpc-reflection/src/reflector.rs:543-578 | on arbitrary bytes the slices are in bounds, in order and disjoint, with progress between them |
| Framing.ErrorIsFirst | connectrpc-reflection/src/reflector.rs:543-578 | the reported offset is where framing first fails; everything before it splits cleanly |
| Framing.FrameIff | connectrpc-reflection/src/reflector.rs:543-578 | the walk takes exactly the fields of the wire format, groups aside, and exactly the bytes of field 1 as payload |
| Reflector.Closure | connectrpc-reflection/src/reflector.rs:484-505 | terminates on every graph and lists the requested file first, then every reachable file, each once and nothing else |
| Reflector.FirstWins | connectrpc-reflection/src/reflector.rs:318-323 | merging keeps registered values and takes the first of repeated names |
| Reflector.Index.AddDescriptorSetBytes | connectrpc-reflection/src/reflector.rs:294-325 | succeeds exactly when the set is framed and decoded, counts agree, all files are named, nobody shares the pool and all link; then each new name gets its descriptor and its payload from the same place of the set; on failure nothing changes before linking |
| Reflector.Index.FileByFilename | connectrpc-reflection/src/reflector.rs:387-394 | answers with exactly one payload per reachable file, the requested one first |
| GzipHeader.GzipHeaderLen | connectrpc/src/compression.rs:821-878 | the parser's position arithmetic and loops compute the header length without leaving the data |
| GzipHeader.HeaderLenIff | connectrpc/src/compression.rs:821-878 | a length is returned if and only if those bytes form a header of section 2.3 of RFC 1952 |
| Gzip.CompressInner | connectrpc/src/compression.rs:666-723 | for every compressor that finishes when it is offered all the input, the frame is the ten header bytes, the whole stream, and checksum and size with the lowest byte first |
| Gzip.Inflate | connectrpc/src/compression.rs:737-790 | ends for every progressing decompressor, never offers less than one byte nor a buffer over limit + 1, and on a stream that stands for d yields d or `resource_exhausted` |
| Gzip.DecompressInner | connectrpc/src/compression.rs:725-815 | data is returned only within the limit and when the four-byte sums behind the stream equal its checksum and size; on a stream that stands for d within the limit, exactly then |
| Gzip.CheckTrailerIff | connectrpc/src/compression.rs:796-812 | the trailer is accepted exactly when both sums, lowest byte first, are right |
| Gzip.InitialCapacityRule | connectrpc/src/compression.rs:1088-1098 | the first capacity is a multiple of the input, at least 256 and never more than one over the limit |
| Gzip.GrowthRule | connectrpc/src/compression.rs:749-763 | the buffer doubles, by at least 4096 bytes, unless the limit stops it |
| Gzip.RoundTrip | connectrpc/src/compression.rs:666-815 | for every finishing compressor and every decompressor that inverts it, compressed data comes back when it fits the limit and is refused when it does not |
| Gzip.MarkingPairMeetsContracts | connectrpc/src/compression.rs:702-761 | the contracts can be met together: by a compressor that reads all its input in the first call and a decompressor that finds its own end-of-stream marker |
| Negotiation.Registry.Register | connectrpc/src/compression.rs:236-249 | after any registration the cached header is the sorted list of the names |
| Negotiation.Registry.NegotiateEncoding | connectrpc/src/compression.rs:292-319 | the first listed supported encoding other than identity, or the request's own when none was listed |
| Negotiation.ListedOfJoin | connectrpc/src/compression.rs:187-197 | splitting and trimming the joined header gives the token names back |
| Negotiation.HeaderIsUnique | connectrpc/src/compression.rs:187-197 | the header depends on the set of names only, not on registration or hash order |
| Negotiation.NegotiationFindsLeastShared | connectrpc/src/compression.rs:292-319 | on a registry's header a result exists if and only if a non-identity encoding is shared, and it is the least one |
| Negotiation.FirstSupportedIs | connectrpc/src/compression.rs:292-319 | on any list, the choice is the first supported name other than identity |
| Negotiation.ListedCons | connectrpc/src/compression.rs:292-303 | a header is read piece by piece between its commas |
| Negotiation.TrimRule | connectrpc/src/compression.rs:292-303 | trimming takes the whitespace off both ends and nothing else |
| Text.LessIff | connectrpc/src/compression.rs:187-197 | names are in order when the first difference, or the end of the shorter, decides |
| Negotiation.TcharSpelled | connectrpc/src/compression.rs:73-77 | the characters of a token |
| Negotiation.NegotiateBetween | connectrpc/src/compression.rs:292-319 | two registries agree on the least encoding they share, whatever the request used; without a header only the request's own encoding can be answered |
| Deadline.ModeratedIsNearest | connectrpc/src/deadline.rs:251-275 | the moderated timeout is the admissible one nearest to what was asked, and moderating again changes nothing; the default is for a client that asked for nothing |
| Deadline.DeadlineStream.constructor | connectrpc/src/deadline.rs:331-344 | the absolute timer is set at construction, the gap timer is not |
| Deadline.DeadlineStream.PollNext | connectrpc/src/deadline.rs:352-410 | one poll is one step of the state machine |
| Deadline.TraceTheorem | connectrpc/src/deadline.rs:352-410 | over every run a live poll errs exactly from start plus timeout on, or from the gap after the last item, or else the first poll, on; otherwise it waits exactly when the inner stream is not ready, yields its next item, or ends after the last one; afterwards there is only the end |
| Deadline.YieldedRule | connectrpc/src/deadline.rs:352-410 | what was yielded is the items of the answers that have one, in order |
| Deadline.UnboundedIsTransparent | connectrpc/src/deadline.rs:352-410 | without bounds the wrapper answers every poll as the inner stream does, after the end too |
| Deadline.EnforcementTheorem | connectrpc/src/deadline.rs:289-306 | whatever a policy returns answers like the wrapper with the bounds it sets; the request deadline is reported only when it is enforced on streams, a stall only under a gap bound, and with neither the answers are the inner stream's |
| Health.StepKeeps | connectrpc-health/src/static_checker.rs:135-209 | every operation keeps names and open channels in one-to-one correspondence, and no channel forgets a value |
| Health.WatcherTheorem | connectrpc-health/src/static_checker.rs:256-275 | in every reachable state a watcher has received a subsequence of its channel's history from its subscription on, and a drained one the current value |
| Health.PollDeliversCurrent | connectrpc-health/src/checker.rs:97-110 | a poll delivers the value current at that moment and leaves the watcher drained |
| Health.CheckAfter | connectrpc-health/src/static_checker.rs:135-264 | what `check` answers for every name after every operation |
| Health.WatcherFollowsName | connectrpc-health/src/static_checker.rs:266-275 | along every run without a removal of the name, a subscriber is delivered what `check` answers for the name at that moment |
| Health.FirstPoll | connectrpc-health/src/static_checker.rs:266-275 | a new subscription delivers the name's status at once |
| Health.RegistrationKept | connectrpc-health/src/static_checker.rs:135-209 | along every run without its removal a registered name keeps its channel, which stays open and only adds to its history |
| Health.ReRegisterLeavesNoTrace | connectrpc-health/src/static_checker.rs:135-144 | registering a live name anywhere in a run leaves the final state as if it had not happened |
| Health.ClosedIsFrozen | connectrpc-health/src/static_checker.rs:189-191 | a channel whose sender is gone never changes and is never registered again |
| Health.RemovalCutsWatchersOff | connectrpc-health/src/static_checker.rs:189-191 | whatever follows a removal, earlier watchers only see what the old channel held |
| Health.ShutdownStopsAll | connectrpc-health/src/static_checker.rs:197-209 | afterwards exactly the registered services report that they are not serving |
| Health.ShutdownInSteps | connectrpc-health/src/static_checker.rs:197-209 | in whatever order the loop meets the senders, and with polls anywhere between its sends, it leaves the registry as one shutdown step; without polls it is that step |
| StaticChecker.Checker.constructor | connectrpc-health/src/static_checker.rs:84-105 | the whole-process name and the given names are registered and serving |
| StaticChecker.Checker.RegisterWithStatus | connectrpc-health/src/static_checker.rs:135-144 | one register step; true exactly for a new name |
| StaticChecker.Checker.SetStatus | connectrpc-health/src/static_checker.rs:161-182 | one update step; unknown names are refused |
| StaticChecker.Checker.RemoveService | connectrpc-health/src/static_checker.rs:189-191 | one removal step; the name is unknown afterwards |
| StaticChecker.Checker.Shutdown | connectrpc-health/src/static_checker.rs:197-209 | sending to the registered names one by one reaches exactly the open channels |
| StaticChecker.Checker.CheckService | connectrpc-health/src/static_checker.rs:256-264 | the current status of a registered name |
| StaticChecker.Checker.Watch | connectrpc-health/src/static_checker.rs:266-275 | one subscription step |
| StaticChecker.Checker.PollWatcher | connectrpc-health/src/checker.rs:97-110 | one poll step and its answer |
| ModuleTree.BuildTree | connectrpc-build/src/lib.rs:716-725 | the loop builds the trie of all entries |
| ModuleTree.SegmentsRule | connectrpc-build/src/lib.rs:716-725 | a package name is cut at its dots, and the empty one has no segments |
| ModuleTree.Emit | connectrpc-build/src/lib.rs:727-771 | appends a module's printed form to the output |
| ModuleTree.ReadModule | connectrpc-build/src/lib.rs:727-771 | reading a printed module gives back its files and modules, escaped, and restores the module stack |
| ModuleTreeProofs.FilesOfInsert | connectrpc-build/src/lib.rs:716-725 | an insertion adds one file at the end of its module and changes no other module |
| ModuleTreeProofs.OpenedOnce | connectrpc-build/src/lib.rs:741-770 | no package path stands twice in the tree |
| ModuleTreeProofs.OpenedInBuilt | connectrpc-build/src/lib.rs:716-725 | the modules of the tree are exactly the packages and their ancestors |
| ModuleTreeProofs.SegmentsApart | connectrpc-build/src/lib.rs:741-770 | an escape that keeps the segments of the entries apart keeps the modules apart |
| ModuleTreeProofs.Denotation | connectrpc-build/src/lib.rs:706-778 | for every escape, reading the printed tree ends with every module closed and gives back exactly the input entries; no module is opened twice if and only if different modules are written differently, and then the order within each package is kept |
| ModuleTreeProofs.GenerateIncludeFile | connectrpc-build/src/lib.rs:706-778 | the emitted lines have that meaning |

## Left out

- SanitizeComment: splitting the text with `str::lines` and joining with line feeds; a comment is a
  sequence of lines, and the reader's lines are the sanitizer's. That leaves out a lone carriage return:
  it ends a line for CommonMark (section 2.1 of its specification) but not for `str::lines`, so what
  stands behind it is never classified as a line of its own. Link nesting depth is unbounded.
- FenceSafety: requires readable openers, because the code breaks the promise without them (see
  `UnreadableOpenerSwallowsComment`); `SafeIffReadableAndHarmless` states both conditions at once, for safe
  lines read in step, since a desynchronised reader can fall back into step by accident.
- SafeLines: the reader knows fences, tab stops and indentation, not list items or block quotes. In
  those a line has its own margin: the source passes `- ` followed by a backtick fence as prose, and
  rustdoc finds a live fence inside the list item. Nor does it know paragraphs, so it also counts an
  indented line that CommonMark would read as the continuation of a paragraph.
- Resolved: entity references, which CommonMark also resolves in an info string (section 2.5 of its
  specification) and which can hide a target as a backslash does; their table is not part of this
  repository.
- Inert: how rustdoc reads the words of an info string is taken from the source's comments, and its own
  grammar is not part of this model. So `rust (a ignore b)`, emitted as `rust,(a,ignore,b)`, counts as
  inert, although rustdoc documents parentheses as comments, which would hide that `ignore`.
- SanitizedIsSafe: what a complete link or autolink is, is the sanitizer's own notion. CommonMark takes
  `<http://a b>` for no autolink, and reads raw angle brackets inside the text of a link.
- EmitServiceFiles: token streams, documentation text, the producers named in error messages, and which
  of several errors is reported first. Type resolution and foreignness are predicates on names.
- StatusRoundTrip: assumes that the message fits a 64-bit length, as every buffer in memory does.
- SecondRoundTrip: makes the same assumption about the re-encoded message.
- DecodeDetails: the varint and tag decoders of the buffa crate are not part of this repository; the
  model rejects varints over ten bytes or 64 bits, tags over 32 bits, field number zero and wire types
  above five. Truncation and round trips do not depend on these choices.
- AddDescriptorSetBytes: descriptor decoding and linking are inputs; after a link error the pool may
  hold part of the set, as the source says.
- Closure: assumes a pool that finds each file under its own name and a start file from the pool, as
  all callers pass. Symbol and extension queries, service lists and the crate's own descriptors are
  lookups that add nothing to the closure.
- CompressInner: deflate and CRC-32 are arbitrary functions under their interface contract, and the
  object pools around them are left out. Buffers hold exactly what was asked for, and sizes do not
  saturate near the top of the machine word.
- DecompressInner: only the bounded form, which is the one that is called.
- Register: a name that is not an HTTP token panics in the source, so it is a precondition here.
- PollNext: timers fire exactly at their deadline, one poll happens at one instant, and an inner stream
  that has ended stays ended.
- BuildTree: updates the trie as a value where the source moves a mutable reference down a tree it owns.
- Emit: indentation, lint attributes, the `use super::*` line and the two spellings of `include!`. The
  escaping of identifiers is an arbitrary function.
- The zstd provider, header tables of error codes, the dispatcher chain, the servers and the build
  driver: plumbing, finite tables or foreign code.
