# corebc.js in Dafny

A model of the parts of corebc.js whose correctness is a matter of arithmetic, layout and
protocol, and proofs about it. Code that the library writes as loops over mutable state is a
`method` or a class proved equal to a specification function; the theorems are lemmas about those
functions.

| modules | what they model |
|---|---|
| `Rlp`, `RlpGrammar`, `RlpCodec` | the recursive length prefix encoder, its offset-driven decoder and the grammar it accepts, the integer helpers |
| `Transaction`, `TransactionRoundTrip`, `TransactionLayout`, `TransactionObject` | the 7- and 8-field forms of a transaction, parsing, the order of the fields, the sender, the object and its setters |
| `AbiLexer`, `AbiBalance`, `AbiTokenString`, `AbiParamType`, `AbiBasicType`, `AbiRoundTrip`, `AbiSighash`, `AbiFullText`, `AbiFullFormat` | the lexer of ABI types with its back-patched links, which texts it leaves unbalanced, the rebased token slices, the parser, printing in the sighash, minimal and full formats |
| `Utf8`, `Utf8Recovery`, `Utf8Codec` | UTF-8 in both directions, with the three error strategies |
| `Bits`, `Mnemonic`, `MnemonicBits`, `MnemonicCodec` | BIP-39 phrases: packing bytes into 11-bit indices and unpacking them bit by bit |
| `Tally`, `Consensus`, `ConsensusLaws`, `Fallback`, `FallbackQuorum`, `FallbackLoops` | the fallback provider: tallies, median, fuzzy mode, height, and one request as a state machine over every interleaving |
| `TypedData`, `TypedDataEncoder`, `TypedDataText`, `TypedDataReader` | the constructor of the typed-data encoder: linking, the circularity search, the full types and how they are read |
| `Ed448Keys`, `Ed448Derivation` | carry addition of 57-byte scalars, clamping, hierarchical derivation and what a child depends on |
| `FixedPoint`, `FixedStrings`, `FixedLaws`, `FixedCodec` | fixed-point wrap-around, decimal texts, units |
| `Address`, `AddressOrigin`, `Iban`, `Hex` | MOD 97-10 check digits, addresses made and accepted, the blockwise ICAP checksum |
| `AbiBytes` | the ABI layout of lists of byte strings |
| `Batch` | forming request batches |
| `Arithmetic`, `Bytes`, `Decimal`, `Sequences`, `Wrappers` | shared: remainders, big-endian numbers, numerals, subsequences and concatenations, `Option` and `Result` |

Conventions. `Result.Err` is a thrown error, whatever its text. A `Map` or `Set` whose order of
insertion matters is a map or set together with a list. Shifts, masks and ors of disjoint bits are
written as products, quotients and remainders, or as rows of bits. Hashes, signature checks, the
key derivation function and the curve are function parameters, so every theorem holds for all of them.

## What the code does that its documentation does not say

- `arrayifyInteger` shifts 32-bit words: it is right exactly for lengths below 2^31
  (`ShiftLoopCorrectIff`), loops for ever on those with the sign bit set, and otherwise loses high bits.
- Ignoring errors in UTF-8 "accepts non-canonical (overlong) codepoints" by its description; the code drops them.
  Replacing takes them for the code point they hold (`OverlongSlash`, `RecoveryRound`).
- `toUtf8Bytes` accepts a stray low surrogate; the string round trip holds exactly for well-formed
  strings (`StringRoundTripIff`).
- `lex` never accepts a text that ends in white space (`TrailingSpaceRejected`). It accepts `[3]]`
  (`BracketTwiceAccepted`) and any number of further closing brackets (`ExtraClosingsAccepted`); a `]` is accepted
  exactly behind a token that can take it (`ClosingIff`). It does not object to an open parenthesis that is never
  closed (`UnclosedAccepted`): what it accepts has all parentheses matched if and only if as many are
  opened as are closed (`MatchedIffBalanced`). `popParams` drops one empty item at the end of a list
  (`SegmentsAreItems`).
- The full format of a parameter is described as `tuple(uint256 foo, address bar) indexed baz`. Of a tuple that was
  parsed it prints the components twice, and that text is refused; for every parameter that was read, the full
  text is read back as the parameter if and only if its type text is its sighash text (`FullTextIff`).
- A width with leading zeros, `uint08`, is an accepted basic type and keeps its zeros (`VerifyBasicTypeIff`,
  `IntegerTexts`), so that it has a sighash text of its own.
- The configuration comment of the fallback provider says lower priorities are tried first; the code sorts
  descending (`DispatchesLowestIff`, `HighestPriorityFirst`).
- "All providers have returned", says the comment above the assertion that a quorum was not met. That is so
  exactly when all providers were running before the last runners were added (`GivesUpAfterAllIff`);
  `GivesUpEarly` is a run in which the third provider has only just been asked. With a quorum of at least the
  number of providers it is so in every run (`GivesUpAfterAll`).
- Providers that all give the same answer can still end with "quorum not met" if some of them weigh nothing
  (`WeightlessAgreementFails`); with positive weights that make up the quorum they cannot (`AgreementWins`).
- Among block numbers of equal weight the fuzzy mode is the largest. It is always one above a reported number
  (`ModeIsOneAbove`): when every provider reports block n, the mode is n + 1, which nobody has reported, and so
  is the height (`NearReports`, `UnanimousHeight`).
- The comparator of `getMedian` repeats its first test and never yields 1; for a sort that asks only whether it
  is negative that does no harm (`SortSorts`). The mean of two equal negative values is rounded out of
  their range (`MeanBetweenIff`), and the "ceiling of the mean" is one exactly if the sum is odd or not negative
  (`MedianIsCeilingIff`).
- The typed-data constructor does not notice a cycle that the primary type does not reach
  (`HiddenCycleAccepted`); what it accepts is free of cycles if and only if the primary type reaches
  every type (`NoCycleIffAllReached`). It also refuses the bare types `int` and `uint` (`BareIntegersThrow`):
  digits make an integer type exactly when they are the numeral of 8, 16, ... or 256 (`IntegerTypeIff`). Names of
  fields are not looked at: one field whose name holds a comma has the text of two (`UncleanNamesCollide`); without
  spaces, commas and parentheses in names the text determines the fields (`EncodeTypeIsInjective`).
- A signed value that wraps to the least one is stored as plus that value (`SignedWraps`). Multiplying such a
  value and dividing the product again can throw (`StoredLeastValueIsLost`); for which operands the division
  gives back what was multiplied is stated over all integers (`MulThenDivIff`).
- The table of precompiled addresses holds 64 digits each and the pattern asks for 44, so it never matches
  (`PrecompiledNeverMatch`). The constant `ZeroAddress` has 40 digits and is refused as well
  (`ZeroConstantRefused`). A `0` and an `e` behind the digit 2 are not told apart by the check digits, so
  two addresses that differ only there are both accepted (`ZeroForLetterUnnoticed`); which exchanges go unnoticed
  is stated exactly (`SingleChangeIff`).
- The hash of a parsed signed transaction is that of its canonical spelling, which need not be the bytes that
  were parsed (`CanonicalIff`): every accepted signed transaction is accepted with a zero byte in front of its
  nonce as well, and serialized without it (`LeadingZeroAccepted`, with an input in `NonCanonicalAccepted`).
- A nonce serializes exactly if it is at least 0 and below 2^53 - 1 (`NonceSerializesIff`), but the setter accepts
  2^53 - 1 and every negative safe integer too (`SetNonce`, `OtherNoncesFail`, `UnserializableNonces`).

## Model

| member | source | states |
|---|---|---|
| Rlp.ShiftLoopCorrectIff | src.ts/crypto/rlp.ts:8-16 | the 32-bit shift loop yields the bytes of a length if and only if it is below 2^31 |
| Rlp.ShiftLoopDiverges | src.ts/crypto/rlp.ts:8-16 | with the sign bit of the word set the loop never stops |
| Rlp.ShiftLoopLosesHighBits | src.ts/crypto/rlp.ts:8-16 | when it stops on a larger number it has kept the low 32 bits only |
| Rlp.ReadHeadOfHeader | src.ts/crypto/rlp.ts:103-181 | the four branches on the first byte read back every header that the encoder writes, at any offset |
| Rlp.DecodeEncode | src.ts/crypto/rlp.ts:103-181 | an encoding anywhere inside a larger buffer decodes to its value and is consumed exactly |
| Rlp.DecodeEncodeAll | src.ts/crypto/rlp.ts:76-100 | the encodings of the children fill the payload of a list exactly |
| Rlp.RoundTrip | src.ts/crypto/rlp.ts:67-190 | decoding an encoding gives the nested value back |
| Rlp.PrefixFree | src.ts/crypto/rlp.ts:30-69 | no encoding is a prefix of that of another value |
| Rlp.Decode | src.ts/crypto/rlp.ts:103-181 | decoding stops, consumes at least one byte and never passes the end of the buffer |
| Rlp.HeaderIsShortest | src.ts/utils/rlp-decode.ts:62-124 | an accepted header is no shorter than the encoder's, and equal to it at the same length |
| Rlp.EncodeDecode | src.ts/crypto/rlp.ts:30-181 | whatever is accepted re-encodes in no more bytes; the encoder's form is the only one of its length |
| Rlp.Normalizes | src.ts/utils/rlp-decode.ts:129-139 | re-encoding an accepted input decodes to the same value, and changes nothing exactly when it is no shorter |
| RlpGrammar.DecodeAllIff | src.ts/crypto/rlp.ts:67-190 | the decoder accepts exactly the byte strings of a grammar that does not mention it (any number of length bytes up to eight, leading zeros included), returns what they spell, and refuses all others, those with bytes left over among them |
| RlpGrammar.SpelledIsDecoded | src.ts/crypto/rlp.ts:103-181 | a string of the grammar anywhere in a buffer is consumed exactly |
| RlpGrammar.EncodingIsShortest | src.ts/crypto/rlp.ts:30-69 | the encoder writes the shortest of these strings, and the only one of its length |
| RlpGrammar.EncodesIff | src.ts/crypto/rlp.ts:8-65 | there is an encoding exactly if the length of each payload is up to 55 or the shift loop leaves its bytes |
| RlpCodec.ArrayifyInteger | src.ts/crypto/rlp.ts:8-16 | the loop gives the shortest big-endian bytes of the length |
| RlpCodec.UnarrayifyInteger | src.ts/crypto/rlp.ts:18-28 | the loop gives the number in the slice |
| RlpCodec.WithHeader | src.ts/utils/rlp-encode.ts:14-50 | short or long header in front of the payload |
| RlpCodec.EncodeItem | src.ts/crypto/rlp.ts:30-65 | the recursive encoder with its payload loop computes the specified encoding |
| RlpCodec.DecodeChildrenLoop | src.ts/crypto/rlp.ts:76-100 | the running child offset yields the children that fill the list exactly, or an error |
| RlpCodec.DecodeItem | src.ts/crypto/rlp.ts:103-181 | the decoder as written computes the specified value and consumption, error cases included |
| Bytes.StripLeadingZeros | src.ts/utils/data.ts:372-391 | the scan drops exactly the leading zero bytes |
| Bytes.FromNatToNat | src.ts/utils/data.ts:372-391 | reading a number and writing it back drops exactly the leading zeros |
| Bytes.FromNatLength | src.ts/transaction/transaction.ts:176-185 | a number fits in k bytes if and only if it is below 256^k |
| Transaction.FieldsBack | src.ts/transaction/transaction.ts:100-109 | both orders of fields are read back by position, the recipient in lower case |
| Transaction.AddressBack | src.ts/transaction/transaction.ts:78-83 | the 22 bytes of an accepted address are parsed to the same address in lower case |
| Transaction.NumberBack | src.ts/transaction/transaction.ts:86-92 | a numeric field without leading zeros is read back |
| TransactionRoundTrip.UnsignedRoundTrip | src.ts/transaction/transaction.ts:85-197 | parsing an unsigned serialization gives back every field of every valid transaction |
| TransactionRoundTrip.UnsignedInjective | src.ts/transaction/transaction.ts:152-197 | transactions with the same unsigned serialization agree in every field, the recipient up to case |
| TransactionRoundTrip.SignedRoundTripIff | src.ts/transaction/transaction.ts:85-120 | parsing a signed serialization succeeds if and only if the network has a prefix and the signature verifies against the hash of the unsigned form; every field comes back, and the hash is that of the parsed bytes |
| TransactionRoundTrip.NonceSerializesIff | src.ts/utils/data.ts:172-188 | of the safe integers exactly those from 0 to 2^53 - 2 are accepted as a nonce by serialization |
| TransactionRoundTrip.OtherNoncesFail | src.ts/transaction/transaction.ts:152-197 | with any other nonce that the setter accepts, neither the signed nor the unsigned form can be serialized |
| TransactionRoundTrip.UnserializableNonces | src.ts/transaction/transaction.ts:239-241 | such nonces are 2^53 - 1 and -1 |
| TransactionRoundTrip.LowerSerializesAlike | src.ts/transaction/transaction.ts:152-197 | serialization sees neither the case of the recipient nor the signature field |
| TransactionRoundTrip.SenderIff | src.ts/transaction/transaction.ts:348-354 | a sender is recovered exactly for a good signature on a network with a prefix (`SenderIs` says who it is) |
| TransactionRoundTrip.ParseSigned | src.ts/transaction/transaction.ts:111-117 | parsing eight items recomputes the digest that was signed, the hash and the sender |
| TransactionRoundTrip.NumberCanonicalIff | src.ts/transaction/transaction.ts:176-185 | a parsed number is serialized to the same item exactly when it had no leading zero |
| TransactionRoundTrip.CanonicalIff | src.ts/transaction/transaction.ts:111-117 | for all accepted signed bytes: serializing the result gives the same bytes if and only if they are canonical, and then the hash is that of the input |
| TransactionRoundTrip.LeadingZeroAccepted | src.ts/transaction/transaction.ts:86-92 | the bytes of every accepted signed transaction with a zero byte in front of the nonce are accepted too, as the same transaction; it serializes to other bytes, and its hash is that of the other bytes |
| TransactionRoundTrip.NonCanonicalAccepted | src.ts/transaction/transaction.ts:86-117 | such bytes exist: where the signature check passes, a transaction of zeros with its nonce written as one zero byte |
| TransactionLayout.SerializesIff | src.ts/transaction/transaction.ts:152-197 | with data and signature of up to 2^26 bytes, a transaction serializes exactly if its nonce is from 0 to 2^53 - 2, its other numbers are from 0 to 2^256 - 1, and its recipient is none, empty or 22 bytes |
| TransactionLayout.SerializedItems | src.ts/transaction/transaction.ts:152-197 | both serializations decode to the fields in a list written out item by item, numbers in their shortest bytes |
| TransactionLayout.SenderIs | src.ts/transaction/transaction.ts:348-354 | the sender is the address of the last 57 bytes of the signature: the last twenty bytes of their hash behind the prefix of the network |
| TransactionLayout.ParsedSenderIs | src.ts/transaction/transaction.ts:111-117 | so is the sender that parsing finds, for all accepted bytes, and the first 114 bytes of the signature verify against the unsigned form |
| TransactionLayout.AcceptedLikeIff | src.ts/transaction/transaction.ts:451-502 | an object gives a transaction exactly if its recipient is an address, its nonce a safe integer, and a hash or sender that it names is that of the transaction; what is not given has its default |
| TransactionObject.Transaction.constructor | src.ts/transaction/transaction.ts:314-323 | the default values |
| TransactionObject.Transaction.SetRecipient | src.ts/transaction/transaction.ts:229-231 | the setter stores an accepted address and changes nothing else, or throws |
| TransactionObject.Transaction.SetNonce | src.ts/transaction/transaction.ts:239-241 | the setter accepts exactly the safe integers |
| TransactionObject.Transaction.SetOthers | src.ts/transaction/transaction.ts:458-475 | the other setters take what is given and leave the rest |
| TransactionObject.Transaction.Assign | src.ts/transaction/transaction.ts:451-502 | building from an object: the setters, then the checks of hash and sender |
| TransactionObject.Transaction.Checks | src.ts/transaction/transaction.ts:477-500 | hash and sender are accepted exactly when they match the recomputed ones |
| TransactionObject.Serialize | src.ts/transaction/transaction.ts:152-197 | pushing the fields of a table one by one computes the specified serialization |
| AbiLexer.FoldBracket | src.ts/abi/fragments.ts:370-388 | a closing bracket is folded into the opening one with the length between them, or throws |
| AbiLexer.AcceptSimple | src.ts/abi/fragments.ts:346-391 | the branches on the six punctuation characters, with their patches of earlier tokens |
| AbiLexer.LexText | src.ts/abi/fragments.ts:313-426 | the loop over the text computes the specified tokens, or throws |
| AbiLexer.ClosePairs | src.ts/abi/fragments.ts:355-365 | closing a parenthesis pairs it with its partner at equal depth and ends the last item |
| AbiLexer.ApplyKeepsInv | src.ts/abi/fragments.ts:325-423 | every step of the lexer keeps the partners mutual, the links to the next separator, and the stacks |
| AbiLexer.InvWellLinked | src.ts/abi/fragments.ts:313-426 | so the tokens of every accepted text are well linked |
| AbiBalance.TrailingSpaceRejected | src.ts/abi/fragments.ts:325-426 | no text that ends in white space is accepted |
| AbiBalance.NothingOpen | src.ts/abi/fragments.ts:346-365 | in every state of the lexer all parentheses read are closed if and only if its stack is empty, and then every separator is linked |
| AbiBalance.RunCounts | src.ts/abi/fragments.ts:346-365 | over any part of the text the stack grows by the parentheses opened less those closed |
| AbiBalance.MatchedIffBalanced | src.ts/abi/fragments.ts:313-426 | in an accepted text all parentheses are matched if and only if as many are opened as closed; never are fewer opened |
| AbiBalance.UnclosedAccepted | src.ts/abi/fragments.ts:346-354 | an open parenthesis alone is accepted and stays unmatched |
| AbiBalance.ClosingIff | src.ts/abi/fragments.ts:370-388 | a closing bracket is accepted exactly behind a token that can take it, and the folded token can take another |
| AbiBalance.ExtraClosingsAccepted | src.ts/abi/fragments.ts:370-388 | an array length followed by any number of closing brackets is accepted |
| AbiBalance.BracketTwiceAccepted | src.ts/abi/fragments.ts:370-388 | one of these texts is `[3]]` |
| AbiTokenString.NextOfList | src.ts/abi/fragments.ts:360-370 | a separator's link leads to the very next separator of its list, or to the closing parenthesis |
| AbiTokenString.ChainVisits | src.ts/abi/fragments.ts:251-269 | the chain of links visits exactly the top-level commas of a list in order and ends at its parenthesis |
| AbiTokenString.ItemWellLinked | src.ts/abi/fragments.ts:208-220 | a rebased slice of an item is well linked by itself |
| AbiTokenString.SegmentsAreItems | src.ts/abi/fragments.ts:251-269 | the popped segments are the items between the commas, apart from one empty last item |
| AbiTokenString.TokenString.constructor | src.ts/abi/fragments.ts:196-199 | a fresh token string starts at its first token |
| AbiTokenString.TokenString.Pop | src.ts/abi/fragments.ts:295-299 | returns the next token and advances by one, or throws at the end |
| AbiTokenString.TokenString.PopType | src.ts/abi/fragments.ts:232-237 | the text of the next token if it is of the kind, else an error |
| AbiTokenString.TokenString.PopParams | src.ts/abi/fragments.ts:251-269 | the loop over links and rebased slices stops and yields the specified items |
| AbiParamType.ConsumeKeywords | src.ts/abi/fragments.ts:459-479 | the run of allowed keywords, each at most once |
| AbiParamType.FromTokens | src.ts/abi/fragments.ts:940-1006 | the parser on a token string computes the specified tree; leftover tokens are an error |
| AbiParamType.BaseFromTokens | src.ts/abi/fragments.ts:945-957 | a tuple or a basic type, and where it ends |
| AbiParamType.AllFromTokens | src.ts/abi/fragments.ts:949-952 | every item of a list is parsed on its own slice |
| AbiBasicType.VerifyBasicTypeIff | src.ts/abi/fragments.ts:544-572 | `int` and `uint` stand for 256 bits and every other accepted type for itself; accepted are exactly `address`, `bool`, `string`, `bytes`, `int`, `uint`, and sizes of 1 to 32 for bytes and of multiples of 8 up to 256 for integers |
| AbiBasicType.VerifySized | src.ts/abi/fragments.ts:544-572 | the same for each of the three names and all digits behind it |
| AbiRoundTrip.FormatNormal | src.ts/abi/fragments.ts:708-760 | names and `indexed` do not show in the sighash text |
| AbiRoundTrip.ParseLayout | src.ts/abi/fragments.ts:940-1006 | tokens laid out like a printable tree parse to that tree's normal form |
| AbiRoundTrip.MoveLayout | src.ts/abi/fragments.ts:208-220 | rebasing a slice keeps the layout |
| AbiSighash.LexFormat | src.ts/abi/fragments.ts:313-426 | lexing a printed type appends exactly its layout and leaves the stacks as they were |
| AbiSighash.FormatThenParse | src.ts/abi/fragments.ts:708-760 | printing any printable tree in sighash form and parsing it gives the tree up to names and `indexed` |
| AbiSighash.NormalTwice | src.ts/abi/fragments.ts:708-760 | the normal form is idempotent |
| AbiSighash.ParsedIsPrintable | src.ts/abi/fragments.ts:940-1006 | everything the parser returns can be printed and parsed again |
| AbiSighash.SighashIsNormalForm | src.ts/abi/fragments.ts:708-760 | for every accepted text the sighash text is a normal form of what was read |
| AbiFullText.DecoratedText | src.ts/abi/fragments.ts:940-1006 | any printable type followed by modifiers and at most one name is read as that type with that name, indexed if one says so; it is refused exactly if a modifier stands twice or `indexed` is not allowed |
| AbiFullText.WordBehindType | src.ts/abi/fragments.ts:940-1006 | one word behind a type is one of five modifiers, or one of sixteen other keywords or the name of a type and refused, or else the name |
| AbiFullText.BasicText | src.ts/abi/fragments.ts:940-1006 | the text of a basic type is read as what it stands for, or refused |
| AbiFullText.IntegerTexts | src.ts/abi/fragments.ts:544-572 | `uint` is read as `uint256`, `int` as `int256`, and `uint08` as itself |
| AbiFullText.SighashTexts | src.ts/abi/fragments.ts:694-760 | the pair of the documentation prints as `(uint256,address)`, has the type text `tuple(uint256,address)`, and arrays of it end in `[2]` and `[]` |
| AbiFullFormat.FullTextIff | src.ts/abi/fragments.ts:694-760 | a parameter read from any text is read back from its full text, and from its minimal text but for the name, if and only if its type text is its sighash text |
| AbiFullFormat.TupleFreeIsRead | src.ts/abi/fragments.ts:708-760 | without tuples, what is read back is the normal form with its name and `indexed` |
| AbiFullFormat.TuplesAreRefused | src.ts/abi/fragments.ts:708-760 | with a tuple, in arrays or not, the text is refused |
| AbiFullFormat.ReadIsStored | src.ts/abi/fragments.ts:940-1006 | what the parser returns has a name that is a word and no keyword or type, bare types inside its arrays, and type texts made of the bracket tokens |
| Utf8.StrictAcceptsGrammar | src.ts/utils/utf8.ts:184-284 | the throwing decoder accepts exactly the grammar of section 4 of RFC 3629 |
| Utf8.StrictDecodeIsInverse | src.ts/utils/utf8.ts:184-284 | what it accepts is the encoding of the code points it returns |
| Utf8.DecodeEncodedScalars | src.ts/utils/utf8.ts:184-284 | under every strategy the bytes of scalar values decode to them |
| Utf8.DecodeTotal | src.ts/utils/utf8.ts:105-158 | ignoring or replacing, every input decodes, and always to scalar values |
| Utf8.RoundScalars | src.ts/utils/utf8.ts:198-281 | one round of the loop stays inside the buffer and appends scalar values only |
| Utf8.EncodeWellFormed | src.ts/utils/utf8.ts:293-336 | on well-formed strings the encoder writes the bytes of the code points |
| Utf8.UnitsOfScalars | src.ts/utils/utf8.ts:339-352 | printing the code points of a well-formed string gives the string |
| Utf8.ScalarsOfUnits | src.ts/utils/utf8.ts:339-352 | scalar values print as a well-formed string with those code points |
| Utf8.StrayNotWellFormed | src.ts/utils/utf8.ts:311-332 | the bytes written for a stray low surrogate are outside the grammar |
| Utf8.StringRoundTripIff | src.ts/utils/utf8.ts:293-366 | encoding and strictly decoding gives the string back if and only if it is well formed |
| Utf8.BytesRoundTrip | src.ts/utils/utf8.ts:293-366 | decoding and encoding gives the bytes back for all that is accepted |
| Utf8.Recovers | src.ts/utils/utf8.ts:105-181 | recovery never fails, yields a well-formed string, and reads well-formed input strictly |
| Utf8Recovery.EncodingKeepsOrder | src.ts/utils/utf8.ts:293-336 | the bytes of code points are ordered as the code points are |
| Utf8Recovery.PairsKeepOrder | src.ts/utils/utf8.ts:311-322 | surrogate pairs are ordered as their code points are, from U+10000 to U+10FFFF |
| Utf8Recovery.RecoveryRound | src.ts/utils/utf8.ts:105-281 | recovering, a character of the grammar is decoded; any other stretch, whose end is described without the decoder, is dropped or becomes one U+FFFD, except that replacing takes an overlong form for its code point |
| Utf8Recovery.BadBytesBetween | src.ts/utils/utf8.ts:105-281 | bytes that start no character, between any two well-formed texts, leave both texts, with one U+FFFD between them or nothing |
| Utf8Recovery.OverlongSlash | src.ts/utils/utf8.ts:133-181 | two bytes for a slash are refused, dropped or taken for a slash, by strategy |
| Utf8Recovery.EuroAndGrin | src.ts/utils/utf8.ts:293-336 | the bytes of U+20AC and of U+1F600 |
| Utf8Codec.IgnoreFunc | src.ts/utils/utf8.ts:105-132 | the bytes skipped for each reason |
| Utf8Codec.OnError | src.ts/utils/utf8.ts:90-158 | what each strategy outputs and skips |
| Utf8Codec.ReadContinuations | src.ts/utils/utf8.ts:241-255 | the continuation bytes read, and the bits they add |
| Utf8Codec.DecodeOne | src.ts/utils/utf8.ts:198-281 | one iteration of the decoder computes the specified round |
| Utf8Codec.GetCodePoints | src.ts/utils/utf8.ts:184-284 | the decoder's loop computes the specified code points |
| Utf8Codec.PushBytes | src.ts/utils/utf8.ts:303-333 | one or two units become the bytes of one character, or an error |
| Utf8Codec.ToUtf8Bytes | src.ts/utils/utf8.ts:293-336 | the encoder's loop computes the specified bytes |
| Bits.ChunksOfConcat | src.ts/wallet/mnemonic.ts:46-62 | cutting a row of bits into chunks undoes joining numbers of that width |
| Bits.ConcatOfChunks | src.ts/wallet/mnemonic.ts:97-118 | and the other way round |
| Mnemonic.MaskBits | src.ts/wallet/mnemonic.ts:17-24 | the masks have exactly the upper or lower bits set |
| Mnemonic.MaskedEqualIff | src.ts/wallet/mnemonic.ts:66-73 | masked bytes are equal if and only if their upper bits are |
| Mnemonic.PhraseIsComplete | src.ts/wallet/mnemonic.ts:82-133 | three words for every four bytes, whose bits are entropy and checksum |
| Mnemonic.PhraseIsInjective | src.ts/wallet/mnemonic.ts:82-133 | different entropies have different phrases |
| Mnemonic.EveryEntropyHasOnePhrase | src.ts/wallet/mnemonic.ts:26-133 | over any list of 2048 different words each entropy has exactly one valid phrase, which belongs to it alone (BIP-39, "Generating the mnemonic") |
| MnemonicBits.PhraseBits | src.ts/wallet/mnemonic.ts:82-133 | bit k of the words is bit k of the entropy, or behind it the next bit of its hash |
| MnemonicBits.ZeroPhrase | src.ts/wallet/mnemonic.ts:82-133 | sixteen zero bytes give eleven times the first word and the fourth (BIP-39, test vectors) |
| MnemonicCodec.EntropyToIndices | src.ts/wallet/mnemonic.ts:82-133 | byte-wise packing computes the specified indices for 16 to 32 bytes in steps of four, and throws otherwise |
| MnemonicCodec.PackByte | src.ts/wallet/mnemonic.ts:100-118 | a byte extends the current index or completes it and starts the next |
| MnemonicCodec.LackingBits | src.ts/wallet/mnemonic.ts:120-128 | for every size the bits still lacking are as many as the checksum has |
| MnemonicCodec.PackChecksum | src.ts/wallet/mnemonic.ts:120-128 | the checksum completes the last index |
| MnemonicCodec.UnpackIndex | src.ts/wallet/mnemonic.ts:56-61 | the inner loop ors the eleven bits of an index into the byte array at the running offset |
| MnemonicCodec.ChecksumDecides | src.ts/wallet/mnemonic.ts:64-77 | the masked comparison holds exactly when the phrase is the phrase of some entropy |
| MnemonicCodec.IndicesToEntropy | src.ts/wallet/mnemonic.ts:26-80 | bit-wise unpacking returns the entropy whose phrase was given, and throws exactly when there is none |
| Tally.SumByTag | src.ts/providers/provider-fallback.ts:222-228 | the map holds for each tag its first value and total weight, in order of first appearance |
| Tally.CheckQuorum | src.ts/providers/provider-fallback.ts:222-243 | the value of the tag of greatest weight that meets the quorum, the first among equals, or undefined |
| Tally.SumWeights | src.ts/providers/provider-fallback.ts:599-602 | the total that is compared with the quorum before anything is tallied |
| Tally.QuorumValueIsUnique | src.ts/providers/provider-fallback.ts:222-243 | that value is determined by the results |
| Consensus.SortSorts | src.ts/providers/provider-fallback.ts:280-281 | despite the comparator the list ends up sorted and the same |
| Consensus.MeanBetweenIff | src.ts/providers/provider-fallback.ts:290-291 | the rounded mean lies between its values except for two equal negative ones |
| ConsensusLaws.MedianIsCeilingIff | src.ts/providers/provider-fallback.ts:283-292 | the median is the middle value, or of an even number the ceiling of the mean of two, as its comment says, exactly if their sum is odd or not negative |
| Consensus.MedianWithinMajority | src.ts/providers/provider-fallback.ts:280-292 | a strict majority of non-negative values inside a range keeps the median inside |
| Consensus.MedianFollowsMajority | src.ts/providers/provider-fallback.ts:245-292 | so does what the strategy returns, whatever the other reporters say |
| Consensus.GetMedian | src.ts/providers/provider-fallback.ts:245-292 | throws exactly if some result is neither an error nor a number; else the median of the numbers if they carry the quorum, else the error of greatest weight if that meets the quorum, else nothing |
| Consensus.MedianIsUnique | src.ts/providers/provider-fallback.ts:245-292 | that outcome is determined by the results |
| Consensus.BestTagIsHeaviest | src.ts/providers/provider-fallback.ts:252-263 | no error tag outweighs the one chosen, and among equals it is the first to reach its weight |
| Consensus.QuorumErrorIff | src.ts/providers/provider-fallback.ts:270-278 | an error is returned exactly if the weight of some error meets the quorum |
| Consensus.GetFuzzyMode | src.ts/providers/provider-fallback.ts:315-355 | throws exactly if some result is no safe number; else the largest value of maximal weight within one that meets the quorum, or nothing if none meets it |
| Consensus.PickMode | src.ts/providers/provider-fallback.ts:337-354 | the loop over the tally finds it in any order of the entries |
| Consensus.FuzzyModeIsUnique | src.ts/providers/provider-fallback.ts:315-355 | that outcome is determined by the results |
| Consensus.GetAnyResult | src.ts/providers/provider-fallback.ts:294-313 | a quorum value if there is one, else the first truthy value |
| Consensus.HeightKeeper.CheckBlockNumber | src.ts/providers/provider-fallback.ts:599-632 | a check without quorum weight changes nothing; any other starts the height at the median of the synced blocks and raises it to the mode |
| Consensus.HeightNeverFalls | src.ts/providers/provider-fallback.ts:599-632 | over any run of checks, those without quorum weight included, the height never falls and no report is below an earlier one |
| Consensus.BlocksHaveMedian | src.ts/providers/provider-fallback.ts:606-620 | non-negative block numbers of enough weight have a non-negative median |
| ConsensusLaws.HeaviestWins | src.ts/providers/provider-fallback.ts:222-243 | an answer that meets the quorum and outweighs every other is returned |
| ConsensusLaws.ModeIsOneAbove | src.ts/providers/provider-fallback.ts:323-354 | with positive weights, somebody has reported the number below the mode |
| ConsensusLaws.NearReports | src.ts/providers/provider-fallback.ts:323-354 | if all reports are n or n + 1, with n among them, and weigh the quorum, the mode is n + 1 |
| ConsensusLaws.UnanimousHeight | src.ts/providers/provider-fallback.ts:599-632 | if all report n, a height of up to n + 1 becomes n + 1, which is returned and was reported by nobody |
| Fallback.DispatchesLowestIff | src.ts/providers/provider-fallback.ts:470-489 | the chosen provider has the lowest priority only if all idle ones have the same |
| Fallback.HighestPriorityFirst | src.ts/providers/provider-fallback.ts:470-489 | of priorities 1 and 2 the second is chosen |
| Fallback.RunnersBounded | src.ts/providers/provider-fallback.ts:493-542 | never more runners than providers; all are running exactly when none is idle |
| Fallback.AddsManyKeeps | src.ts/providers/provider-fallback.ts:712-714 | adding runners keeps them distinct and keeps the measure |
| Fallback.CheckedIsSupported | src.ts/providers/provider-fallback.ts:590-656 | a value checked by quorum carries quorum weight from distinct providers with one tag |
| FallbackQuorum.LookFindsQuorum | src.ts/providers/provider-fallback.ts:590-656 | a quorum that is there is found: if distinct providers weighing at least the quorum have answered with one tag and no answer is undefined, the next look ends the request |
| FallbackQuorum.ExactQuorumFound | src.ts/providers/provider-fallback.ts:599-602 | two providers of weight one that agree end it with a quorum of two |
| FallbackQuorum.AgreedLookIff | src.ts/providers/provider-fallback.ts:666-732 | with nothing left to wait for and all answers the same, a look ends the request exactly if those asked weigh the quorum |
| FallbackQuorum.AgreementWins | src.ts/providers/provider-fallback.ts:666-732 | if all answers are the same, weights are positive and together make up the quorum, then in every interleaving a request that is done ends with that answer |
| FallbackQuorum.WeightlessAgreementFails | src.ts/providers/provider-fallback.ts:702-724 | with weights 0, 0 and 2, two equal answers and a quorum of two, a run gives up |
| FallbackQuorum.AskedProviders | src.ts/providers/provider-fallback.ts:674-714 | in every run, as many providers have been asked as the quorum says and one more for each runner that a look found not to stall any more, or all there are |
| Fallback.SupportStays | src.ts/providers/provider-fallback.ts:508-523 | later answers do not take that support away |
| Fallback.NextKeeps | src.ts/providers/provider-fallback.ts:666-732 | every step and every event keeps the invariant and uses up potential |
| Fallback.EveryRun | src.ts/providers/provider-fallback.ts:666-732 | in every interleaving no provider runs twice, the number of looks and of steps is bounded, and what is returned or thrown carries the quorum |
| Fallback.WakeUpsCost | src.ts/providers/provider-fallback.ts:726-731 | 2 * (providers - running) + outstanding events falls at least once between any two looks |
| Fallback.NeverStuck | src.ts/providers/provider-fallback.ts:666-732 | a request that is not done always has a step or an event left |
| Fallback.GivesUpAfterAllIff | src.ts/providers/provider-fallback.ts:710-724 | when the quorum is given up, all providers have replied if and only if all were running before |
| Fallback.GivesUpAfterAll | src.ts/providers/provider-fallback.ts:702-724 | if the quorum is at least the number of providers, every run that gives up does so after all have replied |
| Fallback.GivesUpEarly | src.ts/providers/provider-fallback.ts:710-724 | a run that gives up while the third provider is still working |
| FallbackLoops.NextConfig | src.ts/providers/provider-fallback.ts:470-489 | for any shuffle, the first idle provider of the sorted list is an idle one of greatest priority |
| FallbackLoops.AddRunners | src.ts/providers/provider-fallback.ts:712-714 | the loop adds as many runners as asked for, as long as providers are idle |
| FallbackLoops.CollectInteresting | src.ts/providers/provider-fallback.ts:674-699 | the loop marks and counts the runners that bump, and watches every pending promise |
| FallbackLoops.CheckRunners | src.ts/providers/provider-fallback.ts:590-656 | the results of the runners, tallied unless together they weigh less than the quorum |
| TypedData.ReachIff | src.ts/hash/typed-data.ts:307-332 | a type is below another exactly through one of its children |
| TypedData.GraphEdges | src.ts/hash/typed-data.ts:241-283 | the links are the references of the fields, arrays included |
| TypedData.IntegerTypeIff | src.ts/hash/typed-data.ts:120-134 | digits behind `uint` or `int` make a base type exactly when they are the numeral of a multiple of 8 from 8 to 256 |
| TypedData.BareIntegersThrow | src.ts/hash/typed-data.ts:120-134 | `int` and `uint` without digits throw |
| TypedData.BaseTypeIff | src.ts/hash/typed-data.ts:120-200 | the types with an encoder of their own are `address`, `bool`, `bytes`, `string`, `bytes1` to `bytes32`, and the integer types in steps of eight |
| TypedData.ArrayBase | src.ts/hash/typed-data.ts:255-257 | the base of an array type is what stands before its first bracket |
| TypedData.NoCycleIffAllReached | src.ts/hash/typed-data.ts:306-333 | what the search passes is free of cycles if and only if the primary type reaches every type |
| TypedData.HiddenCycleAccepted | src.ts/hash/typed-data.ts:285-333 | types with a cycle out of reach of the primary type that are accepted |
| TypedDataEncoder.Encoder.constructor | src.ts/hash/typed-data.ts:226-239 | an empty entry for every type |
| TypedDataEncoder.Encoder.LinkFields | src.ts/hash/typed-data.ts:242-282 | the fields of a struct are accepted exactly if their names differ and their types are known and not the struct itself; links and parents are extended accordingly |
| TypedDataEncoder.Encoder.LinkAll | src.ts/hash/typed-data.ts:241-283 | the links become the graph of the types, the parents the reverse references |
| TypedDataEncoder.Encoder.CheckCircular | src.ts/hash/typed-data.ts:307-332 | the search fails exactly if it can come back to its path or meet a cycle; else it adds to every type on the way and on the path what lies below |
| TypedDataEncoder.Encoder.CheckChildren | src.ts/hash/typed-data.ts:317-329 | the same for the loop over the children |
| TypedDataEncoder.PrimaryTypes | src.ts/hash/typed-data.ts:286-288 | the names without parents |
| TypedDataEncoder.LinkedIsGraph | src.ts/hash/typed-data.ts:241-288 | a type has no parents exactly if no field refers to it |
| TypedDataEncoder.SearchFromRoot | src.ts/hash/typed-data.ts:333-333 | from the primary type the search fails exactly on a reachable cycle, and gives each reached type its strict descendants |
| TypedDataEncoder.FindPrimary | src.ts/hash/typed-data.ts:285-304 | the primary type is the only one without parents, or there is none |
| TypedDataEncoder.Compile | src.ts/hash/typed-data.ts:221-333 | the constructor accepts exactly well-formed types with one primary type below which there is no cycle; subtypes of a reached type are the types it refers to transitively |
| TypedDataText.ListingIsUnique | src.ts/hash/typed-data.ts:337-338 | a set has one ascending listing |
| TypedDataText.SortedNames | src.ts/hash/typed-data.ts:337-338 | sorting the set in any order gives it |
| TypedDataText.FullTypes | src.ts/hash/typed-data.ts:336-344 | every full type is the type followed by its subtypes in ascending order (EIP-712, "Definition of encodeType") |
| TypedDataText.FullTextIsUnique | src.ts/hash/typed-data.ts:336-344 | the text does not depend on the order in which the search met the types |
| TypedDataText.Construct | src.ts/hash/typed-data.ts:221-345 | the whole constructor: for accepted types the full text of each reached type is its own text followed by those of the types it refers to transitively, in ascending order |
| TypedDataText.EncodeTypeIsUnique | src.ts/hash/typed-data.ts:336-344 | there is one such text for each type |
| TypedDataText.LessIff | src.ts/hash/typed-data.ts:337-338 | the order of the sort: the beginning of the other, or the smaller character where they first differ |
| TypedDataReader.ReadEncodeType | src.ts/hash/typed-data.ts:203-207 | a reader that cuts at parentheses, commas and spaces gets back the name of the struct and its fields, type and name, in order |
| TypedDataReader.EncodeTypeIsInjective | src.ts/hash/typed-data.ts:203-207 | structs without those characters in their names and types have the same text only if they are the same |
| TypedDataReader.FullTextReads | src.ts/hash/typed-data.ts:336-344 | the full text is read as the type and then, in ascending order, every type that it refers to transitively, each with its fields |
| TypedDataReader.UncleanNamesCollide | src.ts/hash/typed-data.ts:203-253 | one field named `b,bool d` has the text of two fields, and both lists are well-formed |
| TypedDataReader.Refused | src.ts/hash/typed-data.ts:241-283 | types with a field name twice in a struct, an unknown or missing base type, or a struct inside itself are not accepted |
| TypedDataReader.MailText | src.ts/hash/typed-data.ts:203-207 | the struct `Mail` of EIP-712 has the text that the standard gives |
| TypedDataReader.PersonText | src.ts/hash/typed-data.ts:203-207 | so has `Person` |
| Ed448Keys.AddScalarLoop | src.ts/crypto/ed448goldilock.ts:100-112 | the carry loop gives the sum of key and truncated offset modulo 2^456 |
| Ed448Keys.OffsetBounds | src.ts/crypto/ed448goldilock.ts:100-104 | the offset is a multiple of four below 2^424 |
| Ed448Keys.AddExact | src.ts/crypto/ed448goldilock.ts:100-112 | below 2^448 the top byte stays and nothing is lost |
| Ed448Keys.ClampRounds | src.ts/crypto/ed448goldilock.ts:18-25 | with the high bit set, clamping only rounds down to a multiple of four |
| Ed448Keys.SameScalar | src.ts/crypto/ed448goldilock.ts:32-51 | signing uses the scalar that the public key comes from |
| Ed448Keys.IndexBytes | src.ts/crypto/ed448goldilock.ts:83-98 | the loop writes the four little-endian bytes of the index |
| Ed448Keys.SeedOk | src.ts/crypto/ed448goldilock.ts:114-129 | a seed key starts in scalar mode with its number between 128 and 192 times 2^440 |
| Ed448Keys.Headroom | src.ts/crypto/ed448goldilock.ts:100-129 | 2^22 offsets fit between the seed's bound and 2^448 |
| Ed448Keys.DerivedOk | src.ts/crypto/ed448goldilock.ts:131-155 | along every path of up to 2^22 steps the top byte is the seed's and the number stays in bounds |
| Ed448Keys.ChildScalar | src.ts/crypto/ed448goldilock.ts:131-145 | the clamped child is the clamped parent plus the offset, as integers, and every key is used in scalar mode |
| Ed448Derivation.ChildInputs | src.ts/crypto/ed448goldilock.ts:83-98 | what is hashed for a chain code and for an offset begins with a byte for its purpose, holds the private key if hardened and else the public key, and ends with four bytes whose little-endian number is the index |
| Ed448Derivation.InputIsInjective | src.ts/crypto/ed448goldilock.ts:83-98 | these bytes tell purpose, key and index |
| Ed448Derivation.IndexMatters | src.ts/crypto/ed448goldilock.ts:131-145 | unless the function confuses two inputs of one parent, children of different indices have different chain codes and different offsets, and no chain code is an offset |
| Ed448Derivation.NormalChildIsPublic | src.ts/crypto/ed448goldilock.ts:131-145 | public key, chain code and index determine a normal child's chain code and offset |
| Ed448Derivation.HardenedChildIsPrivate | src.ts/crypto/ed448goldilock.ts:131-145 | different private keys give a hardened child different inputs |
| Ed448Derivation.OffsetIs | src.ts/crypto/ed448goldilock.ts:100-104 | the offset is the number in the first 53 bytes, rounded down to a multiple of four |
| Ed448Derivation.WalletPath | src.ts/crypto/ed448goldilock.ts:147-155 | a wallet's key is derived along m/44'/654'/0'/0'/index |
| Ed448Derivation.WalletPublicKey | src.ts/crypto/ed448goldilock.ts:25-40 | along every path of fewer than 2^22 steps the public key comes from the clamped scalar, which is also the one that signs |
| Ed448Derivation.SeedSalts | src.ts/crypto/ed448goldilock.ts:114-129 | which salt gives the chain code and which the key, byte by byte |
| FixedPoint.TwosRoundTrip | src.ts/utils/maths.ts:35-84 | both conversions succeed exactly on their ranges and undo each other |
| FixedPoint.UnsignedWraps | src.ts/utils/fixednumber.ts:108-121 | the doubled remainder is the remainder modulo 2^w for every integer |
| FixedPoint.SignedWraps | src.ts/utils/fixednumber.ts:90-107 | the wrapped value is congruent to the exact one and at most 2^(w-1) in magnitude; when it leaves the range is stated exactly |
| FixedPoint.CheckedInRange | src.ts/utils/fixednumber.ts:84-124 | a value in range is stored as it is, but the least signed one loses its sign |
| FixedPoint.MulThenDivIff | src.ts/utils/fixednumber.ts:444-512 | for every operand, after a successful signalling product: where the exact product is the least signed value, signalling division gives the operand back if and only if the operand is plus the half-range, 2^(w-1); everywhere else, if and only if the operand is in range and not the least signed value |
| FixedPoint.StoredLeastValueIsLost | src.ts/utils/fixednumber.ts:90-107 | in an 8-bit format with one decimal -128 is stored as 128, whose product with 5 is 64, and dividing 64 by 5 throws |
| FixedLaws.InRangeIff | src.ts/utils/fixednumber.ts:84-124 | in range are exactly the values that have a pattern of the width |
| FixedLaws.MulSignalIff | src.ts/utils/fixednumber.ts:444-460 | the product is the exact one in units of the last place, and it throws exactly if there is none in range |
| FixedLaws.DivSignalIff | src.ts/utils/fixednumber.ts:492-512 | the same for the quotient, which also throws for a divisor of zero |
| FixedPoint.RunIsCongruent | src.ts/utils/fixednumber.ts:373-412 | however often a run of unsafe additions and subtractions overflows, its result is congruent to the exact one |
| FixedStrings.FromStringIff | src.ts/utils/fixednumber.ts:724-763 | the result is exactly the number the text denotes; it throws exactly when that is no integer of the last place or out of range |
| FixedLaws.SplitIff | src.ts/utils/fixednumber.ts:725-731 | a text is taken apart exactly if it is a sign or none, digits, and possibly a point with digits behind it |
| FixedLaws.FromTextExactly | src.ts/utils/fixednumber.ts:724-763 | for every text, malformed ones included: the result is exactly the number it denotes, or it throws |
| FixedLaws.TextIsShortest | src.ts/utils/fixednumber.ts:194-228 | what is printed denotes the value, without a zero in front of another digit or at the end of more than one decimal, with a sign exactly for negative values |
| FixedStrings.TextDenotes | src.ts/utils/fixednumber.ts:194-228 | the printed digits denote the value |
| FixedStrings.ConvertsExactlyIff | src.ts/utils/fixednumber.ts:672-674 | printing a value and reading it into any format converts it exactly or throws |
| FixedStrings.StringRoundTrip | src.ts/utils/fixednumber.ts:194-228 | reading back what was printed gives the value, over the whole range of the format |
| FixedCodec.MakeZeros | src.ts/utils/fixednumber.ts:20-24 | doubling leaves 128 zeros |
| FixedCodec.GetTens | src.ts/utils/fixednumber.ts:27-33 | the text of a one and zeros is that power of ten |
| FixedCodec.Pad | src.ts/utils/fixednumber.ts:208-211 | padding keeps the value and leaves at least one whole digit |
| FixedCodec.TrimWhole | src.ts/utils/fixednumber.ts:217-220 | trimming leaves the numeral of the whole part |
| FixedCodec.TrimFraction | src.ts/utils/fixednumber.ts:222-225 | trimming leaves the shortest fraction of at least one digit |
| FixedCodec.ToString | src.ts/utils/fixednumber.ts:194-228 | the loops print sign, quotient and shortest fraction |
| FixedCodec.FromText | src.ts/utils/fixednumber.ts:724-763 | the padding loop and the checks compute the specified value, or throw |
| FixedCodec.FromValueIff | src.ts/utils/fixednumber.ts:684-716 | rescaling an integer is exact or throws |
| FixedCodec.TextIsPlain | src.ts/utils/units.ts:124-132 | a printed value has no exponent, and trimming to its decimals changes nothing |
| FixedCodec.UnitsRoundTrip | src.ts/utils/units.ts:56-156 | formatting succeeds exactly on the 128-bit range, and parsing in the same unit undoes it |
| FixedLaws.UnitPlaces | src.ts/utils/units.ts:28-49 | the decimal places of each unit and of none, and that other names are refused |
| FixedLaws.ParseUnitsTruncates | src.ts/utils/units.ts:124-156 | parsing in a unit cuts surplus decimals off towards zero, for every decimal without exponent |
| Address.CheckSumIs | src.ts/address/index.ts:81-99 | the checksum depends only on the values of the digits |
| Address.RearrangedIsOneIff | src.ts/address/index.ts:81-99 | of the digits 02 to 98 exactly the calculated ones make the rearranged number 1 modulo 97 (ISO 7064 MOD 97-10) |
| Address.ChangeUnnoticedIff | src.ts/address/index.ts:81-99 | one exchanged character is unnoticed exactly if the values up to it are congruent |
| Address.SingleChangeIff | src.ts/address/index.ts:81-99 | within 0-9 or within a-f only an equal value is unnoticed; between digit and letter, exactly when seven times what precedes makes up the difference |
| Address.ChangedBodyRejected | src.ts/address/index.ts:176-196 | an accepted address with one body character changed within its kind is refused |
| Address.ZeroForLetterUnnoticed | src.ts/address/index.ts:176-196 | for every prefix and every rest of the body, two different addresses, with `0` and `e` behind a digit 2, both accepted |
| Address.PrecompiledNeverMatch | src.ts/address/index.ts:64-75 | no address of the right shape is in the table |
| Address.AcceptedIff | src.ts/address/index.ts:176-196 | an address is accepted exactly if it has the shape, its check digits are 02 to 98 and the rearranged number is 1 modulo 97; it is returned prefixed and then accepted unchanged |
| AddressOrigin.ZeroAddress | src.ts/address/index.ts:176-196 | twenty zero bytes on network 1 have the check digits 54 |
| AddressOrigin.ZeroConstantRefused | src.ts/constants/addresses.ts:6-6 | the constant for the zero address is no address |
| Address.CaseDoesNotMatter | src.ts/address/index.ts:176-196 | acceptance does not depend on the case of the digits |
| Address.NetworkPrefixes | src.ts/address/index.ts:224-235 | which networks have a prefix |
| AddressOrigin.PrefixOfNetwork | src.ts/address/index.ts:224-235 | which prefix belongs to which networks |
| Address.PublicAddressAccepted | src.ts/transaction/address.ts:19-26 | every address made from a key passes the check unchanged and carries the prefix |
| AddressOrigin.PublicAddressIs | src.ts/transaction/address.ts:19-26 | the address of a key holds the last twenty bytes of its hash behind the prefix |
| AddressOrigin.SameAddressIff | src.ts/transaction/address.ts:19-26 | two keys have the same address exactly if the last twenty bytes of their hashes agree |
| Address.ContractAddressAccepted | src.ts/address/index.ts:237-259 | a contract address passes the check and keeps the sender's prefix; it exists for every accepted sender and nonce below 2^256 |
| AddressOrigin.ContractAddressIs | src.ts/address/index.ts:237-259 | a contract address holds the last twenty bytes of the hash of a list that decodes to the 22 bytes of the sender and the shortest bytes of the nonce |
| Address.PreimageIsInjective | src.ts/address/index.ts:252-255 | different senders or nonces hash different bytes |
| Iban.ReduceBlock | src.ts/address/index.ts:127-131 | replacing leading digits by their remainder keeps the remainder |
| Iban.IbanChecksum | src.ts/address/index.ts:116-139 | the blockwise loop stops with the two-digit checksum of the whole number |
| Iban.LetterNumbers | src.ts/address/index.ts:101-114 | digits stand for themselves and the letters for 10 to 35 (ISO 7064, MOD 97-10) |
| Iban.IcapIsValidIff | src.ts/address/index.ts:215-222 | the rearranged number of the text is 1 modulo 97 exactly for the calculated digits |
| Hex.UnhexHexlify | src.ts/utils/data.ts:70-92 | bytes survive being printed and read |
| Hex.HexlifyAt | src.ts/utils/data.ts:155-230 | two digits for each byte in order, the higher four bits first |
| Hex.HexlifyUnhex | src.ts/utils/data.ts:155-230 | digits survive being read and printed, up to case |
| AbiBytes.NumPadValue | src.ts/providers/abstract-provider.ts:1714-1723 | the word holds the number |
| AbiBytes.EncodingParts | src.ts/providers/abstract-provider.ts:1738-1762 | the head word of each item holds the place where the item stands |
| AbiBytes.ItemIsFound | src.ts/providers/abstract-provider.ts:1701-1712 | the encoding is a whole number of words, and reading at head slot 32 * i gives exactly item i |
| AbiBytes.EncodeBytes | src.ts/providers/abstract-provider.ts:1738-1762 | place-holders patched while the tail grows give the layout of offsets and items, or an error if an offset is no safe number |
| Batch.Queue.NextBatch | src.ts/providers/provider-jsonrpc.ts:469-480 | the inner loop takes a non-empty stretch from the front that fits and could not take one more |
| Batch.SizeIsLength | src.ts/providers/provider-jsonrpc.ts:469-480 | the size of a batch is the length of the JSON array that is sent |
| Batch.Queue.Drain | src.ts/providers/provider-jsonrpc.ts:467-480 | draining stops; the batches make up the queue in order, each fits, and each is full |
| Batch.GreedyIsLongest | src.ts/providers/provider-jsonrpc.ts:469-480 | no longer stretch from the front would fit |
| Batch.GreedyIsFewest | src.ts/providers/provider-jsonrpc.ts:467-480 | no way of cutting the queue within the limits needs fewer batches |

## Left out

- Networking, timers, sockets, fetch and retry, console output: replies and expiring stall timers are steps that may happen at any time.
- Hashes, Ed448 group operations, ciphers and key stretching: parameters of the theorems.
- The texts and kinds of errors: every thrown error is `Err`.
- Lengths of 2^31 bytes and more in RLP: `Encode` is `None` there, since the shift loop does not yield the length; a payload read with a length above 2^53 is compared exactly and not as a float.
- src.ts/utils/rlp-decode.ts and src.ts/utils/rlp-encode.ts have the branches of src.ts/crypto/rlp.ts and share its model; their hex strings and their error objects are not modelled.
- Typed transaction fields given as other than integers, byte strings and address texts; comparing a given hash as a string with upper-case digits.
- JSON printing of ABI types, and the fragments other than parameter types.
- Printable ABI trees have array lengths of at most 2^53 - 1, as every parsed tree has; the `offset` field of tokens, which nothing reads.
- Custom error functions for UTF-8 and Unicode normalization.
- Word lists, their decompression, splitting and joining: a phrase is a list of words over any list of 2048 different ones.
- `_normalize` of results into tags: a result carries its tag. Strings of digits and booleans, which `BigInt` converts, count as non-numeric in the median.
- `getFuzzyMode` with a quorum of one, which returns the median as a number; a failed or non-numeric block number makes it throw, as in the code.
- Fallback.EveryRun: the state machine covers the requests that are answered through `checkQuorum`; median, fuzzy mode and any-result are modelled as methods on a list of results.
- Broadcasting through the fallback provider, statistics of providers, and the initial synchronisation, which is over before the first check of a block number.
- `Array.prototype.sort` on block numbers and names is a stable insertion that asks only whether the comparator is negative.
- Encoding values by typed-data types, domains, and name resolution.
- Generating keys, and indices of derivation that are negative.
- `cmp`, `floor`, `ceiling` and `round`, multiplication and division without signals, `fromBytes`, and negative numbers of decimals: `FixedNumber` is modelled by its value and format.
- Exponents in `parseUnits`: the conversion is a parameter.
- Upper-casing of characters outside ASCII in the ICAP checksum.
- Offchain lookups other than the layout of byte strings.
- Sending batches and settling their requests: a failed response ends the loop over a batch early, so nothing is claimed about it.
