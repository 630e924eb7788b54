# rasn1 value codecs in Dafny

A model of the value layer of the Ruby ASN.1 library rasn1: the code that
turns a typed value into the content octets of a TLV, and content octets
back into a value, for three primitive types.

- **INTEGER / ENUMERATED** (`lib/rasn1/types/integer.rb`): two's-complement,
  big-endian content octets (section 8.3 of ITU-T X.690), with an optional
  enumeration (a Ruby Hash of names to codes). The enumeration is used in
  assignment (`value=`), in `to_i`, in the constructor's handling of the
  default, and in decoding.
- **BOOLEAN** (`lib/rasn1/types/boolean.rb`): one content octet. 0x00 is
  FALSE. DER writes TRUE as 0xFF (section 11.1 of X.690). BER reads any other
  non-zero octet as TRUE.
- **PrintableString** (`lib/rasn1/types/printable_string.rb`): the octets are
  the characters. Encoding and decoding both refuse a character outside the
  PrintableString alphabet (ITU-T X.680, clause 41, Table 10).

Modules:

- `Numeric`: powers of two, and the bit length of a natural number.
- `Octets`: octets as integers 0..255, `ToNat`, and `Serialize`. `ToNat` is
  the big-endian fold of `der_to_int_value`. `Serialize` is the `size.times`
  loop of `int_value_to_der`.
- `Results`: the error kinds, `Result` and `Option`.
- `Enumeration`: the Hash as a sequence of pairs with distinct names:
  - `Lookup` is `Hash#[]`.
  - `KeyOf` is `Hash#key`: the first pair, in insertion order, with that code.
  - `HasName` and `HasCode` are `key?` and `value?`.
- `IntegerCodec`: `int_value_to_der` exactly as written
  (`IntValueToDer`), `der_to_int_value` (`DerToIntValue`), the X.690
  reference reading (`Signed`) and the minimality rule of section 8.3.2
  (`Minimal`). It also has the corrected encoder (`EncodeMinimal`); see
  Findings.
- `IntegerType`: the INTEGER object as an immutable record (value, default,
  enumeration), with `value=`, `to_i`, `initialize`, `value_to_der` and
  `der_to_value` as functions returning `Result`. `value_to_der` appears twice:
  as written (`ValueToDerAsWritten`) and with the corrected encoder
  (`ValueToDer`).
- `BooleanType` and `PrintableString`: the other two types.

Ruby exceptions become `Err` values. A Ruby value is an `Int`, a `Name`
(String or Symbol), `Nil` or `Other` (anything else).

## Model

| member | source | states |
|---|---|---|
| Numeric.BitLenFits | lib/rasn1/types/integer.rb:85 | a natural number is below 2^k exactly when its `bit_length` is at most k |
| Octets.SerializeValue | lib/rasn1/types/integer.rb:95-97 | emitting `size` low octets, high octet first, writes the value modulo 256^size |
| Octets.SerializeToNat | lib/rasn1/types/integer.rb:112-113 | the big-endian fold is inverted by writing the same number of octets |
| Octets.ToNatBound | lib/rasn1/types/integer.rb:113 | the fold of n octets is below 256^n |
| IntegerCodec.EncodedSizeIsMinimal | lib/rasn1/types/integer.rb:85-90 | the source's octet count equals the least count holding the value with its sign bit, less one exactly for negatives whose Ruby `bit_length` is a positive multiple of 8 |
| IntegerCodec.IntValueToDer | lib/rasn1/types/integer.rb:83-98 | the output is never empty and is the value modulo 256^length; a non-negative value is written as itself, minimally, with the first octet's top bit clear |
| IntegerCodec.EncodeOneOctet | lib/rasn1/types/integer.rb:85-97 | -128..127 are written as the one octet v mod 256 |
| IntegerCodec.EncodeTwoOctets | lib/rasn1/types/integer.rb:85-97 | 128..32767 are written as two octets, high first; the sign octet appears only when the top bit would be set |
| IntegerCodec.EncodeExamples | lib/rasn1/types/integer.rb:85-97 | 0, 127, 128, -1 and -128 encode as [00], [7F], [00 80], [FF] and [80] |
| IntegerCodec.EncodeIs | lib/rasn1/types/integer.rb:85-97 | the source's encoding is v written in the minimal length, one octet shorter where the sign is lost |
| IntegerCodec.DerToIntValue | lib/rasn1/types/integer.rb:111-116 | the decoded value is the two's-complement reading of the octets (u, or u - 256^n when the first octet's top bit is set), and it fits in that many octets |
| IntegerCodec.TopBitIff | lib/rasn1/types/integer.rb:114 | the sign test on the first octet holds exactly when the unsigned value reaches 2^(8n-1) |
| IntegerCodec.IsNegativeOctetIsMask | lib/rasn1/types/integer.rb:114 | the sign test is the mask test `b & 0x80 == 0x80` |
| IntegerCodec.DecodeExamples | lib/rasn1/types/integer.rb:111-116 | [FF], [80] and [00 80] decode to -1, -128 and 128 |
| IntegerCodec.DecodeContent | lib/rasn1/types/integer.rb:111-116 | any content decodes: no octets give 0, and non-empty octets give their two's-complement reading, which fits in that many octets |
| IntegerCodec.DecodeSerialize | lib/rasn1/types/integer.rb:111-116 | reading back n octets written from v gives v if and only if v fits in n octets of two's complement |
| IntegerCodec.RoundTrip | lib/rasn1/types/integer.rb:83-116 | decode(encode(v)) == v if and only if v is not a negative whose `bit_length` is a positive multiple of 8 |
| IntegerCodec.RoundTripNonNegative | lib/rasn1/types/integer.rb:83-116 | every non-negative value survives encode then decode |
| IntegerCodec.SignLostExamples | lib/rasn1/types/integer.rb:85-94 | -129 encodes as [7F], which decodes to 127; -256 encodes as [00], which decodes to 0 |
| IntegerCodec.EncodingMinimal | lib/rasn1/types/integer.rb:85-97 | wherever the sign is kept, the source's output obeys the minimal-length rule of X.690 section 8.3.2 |
| IntegerCodec.EncodeMinimal | lib/rasn1/types/integer.rb:85-97 | the corrected encoder always uses the least octet count, decodes back to v and is minimal |
| IntegerCodec.CanonicalMinimal | lib/rasn1/types/integer.rb:111-116 | minimal content octets are reproduced exactly by re-encoding their decoded value |
| IntegerCodec.AsWrittenAgreesWithMinimal | lib/rasn1/types/integer.rb:85-94 | the source's encoder and the corrected one agree exactly where no sign is lost |
| IntegerCodec.CanonicalAsWritten | lib/rasn1/types/integer.rb:83-116 | minimal octets whose value keeps its sign are reproduced by the source's encoder |
| IntegerCodec.NotCanonicalExamples | lib/rasn1/types/integer.rb:85-94 | the minimal [FF 7F] (-129) re-encodes as [7F]; -65536 encodes as the non-minimal [00 00] |
| Enumeration.FirstIndex | lib/rasn1/types/integer.rb:60 | the first position satisfying the test, with none before it; none only when no position does |
| Enumeration.Lookup | lib/rasn1/types/integer.rb:77 | `Hash#[]` finds a code exactly for a key, and it is the code stored under that name |
| Enumeration.KeyOf | lib/rasn1/types/integer.rb:60 | `Hash#key` finds a name exactly for a code that occurs, the name of the first pair carrying it |
| Enumeration.KeyOfLookup | lib/rasn1/types/integer.rb:59-60 | the name `Hash#key` returns looks up to the code it was found by |
| Enumeration.LookupKeyOf | lib/rasn1/types/integer.rb:118-124 | with distinct codes, `Hash#key` of a name's code is that name |
| Enumeration.KeyOfFirstMatch | lib/rasn1/types/integer.rb:60 | two names with one code: `Hash#key` answers the earlier |
| IntegerType.SetValue | lib/rasn1/types/integer.rb:49-69 | a name needs an enumeration that has it; an integer under an enumeration must be a code and is stored as its first name; nil is stored; anything else fails; nothing but the value changes, validity is kept, and a stored name's code is what `to_i` gives |
| IntegerType.ToI | lib/rasn1/types/integer.rb:73-79 | the value, else the default, else 0; under an enumeration a non-zero result is a code, the one of the chosen name |
| IntegerType.SetIntThenToI | lib/rasn1/types/integer.rb:49-79 | after assigning an integer, `to_i` gives it back with or without an enumeration |
| IntegerType.ValueToDerAsWritten | lib/rasn1/types/integer.rb:100-109 | integers and names encode, anything else is an unsupported type; the octets are exactly `int_value_to_der` of `to_i` (so a name encodes byte for byte as its code); they decode back to `to_i` exactly when the code keeps its sign octet, which is also exactly when they equal the corrected octets |
| IntegerType.ValueToDer | lib/rasn1/types/integer.rb:100-109 | the corrected value layer: integers and names encode, anything else is an unsupported type; the octets are the corrected encoding of `to_i`, are minimal, decode to `to_i`, and equal the source's encoding wherever it keeps the sign |
| IntegerType.DerToValue | lib/rasn1/types/integer.rb:118-124 | the decoded integer (0 for empty content) is stored as `Int` without an enumeration and as the first name carrying it with one; it fails exactly when the enumeration has no such code; `to_i` afterwards is the decoded integer |
| IntegerType.New | lib/rasn1/types/integer.rb:24-45 | without an enumeration nothing is checked; with one, construction succeeds exactly when `value=` accepts the value and the default is nil, a key or a code; the value is what `value=` stores, an integer default becomes the first name with that code, a name or nil default is kept, any other default fails, and the result is valid |
| IntegerType.AsWrittenValueRoundTrip | lib/rasn1/types/integer.rb:100-124 | as written, a valid held integer or name survives encode then decode when its code keeps the sign octet, names when codes are distinct |
| IntegerType.ValueRoundTrip | lib/rasn1/types/integer.rb:100-124 | with the corrected encoder in place of `int_value_to_der`, every valid held integer or name survives encode then decode, names when codes are distinct |
| IntegerType.AsWrittenValueRoundTripFails | lib/rasn1/types/integer.rb:100-124 | `value_to_der` as written sends -129 to [7F], and `der_to_value` stores that as 127 |
| IntegerType.ValueEncodeMinus129 | lib/rasn1/types/integer.rb:100-105 | the corrected value layer writes -129 as [FF 7F], where the source writes [7F] |
| IntegerType.EnumExample | lib/rasn1/types/integer.rb:29-44 | with {low: 0, high: 1}, value 1 becomes "high", decoding [02] fails and the default "medium" is refused |
| BooleanType.ValueToDer | lib/rasn1/types/boolean.rb:12-14 | one octet, non-zero exactly for true, and always 0x00 or 0xFF |
| BooleanType.DerToValue | lib/rasn1/types/boolean.rb:16-29 | a length other than 1 fails in both modes; a result is true exactly for a non-zero octet; DER accepts exactly [00] and [FF]; BER accepts every single octet |
| BooleanType.RoundTrip | lib/rasn1/types/boolean.rb:12-24 | decode(encode(b)) == b in both modes |
| BooleanType.StrictCanonical | lib/rasn1/types/boolean.rb:12-29 | what DER decoding accepts is exactly what encoding writes |
| BooleanType.BerExtendsStrict | lib/rasn1/types/boolean.rb:16-29 | where DER decoding succeeds, BER decoding gives the same answer |
| BooleanType.Examples | lib/rasn1/types/boolean.rb:16-29 | [01] fails under DER and is true under BER; empty and two-octet contents fail |
| PrintableString.FirstInvalid | lib/rasn1/types/printable_string.rb:30 | the leftmost character outside the alphabet, none exactly when every character is in it |
| PrintableString.CheckCharacters | lib/rasn1/types/printable_string.rb:29-31 | the check passes exactly for strings of alphabet characters and otherwise reports the leftmost offender |
| PrintableString.AlphabetIff | lib/rasn1/types/printable_string.rb:30 | the regex character class is the X.680 alphabet listed as capitals, small letters, digits, space and ' ( ) + , - . / : = ? |
| PrintableString.ValueToDer | lib/rasn1/types/printable_string.rb:19-22 | encoding fails exactly for an invalid string, with the leftmost offender; otherwise the octets are the character codes, unchanged |
| PrintableString.DerToValue | lib/rasn1/types/printable_string.rb:24-27 | decoding yields the octets as characters when they pass the same check, and fails with the leftmost offender otherwise |
| PrintableString.EncodeDecode | lib/rasn1/types/printable_string.rb:19-27 | decode(encode(s)) == s in both modes |
| PrintableString.DecodeEncode | lib/rasn1/types/printable_string.rb:19-27 | encode(decode(b)) == b in both modes |
| PrintableString.BerNotRelaxed | lib/rasn1/types/printable_string.rb:24-27 | the BER flag does not change decoding |
| PrintableString.Concatenation | lib/rasn1/types/printable_string.rb:30 | the empty string is valid; a concatenation is valid exactly when both parts are |
| PrintableString.Rejected | lib/rasn1/types/printable_string.rb:30 | newline, `_`, `*`, `@`, `&` and every character above 0x7F are refused |
| PrintableString.LeftmostReported | lib/rasn1/types/printable_string.rb:30 | in "a*b_c" the reported character is `*` |
| PrintableString.HighOctetRejected | lib/rasn1/types/printable_string.rb:24-30 | a decoded octet 0x80 is reported as an invalid character |

## Left out

- The `Primitive` and `OctetString` base classes, TLV framing (tag and length) and the `TAG` constants are not part of this model. `PrintableString.DerToValue` treats the base decode as storing the octets unchanged.
- `explicit_type` (lib/rasn1/types/integer.rb:126-128) only builds a new object, so it is not modelled.
- Exception classes and message texts are left out. Each raise is one `Error` constructor.
- lib/rasn1/types/integer.rb:67 raises an EnumeratedError for a value of an unsupported kind. It is modelled as `UnsupportedValueType`.
- lib/rasn1/types/integer.rb:123 refers to an undefined `v`, so Ruby raises NameError there. It is modelled as `ValueNotInEnumeration` with the decoded integer.
- Ruby leaves `@value` partly updated when a decode raises (line 119 stores the integer before line 122 replaces it). The model returns only the error.
- String vs Symbol names, Ruby string encodings and `force_encoding` are left out. Names are `string`. Octets are integers 0..255.
- `false` as an INTEGER value or default is folded into `Other`. Ruby's `||` would skip it like nil.
- IntegerCodec.DerToIntValue: requires non-empty input. The source decodes empty content to 0: `ary[0]` is nil at line 114, `nil & 0x80` is false, so the sign branch is skipped and the fold's seed is returned. `IntegerCodec.DecodeContent` models that case, and `IntegerType.DerToValue` uses it.
- The `ber:` flag of the INTEGER decoder is unused. Non-minimal octets such as [00 01] are accepted on decode, and the model does not claim they are rejected.
- IntegerType.ToI: requires, without an enumeration, that the chosen value is an integer or nil. Otherwise Ruby returns a non-Integer.
- IntegerType.ValueToDer: requires a held name to be a key of the enumeration (`IntegerType.ValueToDerAsWritten` too). Without an enumeration Ruby fails at `@enum[@value]`, `[]` on nil (line 103). With one, `@enum[@value]` is nil, `v = value || @value` falls back to the held String, and `bit_length` is called on that String.
- IntegerType.ValueToDerAsWritten: requires a held name to be a key of the enumeration, for the reason given for `IntegerType.ValueToDer`.
- IntegerType.New: takes the value as the base constructor stored it. Options parsing of `initialize` is not modelled.
- IntegerType.ValueToDer: uses the corrected encoder `EncodeMinimal`, not the encoder as written. Its contract states that the two agree wherever the source keeps the sign; see Findings. `IntegerType.ValueToDerAsWritten` is the source's behaviour.
- IntegerType.ValueRoundTrip: is about the corrected value layer. The source's layer round-trips only where the code keeps its sign octet (`IntegerType.AsWrittenValueRoundTrip`, `IntegerType.AsWrittenValueRoundTripFails`).
- IntegerType.ValueEncodeMinus129: shows the corrected value layer. The source writes [7F] for -129.
- BooleanType.ValueToDer: takes a `bool`. Ruby's truthiness (nil encodes as 0x00, any other object as 0xFF) is reduced to that.
- PrintableString in Ruby rejects invalid UTF-8 with an ArgumentError. Strings here are sequences of Unicode scalar values, so that case does not arise.

## Findings

| source | as written | input that shows it | evidently intended | confidence | as-written member | corrected member |
|---|---|---|---|---|---|---|
| lib/rasn1/types/integer.rb:85-94 | The size comes from Ruby's `bit_length`, which for a negative v is the bit length of -v-1. The sign octet is added only for positive values. A negative value whose `bit_length` is a positive multiple of 8 therefore gets no room for its sign bit. | -129 encodes as [7F], which decodes to 127. -256 encodes as [00]. -65536 encodes as the non-minimal [00 00]. The minimal [FF 7F] (-129) re-encodes as [7F]. | Count the sign bit for negatives too (`bit_length / 8 + 1` octets), so -129 is [FF 7F]. | high; not executed | IntegerCodec.SignLostExamples | IntegerCodec.EncodeMinimal |
