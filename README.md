# spring-boot-banner-maven-plugin: the request-URI builder

The `generate` goal of SpringBootBannerMojo fetches an ASCII-art banner from a
web service and writes it to a file. Before the fetch it builds the request
URI from a template, by default
`https://devops.datenkollektiv.de/renderBannerTxt?text={text}&font={font}`.
It makes two substitutions. First every `{text}` is replaced by the
form-encoded banner text, then every `{font}` by the form-encoded font name.
Each substitution is `replaceGetParam`, which is `StringUtils.replace`
applied with the `URLEncoder.encode(…, "UTF-8")` encoding of the value.

This project models that builder and proves what it guarantees:

- `Utf8.dfy`: UTF-8 encoding of Unicode scalar values, as in RFC 3629, and a
  strict decoder. Decoding succeeds exactly on encodings.
- `FormEncoding.dfy`: the encoder as java.net.URLEncoder applies it. The
  characters `A–Z a–z 0–9 . - * _` stay as they are, a space becomes `+`, and
  every other character becomes `%HH` (upper-case hex) for each of its UTF-8
  bytes. The model also has a second definition, the byte serialiser of the
  application/x-www-form-urlencoded format (WHATWG URL Standard, section 5.2),
  and a strict decoder that is the encoder's inverse.
- `StringReplace.dfy`: `StringUtils.replace`. It scans left to right and
  replaces non-overlapping occurrences; an empty text or an empty search
  string leaves the input unchanged. It is modelled as a function, as its
  characterisation by split and join, and as an imperative `indexOf` loop
  proved equal to the function.
- `BannerMojo.dfy`: `replaceGetParam`, the two-step substitution of
  `execute`, its one-pass reference definition `Substitute`, and the
  default template.
- `Wrappers.dfy`: the `Option` type.

StringUtils (Apache Commons Lang) and URLEncoder (the JDK) are not part of
this model: they are modelled from their documented behaviour.

## Model

| member | source | states |
|---|---|---|
| Utf8.EncodeScalar | src/main/java/com/asseco/maven/plugin/banner/SpringBootBannerMojo.java:32 | the UTF-8 encoding of a character has 1 to 4 bytes, as many as its width; a one-byte encoding is the code point itself; a longer one starts with a lead byte in 0xC2..0xF4 and continues with continuation bytes; all bytes are at least 0x80 exactly when the code point is |
| Utf8.DecodeFirstOfEncoded | src/main/java/com/asseco/maven/plugin/banner/SpringBootBannerMojo.java:32 | the decoder reads back the first character of an encoding, and its width, whatever follows |
| Utf8.DecodeFirstSound | src/main/java/com/asseco/maven/plugin/banner/SpringBootBannerMojo.java:32 | whatever bytes the decoder accepts for one character are that character's encoding: overlong forms, surrogates and values past U+10FFFF are refused |
| Utf8.DecodeEncode | src/main/java/com/asseco/maven/plugin/banner/SpringBootBannerMojo.java:32 | decoding the encoding of any string gives the string back |
| Utf8.EncodeDecode | src/main/java/com/asseco/maven/plugin/banner/SpringBootBannerMojo.java:32 | when decoding succeeds, encoding its result gives the input bytes back |
| Utf8.DecodeIff | src/main/java/com/asseco/maven/plugin/banner/SpringBootBannerMojo.java:32 | bytes decode to `s` if and only if they are the encoding of `s` |
| Utf8.EncodeAppend | src/main/java/com/asseco/maven/plugin/banner/SpringBootBannerMojo.java:32 | encoding distributes over concatenation |
| FormEncoding.HexDigit | src/main/java/com/asseco/maven/plugin/banner/SpringBootBannerMojo.java:51 | a digit value 0..15 is written as an upper-case hex digit that reads back as the same value |
| FormEncoding.PercentByte | src/main/java/com/asseco/maven/plugin/banner/SpringBootBannerMojo.java:51 | `%HH` for a byte is three characters, `%` and two upper-case hex digits whose value is the byte |
| FormEncoding.EncodeChar | src/main/java/com/asseco/maven/plugin/banner/SpringBootBannerMojo.java:51 | one character encodes to 1 character (unreserved or space) or to 3 per UTF-8 byte, all in the encoder's alphabet |
| FormEncoding.FormEncode | src/main/java/com/asseco/maven/plugin/banner/SpringBootBannerMojo.java:51 | the encoding is at least as long as the value, and every character of it is unreserved, `+` or `%` |
| FormEncoding.FormEncodeNoDelimiters | src/main/java/com/asseco/maven/plugin/banner/SpringBootBannerMojo.java:51 | an encoded value holds no `&`, `=`, `{` or `}` |
| FormEncoding.FormEncodeAppend | src/main/java/com/asseco/maven/plugin/banner/SpringBootBannerMojo.java:51 | the encoding of a concatenation is the concatenation of the encodings |
| FormEncoding.FormEncodeChar | src/main/java/com/asseco/maven/plugin/banner/SpringBootBannerMojo.java:51 | a single character: unreserved stays, space becomes `+`, anything else becomes `%HH` per UTF-8 byte, 3 to 12 characters |
| FormEncoding.FormEncodeIdentity | src/main/java/com/asseco/maven/plugin/banner/SpringBootBannerMojo.java:51 | a value is left unchanged by the encoder if and only if all its characters are unreserved |
| FormEncoding.FormEncodeIsEscapedUtf8 | src/main/java/com/asseco/maven/plugin/banner/SpringBootBannerMojo.java:51 | encoding character by character equals serialising the UTF-8 bytes of the whole value |
| FormEncoding.UnescapeEscape | src/main/java/com/asseco/maven/plugin/banner/SpringBootBannerMojo.java:51 | unescaping the serialisation of any bytes gives the bytes back |
| FormEncoding.EscapeUnescape | src/main/java/com/asseco/maven/plugin/banner/SpringBootBannerMojo.java:51 | whatever the unescaper accepts is the serialisation of the bytes it returns |
| FormEncoding.FormDecodeIff | src/main/java/com/asseco/maven/plugin/banner/SpringBootBannerMojo.java:51 | a text decodes to `s` if and only if it is the encoding of `s`: the encoded value is decodable and nothing else decodes to it |
| FormEncoding.FormEncodeInjective | src/main/java/com/asseco/maven/plugin/banner/SpringBootBannerMojo.java:51 | different values have different encodings |
| StringReplace.Split | src/main/java/com/asseco/maven/plugin/banner/SpringBootBannerMojo.java:51 | the pieces between the leftmost non-overlapping occurrences, joined by the search string, give the text back, and no piece (with the search string after it) holds an earlier occurrence |
| StringReplace.SplitUnique | src/main/java/com/asseco/maven/plugin/banner/SpringBootBannerMojo.java:51 | any pieces that join back to the text and are leftmost are exactly Split's |
| StringReplace.SplitCount | src/main/java/com/asseco/maven/plugin/banner/SpringBootBannerMojo.java:51 | there is one piece more than there are occurrences |
| StringReplace.ReplaceIsJoin | src/main/java/com/asseco/maven/plugin/banner/SpringBootBannerMojo.java:51 | replacing is joining Split's pieces with the replacement |
| StringReplace.ReplaceLength | src/main/java/com/asseco/maven/plugin/banner/SpringBootBannerMojo.java:51 | the result's length is the text's length plus `k` times the difference between the replacement's and the search string's lengths, `k` the number of occurrences |
| StringReplace.ReplaceAllSplitJoin | src/main/java/com/asseco/maven/plugin/banner/SpringBootBannerMojo.java:51 | split and join characterisation together: pieces, leftmost, count and length |
| StringReplace.CountZero | src/main/java/com/asseco/maven/plugin/banner/SpringBootBannerMojo.java:51 | the number of occurrences is zero if and only if the search string does not occur |
| StringReplace.ReplaceNoOp | src/main/java/com/asseco/maven/plugin/banner/SpringBootBannerMojo.java:51 | an empty or absent search string leaves the text unchanged |
| StringReplace.ReplaceKeepsPrefix | src/main/java/com/asseco/maven/plugin/banner/SpringBootBannerMojo.java:51 | the text before the first occurrence holds no occurrence, and it is a prefix of both the text and the result; the search string occurs if and only if it occurs right after that prefix |
| StringReplace.IndexOf | src/main/java/com/asseco/maven/plugin/banner/SpringBootBannerMojo.java:51 | returns the first occurrence at or after `from`, or -1 when there is none |
| StringReplace.ReplaceScan | src/main/java/com/asseco/maven/plugin/banner/SpringBootBannerMojo.java:51 | the `indexOf` loop that copies the text between occurrences and appends the replacement computes exactly the replacement function |
| BannerMojo.FormEncodeBraceFree | src/main/java/com/asseco/maven/plugin/banner/SpringBootBannerMojo.java:51 | an encoded value holds no brace |
| BannerMojo.BraceFreeHasNoToken | src/main/java/com/asseco/maven/plugin/banner/SpringBootBannerMojo.java:96-98 | a text without braces holds no `{text}` and no `{font}` |
| BannerMojo.ReplaceGetParamNoOp | src/main/java/com/asseco/maven/plugin/banner/SpringBootBannerMojo.java:49-55 | replaceGetParam with an empty or absent search string returns the URI unchanged |
| BannerMojo.ReplaceGetParamSplitJoin | src/main/java/com/asseco/maven/plugin/banner/SpringBootBannerMojo.java:49-55 | replaceGetParam joins the leftmost split of the URI with the encoded value, which decodes back to the replacement; the length grows by the difference between the encoded value's and the search string's lengths once per occurrence, and the text before the first occurrence stays a prefix |
| BannerMojo.Substitute | src/main/java/com/asseco/maven/plugin/banner/SpringBootBannerMojo.java:96-98 | the one-pass substitution of brace-free values into a template whose braces all belong to tokens holds no brace |
| BannerMojo.TwoStepIsSubstitution | src/main/java/com/asseco/maven/plugin/banner/SpringBootBannerMojo.java:96-98 | for brace-free values and a template whose braces all belong to tokens, substituting `{text}` then `{font}`, or the other way round, is the one-pass substitution |
| BannerMojo.ResolvedRequestIsSubstitution | src/main/java/com/asseco/maven/plugin/banner/SpringBootBannerMojo.java:96-98 | for a template whose braces all belong to tokens, the built URI is the one-pass substitution of the encoded values; it holds no brace and neither token; swapping the two steps gives the same URI |
| BannerMojo.NestedPlaceholderIsSubstitutedAgain | src/main/java/com/asseco/maven/plugin/banner/SpringBootBannerMojo.java:96-98 | without that precondition the guarantee fails: `{{text}}` is not such a template, and with text `font` the URI becomes the encoded font |
| BannerMojo.TwoTokenTemplate | src/main/java/com/asseco/maven/plugin/banner/SpringBootBannerMojo.java:96-98 | brace-free text, then `{text}`, brace-free text, then `{font}` resolves to the fixed text with the encoded values in place of the tokens |
| BannerMojo.DefaultRequestResolves | src/main/java/com/asseco/maven/plugin/banner/SpringBootBannerMojo.java:46 | the default template resolves to `https://devops.datenkollektiv.de/renderBannerTxt?text=` + encoded text + `&font=` + encoded font |
| BannerMojo.DefaultRequestWithHello | src/main/java/com/asseco/maven/plugin/banner/SpringBootBannerMojo.java:37-46 | with text `Hello` and the default font the URI is `https://devops.datenkollektiv.de/renderBannerTxt?text=Hello&font=standard` |
| BannerMojo.ResolveRequest | src/main/java/com/asseco/maven/plugin/banner/SpringBootBannerMojo.java:96-98 | the statements of `execute` assign the two-step substitution to `uri`; for a template whose braces all belong to tokens, that is the one-pass substitution and holds neither token |

## Left out

- The HTTP fetch in getBannerQuery (lines 67-77): it is network I/O. The model stops at the URI that would be requested.
- The file write in saveBannerCommand (lines 80-88): it is file-system I/O.
- Logging (lines 67 and 93).
- The Maven annotations and the `filename` and `directory` parameters (lines 29-44). Only the defaults of `font` and `request` are kept, as constants.
- The UnsupportedEncodingException branch of replaceGetParam (lines 52-53): UTF-8 is always supported, so the model's encoder is total.
- Null arguments: Java's NullPointerException on a null `text` has no counterpart in the model. So does StringUtils' rule that a null text, search or replacement returns the text.
- Lone surrogates: a Java `String` is UTF-16 and may hold an unpaired surrogate, which URLEncoder writes as `%3F` (the `?` that replaces it). A Dafny `char` is a Unicode scalar value, so that input cannot be written.
- Matching on UTF-16 code units against matching on scalar values: the tokens and the encoded values are ASCII, so the two agree for the searches `execute` makes. General search strings are matched on scalar values.
- The StringUtils `max` parameter and buffer-capacity details.
- FormEncoding.FormDecode accepts only the encoder's canonical output (upper-case hex, no `%HH` for a byte the encoder writes literally). java.net.URLDecoder is more lenient. This decoder exists to state that the encoding can be decoded and is injective.
- `DefaultRequest` is written as the concatenation of its fixed parts and its two tokens. It is the same string as the default at line 46.
