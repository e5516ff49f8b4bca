# OATH one-time passwords and OpenPAM core, modelled in Dafny

This project models the OATH one-time-password library that ships with
OpenPAM, together with five pieces of OpenPAM's own core.

## OATH library

- **Codecs.** `base32_enc`/`base32_dec` and `base64_enc`/`base64_dec`, with their
  alphabet tables and the RFC 4648 length macros.
- **Percent-decoding.** `oath_uri_decode`.
- **Key record.** `struct oath_key`, with its constructors `oath_key_create` and
  `oath_key_dummy`, and the `oath_mode` name lookup.
- **otpauth URIs.** The parser `oath_key_from_uri` and the printer `oath_key_to_uri`.
- **One-time passwords.**
  - HOTP (RFC 4226): `oath_hotp`, `oath_hotp_current`, `oath_hotp_match`.
  - TOTP (RFC 6238): `oath_totp`, `oath_totp_current`, `oath_totp_match`.

## OpenPAM

- **Dispatch.** The control-flag fold of `openpam_dispatch`.
- **Module options.** The option vector of `openpam_set_option`.
- **Environment.** The environment list of `pam_putenv`.
- **Growable buffer.** `openpam_straddch`.
- **Configuration.** From `openpam_configure.c`:
  - the word scanners `match_word`, `next_word` and `dup_word`;
  - the policy-path fallback of `openpam_load_chain` and `openpam_configure`.

## Modelling conventions

Each C file is one Dafny module, written in the form the C has.

- **Pure computations** are functions over datatypes, with lemmas. This covers the
  codecs' group arithmetic, percent-decoding, the URI grammar, DT and the HOTP
  code, the dispatch fold and the option and environment lookups.
- **Loops** are methods with `while` loops. Each is proved equal to a
  specification function: the encoders and decoders, the URI decoder, the match
  windows, the option search and removal, the word scanners and `load_chain`.
- **Objects updated in place** are classes with `modifies` clauses:
  - the key record `OathKey`;
  - a chain entry's options `PamChain`;
  - a handle's environment `PamEnv`;
  - the `straddch` buffer `StrBuf`.
- **Output buffers** are arrays.

**Strings.** C strings are `seq<char>`, and the end of the sequence acts as the
terminating NUL. Bytes are `bv8`.

**Integer widths.** These are written out where they matter:
- the `uint32_t` arithmetic of the digit modulus;
- the `uint64_t` sum `seq + i` of the TOTP window;
- `printf("%d")` of an `unsigned int`;
- the `size_t` wrap of `olen - 1`;
- `strtoumax`'s negation modulo 2^64.

**Things outside the library become parameters:**
- HMAC-SHA-1: a function from key and message to a 20-byte digest;
- the clock: `now`;
- RAND_bytes: the bytes it would write, or None;
- success or failure of malloc, realloc, strdup and asprintf: booleans;
- `openpam_read_chain`: a function giving the result of reading one policy file;
- `OATH_DUMMY_LABEL`, whose value is not part of this model: a string.

## Where the model follows the code rather than the documentation

- **Empty dispatch chain.** `openpam_dispatch` returns `PAM_SUCCESS` for an empty chain.
  - The loop never runs and `fail` stays 0 (`OpenpamDispatch.EmptyChainSucceeds`).
  - The comment in `trunk/t/t_openpam_dispatch.c` (lines 63-67) says it returns `PAM_SYSTEM_ERR`.
- **`labellen`.** The key record's comment says it counts bytes including the NUL.
  - `oath_key_create` and `oath_key_dummy` store the length without the NUL.
  - The model stores what the code stores.
- **`strtoumax`.** The numeric parameters "counter", "lastused" and "period" go through `strtoumax`.
  - It also accepts leading white space and a sign.
  - A minus sign negates modulo 2^64 (`CLib.StrToUmaxAccepts`, `CLib.StrToUmaxNegates`).
- **`period=0`.** It is accepted and leaves the period unset (`OathKeyFromUri.PeriodZeroAccepted`).

## Model

| member | source | states |
|---|---|---|
| Rfc4648.Base32EncLenGroups | trunk/include/security/oath_rfc4648.h:36 | base32_enclen(l) is a multiple of 8: eight characters per started group of five bytes, so 8·ceil(l/5) |
| Rfc4648.Base32EncLenStep | trunk/include/security/oath_rfc4648.h:36 | five more bytes cost exactly eight more characters; 1 to 4 bytes cost eight; 0 bytes cost none |
| Rfc4648.Base32EncLenAt | trunk/include/security/oath_rfc4648.h:36 | after q whole groups the encoding has 8q characters, and one more group of 8 exactly when bytes remain |
| Rfc4648.Base64EncLenGroups | trunk/include/security/oath_rfc4648.h:44 | base64_enclen(l) is a multiple of 4: four characters per started group of three bytes |
| Rfc4648.Base64EncLenStep | trunk/include/security/oath_rfc4648.h:44 | three more bytes cost exactly four more characters; 1 or 2 bytes cost four |
| Rfc4648.Base64EncLenAt | trunk/include/security/oath_rfc4648.h:44 | after q whole groups the encoding has 4q characters, and one more group of 4 exactly when bytes remain |
| Rfc4648.Base32DecLenCoversEncLen | trunk/include/security/oath_rfc4648.h:36-37 | base32_declen(base32_enclen(l)) ≥ l: a declen-sized buffer holds the decoding of any encoding of l bytes |
| Rfc4648.Base64DecLenCoversEncLen | trunk/include/security/oath_rfc4648.h:44-45 | base64_declen(base64_enclen(l)) ≥ l |
| Base32.B32Dec | trunk/lib/liboath/oath_base32.c:48-81 | every row of the decode table is -1 (the 0xff rows, read as signed char) or a 5-bit value |
| Base32.B32EncTable | trunk/lib/liboath/oath_base32.c:45-46 | the encode table is the RFC 4648 base 32 alphabet 'A'-'Z', '2'-'7' |
| Base32.B32DecInvertsB32Char | trunk/lib/liboath/oath_base32.c:48-81 | each alphabet character decodes to its own value, and none is white space, '=' or NUL |
| Base32.B32CharInvertsB32Dec | trunk/lib/liboath/oath_base32.c:61-64 | only alphabet characters have a value (the lower-case rows are 0xff), and each is the character of that value: the two tables are inverse |
| Base32.EncodeGroup | trunk/lib/liboath/oath_base32.c:98-141 | every group of 1 to 5 bytes becomes exactly eight characters |
| Base32.EncodeLength | trunk/lib/liboath/oath_base32.c:97-144 | the encoding of s is exactly base32_enclen(\|s\|) characters |
| Base32.EncodeCharacters | trunk/lib/liboath/oath_base32.c:98-141 | every character written is an alphabet symbol or '='; none is a NUL |
| Base32.EncodeConcat | trunk/lib/liboath/oath_base32.c:98-117 | encoding whole groups and then the rest is encoding the concatenation |
| Base32.EncodeAt | trunk/lib/liboath/oath_base32.c:98-141 | characters 8q..8q+7 of the encoding are the encoding of bytes 5q..5q+4 (or up to the end) |
| Base32.CGroupSymbols | trunk/lib/liboath/oath_base32.c:118-141 | what the shifts and masks store for a group of n bytes: the symbols of its bits, then '=' for the symbols the group has no bits for |
| Base32.CGroupEncodes | trunk/lib/liboath/oath_base32.c:98-141 | the C bit computation of a group is the RFC 4648 encoding of that group: 1, 2, 3, 4, 5 bytes give 2, 4, 5, 7, 8 symbols padded with '=' to 8 |
| Base32.PutGroup | trunk/lib/liboath/oath_base32.c:106-115 | the eight stores of a group change out[o..o+8] and nothing else |
| Base32.FullGroup | trunk/lib/liboath/oath_base32.c:98-117 | one turn of the main loop extends the encoded prefix held by the buffer by one group |
| Base32.TailBits | trunk/lib/liboath/oath_base32.c:118-130 | the fall-through switch gives the bits of the final group completed with zero bytes |
| Base32.FinalGroup | trunk/lib/liboath/oath_base32.c:118-141 | the final partial group completes the encoding in the buffer |
| Base32.EncodeGroups | trunk/lib/liboath/oath_base32.c:98-141 | the loops write exactly the encoding of the input and leave the rest of the buffer as it was |
| Base32.Base32Enc | trunk/lib/liboath/oath_base32.c:87-145 | capacity ≤ enclen: -1 and the buffer untouched; otherwise 0, the encoding, then a NUL, and the rest untouched; `*olen` becomes enclen + 1 in both cases; input bytes read as unsigned, the corrected reading (see Left out) |
| Base32.ShiftIn | trunk/lib/liboath/oath_base32.c:169-186 | a turn of the decoding loop succeeds exactly when the reference step does, and leaves the state that step gives |
| Base32.Base32Dec | trunk/lib/liboath/oath_base32.c:162-203 | stores the first `*olen` decoded bytes of the first ilen characters (up to a NUL), nothing else; invalid input gives -1 with `*olen` 0; otherwise `*olen` is the full decoded length, with -1 exactly when that exceeds the capacity; bytes 0x80-0xff are read as invalid (see Left out) |
| Base32.RunConcat | trunk/lib/liboath/oath_base32.c:168-193 | decoding a concatenation is decoding each part in turn, stopping at the first error |
| Base32.RunBits | trunk/lib/liboath/oath_base32.c:173-192 | each character adds at most five bits, and each byte out takes eight |
| Base32.DecodeFitsDecLen | trunk/include/security/oath_rfc4648.h:37 | l characters never decode to more than base32_declen(l) bytes |
| Base32.SpaceIsSkipped | trunk/lib/liboath/oath_base32.c:169-172 | space, tab, CR or LF anywhere in the input can be removed without changing the result |
| Base32.InvalidCharacterFails | trunk/lib/liboath/oath_base32.c:181-186 | a character below 0x80 that is not white space, not '=' and not in the alphabet makes decoding fail; bytes 0x80-0xff are read as invalid too, where the source reads before the table (see Left out) |
| Base32.NoDataAfterPadding | trunk/lib/liboath/oath_base32.c:169-186 | once padding has started, only '=' and white space may follow; anything else fails |
| Base32.PaddingNeedsPendingBits | trunk/lib/liboath/oath_base32.c:177-186 | a first '=' is accepted only while 1 to 4 bits are pending |
| Base32.RunChars | trunk/lib/liboath/oath_base32.c:173-176 | reading the characters of some symbols shifts in exactly those symbols |
| Base32.FeedGroup | trunk/lib/liboath/oath_base32.c:173-192 | from a group boundary, after 2, 4, 5, 7 and 8 symbols the first 1, 2, 3, 4 and 5 bytes of the group are out |
| Base32.DecodeGroup | trunk/lib/liboath/oath_base32.c:168-193 | the symbols of a group of n bytes and any of its '=' decode to exactly those n bytes |
| Base32.RunEncode | trunk/lib/liboath/oath_base32.c:168-193 | decoding an encoding from a group boundary succeeds and appends exactly the encoded bytes |
| Base32.DecodeEncode | trunk/lib/liboath/oath_base32.c:87-203 | round trip: base32_dec of base32_enc's output gives back the original bytes |
| Base32.DecodeSloppyPadding | trunk/lib/liboath/oath_base32.c:169-180 | an encoding with any number of its trailing '=' dropped still decodes to the original bytes |
| Base32.EncodeVector1 | t/t_rfc4648.c:72-81 | "" and "f" encode as "" and "MY======" (section 10 of RFC 4648) |
| Base32.EncodeVector2 | t/t_rfc4648.c:72-81 | "fo" encodes as "MZXQ====" |
| Base32.EncodeVector3 | t/t_rfc4648.c:72-81 | "foo" encodes as "MZXW6===" |
| Base32.EncodeVector4 | t/t_rfc4648.c:72-81 | "foob" encodes as "MZXW6YQ=" |
| Base32.EncodeVector5 | t/t_rfc4648.c:72-81 | "fooba" encodes as "MZXW6YTB" |
| Base32.EncodeVector6 | t/t_rfc4648.c:72-81 | "foobar" encodes as "MZXW6YTBOI======" |
| Base32.DecodeVector4 | t/t_rfc4648.c:72-81 | "MZXW6YQ=" decodes to "foob" |
| Base32.DecodeVectorsSloppy | trunk/lib/liboath/oath_base32.c:169-180 | "MY" and "MY=" decode to "f", like "MY======" |
| Base32.RejectVectors | trunk/lib/liboath/oath_base32.c:177-186 | lower case "my", an invalid "M!" and a leading "=MY" are all rejected |
| Base32.EncodeGroupAsWritten | trunk/lib/liboath/oath_base32.c:100-104 | the group computation as written, with signed-char input: still eight characters per group |
| Base32.AsWrittenAgreesBelow0x80 | trunk/lib/liboath/oath_base32.c:100-104 | with bytes below 0x80 only, the signed read gives the correct encoding |
| Base32.SignExtensionBreaksRoundTrip | trunk/lib/liboath/oath_base32.c:100-104 | as written, 0x00 0x80 encodes as "76AA====", which decodes to 0xff 0x80; the correct encoding is "ACAA====" |
| Base32.SignExtensionVectors | trunk/lib/liboath/oath_base32.c:100-104 | the correct encodings of 0x00 0x80 and of 0xff 0x80 differ |
| Base32.SignExtendedGroup | trunk/lib/liboath/oath_base32.c:100-104 | the bits computed for 0x00 0x80 with signed chars give "76AA====" |
| Buffers.StoreByte | trunk/lib/liboath/oath_base32.c:187-192 | a decoded byte is stored only while the buffer has room, and is counted either way |
| Base64.B64Dec | trunk/lib/liboath/oath_base64.c:50-83 | every row of the decode table is -1 or a 6-bit value |
| Base64.B64EncTable | trunk/lib/liboath/oath_base64.c:45-48 | the encode table is the RFC 4648 base 64 alphabet |
| Base64.B64DecInvertsB64Char | trunk/lib/liboath/oath_base64.c:50-83 | each alphabet character decodes to its own value, and none is white space, '=' or NUL |
| Base64.B64CharInvertsB64Dec | trunk/lib/liboath/oath_base64.c:50-83 | only alphabet characters have a value, each the character of that value |
| Base64.EncodeGroup | trunk/lib/liboath/oath_base64.c:101-130 | every group of 1 to 3 bytes becomes exactly four characters |
| Base64.EncodeLength | trunk/lib/liboath/oath_base64.c:100-133 | the encoding of s is exactly base64_enclen(\|s\|) characters |
| Base64.EncodeCharacters | trunk/lib/liboath/oath_base64.c:101-130 | every character written is an alphabet symbol or '='; none is a NUL |
| Base64.EncodeConcat | trunk/lib/liboath/oath_base64.c:101-114 | encoding whole groups and then the rest is encoding the concatenation |
| Base64.EncodeAt | trunk/lib/liboath/oath_base64.c:101-130 | characters 4q..4q+3 are the encoding of bytes 3q..3q+2 (or up to the end) |
| Base64.CGroupSymbols | trunk/lib/liboath/oath_base64.c:115-130 | what is stored for a group of n bytes: its symbols, then '=' where it has no bits |
| Base64.CGroupEncodes | trunk/lib/liboath/oath_base64.c:101-130 | the C bit computation of a group is its RFC 4648 encoding: 1, 2, 3 bytes give 2, 3, 4 symbols padded with '=' to 4 |
| Base64.PutGroup | trunk/lib/liboath/oath_base64.c:106-113 | the four stores change out[o..o+4] and nothing else |
| Base64.FullGroup | trunk/lib/liboath/oath_base64.c:101-114 | one turn of the main loop extends the encoded prefix in the buffer by one group |
| Base64.TailBits | trunk/lib/liboath/oath_base64.c:115-121 | the fall-through switch gives the bits of the final group completed with zero bytes |
| Base64.FinalGroup | trunk/lib/liboath/oath_base64.c:115-130 | the final partial group completes the encoding in the buffer |
| Base64.EncodeGroups | trunk/lib/liboath/oath_base64.c:101-130 | the loops write exactly the encoding and leave the rest of the buffer as it was |
| Base64.Base64Enc | trunk/lib/liboath/oath_base64.c:89-134 | capacity ≤ enclen: -1 and the buffer untouched; otherwise 0, the encoding and a NUL; `*olen` becomes enclen + 1 in both cases |
| Base64.ShiftIn | trunk/lib/liboath/oath_base64.c:159-176 | a turn of the decoding loop succeeds exactly when the reference step does, and leaves its state |
| Base64.Base64Dec | trunk/lib/liboath/oath_base64.c:151-193 | stores the first `*olen` decoded bytes of the first ilen characters (up to a NUL); invalid input gives -1 with `*olen` 0; otherwise `*olen` is the full decoded length, with -1 exactly when it exceeds the capacity |
| Base64.RunConcat | trunk/lib/liboath/oath_base64.c:158-192 | decoding a concatenation is decoding each part in turn |
| Base64.RunBits | trunk/lib/liboath/oath_base64.c:163-192 | each character adds at most six bits, and each byte out takes eight |
| Base64.DecodeFitsDecLen | trunk/include/security/oath_rfc4648.h:45 | l characters never decode to more than base64_declen(l) bytes |
| Base64.SpaceIsSkipped | trunk/lib/liboath/oath_base64.c:158-162 | white space anywhere can be removed without changing the result |
| Base64.InvalidCharacterFails | trunk/lib/liboath/oath_base64.c:159-176 | a character outside the alphabet, white space and '=' makes decoding fail |
| Base64.NoDataAfterPadding | trunk/lib/liboath/oath_base64.c:159-176 | after the first '=' only '=' and white space may follow |
| Base64.PaddingNeedsPendingBits | trunk/lib/liboath/oath_base64.c:167 | a first '=' with 0 or 6 bits pending fails: padding needs 2 or 4 pending bits |
| Base64.RunChars | trunk/lib/liboath/oath_base64.c:163-166 | reading the characters of some symbols shifts in exactly those symbols |
| Base64.FeedGroup | trunk/lib/liboath/oath_base64.c:163-192 | from a group boundary, after 2, 3 and 4 symbols the first 1, 2 and 3 bytes are out |
| Base64.DecodeGroup | trunk/lib/liboath/oath_base64.c:158-192 | the symbols of a group of n bytes and any of its '=' decode to exactly those n bytes |
| Base64.RunEncode | trunk/lib/liboath/oath_base64.c:158-192 | decoding an encoding from a group boundary succeeds and appends exactly the encoded bytes |
| Base64.DecodeEncode | trunk/lib/liboath/oath_base64.c:89-193 | round trip: base64_dec of base64_enc's output gives back the original bytes |
| Base64.DecodeSloppyPadding | trunk/lib/liboath/oath_base64.c:159-176 | an encoding with any number of its trailing '=' dropped still decodes to the original bytes |
| Base64.EncodeVector1 | t/t_rfc4648.c:61-70 | "" and "f" encode as "" and "Zg==" (section 10 of RFC 4648) |
| Base64.EncodeVector2 | t/t_rfc4648.c:61-70 | "fo" encodes as "Zm8=" |
| Base64.EncodeVector3 | t/t_rfc4648.c:61-70 | "foo" encodes as "Zm9v" |
| Base64.EncodeVector4 | t/t_rfc4648.c:61-70 | "foob" encodes as "Zm9vYg==" |
| Base64.EncodeVector5 | t/t_rfc4648.c:61-70 | "fooba" encodes as "Zm9vYmE=" |
| Base64.EncodeVector6 | t/t_rfc4648.c:61-70 | "foobar" encodes as "Zm9vYmFy" |
| Base64.DecodeVector6 | t/t_rfc4648.c:61-70 | "Zm9vYmFy" decodes to "foobar" |
| Base64.DecodeVectorsSloppy | trunk/lib/liboath/oath_base64.c:159-176 | "Zg" and "Zg=" decode to "f", like "Zg==" |
| Base64.RejectVectors | trunk/lib/liboath/oath_base64.c:159-176 | "Z!" and a leading "=Zg" are rejected |
| CTypes.WindowAt | trunk/lib/liboath/oath_uri_decode.c:60 | the characters a `for (; ilen && *in; …)` loop visits: at most ilen, stopping at a NUL |
| CTypes.DecimalRoundTrip | lib/liboath/oath_key.c:75-83 | a number printed in decimal reads back as the same number |
| CTypes.DecimalStringPlain | lib/liboath/oath_key.c:75-83 | decimal output contains no NUL, '&', '=' or '%' |
| CTypes.CStrEndsAtNul | trunk/lib/liboath/oath_uri_decode.c:73-74 | a NUL stored after some characters ends the C string there, whatever follows |
| CTypes.StrLen | trunk/lib/liboath/oath_key_create.c:59-60 | strlen returns the length of the C string |
| CLib.Find | trunk/lib/liboath/oath_key_from_uri.c:99-108 | strchr finds the first occurrence of the character, or none |
| CLib.FindFirst | trunk/lib/liboath/oath_key_from_uri.c:99-108 | the occurrence found is the one right after a prefix without it |
| CLib.StrLCmp | trunk/lib/liboath/oath_key_from_uri.c:69-72 | strlcmp is non-zero exactly when the at most n characters visited (up to a NUL) are not exactly the given string |
| CLib.SpaceRun | trunk/lib/liboath/oath_key_from_uri.c:145-160 | the leading white space strtoumax skips: all of it, and no more |
| CLib.StrToUmax | trunk/lib/liboath/oath_key_from_uri.c:145-160 | strtoumax with the check that digits were read and nothing follows them: a value modulo 2^64, or refusal |
| CLib.StrToUmaxDecimal | trunk/lib/liboath/oath_key_from_uri.c:145-160 | what `%u` and `%ju` print reads back as the same number |
| CLib.StrToUmaxRefuses | trunk/lib/liboath/oath_key_from_uri.c:145-160 | strings without digits, or with anything after them, are refused |
| CLib.StrToUmaxAccepts | trunk/lib/liboath/oath_key_from_uri.c:145-160 | plain digits are read as their value; leading white space and a sign are accepted too |
| CLib.StrToUmaxNegates | trunk/lib/liboath/oath_key_from_uri.c:145-160 | "-1" reads as UINTMAX_MAX and "-0" as 0 |
| CLib.PrintSigned | lib/liboath/oath_key.c:75-78 | `%d` of an unsigned int prints the bits as a signed 32-bit number |
| UriDecode.Unhex | trunk/lib/liboath/oath_uri_decode.c:42-45 | the unhex macro gives a value below 16, and 0 for a non-hexadecimal character |
| UriDecode.HexChar | trunk/lib/liboath/oath_uri_decode.c:61-67 | an escape stores one octet, below 256 |
| UriDecode.HexCharValue | trunk/lib/liboath/oath_uri_decode.c:42-45 | two hexadecimal digits give the octet they spell, whatever their case |
| UriDecode.PercentDecode | trunk/lib/liboath/oath_uri_decode.c:60-72 | the reference percent-decoder (section 2.1 of RFC 3986) never lengthens its input |
| UriDecode.PlainIsUnchanged | trunk/lib/liboath/oath_uri_decode.c:60-72 | a string without '%' decodes to itself |
| UriDecode.DecodeConcatPlain | trunk/lib/liboath/oath_uri_decode.c:60-72 | decoding works escape by escape: a '%'-free prefix passes through unchanged |
| UriDecode.ScanStep | trunk/lib/liboath/oath_uri_decode.c:60-72 | one turn of the loop: an escape inside the bound gives its octet and moves the bound by 2; anything else is copied |
| UriDecode.ScanToEnd | trunk/lib/liboath/oath_uri_decode.c:60-72 | once the bound covers the C string, the loop is the reference decoder on the rest of it |
| UriDecode.WholeStringDecoded | trunk/lib/liboath/oath_uri_decode.c:58-59 | with ilen 0, or any ilen covering the string, the whole C string is percent-decoded |
| UriDecode.ScanBound | trunk/lib/liboath/oath_uri_decode.c:60-72 | the result is never longer than the C string it comes from |
| UriDecode.ScanPlain | trunk/lib/liboath/oath_uri_decode.c:60-72 | without '%' in the first n characters the bound never moves and they are copied |
| UriDecode.DecodedPlain | trunk/lib/liboath/oath_uri_decode.c:53-76 | a non-empty '%'-free segment decodes to itself, and nothing past it is read |
| UriDecode.EscapeVectors | trunk/t/t_rfc3986.c:71-78 | "", "%20", "x%20", "%20x", "x%20x" decode to "", " ", "x ", " x", "x x" |
| UriDecode.MalformedVectors | trunk/t/t_rfc3986.c:80-87 | "%", "%2", "%2x", "%x0", "%xx" are copied literally |
| UriDecode.DecodedWithinIsWindow | trunk/lib/liboath/oath_uri_decode.c:60-72 | with the bound left alone, exactly the first ilen characters are percent-decoded (the corrected reading) |
| UriDecode.EscapeExtendsWindow | trunk/lib/liboath/oath_uri_decode.c:66 | as written, "%20ab" with ilen 3 decodes to " ab", two characters past the window; the corrected reading gives " " |
| UriDecode.WriteGuard | trunk/lib/liboath/oath_uri_decode.c:63 | the corrected write test only lets through indices inside the buffer |
| UriDecode.WriteGuardAgrees | trunk/lib/liboath/oath_uri_decode.c:63 | for any buffer of at least one character, the test as written and the corrected one agree |
| UriDecode.WriteGuardWraps | trunk/lib/liboath/oath_uri_decode.c:63 | with olen 0 the test as written, `opos < olen - 1` on size_t, lets every write through |
| UriDecode.StoreChar | trunk/lib/liboath/oath_uri_decode.c:63-64 | with the corrected guard (see Findings), a produced character is stored only at an index below olen - 1, and the buffer keeps holding the prefix produced so far; with olen 0 nothing is stored |
| UriDecode.Terminate | trunk/lib/liboath/oath_uri_decode.c:73-74 | the final store NUL-terminates the stored prefix |
| UriDecode.DecodeLoop | trunk/lib/liboath/oath_uri_decode.c:60-72 | the loop produces exactly the decoded string, and stores its first olen - 1 characters |
| UriDecode.DecodeOne | trunk/lib/liboath/oath_uri_decode.c:61-71 | the loop body is one step of the decoded string, moving strictly forward |
| UriDecode.OathUriDecode | trunk/lib/liboath/oath_uri_decode.c:53-76 | returns the full decoded length plus one, even when that exceeds olen; with a buffer and olen ≥ 1, stores at most olen - 1 characters then a NUL and nothing else, as the source does; with olen 0 it stores nothing, the corrected guard (see Findings); with no buffer, writes nothing |
| OathTypes.OathKey.Value | trunk/include/security/oath_types.h:38-61 | the key's value holds keylen key bytes and a label of labellen characters |
| OathTypes.OathKey.constructor | trunk/include/security/oath_types.h:38-61 | a fresh key is all zero: no mode, no hash, empty label, no key bytes, a zeroed key buffer |
| OathModeName.ModeNames | lib/liboath/oath_mode.c:42-45 | the name table has one entry per mode below om_max |
| OathModeName.OathMode | lib/liboath/oath_mode.c:53-65 | the loop returns the mode whose name matches, ignoring case, or om_undef |
| OathModeName.ModeNamedRange | lib/liboath/oath_mode.c:58-64 | never om_max; om_hotp exactly for "hotp" in any case; om_totp exactly for "totp" in any case |
| OathModeName.ModeNameVectors | lib/liboath/oath_mode.c:58-64 | "hotp", "HOTP", "HoTp", "totp" and "TOTP" select their mode; "", "hotp " and "otp" select om_undef |
| OathHotp.BigEndian | trunk/lib/liboath/oath_hotp.c:72-75 | the counter message has exactly the requested number of bytes |
| OathHotp.BigEndianRoundTrip | trunk/lib/liboath/oath_hotp.c:72-75 | the bytes, most significant first, spell the counter back: nothing is lost |
| OathHotp.CounterMessage | trunk/lib/liboath/oath_hotp.c:72-75 | the counter becomes 8 bytes whose big-endian value is the counter (section 5.1 of RFC 4226) |
| OathHotp.CounterBytes | trunk/lib/liboath/oath_hotp.c:72-75 | the shifting loop fills C[7] down to C[0] with the counter message |
| OathHotp.Offset | trunk/lib/liboath/oath_hotp.c:53-54 | the offset is at most 15, so four bytes from it stay inside the 20-byte digest |
| OathHotp.DT | trunk/lib/liboath/oath_hotp.c:46-60 | dynamic truncation gives a value below 2^31 |
| OathHotp.DTValue | trunk/lib/liboath/oath_hotp.c:46-60 | DT is the 31-bit number of section 5.3 of RFC 4226: the low 7 bits of the offset byte, then three bytes |
| OathHotp.DTWord | trunk/lib/liboath/oath_hotp.c:55-59 | DT is the four bytes at the offset, read big-endian, modulo 2^31 |
| OathHotp.HotpCode | trunk/lib/liboath/oath_hotp.c:62-90 | the code is below the 32-bit modulus and below 2^31 |
| OathHotp.RemainderIsMod | trunk/lib/liboath/oath_hotp.c:88 | the unsigned remainder is the mathematical remainder |
| OathHotp.ModulusExact | trunk/lib/liboath/oath_hotp.c:86-87 | up to nine digits the 32-bit modulus is exactly 10^digits, so the code has at most that many digits |
| OathHotp.ModulusVanishes | trunk/lib/liboath/oath_hotp.c:86-88 | from 32 digits on, the 32-bit modulus wraps to 0 and the remainder divides by zero |
| OathHotp.CodeDigits | trunk/lib/liboath/oath_hotp.c:85-89 | six- and eight-digit codes are below 10^6 and 10^8 |
| OathHotp.ComputeHotp | trunk/lib/liboath/oath_hotp.c:62-90 | oath_hotp returns the truncated HMAC-SHA-1 of the counter message modulo 10^Digit; the key's hash setting plays no part |
| OathHotp.HotpCurrent | trunk/lib/liboath/oath_hotp.c:95-109 | -1 and the key unchanged for NULL, non-HOTP or counter UINT64_MAX; otherwise the code at the counter, and the counter grows by exactly 1; nothing else changes |
| OathHotp.CodeAtOffset | trunk/lib/liboath/oath_hotp.c:132 | the code computed at offset i is the code of counter + i |
| OathHotp.FirstMatchIsFirst | trunk/lib/liboath/oath_hotp.c:131-137 | the search finds the least offset in the window whose code is the response, and none when none matches |
| OathHotp.ScanWindow | trunk/lib/liboath/oath_hotp.c:130-138 | the loop finds a match exactly when the key is not a dummy and some offset matches, and then at the first one |
| OathHotp.HotpMatch | trunk/lib/liboath/oath_hotp.c:116-139 | -1 and the key unchanged for a bad window, a non-HOTP key or a counter ≥ UINT64_MAX - window; otherwise 1 with counter + i at the first matching offset i for a non-dummy key, else 0 with the counter unchanged |
| OathHotp.MatchReplays | trunk/lib/liboath/oath_hotp.c:134 | as written, after a match the same response matches again at once, at offset 0 |
| OathHotp.NextCounter | trunk/lib/liboath/oath_hotp.c:134 | the corrected counter after a match at offset i is one past the matched value (section 7.2 of RFC 4226) |
| OathHotp.NextCounterConsumes | trunk/lib/liboath/oath_hotp.c:131-137 | with the matched value consumed, every counter the next call tries lies above the one just accepted |
| OathTotp.ComputeTotp | trunk/lib/liboath/oath_totp.c:45-52 | oath_totp is the HOTP code of step now / 30 |
| OathTotp.TotpStep | trunk/lib/liboath/oath_totp.c:45-52 | within one 30-second step the code does not change |
| OathTotp.StepAt | trunk/lib/liboath/oath_totp.c:66 | the step number never exceeds the time |
| OathTotp.StepAtIsQuotient | trunk/lib/liboath/oath_totp.c:66 | the step number is the quotient now / timestep: `now` lies within that step |
| OathTotp.TotpCurrent | trunk/lib/liboath/oath_totp.c:54-69 | UINT_MAX for NULL, non-TOTP or timestep 0; otherwise the code of step now / timestep; the key is only read |
| OathTotp.FirstAcceptedIsFirst | trunk/lib/liboath/oath_totp.c:91-99 | the search finds the least offset from -window to window whose step is after lastused and whose code matches; a step at or before lastused is never accepted |
| OathTotp.FirstAcceptedFinds | trunk/lib/liboath/oath_totp.c:91-99 | if any offset in the range is acceptable, the search accepts one at or before it |
| OathTotp.ScanSteps | trunk/lib/liboath/oath_totp.c:91-99 | the loop finds a match exactly when the key is not a dummy and some step is acceptable |
| OathTotp.StepCode | trunk/lib/liboath/oath_totp.c:94 | the code at offset i is the HOTP code of step seq + i in uint64_t arithmetic |
| OathTotp.TotpMatch | trunk/lib/liboath/oath_totp.c:76-101 | -1 and the key unchanged for a negative window, a non-TOTP key or timestep 0; a dummy key gives 0; otherwise 1 with lastused set to the current step when a step is accepted, else 0 with lastused unchanged |
| OathTotp.UsedStepsRejected | trunk/lib/liboath/oath_totp.c:92-96 | once lastused is the current step, no later call accepts a step at or before it (section 5.2 of RFC 6238) |
| OathTotp.MatchAheadReplays | trunk/lib/liboath/oath_totp.c:96 | as written, a response matched at a step ahead of the clock is accepted again at the same time |
| OathTotp.MatchedStepConsumed | trunk/lib/liboath/oath_totp.c:96 | with lastused set to the matched step, that step is never accepted again, whatever the time and window |
| OathKeyCreate.KeyCreate | trunk/lib/liboath/oath_key_create.c:49-123 | NULL exactly when the validations reject or random bytes or the allocation fail; otherwise a fresh key with exactly the created value, the key buffer zero past keylen |
| OathKeyCreate.NewKey | trunk/lib/liboath/oath_key_create.c:104-120 | the label, mode and hash copied in, six digits, a 30-second step for TOTP only, counter 0 and the key bytes |
| OathKeyCreate.CreatedKeyUsable | trunk/lib/liboath/oath_key_create.c:58-120 | every created key is HOTP or TOTP with a known hash, six digits, 1 to 64 key bytes, a label that fits, and a usable step for TOTP |
| OathKeyCreate.CreatedKeyBytes | trunk/lib/liboath/oath_key_create.c:63-98 | given key bytes are kept exactly; without them, keylen random bytes, 20 by default |
| OathKeyCreate.CreateRejects | trunk/lib/liboath/oath_key_create.c:58-102 | NULL exactly for: no label or one of 64 or more characters, keylen > 64 or given bytes with keylen 0, a mode other than HOTP or TOTP, a hash outside the four and undefined, failing random bytes, failing allocation |
| OathKeyDummy.KeyDummy | trunk/lib/liboath/oath_key_dummy.c:47-64 | NULL only on allocation failure; otherwise dummy flag, mode, hash and digits unchecked, counter 0, step 30, lastused 0, the dummy label, 64 zero key bytes |
| OathKeyDummy.DummyNeverMatches | trunk/lib/liboath/oath_key_dummy.c:67-69 | whatever the response, window and time, neither HOTP nor TOTP matching returns 1 for a dummy key |
| OathKeyFromUri.ApplyParam | trunk/lib/liboath/oath_key_from_uri.c:116-172 | a parameter changes at most the field it names ("issuer" none); an accepted secret fits 64 bytes, algorithm is known, counter and lastused are below UINT64_MAX, period at most 600 |
| OathKeyFromUri.Separators | trunk/lib/liboath/oath_key_from_uri.c:99-108 | a parameter's '=' comes before its end, which is the first '&' or the end of the URI |
| OathKeyFromUri.TurnAt | trunk/lib/liboath/oath_key_from_uri.c:110-178 | each turn that continues leaves strictly less to read |
| OathKeyFromUri.ParamTurn | trunk/lib/liboath/oath_key_from_uri.c:98-179 | each turn of the parameter loop that continues leaves strictly less to read |
| OathKeyFromUri.SchemeAndMode | trunk/lib/liboath/oath_key_from_uri.c:69-84 | an accepted scheme and mode segment name HOTP or TOTP, and what follows the '/' is a shorter suffix of the URI |
| OathKeyFromUri.LabelAndParams | trunk/lib/liboath/oath_key_from_uri.c:86-93 | an accepted label is shorter than 64 characters and holds no NUL, and the parameters are a shorter suffix of the rest |
| OathKeyFromUri.ParamsKeepSane | trunk/lib/liboath/oath_key_from_uri.c:98-179 | the parameter loop keeps the key fitting, the hash known once set and the period at most 600 |
| OathKeyFromUri.ParsedKeySane | trunk/lib/liboath/oath_key_from_uri.c:181-207 | every parsed key is HOTP (counter below UINT64_MAX, no period or lastused) or TOTP (period 1 to 600, lastused below UINT64_MAX, counter unset), with a known hash, nonzero digits, 1 to 64 key bytes and a fitting label |
| OathKeyFromUri.SeparatorsPlain | trunk/lib/liboath/oath_key_from_uri.c:99-108 | a parameter whose name has no '=' or '&' and whose value has no '&' splits at its own '=' and end |
| OathKeyFromUri.ApplyDigits | trunk/lib/liboath/oath_key_from_uri.c:137-144 | a decoded "6" or "8" is accepted, and the count stored comes from the raw character |
| OathKeyFromUri.DigitsFromRawCharacter | trunk/lib/liboath/oath_key_from_uri.c:144 | as written, a last parameter "digits=%36" passes the check and stores 4294967285, for which the HOTP modulus is 0 |
| OathKeyFromUri.TurnOfDecoded | trunk/lib/liboath/oath_key_from_uri.c:110-178 | a turn whose name and value decode within their buffers applies that name and value |
| OathKeyFromUri.DigitsIntended | trunk/lib/liboath/oath_key_from_uri.c:137-144 | the corrected reading stores the decoded 6 or 8, whose modulus is never 0 |
| OathKeyFromUri.DigitsAgreeUnescaped | trunk/lib/liboath/oath_key_from_uri.c:137-144 | where the value is not escaped, the raw and corrected readings agree |
| OathKeyFromUri.EmptyLabelReadsOn | trunk/lib/liboath/oath_key_from_uri.c:89-90 | as written, an empty label decodes with length 0, which means "to the NUL", so the label becomes the rest of the URI from the '?' |
| OathKeyFromUri.LabelIntended | trunk/lib/liboath/oath_key_from_uri.c:86-93 | the corrected label is exactly the decoded characters before the '?', and empty when they are |
| OathKeyFromUri.LabelAgrees | trunk/lib/liboath/oath_key_from_uri.c:86-93 | for a non-empty label without '%' the two readings agree: the label is its own characters |
| OathKeyFromUri.PeriodZeroAccepted | trunk/lib/liboath/oath_key_from_uri.c:161-168 | "period=0" is accepted and leaves the period unset, and a TOTP key then ends up with 30 seconds |
| OathKeyFromUri.DecodeInto | trunk/lib/liboath/oath_key_from_uri.c:89-115 | decoding into a fixed buffer reports the full decoded length and keeps the C string of what fits |
| OathKeyFromUri.StoreSecret | trunk/lib/liboath/oath_key_from_uri.c:116-122 | the secret is decoded into the key buffer exactly as the parameter specification says, and is refused when already set or too long |
| OathKeyFromUri.ApplyToKey | trunk/lib/liboath/oath_key_from_uri.c:116-173 | the chain of strcmp tests applies the parameter to the key exactly as the specification function says |
| OathKeyFromUri.FindSeparators | trunk/lib/liboath/oath_key_from_uri.c:99-108 | the strchr calls find the separators exactly when the specification finds them |
| OathKeyFromUri.DecodeParam | trunk/lib/liboath/oath_key_from_uri.c:110-115 | name and value fit their 64- and 256-byte buffers exactly when their decodings do, and are those decodings |
| OathKeyFromUri.ParamAt | trunk/lib/liboath/oath_key_from_uri.c:110-178 | one parameter on the key is the specification's turn |
| OathKeyFromUri.OneParam | trunk/lib/liboath/oath_key_from_uri.c:98-178 | one turn of the loop on the key is the specification's turn |
| OathKeyFromUri.ReadParams | trunk/lib/liboath/oath_key_from_uri.c:98-179 | the loop succeeds exactly when the parameter specification does, with the same fields |
| OathKeyFromUri.Conclude | trunk/lib/liboath/oath_key_from_uri.c:181-207 | the checks and defaults after the loop accept exactly when the specification's finish does, with the same key |
| OathKeyFromUri.ReadMode | trunk/lib/liboath/oath_key_from_uri.c:69-84 | the scheme and mode checks accept exactly when the specification does |
| OathKeyFromUri.ReadLabel | trunk/lib/liboath/oath_key_from_uri.c:86-93 | the label step accepts exactly when the specification does, with the same label |
| OathKeyFromUri.StartKey | trunk/lib/liboath/oath_key_from_uri.c:65-97 | a fresh key with the mode and label, counter and lastused unset |
| OathKeyFromUri.KeyFromUri | trunk/lib/liboath/oath_key_from_uri.c:57-213 | NULL exactly when the allocation fails or the URI is invalid; otherwise a fresh key whose value is the parse of the URI |
| OathKeyToUri.HashName | lib/liboath/oath_key.c:56-71 | exactly the four known hashes have a name, and names hold no NUL, '&' or '%' |
| OathKeyToUri.ModeName | lib/liboath/oath_key.c:74-87 | only HOTP and TOTP keys are printed |
| OathKeyToUri.UriText | lib/liboath/oath_key.c:49-102 | a URI is printed exactly for a known hash and a HOTP or TOTP mode |
| OathKeyToUri.UriIsCString | lib/liboath/oath_key.c:73-99 | what is printed contains no NUL when the label contains none |
| OathKeyToUri.KeyToUri | lib/liboath/oath_key.c:49-102 | NULL exactly for an unknown hash, another mode or a failing realloc; otherwise the prefix for the key's mode and the secret in base 32, with key bytes read as unsigned (see Left out) |
| OathUriRoundTrip.ReadHead | trunk/lib/liboath/oath_key_from_uri.c:69-93 | the printed scheme, mode and plain label read back as that mode and label |
| OathUriRoundTrip.ReadAlgorithm | trunk/lib/liboath/oath_key_from_uri.c:123-136 | each printed hash name reads back as that hash |
| OathUriRoundTrip.ReadDigits | trunk/lib/liboath/oath_key_from_uri.c:137-144 | printed digits 6 or 8 read back as the same count |
| OathUriRoundTrip.ReadCounter | trunk/lib/liboath/oath_key_from_uri.c:145-152 | a printed counter below UINT64_MAX reads back as itself |
| OathUriRoundTrip.ReadLastused | trunk/lib/liboath/oath_key_from_uri.c:153-160 | a printed last-used step below UINT64_MAX reads back as itself |
| OathUriRoundTrip.ReadPeriod | trunk/lib/liboath/oath_key_from_uri.c:161-168 | a printed period from 1 to 600 reads back as itself |
| OathUriRoundTrip.ReadSecret | trunk/lib/liboath/oath_key_from_uri.c:116-122 | the printed base 32 secret reads back as the key bytes, for the unsigned-byte encoder (see Left out) |
| OathUriRoundTrip.ReadHotpParams | lib/liboath/oath_key.c:74-78 | the printed HOTP parameters read back as the hash, digits, counter and key, for the unsigned-byte encoder (see Left out) |
| OathUriRoundTrip.ReadTotpParams | lib/liboath/oath_key.c:79-83 | the printed TOTP parameters read back as the hash, digits, period, last-used step and key, for the unsigned-byte encoder (see Left out) |
| OathUriRoundTrip.ParsePrinted | lib/liboath/oath_key.c:49-102 | for a printable key, parsing the printed URI gives the same key, except the field its mode does not print (HOTP lastused, TOTP counter), which is unset; for the unsigned-byte encoder (see Left out) |
| OathUriRoundTrip.PrintParsed | lib/liboath/oath_key.c:49-102 | printing the key read back gives the same URI again, for the unsigned-byte encoder (see Left out) |
| OathUriRoundTrip.CreatedKeyRoundTrip | trunk/lib/liboath/oath_key_create.c:49-123 | a key oath_key_create makes, with a label the printer can write, survives printing and parsing, for the unsigned-byte encoder (see Left out) |
| OpenpamDispatch.ChainOf | lib/openpam_dispatch.c:64-81 | exactly the six primitives select a chain: authenticate and setcred the auth chain, acct_mgmt account, open and close_session session, chauthtok password |
| OpenpamDispatch.OpenpamDispatch | lib/openpam_dispatch.c:53-137 | PAM_SYSTEM_ERR for a NULL handle or an unknown primitive; otherwise the loop returns the fold of the chain's results |
| OpenpamDispatch.EmptyChainSucceeds | lib/openpam_dispatch.c:83-136 | an empty chain gives PAM_SUCCESS |
| OpenpamDispatch.IgnoreIsNeutral | lib/openpam_dispatch.c:94-95 | a module that returns PAM_IGNORE can be removed without changing the result |
| OpenpamDispatch.ResultIsReported | lib/openpam_dispatch.c:83-136 | the result is PAM_SUCCESS, PAM_SYMBOL_ERR, the error already recorded, or the result of one of the chain's modules |
| OpenpamDispatch.RequisiteFailureFails | lib/openpam_dispatch.c:126-131 | a requisite module that fails ends the chain with a failure, whatever follows |
| OpenpamDispatch.RecordedFailureSticks | lib/openpam_dispatch.c:83-136 | once `fail` is set with a non-zero error, the chain returns that error (or PAM_SYMBOL_ERR for a missing function), whatever follows |
| OpenpamDispatch.RequiredFailureFails | lib/openpam_dispatch.c:112-122 | a required module that fails records its result and sets `fail`, so the chain fails whatever follows |
| OpenpamDispatch.RequisiteSuccessSkipsRest | lib/openpam_dispatch.c:96-131 | as written, a succeeding requisite module ends the chain: with "requisite, then a failing required" the result is PAM_SUCCESS |
| OpenpamDispatch.RequiredSuccessLetsOptionalFail | lib/openpam_dispatch.c:117-122 | as written, a succeeding required module sets `fail`, so a later optional failure becomes the result |
| OpenpamDispatch.IntendedMandatoryRule | lib/openpam_dispatch.c:96-136 | with the success skipped, a chain without sufficient modules succeeds exactly when every required and requisite module succeeds or is ignored |
| OpenpamDispatch.IntendedRunsRest | lib/openpam_dispatch.c:96-131 | with the success skipped, the two chains above give PAM_AUTH_ERR and PAM_SUCCESS |
| OpenpamSetOption.Find | trunk/lib/openpam_set_option.c:72-74 | the search stops at the first option with that name, or at optc when there is none |
| OpenpamSetOption.SetThenLookup | trunk/lib/openpam_set_option.c:85-108 | after setting an option it has the value set |
| OpenpamSetOption.RemoveThenLookup | trunk/lib/openpam_set_option.c:75-83 | after removing an option from options with distinct names it has no value |
| OpenpamSetOption.SetKeepsOthers | trunk/lib/openpam_set_option.c:72-108 | setting or removing one option leaves every other option's value unchanged |
| OpenpamSetOption.SetKeepsDistinct | trunk/lib/openpam_set_option.c:72-108 | setting or removing keeps each name at most once |
| OpenpamSetOption.PamChain.constructor | trunk/lib/openpam_set_option.c:72-83 | an entry without options: optc 0 and optv holding only NULL |
| OpenpamSetOption.PamChain.FindOption | trunk/lib/openpam_set_option.c:72-74 | the loop returns the search's index |
| OpenpamSetOption.PamChain.RemoveAt | trunk/lib/openpam_set_option.c:79-83 | the option at i is deleted, later ones shift down in order, optc drops by one and optv stays NULL-terminated |
| OpenpamSetOption.PamChain.Append | trunk/lib/openpam_set_option.c:93-103 | the option is appended at optc, optc grows by one, and a NULL follows |
| OpenpamSetOption.PamChain.ReplaceAt | trunk/lib/openpam_set_option.c:104-108 | the option at i is replaced; optc and the others are unchanged |
| OpenpamSetOption.PamChain.Set | trunk/lib/openpam_set_option.c:71-109 | PAM_BUF_ERR, options unchanged, exactly when a value is given and the option or the grown vector cannot be allocated; otherwise PAM_SUCCESS with the options removed, replaced or appended |
| OpenpamSetOption.OpenpamSetOption | trunk/lib/openpam_set_option.c:59-110 | PAM_SYSTEM_ERR with nothing changed without a current module or an option name; otherwise PAM_SUCCESS or PAM_BUF_ERR, with PAM_BUF_ERR exactly when a value is given and the malloc of the option fails, or the option is new and the realloc fails (so removal always succeeds); on success the options are SetSpec of the old ones, on failure unchanged |
| PamPutenv.Equals | trunk/lib/pam_putenv.c:62 | strchr finds the first '=' exactly when there is one |
| PamPutenv.FindEnv | trunk/lib/pam_putenv.c:66 | the first entry that sets the name (starts with it and then '='), or -1 when none does |
| PamPutenv.PutThenGet | trunk/lib/pam_putenv.c:66-87 | after putting name=value, looking the name up gives that string |
| PamPutenv.PutKeepsOthers | trunk/lib/pam_putenv.c:66-87 | putting a variable leaves every other variable as it was |
| PamPutenv.GrownSize | trunk/lib/pam_putenv.c:75-81 | the grown list, 2 * env_size + 1 entries, is always larger than the full one |
| PamPutenv.GrowthAsWrittenOverflows | trunk/lib/pam_putenv.c:76 | as written, realloc's 2 * env_size + 1 bytes hold no more pointers than the full list, and fewer than it is counted as holding |
| PamPutenv.PamEnv.constructor | trunk/lib/pam_putenv.c:74-87 | an empty environment list |
| PamPutenv.PamEnv.Put | trunk/lib/pam_putenv.c:61-87 | PAM_SYSTEM_ERR for NULL or no '='; PAM_BUF_ERR, entries unchanged, when strdup or the growth fails; otherwise an existing entry replaced in place or the string appended; a full list grows to 2 * env_size + 1 first |
| PamPutenv.PutenvHandle | trunk/lib/pam_putenv.c:51-88 | PAM_SYSTEM_ERR for a NULL handle; otherwise one of PAM_SUCCESS, PAM_SYSTEM_ERR, PAM_BUF_ERR: PAM_SYSTEM_ERR exactly for a NULL string or one without '=', PAM_BUF_ERR exactly when strdup fails or a full list cannot grow; env_size grows to 2·env_size+1 exactly when a full list grows; on success the list is PutSpec of the old one, otherwise unchanged |
| OpenpamStraddch.StrBuf.constructor | lib/openpam_straddch.c:50-56 | a caller's empty start: a NULL string |
| OpenpamStraddch.StrBuf.AddChar | lib/openpam_straddch.c:45-71 | 32 bytes from NULL, doubled when len ≥ size - 1; on success the text gains ch, is NUL-terminated and len < size; on -1 the string is NULL |
| OpenpamConfigure.MatchWord | trunk/lib/openpam_configure.c:53-60 | true exactly when word is a prefix of str followed immediately by a space (not a tab, not the end) |
| OpenpamConfigure.WordEnd | trunk/lib/openpam_configure.c:70-71 | the word ends at the first NUL or white space, and holds neither |
| OpenpamConfigure.SpaceEnd | trunk/lib/openpam_configure.c:73-74 | the white space ends at the first other character |
| OpenpamConfigure.NextWord | trunk/lib/openpam_configure.c:65-76 | skips the word and the white space after it: the result is at or after the start, at a NUL or a non-space character |
| OpenpamConfigure.DupWord | trunk/lib/openpam_configure.c:81-92 | a copy of the longest prefix without white space or NUL, or NULL when asprintf fails |
| OpenpamConfigure.WordScannersAgree | trunk/lib/openpam_configure.c:53-92 | the word dup_word copies is the first word for match_word, and next_word moves past it |
| OpenpamConfigure.MatchedWordEnds | trunk/lib/openpam_configure.c:53-76 | a word match_word accepts ends where next_word's word ends |
| OpenpamConfigure.LoadFirstNonZero | trunk/lib/openpam_configure.c:256-273 | loading gives 0 exactly when every path gives 0; otherwise the result of the first path that does not |
| OpenpamConfigure.LoadChain | trunk/lib/openpam_configure.c:246-274 | the loop over the four policy paths gives the specification's result |
| OpenpamConfigure.Configure | trunk/lib/openpam_configure.c:289-307 | PAM_SYSTEM_ERR, with every chain cleared, exactly when some chain's loading fails; otherwise PAM_SUCCESS with each chain from the service, or from "other" when the service has none |
| OpenpamConfigure.OtherOnlyWhenEmpty | trunk/lib/openpam_configure.c:298-300 | "other" is read for a chain only when the service's own policy gives it no entries |

## Left out

- Logging (`openpam_log`, `_openpam_check_error_code`) and `ENTERS`/`RETURNC` tracing. They do not change any result.
- HMAC-SHA-1 and RAND_bytes are OpenSSL calls. HMAC is an uninterpreted function parameter, so the known-answer vectors of RFC 4226 appendix D and RFC 6238 appendix B are not stated.
- `time()` is not modelled. TOTP takes `now` as a parameter, a time_t at or after the epoch.
- Allocation is not modelled: malloc, realloc, strdup, asprintf and oath_key_alloc are boolean parameters. A fresh key is "all zero".
  - The `mapped` and `locked` flags of the key record are not modelled.
  - The mmap, mlock and free calls are not modelled.
- `openpam_read_chain`, policy files, module loading (dlopen) and `openpam_clear_chains` are not modelled.
  - `read_chain` is a function parameter from path, service, facility and style to its result.
  - A configured chain is represented by the service whose policy filled it, not by its modules.
- A module's primitive is represented by the value it returns. The flags argument and the handle state it could read are not modelled.
- openpam_findenv is not part of this model. FindEnv states the search it performs: the first entry that starts with the name and then '='.
- openpam_strlcmp.h is not part of this model. Its use is modelled as "the visited characters are exactly the string".
- `OATH_DUMMY_LABEL` is not part of this model. It is a string parameter.
- OathKeyToUri.KeyToUri: asprintf's result is not checked by the source. A failing asprintf (urilen -1) is not modelled; only the realloc failure is.
- OathKeyToUri.KeyToUri: the label and the secret are printed without percent-encoding, as the source does. The round trip therefore requires a label without '?', '%' or NUL.
- OathHotp.ComputeHotp: requires a non-zero 32-bit modulus, since with 32 or more digits the source divides by zero (`OathHotp.ModulusVanishes`). The same holds for OathHotp.HotpCurrent, OathHotp.HotpMatch, OathTotp.TotpCurrent and OathTotp.TotpMatch.
- OathTotp.TotpMatch: requires window < INT_MAX. With INT_MAX, `++i` on an int overflows after i = window.
- OathKeyDummy.DummyNeverMatches: requires a label that fits, a non-zero modulus and window < INT_MAX, for the same reasons.
- Base32.Base32Enc: the base 32 encoder reads input bytes as unsigned, the corrected reading of the Findings row for oath_base32.c:100-104. On the signed-char targets the decoder's table assumes, the source sign-extends key bytes 0x80-0xff (`(const char *)key->key` at lib/liboath/oath_key.c:96), so as written this holds only for key bytes below 0x80 (`Base32.AsWrittenAgreesBelow0x80`).
- OathKeyToUri.KeyToUri: the secret is printed by the unsigned-byte encoder (see the Base32.Base32Enc line), so as written this holds only for key bytes below 0x80.
- OathUriRoundTrip.ReadSecret: the secret is printed by the unsigned-byte encoder (see the Base32.Base32Enc line), so as written this holds only for key bytes below 0x80.
- OathUriRoundTrip.ReadHotpParams: the secret is printed by the unsigned-byte encoder (see the Base32.Base32Enc line), so as written this holds only for key bytes below 0x80.
- OathUriRoundTrip.ReadTotpParams: the secret is printed by the unsigned-byte encoder (see the Base32.Base32Enc line), so as written this holds only for key bytes below 0x80.
- OathUriRoundTrip.ParsePrinted: the secret is printed by the unsigned-byte encoder (see the Base32.Base32Enc line), so as written this holds only for key bytes below 0x80.
- OathUriRoundTrip.PrintParsed: the secret is printed by the unsigned-byte encoder (see the Base32.Base32Enc line), so as written this holds only for key bytes below 0x80.
- OathUriRoundTrip.CreatedKeyRoundTrip: the secret is printed by the unsigned-byte encoder (see the Base32.Base32Enc line), so as written this holds only for key bytes below 0x80.
- Base32.Base32Dec: bytes 0x80-0xff are read as invalid characters, so decoding fails. The source indexes `b32dec[(int)*in]` through a plain `char`; on signed-char targets such a byte gives a negative index, a read before the table whose value is undefined. The same holds for Base32.InvalidCharacterFails. The base 64 decoder reads through `uint8_t` and has no such gap.
- UriDecode.OathUriDecode: with a buffer and olen 0 the model stores nothing. The source's `opos < olen - 1` wraps on size_t, so it writes every character past the buffer; that is the Findings row for oath_uri_decode.c:63, and every caller passes a 64- or 256-byte buffer. The same holds for UriDecode.StoreChar.
- OathKeyFromUri.KeyFromUri: the URI is the characters of a C string, so it holds no NUL. A NULL URI is not modelled.
- The integer size of `labellen` is not modelled. The source stores strlen into an `int` in oath_key_create; labels are shorter than 64, so this never truncates.
- PamPutenv.PamEnv.Put: models the growth the code evidently means, to 2 * env_size + 1 entries. As written, realloc is given that many bytes (see Findings and `PamPutenv.GrowthAsWrittenOverflows`).
- PamPutenv.PamEnv.Put: `env_size * 2 + 1` and straddch's `*size *= 2` are unbounded integers here; `size_t` and `int` overflow is not modelled.
- OpenpamStraddch.StrBuf.AddChar: the string, size and length passed by reference are the fields of one object; aliasing between them is not modelled.
- Duplicate copies of the codecs and of the key parser under `trunk/modules/pam_oath` and `modules/pam_oath` are not modelled. They are superseded, and their behaviour conflicts with the library's.
- The PAM module, the `oathkey` tool and `pam_get_authtok` are not modelled. Neither are key files (`oath_key_from_file`) or `pam_start`/`pam_end`.

## Findings

| source | as written | input that shows it | evidently intended | confidence | as-written member | corrected member |
|---|---|---|---|---|---|---|
| trunk/lib/liboath/oath_base32.c:100-104 | input bytes are read through plain `char` and sign-extended on signed-char targets | bytes 0x00 0x80 encode as "76AA====", which decodes to 0xff 0x80 | bytes read as unsigned: "ACAA====" | not executed | Base32.SignExtensionBreaksRoundTrip | Base32.DecodeEncode |
| trunk/lib/liboath/oath_uri_decode.c:66 | `ilen += 2` on every escape moves the end of the window | "%20ab" with ilen 3 decodes to " ab" | decode exactly the first ilen characters: " " | not executed | UriDecode.EscapeExtendsWindow | UriDecode.DecodedWithinIsWindow |
| trunk/lib/liboath/oath_uri_decode.c:63 | `opos < olen - 1` on size_t wraps when olen is 0 | out non-NULL, olen 0: the first character is written at index 0 of an empty buffer | write only while opos + 1 < olen | not executed | UriDecode.WriteGuardWraps | UriDecode.WriteGuardAgrees |
| trunk/lib/liboath/oath_hotp.c:134 | a match stores counter + i, the matched value itself | the response just accepted matches again at offset 0 on the next call | counter + i + 1, consuming the value (section 7.2 of RFC 4226) | not executed | OathHotp.MatchReplays | OathHotp.NextCounterConsumes |
| trunk/lib/liboath/oath_totp.c:96 | a match sets lastused to the current step, not the matched one | a code for step seq + 1 accepted at time seq is accepted again at the same time | lastused = the matched step, seq + i | not executed | OathTotp.MatchAheadReplays | OathTotp.MatchedStepConsumed |
| trunk/lib/liboath/oath_key_from_uri.c:144 | digits are stored from the raw, undecoded character after a check on the decoded value | last parameter "digits=%36": stored as '%' - '0' = 4294967285, whose modulus is 0 | the decoded digit, 6 or 8 | not executed | OathKeyFromUri.DigitsFromRawCharacter | OathKeyFromUri.DigitsAgreeUnescaped |
| trunk/lib/liboath/oath_key_from_uri.c:89-90 | an empty label is decoded with length 0, which oath_uri_decode reads as "up to the NUL" | "otpauth://totp/?secret=…": the label becomes "?secret=…" | an empty label | not executed | OathKeyFromUri.EmptyLabelReadsOn | OathKeyFromUri.LabelAgrees |
| lib/openpam_dispatch.c:96-131 | a PAM_SUCCESS not ended by a sufficient module goes on to the recording step | "requisite (succeeds), required (fails)" gives PAM_SUCCESS; "required (succeeds), optional (fails)" gives the optional failure | skip a success after the sufficient test: required and requisite modules decide | not executed | OpenpamDispatch.RequisiteSuccessSkipsRest | OpenpamDispatch.IntendedMandatoryRule |
| trunk/lib/pam_putenv.c:76 | realloc is given 2 * env_size + 1 bytes, not that many pointers | env_size 0: one byte for a list that then stores a pointer at index 0 | `sizeof *env * (env_size * 2 + 1)` | not executed | PamPutenv.GrowthAsWrittenOverflows | PamPutenv.PamEnv.Put |
