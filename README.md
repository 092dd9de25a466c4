# Question obfuscation, modelled in Dafny

`questions/obfuscate.js` rewrites the question banks so that answers are not
stored in plain text. Each question record is copied with object spread:

- An `"mcq"` record that has an `answer` gets `answer_b64` in its place.
- A `"predict"` record that has an `answerText` gets `answer_b64` in its place.
- Every other record passes through as it is.

`answer_b64` holds `encode(value)`: the Base64 of the UTF-8 bytes of `String(value)`.

The project has six modules:

- `Results` (results.dfy) holds the `Option` and `Result` wrappers, and `MapAll`: `map` with a callback that may throw.
- `Bytes` (bytes.dfy) holds the octet type shared by the two encodings.
- `Js` (js.dfy) holds the JavaScript side:
  - the values `JSON.parse` produces;
  - an object's own properties as an ordered list of name/value pairs, with property read (`Get`), assignment (`Set`) and `delete` (`Remove`);
  - the `String(value)` coercion (`ToText`), including the `TypeError` it throws for an object that owns a `toString` property;
  - the class `JsObject`, a heap object whose properties the callback copies, assigns and deletes in place.
- `Utf8` (utf8.dfy) is the UTF-8 encoding of a string of Unicode scalar values (RFC 3629). It has a strict decoder that rejects overlong forms, surrogates and values above U+10FFFF.
- `Base64` (base64.dfy) is the Base64 encoding of section 4 of RFC 4648. It has a strict decoder that accepts only canonical encodings.
- `Obfuscate` (obfuscate.dfy) holds `encode`, the `data.map` callback and the conversion of a whole array:
  - `Converted` and `ConvertAll` are the functional versions.
  - `ConvertQuestion` and `ConvertData` are the step-by-step versions on heap objects. Each is proved equal to its functional version.

A `throw` from `String(value)` aborts the whole `map`. It is modelled as
`Err(CannotConvertToPrimitive)`.

## Model

| member | source | states |
|---|---|---|
| Js.Get | questions/obfuscate.js:18 | a property read finds a value exactly when the name is one of the object's own property names (`!== undefined` on a parsed record); `GetFound` adds that the value is the one stored under that name |
| Js.GetFound | questions/obfuscate.js:18 | the value a property read returns is stored in the object under that name |
| Js.Set | questions/obfuscate.js:19-24 | assignment `copy.answer_b64 = …`; specified by `SetGet`, `SetKeys` and `SetUniqueKeys` |
| Js.Remove | questions/obfuscate.js:20-25 | `delete copy.answer` and `delete copy.answerText`; specified by `RemoveGet`, `RemoveKeys` and `RemoveUniqueKeys` |
| Js.WithoutConcat | questions/obfuscate.js:20-25 | filtering a name out of the property order distributes over concatenation, so the names left keep their relative order |
| Js.SetGet | questions/obfuscate.js:19 | after `copy.answer_b64 = v`, that property reads `v` and every other property reads as before |
| Js.SetKeys | questions/obfuscate.js:19 | assignment keeps the property order; an existing name keeps its place and a new name goes last |
| Js.RemoveGet | questions/obfuscate.js:20 | after `delete copy.k`, `k` reads undefined and every other property reads as before |
| Js.RemoveKeys | questions/obfuscate.js:20 | `delete` takes exactly that name out of the property order and keeps the others in place |
| Js.SetUniqueKeys | questions/obfuscate.js:19 | assignment never makes a property name occur twice |
| Js.RemoveUniqueKeys | questions/obfuscate.js:20 | `delete` never makes a property name occur twice |
| Js.Decimal | questions/obfuscate.js:8 | `String(n)` of a non-negative integer is a non-empty run of decimal digits with no leading zero whose value is `n` |
| Js.ToText | questions/obfuscate.js:8 | `String(value)` throws exactly when the value is, or holds inside an array, an object owning `toString`; a string converts to itself |
| Js.JoinFrom | questions/obfuscate.js:8 | an array's join throws exactly when some remaining element cannot be converted |
| Js.JsObject.Spread | questions/obfuscate.js:16 | `{ ...q }` is a fresh object with `q`'s own properties in `q`'s order |
| Js.JsObject.Lookup | questions/obfuscate.js:18-23 | `q.k` is defined exactly when `k` is an own property of `q`, and then it is the value stored under `k` |
| Js.JsObject.Assign | questions/obfuscate.js:19 | `copy.answer_b64 = …` changes only that object, whose properties become the assignment result |
| Js.JsObject.Delete | questions/obfuscate.js:20 | `delete copy.answer` changes only that object, whose properties lose that name |
| Utf8.EncodeChar | questions/obfuscate.js:8 | a scalar value takes one to four bytes, and takes one byte exactly when it is ASCII |
| Utf8.Encode | questions/obfuscate.js:8 | a string's UTF-8 form has between one and four bytes per character |
| Utf8.DecodeEncodeChar | questions/obfuscate.js:8 | decoding the bytes of one character, followed by anything, gives back that character and its byte length |
| Utf8.EncodeDecodeChar | questions/obfuscate.js:8 | any byte run the strict decoder accepts is exactly the encoding of the character it decodes to |
| Utf8.DecodeEncode | questions/obfuscate.js:8 | decoding the UTF-8 bytes of any string gives the string back |
| Utf8.EncodeDecode | questions/obfuscate.js:8 | every byte sequence the strict decoder accepts is the UTF-8 encoding of its decoding, so the encoding is one-to-one and onto the valid sequences |
| Base64.Digit | questions/obfuscate.js:8 | no alphabet character is the padding character `=` |
| Base64.IndexOf | questions/obfuscate.js:8 | reading a character back as a digit gives a 6-bit value that maps back to that character |
| Base64.IndexOfDigit | questions/obfuscate.js:8 | every 6-bit value is read back from its alphabet character |
| Base64.Encode | questions/obfuscate.js:8 | `Buffer.toString("base64")`; specified by `EncodeLength`, `EncodeAlphabet`, `DecodeEncode` and `EncodeDecode` |
| Base64.EncodeGroup | questions/obfuscate.js:8 | one to three bytes become exactly four characters |
| Base64.EncodeLength | questions/obfuscate.js:8 | `n` bytes encode to `4 * ceil(n / 3)` characters |
| Base64.EncodeAlphabet | questions/obfuscate.js:8 | an encoding is alphabet characters followed by exactly `(3 - n mod 3) mod 3` characters `=`, with `=` nowhere else |
| Base64.DecodeEncodeGroup | questions/obfuscate.js:8 | a group of one to three bytes decodes back from its four characters |
| Base64.EncodeDecodeGroup | questions/obfuscate.js:8 | any four characters the strict decoder accepts are the encoding of the bytes they decode to |
| Base64.DecodeEncode | questions/obfuscate.js:8 | decoding the Base64 of any byte sequence gives the bytes back |
| Base64.EncodeDecode | questions/obfuscate.js:8 | every string the strict decoder accepts is the Base64 of its decoding |
| Obfuscate.Encode | questions/obfuscate.js:7-9 | `encode(value)` throws exactly when `String(value)` does |
| Obfuscate.EncodeText | questions/obfuscate.js:8 | `Buffer.from(s, "utf8").toString("base64")`; specified by `EncodeTextShape`, `EncodeTextRoundTrip` and `DecodeTextInverse` |
| Obfuscate.EncodeTextShape | questions/obfuscate.js:8 | `encode(s)` has `4 * ceil(n / 3)` characters for `n` UTF-8 bytes, all from the Base64 alphabet except the closing `=` padding |
| Obfuscate.EncodeTextRoundTrip | questions/obfuscate.js:8 | Base64-decoding and then UTF-8-decoding `encode(s)` gives `s` back |
| Obfuscate.DecodeTextInverse | questions/obfuscate.js:8 | every text that decodes is the encoding of what it decodes to, so two different answers never share an `answer_b64` |
| Obfuscate.SensitiveField | questions/obfuscate.js:18-23 | the two `if` conditions, read on the original record; specified by `SensitiveFieldCases` |
| Obfuscate.Converted | questions/obfuscate.js:15-28 | the `map` callback on one record's properties; specified by `HideRule`, `McqRule`, `PredictRule`, `PassThrough`, `Idempotent` and `ConvertedUniqueKeys` |
| Obfuscate.SensitiveFieldCases | questions/obfuscate.js:18-23 | `answer` is selected exactly for an `"mcq"` record that has one, `answerText` exactly for a `"predict"` record that has one, and nothing else ever is |
| Obfuscate.HideRule | questions/obfuscate.js:18-26 | a selected record fails exactly when its answer cannot be converted; otherwise the output has `answer_b64` set to the encoded answer and lacks the answer property, and every other property keeps its value and place |
| Obfuscate.McqRule | questions/obfuscate.js:18-21 | an `"mcq"` record with an `answer` comes out with `answer_b64 = encode(answer)` and no `answer`, the rest unchanged, and the answer decodes back |
| Obfuscate.PredictRule | questions/obfuscate.js:23-26 | a `"predict"` record with an `answerText` comes out with `answer_b64 = encode(answerText)` and no `answerText`, the rest unchanged, and the answer decodes back |
| Obfuscate.PassThrough | questions/obfuscate.js:16-28 | any other record comes out with the same properties, values and order |
| Obfuscate.Idempotent | questions/obfuscate.js:18-26 | converting a converted record again changes nothing |
| Obfuscate.ConvertedUniqueKeys | questions/obfuscate.js:16-26 | a record with distinct property names converts to one with distinct property names |
| Results.MapAll | questions/obfuscate.js:15-29 | a `map` whose callback may throw has, when it succeeds, one result per element |
| Results.MapAllEach | questions/obfuscate.js:15-29 | such a `map` succeeds exactly when the callback succeeds on every element, and result `i` is then the callback's result on element `i` |
| Results.MapAllFails | questions/obfuscate.js:15-29 | one throwing callback makes the whole `map` throw |
| Results.MapAllPrefix | questions/obfuscate.js:15-29 | mapping the elements one by one in order appends each element's result to those before it |
| Obfuscate.ConvertAll | questions/obfuscate.js:15-29 | `data.map(callback)` as `MapAll` of `Converted`; specified by `ConvertAllEach` and `ConvertAllIdempotent` |
| Obfuscate.ConvertAllEach | questions/obfuscate.js:15-29 | the `map` succeeds exactly when every record converts; output `i` is then input `i` converted, so length and order are kept |
| Obfuscate.ConvertAllIdempotent | questions/obfuscate.js:15-29 | running the conversion over its own output changes nothing |
| Obfuscate.ConvertQuestion | questions/obfuscate.js:15-29 | the callback leaves its input object unchanged, fails exactly when the functional rewrite does, and otherwise returns a fresh object holding the rewritten properties |
| Obfuscate.ConvertData | questions/obfuscate.js:15-29 | `data.map(callback)` modifies no input object and fails exactly when the functional conversion does; otherwise it returns one fresh object per input, in order, holding the converted properties |

## Left out

- Reading and overwriting `low.json`, `mid.json` and `pro.json`, `path.join` and the console confirmation (questions/obfuscate.js:2-5, 11-13, 31-37) are file I/O with nothing to state. The parsed array is a parameter.
- `JSON.parse` and `JSON.stringify` are library serialisers. A record is taken as already parsed, and the output's property order is what `JSON.stringify` would write.
- Numbers other than integers within ±(2^53 - 1): `String` of a fraction or a large number is floating-point formatting, which is not modelled.
- Lone UTF-16 surrogates, which `Buffer.from` replaces with U+FFFD: a `string` here is a sequence of Unicode scalar values.
- Array elements that are not plain objects, and a parse result that is not an array: the data is taken to be a sequence of question records. In JavaScript, a `null` element makes the callback throw. A string element spreads to one indexed property per UTF-16 code unit, and an array element to one per item. A number or boolean spreads to `{}`. In each non-null case `q.type` is undefined, so the callback returns the copy unchanged.
- The Base64 and UTF-8 decoders are strict, canonical ones that state what `answer_b64` means. Node's lenient decoders, which skip invalid characters and replace malformed bytes, are not modelled.
- Property order follows insertion. JavaScript enumerates integer-like names first, but the only name the callback adds, `answer_b64`, is not integer-like. Records are therefore taken to be listed in JavaScript's enumeration order.
- Nested objects and arrays inside a record are values here, shared between a record and its copy. The callback never writes inside them, so the sharing cannot be observed.
- ConvertData: does not state that the output objects are distinct from one another. Each is fresh when created, but that fact is not carried through the loop.
- Any keyed or XOR-based codec for the answers is not part of this model.
