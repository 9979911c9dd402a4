# Emotion service: detection-reply parsing and upload unwrapping

This project models, in Dafny, the two pieces of the happy-o-meter `EmotionService`
(`src/main/kotlin/se/alphadev/rest/EmotionService.kt`) that are logic rather than
HTTP plumbing, and proves what they promise.

- **`parseFaces`** turns the facial-emotion detector's JSON reply into an ordered list of
  `Face(scores, Rect)`. A reply that is not an array means "no faces". Array elements
  that are not objects are skipped. An object element missing `faceRectangle`, `scores`,
  any of `left`/`top`/`width`/`height`, or with a non-numeric score, makes the whole call
  throw, so no partial list is returned. Modelled as the method `EmotionService.ParseFaces`,
  a `for` loop with `continue` like the source. The score list is built by the method
  `EmotionService.ReadScores`, which visits the members of the `scores` object in an
  unspecified order, as `JSONObject.keys()` does. Both methods are proved against
  predicates (`WellFormed`, `Describes`, `FailsWith`, `ScoresOf`) and the element filter
  `ObjectElements`. Lemmas about that filter show that the faces keep array order and
  that non-object elements never matter.
- **`readImageData`** decodes the uploaded body with the basic Base64 alphabet
  (section 4 of RFC 4648) when the content type ends with `;base64`. Otherwise the body
  passes through unchanged. Modelled as the function `EmotionService.ReadImageData` over
  the bytes already read, with a full decoder `Base64.Decode`. `Base64.Decode` follows
  `java.util.Base64.getDecoder()`: the padding of the last unit may be omitted, but
  padding that is present must be complete and must end the input; any byte outside
  the alphabet, or a lone final character, is rejected. A standard encoder
  `Base64.Encode` is the partner of the decoder. The round trip holds with and without
  padding.

Supporting modules:
- `Results` holds `Result` and `Option`. A thrown exception becomes `Err` or `None`.
- `Json` holds the parsed JSON tree (`JValue`) and the org.json getters the parser calls.
  Object members live in a `map`, because org.json keeps them in a hash map.
- `Image` holds `Face` and `Rect`. Their source package `se.alphadev.image` is not part
  of this model, so they are shaped as the parser builds them: a sequence of
  `(label, score)` pairs and four integers.

Behaviour of the code worth stating up front:
- The `;base64` marker is matched case-sensitively (Kotlin `endsWith`).
  `UpperCaseMarkerPassesThrough` states the consequence.
- `emotions` writes the renderer output raw, so no request/response encoding
  symmetry is stated.
- A face object that lacks a required member is a hard failure, because the getters
  throw.

## Model

| member | source | states |
|---|---|---|
| `EmotionService.ParseFaces` | src/main/kotlin/se/alphadev/rest/EmotionService.kt:65-95 | A non-array reply gives `Ok([])`. An array reply succeeds exactly when every object element is well formed. On success there is one face per object element, in array order, each built from that element. On failure the error is the one the first malformed object element throws, and every object element before it is well formed. |
| `EmotionService.ReadScores` | src/main/kotlin/se/alphadev/rest/EmotionService.kt:84-89 | Succeeds exactly when every member of `scores` is a number. The resulting list has one pair per member: its labels are the key set, without repeats, each paired with its member's number. Otherwise the error names a member that is not a number. |
| `EmotionService.ParseRect` | src/main/kotlin/se/alphadev/rest/EmotionService.kt:78-82 | Succeeds exactly when `faceRectangle` is an object with four numeric coordinates. The rect is `Rect(left, top, width, height)` taken as given, with no clamping or validation. On failure the error names `faceRectangle` or the first bad coordinate in source order. |
| `EmotionService.ObjectElements` | src/main/kotlin/se/alphadev/rest/EmotionService.kt:73-76 | The object elements kept by the `continue` filter are never more than the array's elements. |
| `EmotionService.ObjectElementsAppend` | src/main/kotlin/se/alphadev/rest/EmotionService.kt:73-76 | Filtering an array made of two parts gives the filtered first part followed by the filtered second part. |
| `EmotionService.NonObjectIgnored` | src/main/kotlin/se/alphadev/rest/EmotionService.kt:73-76 | Inserting a non-object element anywhere in the array leaves the kept elements unchanged. |
| `EmotionService.ObjectPositions` | src/main/kotlin/se/alphadev/rest/EmotionService.kt:71-94 | The kept elements sit at strictly increasing array positions. Those positions include every object element. So order is kept and nothing is lost or duplicated. |
| `EmotionService.AllObjectsKept` | src/main/kotlin/se/alphadev/rest/EmotionService.kt:73-76 | The output has as many entries as the array exactly when every element is an object. |
| `EmotionService.ReadImageData` | src/main/kotlin/se/alphadev/rest/EmotionService.kt:97-105 | Without a trailing `;base64`, the body comes back unchanged. With it, the result is the Base64 decoding of the body, or failure where the decoder throws. |
| `EmotionService.EndsWithConcat` | src/main/kotlin/se/alphadev/rest/EmotionService.kt:100 | The suffix test holds exactly of strings that are some prefix followed by the suffix. |
| `EmotionService.ReadImageDataRoundTrip` | src/main/kotlin/se/alphadev/rest/EmotionService.kt:100-101 | For any mime type, a body that is the standard Base64 encoding of an image, sent with the `;base64` marker, yields exactly that image. |
| `EmotionService.UpperCaseMarkerPassesThrough` | src/main/kotlin/se/alphadev/rest/EmotionService.kt:100-104 | A content type ending in `;BASE64` does not trigger decoding, because the match is case-sensitive. |
| `Base64.Decode` | src/main/kotlin/se/alphadev/rest/EmotionService.kt:101 | Input that decodes contains only alphabet characters and `=`. Its length is never one more than a multiple of four. |
| `Base64.PaddingEndsInput` | src/main/kotlin/se/alphadev/rest/EmotionService.kt:101 | Padding the decoder accepts is complete and ends the input: an accepted input with an `=` has a length that is a multiple of four, every `=` is among its last two characters, and every character after an `=` is `=` too. |
| `Base64.DecodeLast` | src/main/kotlin/se/alphadev/rest/EmotionService.kt:101 | A final unit is accepted only with two to four characters, and it yields one or two bytes. |
| `Base64.CharOf` | src/main/kotlin/se/alphadev/rest/EmotionService.kt:101 | Every 6-bit value maps to an alphabet character other than `=`, and that character decodes back to the value. |
| `Base64.Encode` | src/main/kotlin/se/alphadev/rest/EmotionService.kt:100-101 | The encoding of n bytes has 4 * ceil(n / 3) characters, all from the alphabet or `=`. |
| `Base64.DecodeEncode` | src/main/kotlin/se/alphadev/rest/EmotionService.kt:101 | Decoding the standard encoding of any byte sequence gives that sequence back. |
| `Base64.DecodeUnpadded` | src/main/kotlin/se/alphadev/rest/EmotionService.kt:101 | The encoding ends in exactly the padding the length calls for. With that padding removed, it still decodes to the original bytes. |
| `Json.IntValue` | src/main/kotlin/se/alphadev/rest/EmotionService.kt:79-82 | `getInt`'s conversion of a number truncates toward zero: the result is the integer within one unit of the number, on zero's side. |
| `Json.GetJSONObject` | src/main/kotlin/se/alphadev/rest/EmotionService.kt:78 | Succeeds exactly when the key holds an object. Otherwise it reports the key as not found or as not an object, whichever is true. |
| `Json.GetInt` | src/main/kotlin/se/alphadev/rest/EmotionService.kt:79-82 | Succeeds exactly when the key holds a number, giving its truncation. Otherwise it reports the key as not found or as not a number, whichever is true. |
| `Json.GetDouble` | src/main/kotlin/se/alphadev/rest/EmotionService.kt:88 | Succeeds exactly when the key holds a number, giving that number. Otherwise it reports the key as not found or as not a number, whichever is true. |

## Left out

- `emotions` (request/response handling, headers, writing the rendered image) is servlet I/O. It has no encoding symmetry to model, because the response is written raw.
- `emotionDoc` is the outbound HTTP call to the detector. The parser takes its reply as an already-parsed `JValue`.
- The JSON tokenizer (`JSONTokener.nextValue`) is library code. Input is an already-parsed JSON tree.
- Json.GetInt: does not narrow to a 32-bit `Int`. Java's saturation or wrap-around of out-of-range numbers is library-internal and not modelled.
- Json.GetInt: numeric strings, which org.json's `getInt` and `getDouble` would coerce, are treated as "not a number".
- Score values are `Double`. They are modelled as `real`, because nothing here does arithmetic on them.
- `InputStream.readBytes(size)` is stream I/O. `ReadImageData` takes the bytes already read, and `size` is only a buffer hint.
- `MemeEmotionRenderer.render`, dominant-emotion choice, asset lookup and compositing are implemented outside `EmotionService.kt`; `emotions` only calls `renderer.render` (line 51). The renderer is not part of this model.
- Spring injection, the logger and the HTTP client fields are framework plumbing.
- The exact exception message strings are not modelled. An error carries only its kind and the key it concerns.
