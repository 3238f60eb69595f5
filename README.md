# Badge URL construction

This project models the badge-URL helper of the Shields badge site, `lib/make-badge-url.js`. The site's example pages use it to build the request paths they show:

- **`encodeField`** escapes one badge field. It doubles every `-`, then doubles every `_`, then applies `encodeURIComponent`. The badge server can then split a path on single hyphens.
- **`staticBadgeUrl`** builds `/badge/<label>-<message>-<color>.<format>` plus an optional `?style=…` query. The color defaults to `lightgray` and the format to `svg`. It throws when the label or the message is missing or empty.
- **`makeFullPattern`** prefixes an optional base segment to a route pattern and appends the extension placeholder `.:ext(svg|png|gif|jpg|json)`.
- **`makeBadgeUrlFromPattern`** fills such a pattern with named parameters through the path compiler. The `ext` parameter defaults to `svg`, and a named parameter called `ext` overrides it.

The files:

- `wrappers.dfy`: the `Option` and `Result` datatypes. `None` stands for JavaScript `undefined`, and `Err` stands for a thrown error.
- `utf8.dfy`: UTF-8 encoding of one Unicode scalar value, with a decoder that is proved to be its inverse.
- `uri_component.dfy`: the standard `encodeURIComponent` as ECMA-262 defines it. Octet by octet, it percent-encodes the UTF-8 form of every character outside the unreserved set (letters, digits, `-_.!~*'()`). Upper-case hex is used. A decoder (`DecodeURIComponent`) serves as its proved inverse.
- `make_badge_url.dfy`: the four functions above, plus the properties that make the encoding usable by the server:
  - it is reversible;
  - runs of `-` and `_` in an encoded field have even length;
  - the path determines the label and the message when neither starts or ends with `-` and the color does not start with `-`;
  - without that condition, the path is ambiguous.

JavaScript values are modelled as follows:

- A property that may be absent is an `Option<string>`.
- Truthiness is "present and not the empty string".
- A default parameter replaces only an absent value.

## Model

| member | source | states |
|---|---|---|
| Utf8.Encode | lib/make-badge-url.js:7 | the UTF-8 form has 1 to 4 bytes; its lead byte announces its length; the other bytes are continuation bytes; it is one byte exactly for code points below 0x80 |
| Utf8.SequenceLength | lib/make-badge-url.js:7 | the length a lead byte announces is at most 4, and is 0 exactly for continuation bytes and bytes from 0xF8 up |
| Utf8.Decode | lib/make-badge-url.js:7 | a successful decode consumed exactly the length its lead byte announces |
| Utf8.DecodeEncode | lib/make-badge-url.js:7 | decoding the UTF-8 form of any character gives that character back |
| UriComponent.HexDigit | lib/make-badge-url.js:7 | the digit written for a value below 16 is `0`-`9` or upper-case `A`-`F`, and it is the digit whose value is that number |
| UriComponent.PercentOctet | lib/make-badge-url.js:7 | an octet is written as `%`, then the upper-case hexadecimal digit of its high four bits, then that of its low four bits |
| UriComponent.PercentOctets | lib/make-badge-url.js:7 | a byte string is written as 3 characters per byte, each `%` or alphanumeric |
| UriComponent.EncodeChar | lib/make-badge-url.js:7 | an unreserved character is kept; any other character becomes 3 characters per UTF-8 byte, starting with `%` |
| UriComponent.EncodeURIComponent | lib/make-badge-url.js:7 | the encoding is never shorter than its input |
| UriComponent.EncodeCharAlphabet | lib/make-badge-url.js:7 | one character's encoding contains only `%` and unreserved characters, and a mark in it means the character was kept as it is |
| UriComponent.EncodeAlphabet | lib/make-badge-url.js:7 | every character of `encodeURIComponent`'s output is `%` or unreserved |
| UriComponent.DecodeEncode | lib/make-badge-url.js:7 | decoding the encoding of any string gives that string back |
| UriComponent.EncodeInjective | lib/make-badge-url.js:7 | different strings have different encodings |
| UriComponent.EncodeAppend | lib/make-badge-url.js:7 | the encoding of a concatenation is the concatenation of the encodings |
| UriComponent.EncodeUnreserved | lib/make-badge-url.js:7 | a string of unreserved characters is its own encoding |
| MakeBadgeUrl.Escape | lib/make-badge-url.js:7 | the `replace` chain, doubling every `-` and then every `_`; its contract is carried by EscapeLength, UnescapeEscape, EscapeAppend and EscapeExample |
| MakeBadgeUrl.DoubleAll | lib/make-badge-url.js:7 | one global replace pass lengthens the string by one character per occurrence of the replaced character |
| MakeBadgeUrl.CountDoubleAll | lib/make-badge-url.js:7 | the first pass, on `-`, leaves the number of `_` unchanged |
| MakeBadgeUrl.EscapeAppend | lib/make-badge-url.js:7 | the two replace passes act character by character, so the escape of a concatenation is the concatenation of the escapes |
| MakeBadgeUrl.EscapeLength | lib/make-badge-url.js:7 | the escaped field is longer by exactly the number of `-` plus the number of `_` |
| MakeBadgeUrl.UnescapeEscape | lib/make-badge-url.js:7 | collapsing `--` and `__` recovers the field, so the escape loses nothing |
| MakeBadgeUrl.EscapeExample | lib/make-badge-url.js:7 | for any three characters other than `-` and `_`, `a-b_c` escapes to `a--b__c` |
| MakeBadgeUrl.EncodeField | lib/make-badge-url.js:6-8 | `encodeField`: the escape, then `encodeURIComponent`; its contract is carried by DecodeEncodeField, EncodeFieldInjective, EncodeFieldRunsEven, EncodeFieldEdges and EncodeFieldPlain |
| MakeBadgeUrl.DecodeEncodeField | lib/make-badge-url.js:6-8 | percent-decoding, then un-escaping, gives back any field `encodeField` encoded |
| MakeBadgeUrl.EncodeFieldInjective | lib/make-badge-url.js:6-8 | different fields have different encodings |
| MakeBadgeUrl.FieldPieceShape | lib/make-badge-url.js:6-8 | a `-` is encoded as `--` and a `_` as `__`; the encoding of any other character contains neither |
| MakeBadgeUrl.EncodeFieldAppend | lib/make-badge-url.js:6-8 | `encodeField` acts character by character |
| MakeBadgeUrl.EncodeFieldPlain | lib/make-badge-url.js:6-8 | a field of letters, digits and `. ! ~ * ' ( )` is passed through unchanged |
| MakeBadgeUrl.EncodeFieldPaired | lib/make-badge-url.js:6-8 | in an encoded field, `-` and `_` occur only in doubled pairs |
| MakeBadgeUrl.PairedRunsEven | lib/make-badge-url.js:6-8 | every maximal run of a character in a string where it occurs only in pairs has even length |
| MakeBadgeUrl.EncodeFieldRunsEven | lib/make-badge-url.js:6-8 | every maximal run of `-`, and every maximal run of `_`, in an encoded field has even length |
| MakeBadgeUrl.EncodeFieldEdges | lib/make-badge-url.js:6-8 | an encoded non-empty field starts with `-` exactly when the field does, and ends with `-` exactly when the field does |
| MakeBadgeUrl.EncodeFieldNoQuestionMark | lib/make-badge-url.js:6-8 | an encoded field never contains `?` |
| MakeBadgeUrl.StyleQuery | lib/make-badge-url.js:22-24 | the query string of the `style` key: empty when the style is undefined, otherwise `style=` and the strict encoding; its contract is carried by QuerySuffix and QuerySuffixPlainStyle |
| MakeBadgeUrl.StrictEncode | lib/make-badge-url.js:22-24 | the query-string library's strict encoding leaves none of `!'()*` unescaped |
| MakeBadgeUrl.QuerySuffix | lib/make-badge-url.js:22-25 | the suffix is empty exactly when no style is given (an empty style still gives `?style=`) |
| MakeBadgeUrl.QuerySuffixPlainStyle | lib/make-badge-url.js:22-25 | a style of letters, digits and `-` appears verbatim after `?style=` |
| MakeBadgeUrl.Truthy | lib/make-badge-url.js:18 | JavaScript truthiness of a string or `undefined`: present and not empty; the tests at lines 18 and 30 use it, and the contracts of StaticBadgeUrl and MakeFullPattern state it |
| MakeBadgeUrl.OrDefault | lib/make-badge-url.js:14-16 | a default parameter, which replaces `undefined` only; StaticBadgeUrlShape states the `lightgray` and `svg` defaults through it |
| MakeBadgeUrl.Join | lib/make-badge-url.js:21 | the array `join`; JoinThree states its result for the three fields |
| MakeBadgeUrl.EncodeFields | lib/make-badge-url.js:21 | mapping `encodeField` over the fields keeps their number and order |
| MakeBadgeUrl.JoinThree | lib/make-badge-url.js:21 | joining three parts puts the separator between each two of them |
| MakeBadgeUrl.StaticBadgeUrl | lib/make-badge-url.js:18-20 | the result is an error exactly when the label or the message is absent or empty |
| MakeBadgeUrl.StaticBadgeUrlShape | lib/make-badge-url.js:10-26 | the path is `/badge/`, the three encoded fields joined by `-`, `.`, the format, then the style suffix; color defaults to `lightgray` and format to `svg` |
| MakeBadgeUrl.StaticBadgeUrlNoStyle | lib/make-badge-url.js:22-26 | without a style the path ends with the format, and it contains `?` exactly when the format does |
| MakeBadgeUrl.StaticBadgeUrlIgnoresBaseUrl | lib/make-badge-url.js:10-11 | `baseUrl` has no effect on the path |
| MakeBadgeUrl.StaticBadgeUrlPlain | lib/make-badge-url.js:10-26 | fields that need no escaping appear verbatim, and the format defaults to `svg` |
| MakeBadgeUrl.StaticBadgeUrlExampleBuild | lib/make-badge-url.js:10-26 | label `build`, message `passing` and color `green` give `/badge/build-passing-green.svg` |
| MakeBadgeUrl.StaticBadgeUrlExampleMissing | lib/make-badge-url.js:18-20 | an empty label and an absent label are both an error |
| MakeBadgeUrl.SplitAtSeparator | lib/make-badge-url.js:21 | two ways of writing a string as an encoded field, a single `-` and a rest have the same field, when neither field ends in `-` and neither rest starts with `-` |
| MakeBadgeUrl.StaticBadgeUrlDeterminesFields | lib/make-badge-url.js:21 | when labels and messages neither start nor end with `-`, and colors do not start with `-`, equal paths have equal labels and messages |
| MakeBadgeUrl.StaticBadgeUrlEdgeHyphenAmbiguity | lib/make-badge-url.js:21 | a label ending in `-` plus some message gives the same path as the shorter label plus that message with a leading `-` |
| MakeBadgeUrl.MakeFullPattern | lib/make-badge-url.js:29-34 | with a truthy base the pattern is `/` base `/` pattern followed by the extension placeholder; otherwise it is `/` pattern followed by the placeholder |
| MakeBadgeUrl.MakeFullPatternBaseIsPrefix | lib/make-badge-url.js:29-34 | a base acts exactly like a leading `base/` segment of the pattern, and an empty base acts like no base |
| MakeBadgeUrl.MakeFullPatternDoubleSlash | lib/make-badge-url.js:30-33 | under a non-empty base, a pattern that starts with `/` gives `//` between the base and the rest of the pattern |
| MakeBadgeUrl.MakeFullPatternInjective | lib/make-badge-url.js:29-34 | for a given base, different patterns give different full patterns |
| MakeBadgeUrl.PathParams | lib/make-badge-url.js:42 | the substituted parameters are the named ones plus `ext`; a named `ext` overrides the `ext` argument, and every named value is kept |
| MakeBadgeUrl.MakeBadgeUrlFromPattern | lib/make-badge-url.js:36-43 | the compiler receives the full pattern and the parameters PathParams builds from the named ones and the `ext` argument (default `svg`): the named parameters unchanged when one is called `ext`, otherwise the named parameters plus `ext` set to the argument, or to `svg` when it is absent |

## Left out

- `pathToRegexp.compile` (lib/make-badge-url.js:38-41) is a foreign library. `MakeBadgeUrlFromPattern` takes it as a function parameter, so these are outside the model:
  - its tokenizer;
  - its encoding of parameter values;
  - its errors for a missing parameter or an `ext` outside `svg|png|gif|jpg|json`.
- MakeBadgeUrlFromPattern: the result is stated only in terms of the compiler parameter, so no concrete path is derived.
- StaticBadgeUrlDeterminesFields: also requires that neither color starts with `-`. The encoded color starts with an even run of `-`, so the color could be left unrestricted, but the proof splits at a separator followed by anything other than `-`.
- The `query-string` library is not part of this model. `StyleQuery` assumes its behaviour for one key whose value is a string or `undefined`:
  - `undefined` gives an empty string;
  - a string gives `style=` followed by the strict encoding, which is `encodeURIComponent` and then `%XX` for `!'()*`.

  Its handling of `null`, arrays and options is not modelled.
- The `URIError` that `encodeURIComponent` throws on a lone surrogate cannot arise: a Dafny `char` is a Unicode scalar value, so the model has no error path for it.
- Fields, base and pattern are strings or absent. JavaScript's coercion of other values is not modelled: a number has no `replace`. An `undefined` pattern also falls outside the model: without a truthy base it interpolates as the text `undefined`, and with one the `join` at line 31 turns it into an empty string, giving `/base/.:ext(…)`.
- The React components under `frontend/` are not part of this model. They render examples and markup.
- The code joins base and pattern with a single `/` (lib/make-badge-url.js:31). A pattern written with its own leading `/` therefore gives `//` after the base (MakeFullPatternDoubleSlash). The model follows the code. For base `npm`, the pattern `v/:packageName` gives `/npm/v/:packageName.:ext(svg|png|gif|jpg|json)`; the pattern `/v/:packageName` gives `/npm//v/:packageName.:ext(svg|png|gif|jpg|json)`.
