# mininip error reporting: the position-marking contract

This project models the error-reporting core of the mininip INI parser
(`src/errors/mod.rs`). It covers the six syntax-error kinds, their checked
constructors, their renderings, the unified `Error` that wraps them, and the
position resolver `nth_char`. The resolver turns a byte offset into the
character whose UTF-8 encoding starts there.

A line is modelled as its sequence of Unicode scalar values (`string`). Byte
offsets come from the per-character encoded length `Utf8Len` (1 to 4 bytes):
character `k` starts at `Offset(s, k)`, the sum of the lengths before it, which is
the `n` that `char_indices` yields. `Utf8Len` is `char::len_utf8`. `ByteLen`,
the sum of `Utf8Len` over the line, is `str::len`.

The Rust code panics in two places: failed checks (`assert!`, `assert_eq!`,
`panic!`), and byte slices
(`&line[..index]`) that do not fall on a character boundary. Each panic is
modelled as a value:
- `nth_char` returns `Outcome.Panicked(site)`, and `site` names which of its
  three checks fired;
- constructors return `Option.None`;
- byte slicing (`Utf8.SliceTo`, `Utf8.SliceFrom`) returns `None`.

A rendering is a pure function from a kind to its text. The renderings of
the four index-based kinds (`ExpectedIdentifier`, `ExpectedToken`,
`ExpectedEscape`, `UnexpectedToken`) require the kind's `Valid` invariant;
the two substring renderings (`InvalidEscape`, `InvalidIdentifier`) and the
as-written renderings have no precondition. The Rust fields are private, so the
constructors are the only way to build a kind. For `ExpectedEscape`,
`UnexpectedToken`, `InvalidEscape` and `InvalidIdentifier`, the source
constructor establishes `Valid`. For `ExpectedIdentifier` and `ExpectedToken`,
`Valid` is the corrected invariant: `index` is a character start. The source
constructors of these two check only `index < line.len()`. On the values they
build, `Valid` holds exactly when the source rendering does not panic
(`ErrorKinds.ExpectedIdentifierAsWrittenRenders`,
`ErrorKinds.ExpectedTokenAsWrittenRenders`). The corrected renderings, and
`Errors.Display`, require the corrected invariant; see Findings.

Modules, one per component:
- `Utf8`: byte geometry, boundaries, Rust string slicing;
- `Position`: `nth_char`;
- `Search`: `str::find`;
- `ErrorKinds`: the six kinds;
- `Errors`: the unified `Error`;
- `Wrappers`: `Option`.

## Model

| member | source | states |
|---|---|---|
| Position.NthChar | src/errors/mod.rs:262-282 | Returns a character exactly when `index` is a character start. The character returned is the one starting at `index`, and its encoding ends within the string. It panics at the length assertion exactly when `index >= len`. It panics in the loop exactly when `index` is inside a character that is not the last one. It panics at the closing `assert_eq!` exactly when `index` is inside the last character. |
| Position.FinalAssertionNeeded | src/errors/mod.rs:274-279 | The closing `assert_eq!` is the only check that catches an offset inside the last character. In "aé", byte 2 is inside the last character, so only the closing assertion can reject it. In "éa", byte 1 is inside an earlier character, so the in-loop panic fires. |
| Position.Exclusive | src/errors/mod.rs:268-279 | An offset is in at most one place: a character start, inside an earlier character, or inside the last character. Each of these places lies below the byte length. |
| Utf8.Utf8Len | src/errors/mod.rs:124 | `char::len_utf8`: every character encodes in 1 to 4 bytes. The body uses the UTF-8 thresholds U+0080, U+0800 and U+10000. |
| Utf8.CharIndexAt | src/errors/mod.rs:268-273 | Returns the character position whose `char_indices` start offset equals the byte offset. Returns `None` exactly when no position (the end included) has that offset. |
| Utf8.SliceTo | src/errors/mod.rs:46 | `&s[..i]` succeeds exactly at a character boundary. It yields a prefix of `s` whose encoding is `i` bytes long. |
| Utf8.SliceFrom | src/errors/mod.rs:46 | `&s[i..]` succeeds exactly at a character boundary. It yields a suffix of `s` whose encoding is the last `len - i` bytes. |
| Utf8.SlicesAt | src/errors/mod.rs:46 | At byte offset `i` = start of character `k`, the byte slices equal `s[..k]` and `s[k..]`, and the two concatenate back to `s`. |
| Utf8.CharStartIsInnerBoundary | src/errors/mod.rs:263 | An offset is a character start exactly when it is a boundary below the byte length. |
| Utf8.OffsetInjective | src/errors/mod.rs:268-273 | Two character positions with the same start offset are the same position. So the scan's first match is its only match. |
| Search.Find | src/errors/mod.rs:211 | Finds a match exactly when the pattern occurs in the line. The position it returns is a match, and no match occurs earlier. |
| ErrorKinds.NewExpectedIdentifierAsWritten | src/errors/mod.rs:60-67 | Succeeds exactly when `index < line.len()`, keeping `line` and `index`. |
| ErrorKinds.DisplayExpectedIdentifierAsWritten | src/errors/mod.rs:44-48 | The source rendering succeeds exactly when `index` is a character boundary of the line. |
| ErrorKinds.ExpectedIdentifierAsWrittenRenders | src/errors/mod.rs:44-67 | For every value the source constructor builds, the source rendering succeeds exactly when `index` is a character start, which is exactly when `Valid` holds. |
| ErrorKinds.ExpectedIdentifierAcceptsSplitCharacter | src/errors/mod.rs:46 | For line "é" and index 1, the constructor succeeds and the rendering panics. |
| ErrorKinds.NewExpectedIdentifier | src/errors/mod.rs:60-67 | Corrected constructor. It succeeds exactly when `index` is a character start, and the value it returns satisfies the invariant. |
| ErrorKinds.DisplayExpectedIdentifier | src/errors/mod.rs:44-48 | For the character `k` that starts at byte `index`, the text is `Expected identifier ` + `line[..k]` + `{here}` + `line[k..]`. |
| ErrorKinds.ExpectedIdentifierDisplayNeverPanics | src/errors/mod.rs:46 | On any valid value, the source rendering does not panic and equals the model's rendering. |
| ErrorKinds.NewExpectedTokenAsWritten | src/errors/mod.rs:97-105 | Succeeds exactly when `index < line.len()`. It keeps `line`, `index` and `tokens` unchanged. |
| ErrorKinds.DisplayExpectedTokenAsWritten | src/errors/mod.rs:79-83 | The source rendering succeeds exactly when `index` is a character boundary. |
| ErrorKinds.ExpectedTokenAsWrittenRenders | src/errors/mod.rs:79-105 | For every value the source constructor builds, the source rendering succeeds exactly when `index` is a character start, which is exactly when `Valid` holds. |
| ErrorKinds.ExpectedTokenAcceptsSplitCharacter | src/errors/mod.rs:81 | For line "é" and index 1, the constructor succeeds and the rendering panics. |
| ErrorKinds.NewExpectedToken | src/errors/mod.rs:97-105 | Corrected constructor. It succeeds exactly at a character start, and its result satisfies the invariant. |
| ErrorKinds.DisplayExpectedToken | src/errors/mod.rs:79-83 | The text is `Expected ` + `tokens` (copied verbatim) + ` ` + `line[..k]` + `{here}` + `line[k..]`, where character `k` starts at byte `index`. |
| ErrorKinds.ExpectedTokenDisplayNeverPanics | src/errors/mod.rs:81 | On any valid value, the source rendering does not panic and equals the model's rendering. |
| ErrorKinds.ExpectedTokenExample | src/errors/mod.rs:79-83 | Line "let x = 5", index 4 and tokens "'='" render as `Expected '=' let {here}x = 5`. |
| ErrorKinds.NewExpectedEscape | src/errors/mod.rs:140-147 | Succeeds exactly when `nth_char(line, index)` does. The stored token is the character starting at `index`, and `line`, `index` and `replace` are kept unchanged. |
| ErrorKinds.AfterTokenIsBoundary | src/errors/mod.rs:124 | `index + token.len_utf8()` is a character boundary, so the suffix slice cannot panic. |
| ErrorKinds.DisplayExpectedEscape | src/errors/mod.rs:118-126 | The text is `Expected escape sequence ` + `replace` + ` instead of ` + `token` + ` in ` + `line[..k]` + `{here}` + `line[k+1..]`. The marker replaces exactly the token's bytes: `line[..k] + [token] + line[k+1..]` is the line. |
| ErrorKinds.NewUnexpectedToken | src/errors/mod.rs:177-183 | Succeeds exactly when `nth_char(line, index)` does, and stores the character starting at `index`. |
| ErrorKinds.DisplayUnexpectedToken | src/errors/mod.rs:159-165 | The text is `Unexpected token ` + the character at `index` + ` ` + `line[..k]` + `{here}`, and it ends with the marker. |
| ErrorKinds.UnexpectedTokenExample | src/errors/mod.rs:159-183 | Line "foo#bar" at index 3 is built and renders as `Unexpected token # foo{here}`. |
| ErrorKinds.NewInvalidEscape | src/errors/mod.rs:210-217 | Succeeds exactly when `escape` occurs in `line`. |
| ErrorKinds.DisplayInvalidEscape | src/errors/mod.rs:194-198 | The text is `Invalid escape sequence <escape> in <line>`: `escape` and `line` sit at positions fixed by `|escape|`. |
| ErrorKinds.NewInvalidIdentifier | src/errors/mod.rs:246-254 | Succeeds exactly when `identifier` occurs in `line` and the identifier rule rejects it. |
| ErrorKinds.DisplayInvalidIdentifier | src/errors/mod.rs:228-232 | The text is `Invalid identifier <ident> in <line>`: `ident` and `line` sit at positions fixed by `|ident|`. |
| Errors.Display | src/errors/mod.rs:18-29 | For each of the six variants, the rendering is the wrapped kind's rendering and adds nothing. |

## Left out

- `impl error::Error` and `#[derive(Debug)]`: trait boilerplate with no behaviour.
- `fmt::Formatter` and `write!`: each `Display` is a pure function that returns the text it would write. Rendering twice gives the same text because functions are deterministic.
- `crate::datas::Identifier::is_valid` is not part of this model. `NewInvalidIdentifier` takes it as the parameter `isValid`, and `InvalidIdentifier.Valid` leaves it out because no rendering depends on it.
- Panic messages: the model records that a panic happens, and for `nth_char` which check fires, but not the message text.
- Byte-level UTF-8 decoding and validation: Rust strings are always valid UTF-8, so only the encoded length of each scalar value is modelled.
- `Search.Find` counts its result in characters, while `str::find` counts in bytes. Only `is_some()` is used, and for valid UTF-8 both searches agree on whether a match exists.
- `usize` width: offsets are unbounded `nat`s. No overflow is possible here: the one addition, `index + token.len_utf8()`, is bounded by the line's byte length.
- The `tests` submodule (line 286) is not part of this model.
- `ExpectedIdentifier::new` and `ExpectedToken::new` accept an offset inside a multi-byte character. The renderings of these two kinds are modelled only for values that satisfy the corrected invariant; the as-written renderings are modelled separately (see Findings).

## Findings

| source | as written | input that shows it | evidently intended | confidence | as-written member | corrected member |
|---|---|---|---|---|---|---|
| src/errors/mod.rs:60-61 | `ExpectedIdentifier::new` checks only `index < line.len()`, while its `Display` slices `&line[..index]` | `ExpectedIdentifier::new("é".to_string(), 1)` succeeds. Rendering it panics because byte 1 is not a character boundary. | the constructor also rejects offsets that are not character boundaries, so every constructed value can be rendered | medium, not executed | ErrorKinds.ExpectedIdentifierAcceptsSplitCharacter, ErrorKinds.ExpectedIdentifierAsWrittenRenders | ErrorKinds.NewExpectedIdentifier, ErrorKinds.ExpectedIdentifierDisplayNeverPanics |
| src/errors/mod.rs:97-98 | `ExpectedToken::new` checks only `index < line.len()`, while its `Display` slices `&line[..index]` | `ExpectedToken::new("é".to_string(), 1, "'='".to_string())` succeeds, and rendering it panics | the constructor also rejects offsets that are not character boundaries | medium, not executed | ErrorKinds.ExpectedTokenAcceptsSplitCharacter, ErrorKinds.ExpectedTokenAsWrittenRenders | ErrorKinds.NewExpectedToken, ErrorKinds.ExpectedTokenDisplayNeverPanics |
