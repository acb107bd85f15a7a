# Character search and the Rng/Rand buddy traits of `ch_11.rs`

This project models the two parts of `src/ch_11.rs` that have behaviour.

- **`impl Pattern for char`.** `search` scans a `&str` with
  `char_indices().find(..).map(..)`. It returns the position where the first
  character equal to the pattern starts. Because `char_indices` yields byte
  positions, that position is a UTF-8 **byte offset**, not a character
  index.
  - A string is modelled as its sequence of Unicode scalar values (Dafny's
    `char`).
  - Its bytes are `Utf8.EncodeStr` of that sequence. The encoder follows the
    table in section 3 of RFC 3629: 1 to 4 bytes, depending on the code-point
    range.
  - `Utf8.DecodeAt` is a strict decoder for a single character. It gives a
    meaning to "the character whose encoding starts at byte offset p".
  - `Pattern.Search` is built like the Rust expression. `CharIndices` pairs
    each character with the offset where it starts. `Find` takes the first
    pair whose character is the pattern. `Option.Map` keeps that pair's
    offset.
  - `Search` is a Dafny function. It therefore depends only on its two
    arguments, returns equal results for equal inputs and changes neither
    input.
  - The position is a byte offset, not a character index.
    `SearchOffsetVersusIndex` states exactly when the two agree: when every
    earlier character is ASCII.
- **`Rng` and `Rand for bool`.** `Rng::next_32` takes `&mut self` and returns
  a `u32`. `<bool as Rand>::rand` calls it once and returns whether the value
  is even.
  - `Rand.Rng` is a class. Its field `source` is the implementation's state:
    `SomeRng` (always 99) or `Scripted`, a test source that replays a fixed
    list of values.
  - The ghost field `Drawn` records every value returned so far. This lets
    the contracts of `Next32` and `RandBool` state "exactly one value
    consumed" in the same way for every implementation.
  - The pure functions `Draws` and `RandBools` describe what repeated calls
    produce. The lemmas relate the two.

## Model

| member | source | states |
|---|---|---|
| `Utf8.Width` | src/ch_11.rs:101 | A character takes 1 to 4 bytes, and exactly 1 only when it is ASCII (RFC 3629, section 3). |
| `Utf8.Encode` | src/ch_11.rs:101 | A character's encoding has `Width(c)` bytes: one lead byte that announces that length, then continuation bytes. |
| `Utf8.DecodeEncode` | src/ch_11.rs:101-103 | Wherever a character's encoding sits in a byte string, decoding at its first byte gives back that character. |
| `Utf8.EncodedLength` | src/ch_11.rs:101 | A string's byte length (the sum of its characters' widths) is the length of its UTF-8 encoding. |
| `Utf8.ByteLenAtLeastLength` | src/ch_11.rs:101 | A string never has fewer bytes than characters. The two counts are equal exactly when every character is ASCII. |
| `Utf8.DecodeAtBoundary` | src/ch_11.rs:101 | Character i of a string decodes at byte offset `ByteLen(s[..i])`, and that offset lies inside the encoding. |
| `Utf8.DecodeInsideCharacter` | src/ch_11.rs:101 | A byte offset strictly inside one character's encoding does not start a character. |
| `Utf8.DecodeBefore` | src/ch_11.rs:101-102 | Any character that decodes at a byte offset before `ByteLen(s[..i])` is one of the first i characters. |
| `Options.Option.Map` | src/ch_11.rs:103 | `Option::map`: None stays None, and `Some(v)` becomes `Some(f(v))`. `SearchIsByteOffsetOfFirst` states its effect inside `search`: only the offset of the found pair is kept. |
| `Pattern.CharIndicesFrom` | src/ch_11.rs:101 | `char_indices` yields every character in order, each paired with the byte offset where its encoding starts. |
| `Pattern.CharIndices` | src/ch_11.rs:101 | `char_indices` over the whole string: one pair per character, in order, holding the character and its starting byte offset `ByteLen(s[..i])`. |
| `Pattern.Find` | src/ch_11.rs:102 | `find` returns None exactly when no element satisfies the predicate. Otherwise it returns an element of the sequence that satisfies it. |
| `Pattern.FindFirst` | src/ch_11.rs:102 | `find` returns the first element that satisfies the predicate. |
| `Pattern.Search` | src/ch_11.rs:99-104 | `search`: None exactly when the pattern does not occur; otherwise the starting byte offset of some occurrence. The full promise is in `SearchIsByteOffsetOfFirst` (first occurrence, byte length of the prefix), `SearchFindsPattern` (the pattern decodes there) and `SearchIsFirst` (nothing earlier matches). |
| `Pattern.IndexOf` | src/ch_11.rs:99-104 | Reference definition: the character index of the first occurrence. It is None exactly when the character is absent. |
| `Pattern.SearchIsByteOffsetOfFirst` | src/ch_11.rs:99-104 | `search` returns None when the pattern is absent. Otherwise it returns the byte length of everything before the first occurrence. |
| `Pattern.SearchEmpty` | src/ch_11.rs:99-104 | `search` on the empty string returns None. |
| `Pattern.SearchNoneIffAbsent` | src/ch_11.rs:101-103 | `search` returns None if and only if the pattern character does not occur in the string. |
| `Pattern.SearchFindsPattern` | src/ch_11.rs:100-103 | A returned offset is below the string's byte length, and the character whose encoding starts there is the pattern. |
| `Pattern.SearchIsFirst` | src/ch_11.rs:102 | No character whose encoding starts at a smaller byte offset equals the pattern. |
| `Pattern.SearchOffsetVersusIndex` | src/ch_11.rs:101-103 | The returned offset is never below the character index. It equals the index exactly when every earlier character is ASCII. |
| `Pattern.SearchPatternAtStart` | src/ch_11.rs:99-104 | For every non-empty string, searching for its first character gives offset 0. |
| `Pattern.SearchPatternOnlyAtEnd` | src/ch_11.rs:99-104 | When the pattern occurs only as the last character, `search` returns the byte length of everything before it. |
| `Pattern.SearchAsdfFirst` | src/ch_11.rs:99-104 | In "asdf asdf asdf", 'a' is found at offset 0. |
| `Pattern.SearchAsdfFourth` | src/ch_11.rs:99-104 | In "asdf asdf asdf", 'f' is found at offset 3, its first occurrence. |
| `Pattern.SearchAsdfAbsent` | src/ch_11.rs:99-104 | In "asdf asdf asdf", 'x' is not found. |
| `Pattern.SearchTwoByteExample` | src/ch_11.rs:101-103 | In "héllo", 'l' is found at byte offset 3, although it is character 2. |
| `Pattern.SearchFourByteExample` | src/ch_11.rs:101-103 | After a four-byte emoji, '!' is found at byte offset 4. |
| `Rand.Rng.constructor` | src/ch_11.rs:136 | A new source starts in the given state and has drawn nothing. |
| `Rand.Rng.Next32` | src/ch_11.rs:117-118 | `next_32` returns the state's next value, advances the state, and appends exactly that value to the draw history. |
| `Rand.RandBool` | src/ch_11.rs:143-146 | `bool::rand` consumes exactly one value from the source and returns true iff that value is even. It agrees with `RandBoolValue`. |
| `Rand.Source.Peek` | src/ch_11.rs:138-140 | The value the next `next_32` returns: 99 for `SomeRng`, the next scripted value for the test source. `SomeRngAlways99` and `ScriptedReplays` state what repeated calls give. |
| `Rand.Source.Step` | src/ch_11.rs:117-118 | The state after one `next_32`, which is again a valid state. `SomeRng` has no state to advance. The scripted source moves to its next value, wrapping around after the last one. |
| `Rand.IsEven` | src/ch_11.rs:145 | The `% 2 == 0` rule that turns one drawn `u32` into a `bool`. |
| `Rand.RandBoolValue` | src/ch_11.rs:143-146 | `bool::rand` on values: the parity of `Peek()`, together with the state after exactly one `Step()`. `RandBool` is proved equal to it, and `RandBoolsAreParities` states what n calls give. |
| `Rand.RandBoolsAreParities` | src/ch_11.rs:143-146 | Over n successive `bool::rand` calls, boolean i is the parity of value i drawn from the source. |
| `Rand.SomeRngAlways99` | src/ch_11.rs:136-141 | `SomeRng::next_32` returns 99 on every call. |
| `Rand.SomeRngAlwaysFalse` | src/ch_11.rs:138-145 | `bool::rand` driven by `SomeRng` is always false. |
| `Rand.ScriptedReplays` | src/ch_11.rs:117-118 | A scripted test source returns its remaining values in order, one per call. |
| `Rand.ScriptedExample` | src/ch_11.rs:143-146 | Source values 4, 7, 0, 1 give the booleans true, false, true, false. |
| `Rand.ScriptedScenario` | src/ch_11.rs:143-146 | Through the class: four `bool::rand` calls over 4, 7, 0, 1 give true, false, true, false. The next `next_32` restarts the script at 4. |
| `Rand.ConsumesOneValue` | src/ch_11.rs:143-146 | After one `bool::rand` over the script 4, 7, 0, the result is true and the next value drawn is 7. Two draws would leave 0 and three would leave 4. |
| `Rand.SomeRngScenario` | src/ch_11.rs:136-146 | `bool::rand` over a `SomeRng` returns false. |

## Left out

- `dump` (src/ch_11.rs:74-83): its only effect is `println!` output, which is I/O.
- `test_fqmc` (src/ch_11.rs:51-68):
  - it shows method-call syntax;
  - its work is done by library functions (`split_whitespace`, `to_string`);
  - it discards its result.
- `Spliceable` and `MegaSpliceable` for `CherryTree` and `Mammoth` (src/ch_11.rs:4-47): the bodies ignore their inputs and build empty structs. What they show is typing (`Self` versus `Box<dyn ...>`), not behaviour.
- Trait dispatch itself is not modelled. The `Pattern` trait has one implementation, for `char`, and it is `Pattern.Search`. The `Rng` trait's implementations form a closed datatype, `Rand.Source`, inside one class. The single `Rand` implementation, for `bool`, is `Rand.RandBool`. The `Sized` bound and `Box` allocation are compile-time rules.
- `Pattern.Search` returns an unbounded `nat`, not a `usize`. The offset is below the string's byte length, which Rust already bounds, so it never wraps.
- The model builds the whole `char_indices` sequence. Rust's iterators are lazy and stop at the first hit. The result is the same; the cost is not modelled.
- No pseudo-random algorithm is modelled, because the source has none (`SomeRng` is a constant stub).
- The `Scripted` source is a test double and does not appear in the source. Once it has returned all its values it starts again from the first one, so `next_32` stays total as Rust's signature requires. It does not report exhaustion.
