# filego `split`, modelled in Dafny

This project models the in-memory splitter of filego (`split` in
`packages/ts/src/base/split.ts`). `split` takes a file, a chunk size and an
optional custom split function. It returns the file's chunks, the file size and
the chunk count. The model covers four parts:

- argument validation, in source order;
- the custom-strategy short cut;
- dispatch on the kind of `file`: a Uint8Array, a Blob or File, a `data:` string
  whose payload is Base64-decoded, or anything else;
- the default chunk loop.

`split` is modelled as a pure function. Thrown `TypeError`s become `Err` values
that carry the source's messages word for word.

Modules:

- `Results` (`results.dfy`): `Result` and `Option`.
- `JsString` (`js_string.dfy`): the string built-ins `split` calls. These are
  `trim` (with the ECMAScript white-space set), `indexOf` and `startsWith`.
- `Chunking` (`chunking.dfy`):
  - the `Chunk` and `SplitResult` records;
  - `CeilDiv`, the ceiling of `fileSize / chunkSize`;
  - the default chunk loop `DefaultSplit`;
  - `Flatten`, which appends chunks in list order as a later merge does; that is
    index order for a split whose indices run 0, 1, 2, …;
  - `IsPartition`, the layout every split must have.
- `Splitter` (`split.dfy`):
  - the input union `FileInput`: `Bytes`, `BlobV`, `Str`, `Other(truthy)`;
  - the `splitFunction` argument: `Absent`, `Function(run)`, `NotAFunction`;
  - data-URI payload extraction and the byte conversion of `atob`'s result;
  - `Split` itself.

The Base64 decoder `atob` is a parameter `string -> Option<string>`. `None`
stands for the `InvalidCharacterError` it throws. The custom strategy is a
function-valued field of `SplitFunction.Function`.

Main results:

- The default chunks, appended in index order, give back the source bytes
  (`Chunking.DefaultSplitRoundTrip`, `Splitter.SplitRoundTrip`). This holds for byte
  arrays, blobs and data URIs alike (`Splitter.InputKindsRoundTrip`).
- Chunk `i` covers exactly bytes `[i*k, min(i*k + k, fileSize))`.
- `totalChunks` is the ceiling of `fileSize / chunkSize`. Every chunk but the last is
  full, the last is non-empty, and the lengths sum to `fileSize`.
- The default split is the only value with that layout (`Chunking.PartitionIsDefault`).

Behaviour of `split` worth noting:

- A `data:` string without a comma is not rejected by the prefix check. The comma
  search returns -1, so the whole string, `data:` included, goes to `atob`. `:` is
  not a Base64 character, so `atob` throws `InvalidCharacterError` for every such
  string (`Splitter.CommaLessDataUriRejected`, given a decoder that rejects `:`).
- Every validation failure is a `TypeError`; only the message tells them apart.
- A falsy `file` is rejected before `chunkSize` is checked. A truthy value of an
  unknown kind is rejected only on the default path, after the custom strategy
  has been ruled out. With a custom strategy, that value reaches the strategy.
- A custom strategy's result is not checked against the split layout.
  `PartitionIsDefault` shows that any result meeting the layout equals the
  default split.

## Model

| member | source | states |
|---|---|---|
| JsString.TrimStart | packages/ts/src/base/split.ts:49 | the result is a suffix of the input, everything dropped is white space, and the result does not start with white space |
| JsString.TrimEnd | packages/ts/src/base/split.ts:49 | the result is a prefix of the input, everything dropped is white space, and the result does not end with white space |
| JsString.Trim | packages/ts/src/base/split.ts:49 | `trim` yields `""` if and only if every character is white space; otherwise the result starts and ends with a non-white-space character |
| JsString.IndexOf | packages/ts/src/base/split.ts:72 | the result is -1 exactly when the character is absent; otherwise it is the position of its first occurrence |
| JsString.StartsWith | packages/ts/src/base/split.ts:70 | true exactly when the string is at least as long as the prefix and agrees with it character by character |
| Splitter.RejectedFile | packages/ts/src/base/split.ts:49 | the first check rejects exactly the blank strings (the empty one included) and the falsy values of other kinds |
| Splitter.DataUriPayload | packages/ts/src/base/split.ts:71-73 | the payload is a suffix of the string: the whole string when there is no comma, else the text after the first comma |
| Splitter.PayloadAfterFirstComma | packages/ts/src/base/split.ts:72 | for a comma-free head, the payload of `head,body` is exactly `body`, commas inside `body` included |
| Splitter.CharCodeBytes | packages/ts/src/base/split.ts:74-80 | one byte per decoded character; for a binary string, as `atob` returns, the bytes spell that string back, so no character is lost |
| Splitter.BytesRoundTrip | packages/ts/src/base/split.ts:74-80 | converting bytes to a binary string and back yields the same bytes |
| Splitter.SourceBytes | packages/ts/src/base/split.ts:65-96 | bytes and blobs are used as they are; a `data:` string succeeds if and only if `atob` accepts its payload; any other string or kind fails with the source's message |
| Splitter.DataUriSource | packages/ts/src/base/split.ts:68-80 | a data URI whose payload decodes to the binary string of `b` yields exactly the bytes `b` |
| Splitter.CommaLessDataUriRejected | packages/ts/src/base/split.ts:70-73 | a `data:` string without a comma is decoded whole, so a decoder that rejects `:` makes `split` fail with `InvalidCharacterError` |
| Splitter.Split | packages/ts/src/base/split.ts:46-111 | a rejected `file` fails with the file message whatever else is wrong; `chunkSize <= 0` always fails; a custom strategy's result comes back unchanged; a default success is a valid layout of the source bytes |
| Splitter.ValidationOrder | packages/ts/src/base/split.ts:49-59 | the `file` check precedes the `chunkSize` check, which precedes the `splitFunction` check; each failure carries its own message |
| Splitter.BlankStringRejected | packages/ts/src/base/split.ts:49-51 | an empty or all-white-space string is rejected with the file message for any chunk size and strategy |
| Splitter.CustomStrategyShortCut | packages/ts/src/base/split.ts:57-63 | once validation passes, `split` with a custom strategy returns that strategy's result or error unchanged for every input kind |
| Splitter.DefaultRejectsNonDataString | packages/ts/src/base/split.ts:68-96 | without a strategy, a non-blank string without the `data:` prefix, or a truthy unknown value, is rejected |
| Splitter.DefaultSplitOutcome | packages/ts/src/base/split.ts:63-111 | without a strategy, `split` succeeds if and only if validation passes and the source bytes are obtained, and then returns their default split |
| Splitter.SplitRoundTrip | packages/ts/src/base/split.ts:98-111 | after a default success, the chunks appended in order equal the source bytes, `totalChunks` is the ceiling of `fileSize / chunkSize`, and the lengths sum to `fileSize` |
| Splitter.InputKindsRoundTrip | packages/ts/src/base/split.ts:65-105 | a byte array, a blob and a data URI carrying `b` all split successfully, and their chunks merge back to `b` |
| Chunking.CeilDiv | packages/ts/src/base/split.ts:98 | the count `c` satisfies `(c - 1) * k < n <= c * k`, and is 0 exactly for an empty source |
| Chunking.CeilDivUnique | packages/ts/src/base/split.ts:98 | no other count meets those bounds |
| Chunking.IndexInRange | packages/ts/src/base/split.ts:101-103 | every loop offset lies inside the source, and every chunk but the last ends before the source does |
| Chunking.ChunkAt | packages/ts/src/base/split.ts:102-104 | chunk `i` has index `i` and at most `k` bytes; it is non-empty exactly when its offset `i*k` lies inside the source, and then it covers `[i*k, min(i*k + k, n))` |
| Chunking.DefaultSplit | packages/ts/src/base/split.ts:98-111 | `fileSize` is the source length; `totalChunks` is the chunk count and the ceiling: `(totalChunks - 1) * k < fileSize <= totalChunks * k`, and 0 exactly for an empty source |
| Chunking.DefaultChunkBounds | packages/ts/src/base/split.ts:101-105 | chunk `i` has index `i` and covers exactly `[i*k, min(i*k + k, fileSize))`; it is non-empty, and full unless it is the last |
| Chunking.SuffixFlatten | packages/ts/src/base/split.ts:101-105 | the chunks from index `i` on reassemble the source from offset `i*k` on |
| Chunking.DefaultSplitRoundTrip | packages/ts/src/base/split.ts:98-111 | the default chunks appended in index order equal the source |
| Chunking.DefaultSplitIsPartition | packages/ts/src/base/split.ts:98-111 | the default split has contiguous indices from 0, full chunks but the last, a non-empty last chunk and a lossless concatenation |
| Chunking.PartitionSizes | packages/ts/src/base/split.ts:98-111 | in any such layout, `totalChunks` is the ceiling, the lengths sum to `fileSize`, the last chunk holds `fileSize - k*(totalChunks - 1)` bytes, and an empty source has no chunks |
| Chunking.PartitionChunk | packages/ts/src/base/split.ts:101-105 | in any such layout, chunk `i` covers `[i*k, min(i*k + k, fileSize))` |
| Chunking.PartitionIsDefault | packages/ts/src/base/split.ts:98-111 | any result with that layout equals the default split, so the layout determines the result |
| Chunking.SmallSource | packages/ts/src/base/split.ts:98-105 | a source of at most one chunk size gives one chunk holding all of it, or no chunk when empty |
| Chunking.ExactMultiple | packages/ts/src/base/split.ts:98-105 | a source of exactly `m` chunk sizes gives `m` full chunks |
| Chunking.FixtureCounts | tests/node/src/configs/base.ts:13-22 | the in-memory split applied to the fixture sizes with their 1 MiB chunk size: 0 bytes give no chunks, at most 1 MiB gives one chunk holding the file, and 2 MiB and 4 MiB give 2 and 4 full chunks |

## Left out

- Node's filesystem `split`, `check` and `merge`: they belong to the Node package
  and do directory and file I/O; only the in-memory `split` is modelled. The
  "missing" and "size" results of `check` are not modelled. `Flatten` stands for
  what `merge` does with the chunks.
- The `async`/`Promise` wrapping: `split` is a pure function here.
- Lazy `Blob.slice` views: a chunk holds the bytes its view covers.
- `atob` internals: a parameter rather than a Base64 decoder.
- `atob` is not constrained to reject non-Base64 characters; only
  `Splitter.CommaLessDataUriRejected` assumes that it rejects `:`. Elsewhere a
  decoder that accepts anything is allowed.
- The `Blob` and `Uint8Array` constructors: a blob is its bytes, and a Uint8Array
  view is the bytes it shows.
- `File` is not distinguished from `Blob`, since a `File` is a `Blob`.
- The `typeof chunkSize !== "number"` test: `chunkSize` is an integer in the model.
- Non-integer, NaN and infinite chunk sizes: left out.
- The floating-point division under `Math.ceil`: computed on integers. That is
  exact for sizes below 2^53.
- UTF-16 code units: JavaScript strings are made of them, but Dafny characters are
  Unicode scalar values, so lone surrogates cannot appear in a modelled string.
  Only white space and character codes below 256 matter to `split`.
- `Other(truthy)` stands for every value that is not a string, a Uint8Array or a
  Blob. Only its truthiness affects what `split` itself does. A custom strategy is
  handed `Other(true)`, so the model cannot express a strategy whose result
  depends on the value itself.
- A custom strategy receives the `file` as modelled and the original `chunkSize`.
  Its result is not validated, because the source does not validate it.
