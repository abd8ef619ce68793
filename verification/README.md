# Resumable chunked file upload — a Dafny model

The system uploads large files in chunks. It has two parts, and both are modelled here.

The browser runs a web worker that computes an MD5 fingerprint of the file. The worker reads the chunks one after another and feeds them to an incremental hasher. It posts progress messages, and then one message with the digest.

The Node server does three things:

- It stores every chunk it receives under `target/chunkDir_<fileHash>/<chunkHash>`.
- It answers `/verify`. Either the merged file `<fileHash><ext>` already exists, or it lists the chunks already stored.
- On `/merge` it sorts the stored chunk names by the index after their `-`. It writes the chunk at position k of that order into the merged file, starting at byte `k * chunkSize`, deleting each chunk as it is copied. Finally it removes the chunk directory.

Modules:

- `JsText` (`js_text.dfy`) covers the JavaScript string operations the code relies on:
  - `lastIndexOf` and `slice` with its negative positions;
  - `split("-")[1]`;
  - `Number` on decimal text, and `String(n)`.
- `ByteFile` (`byte_file.dfy`) covers byte strings and the positional write of a write stream opened at `start`. A gap past the end of the file reads back as zero bytes.
- `ChunkOrder` (`chunk_order.dfy`) holds:
  - the chunk names and their numeric key;
  - the sort of the merge step;
  - the assembly of the merged file as a sequence of positional writes;
  - the theorems about assembly: the write ranges are disjoint, every chunk lands at its offset, and a complete set of full-size chunks rebuilds the original bytes.
- `UploadServer` (`upload_server.dfy`) covers `extractExt` and the final-file name. It also has the class `UploadDir`, whose two maps stand for the `target/` directory:
  - chunk directories: name → (chunk name → bytes);
  - merged files: name → bytes.

  The request handlers are methods that update those maps.
- `HashWorker` (`hash_worker.dfy`) covers the worker's `onmessage` handler. The handler is a loop, and it records its reads, appends, posted messages and close as a trace of events. The trace is specified by a function, and the properties of the worker are lemmas about that function.

Two behaviours of the code are worth stating plainly:

- `ChunkIndex` reads the field after the *first* `-`, as `name.split("-")[1]` does. `ChunkIndexOfName` shows that this is the chunk's index whenever the fingerprint has no `-`, which covers every MD5 hex digest.
- A second `/merge` of a file that is already merged finds no `chunkDir_<fileHash>`, because the first merge removed it. So `fse.readdir` rejects, and `MergeFileChunk` returns `NoChunkDir` with nothing changed.

## Model

| member | source | states |
|---|---|---|
| JsText.LastIndexOf | server/index.ts:75 | `lastIndexOf` is -1 exactly when the character is absent. Otherwise it is a position holding the character, with no occurrence after it. |
| JsText.DecimalNumber | server/index.ts:107 | On a field made only of decimal digits, `Number` is its value; on every other field the result is `None`, meaning the model does not read that field. |
| JsText.DecimalRoundTrip | server/index.ts:107 | Reading back the decimal text of any index gives that index. |
| UploadServer.ExtractExt | server/index.ts:74-75 | The extension is a suffix of the name. With a `.` in the name it starts at the last `.` and holds no other `.`. Without one it is the last character, or empty for an empty name. |
| UploadServer.ReadDir | server/index.ts:105 | `readdir` lists every entry of the directory once and lists nothing else. |
| UploadServer.FirstUnindexed | server/index.ts:107 | Finds a name whose key is not all decimal digits, if there is one. It finds none exactly when every name's key is all decimal digits. |
| UploadServer.RemovedKeeps | server/index.ts:131 | Deleting the listed chunks one by one leaves exactly the unlisted ones, with their bytes unchanged. |
| UploadServer.RemovedStep | server/index.ts:131 | Deleting one more listed chunk removes exactly that name from what is left. |
| UploadServer.UploadDir.StoreChunk | server/index.ts:29-35 | Creates `chunkDir_<fileHash>` if it is absent and stores the chunk under `chunkHash`. A name that is already taken makes the move fail with nothing changed. Other chunks, other directories and the merged files are unchanged. |
| UploadServer.UploadDir.CreateUploadedList | server/index.ts:64-67 | Returns a listing of the chunk directory, or `[]` when it does not exist. |
| UploadServer.UploadDir.Verify | server/index.ts:46-60 | Returns `shouldUpload: false` exactly when `<fileHash><ext>` exists. Otherwise it returns a listing of the stored chunks, or `[]` without a chunk directory. |
| UploadServer.UploadDir.PipeStream | server/index.ts:127-136 | Writes the chunk's bytes into the file from `start` on and deletes the chunk. Nothing else changes. |
| UploadServer.UploadDir.WriteChunks | server/index.ts:109-116 | Copies the chunk at position k to byte `k * chunkSize`. The file becomes the assembly of the listed chunks and the listed chunks are deleted. An empty list creates no file. |
| UploadServer.UploadDir.MergeFileChunk | server/index.ts:99-119 | Without a chunk directory, fails and changes nothing. Otherwise it merges whenever every name has an index. The order it uses is a sorted listing of the directory. The file is the assembly of the chunks in that order. The directory is removed and no other directory changes. |
| UploadServer.UploadDir.Merge | server/index.ts:40-45 | Same as `MergeFileChunk`, into `<fileHash><extractExt(filename)>`. |
| UploadServer.UploadDir.MergeThenVerify | server/index.ts:40-60 | Merging a complete upload of full-size chunks yields the original bytes under `<fileHash><ext>`. A following `/verify` reports nothing to upload, because it uses the same name, and a listing returns `[]`. |
| ChunkOrder.ChunkIndexOfName | server/index.ts:107 | `Number(name.split("-")[1])` of chunk name `<fileHash>-<index>` is `index` when the fingerprint has no `-`. |
| ChunkOrder.ChunkNameInjective | server/index.ts:107 | Distinct indices give distinct chunk names. |
| ChunkOrder.InsertBy | server/index.ts:107 | Inserting one name into a list sorted by a key keeps it sorted and adds exactly that name. |
| ChunkOrder.SortBy | server/index.ts:107 | Sorting by a key returns a permutation of the names in ascending key order. |
| ChunkOrder.SortByIndex | server/index.ts:107 | The sort returns the same names (a permutation), ascending by numeric index. |
| ChunkOrder.NumericNotLexical | server/index.ts:107 | `h-2, h-10, h-1` sorts as `h-1, h-2, h-10`: numerically, not as text. |
| ChunkOrder.SortedListing | server/index.ts:105-107 | The sorted listing is still a listing of the directory. |
| ChunkOrder.OffsetIsProduct | server/index.ts:113 | The start of position k is `k * chunkSize`. |
| ChunkOrder.AssembleStep | server/index.ts:110-113 | Copying one more chunk adds one positional write at the next offset. |
| ChunkOrder.WrittenRangesDisjoint | server/index.ts:110-113 | For chunks no longer than `chunkSize`, an earlier position's byte range ends before any later position's range starts. |
| ChunkOrder.AssembleKeepsEveryChunk | server/index.ts:109-116 | For chunks no longer than `chunkSize`, the merged file holds every chunk at `k * chunkSize`, whatever was written after it. |
| ChunkOrder.AssembleFullChunks | server/index.ts:109-116 | When all chunks but the last are exactly `chunkSize` long, the merged file is the chunks concatenated. |
| ChunkOrder.MissingIndexShiftsLater | server/index.ts:109-116 | With full-size chunks 0, 1 and 3 present and chunk 2 missing, chunk 3 is written at `2 * chunkSize`. The file is the three chunks end to end, `2 * chunkSize` bytes plus the length of chunk 3, with no gap. |
| ChunkOrder.KeysCoverPositions | server/index.ts:105-107 | A list sorted by a key, whose keys are distinct and are exactly `0..n-1`, has length n and the key k at position k. |
| ChunkOrder.CompleteListingInOrder | server/index.ts:105-107 | The sorted listing of a complete chunk set `0..n-1` has chunk k at position k. |
| ChunkOrder.CompleteMergeRebuildsFile | server/index.ts:104-116 | Merging a complete set of full-size chunks rebuilds the original bytes. |
| ByteFile.WriteAt | server/index.ts:113 | A write at `start` replaces exactly the written range. It keeps the rest and zero-fills a gap past the old end. |
| ByteFile.WriteAtHolds | server/index.ts:134 | After a write, the written bytes read back at their offset. |
| ByteFile.WriteAtKeepsEarlier | server/index.ts:113 | A write leaves alone what lies entirely before its range. |
| ByteFile.WriteAtEnd | server/index.ts:113 | A write at the end of a file appends. |
| HashWorker.OnMessage | client/public/hash.js:3-42 | The handler's run is the worker trace for a non-empty list. With an empty list it throws and does nothing. |
| HashWorker.TraceShape | client/public/hash.js:12-41 | For each chunk in turn, the run reads it, appends it and posts a message, and then it closes. |
| HashWorker.ReadsOfPrefix | client/public/hash.js:12-36 | The first k loads read chunks `0..k-1` in index order, each once. |
| HashWorker.AppendsOfPrefix | client/public/hash.js:17-20 | The first k loads feed the hasher chunks `0..k-1` in order. After the load of chunk i, `count` is i + 1. |
| HashWorker.PostedOfPrefix | client/public/hash.js:22-36 | The first k loads post one message each, in load order. |
| HashWorker.ReadAfterLoad | client/public/hash.js:17-36 | Read k+1 starts only after the load handler of read k has appended a chunk, with `count` then k+1, and has posted its message. |
| HashWorker.PostedMessages | client/public/hash.js:22-34 | Exactly n messages are posted. The first n−1 are progress-only, the k-th at `k * (100 / n)`. The last carries `precentage: 100` and the digest of all chunks in order. No other message carries a digest. |
| HashWorker.NothingAfterClose | client/public/hash.js:22-28 | The final message is followed by the close, and nothing follows the close. |
| HashWorker.PercentIsProduct | client/public/hash.js:30 | After k additions of `100 / n`, `precentage` is `k * (100 / n)`. |
| HashWorker.ProgressBelowHundred | client/public/hash.js:30 | Progress stays below 100 before the last chunk and grows with every chunk. |

## Left out

- HTTP handling is not modelled: the CORS headers, `OPTIONS`, routing on `req.url` and `server.listen`. The handlers take their parsed fields as parameters.
- Parsing is not modelled: `multiparty`'s form parsing, its error branch, and `resolvePost`'s JSON decoding. A non-numeric `chunkSize` in the JSON is out of scope; it is a `nat` here.
- Concurrency is not modelled: the `Promise.all` of the write streams, the interleaving of chunk uploads, and concurrent merges. The copies happen one after another in list order. Each write stream is opened with flag `w` and truncates the file. This is modelled as one truncation before all writes, assuming every open happens before any write.
- The uploaded chunk's temporary file, and failures of `mkdirs`, `readdir`, streams, `unlinkSync` and `rmdirSync`, are not modelled. The model's only failures are:
  - the destination of `fse.move` already existing. Its default is not to overwrite, so this is a failure with nothing changed;
  - `readdir` of a missing chunk directory.
- The responses are only partly modelled. A failed `fse.move` (inside the `multiparty` callback) or `readdir` (inside the async `request` listener) is a rejection nothing handles. No response is sent, and from Node 15 on, an unhandled rejection ends the server process by default. The model returns an error value instead and keeps running. The `res.end` texts are not modelled.
- Chunk directories and merged files share `target/` on disk, but they are two separate maps here. A merged file named like a chunk directory is not modelled.
- `JsText.DecimalNumber`: reads only fields made of decimal digits, with the empty field read as 0, and reads them exactly. `Number` also gives integers for other forms: surrounding white space (`" 5"`), a sign (`"+5"`), a fraction of zeros (`"5.0"`), an exponent (`"1e1"`) and hex (`"0x5"`). The model returns `None` for all of these. `Number` also rounds digit strings of 2^53 and above to doubles, so `h-9007199254740992` and `h-9007199254740993` compare equal in the code, while the model orders them.
- `UploadServer.UploadDir.MergeFileChunk`: merges only when every name's key is all decimal digits. On any other name, the model refuses to merge and reports `UnindexedChunk`. The code behaves in one of two ways:
  - for a key that `Number` reads as `NaN` (no `-`, or non-numeric text), it sorts with an inconsistent comparator;
  - for a key in one of the other integer forms listed under `JsText.DecimalNumber`, it sorts with a consistent comparator and merges.
- `UploadServer.UploadDir.Merge`: has the same restriction on unreadable chunk keys as `MergeFileChunk`.
- `ChunkOrder.SortByIndex`: proved sorted and a permutation. It inserts stably, as `Array.prototype.sort` does, but stability is not stated, so the order of two names with equal keys (such as `h-1` and `h-01`) is not claimed.
- `HashWorker.PercentIsProduct`: `precentage` is an exact real. The worker adds IEEE doubles, and their rounding is not modelled. The same exact-real abstraction underlies `HashWorker.PostedMessages` and `HashWorker.ProgressBelowHundred`, so their progress values are also exact sums rather than double sums.
- `UploadServer.ExtractExt`: names are sequences of Unicode scalar values here, while JavaScript strings are UTF-16 code units. For a name without a `.` that ends in a character outside the Basic Multilingual Plane, `slice(-1)` keeps only the low surrogate, which Node writes to disk as U+FFFD. The model keeps the whole character instead (`photo😀` gives `😀`). Merge and `/verify` still agree on the final name, because both use `FinalFile`.
- SparkMD5 is represented by a digest function `md5` of the concatenated bytes; the MD5 algorithm itself is not modelled. `FileReader` is represented by the chunk bytes. `importScripts` is not modelled.
- The client's chunk slicing, upload coordinator and UI are not part of this model.
- No completeness check or merge lock is modelled. The code has neither: a merge of an incomplete chunk set writes what is there. Each chunk goes to the offset of its position in the sorted list, not of its index, as `AssembleKeepsEveryChunk` describes. So with full-size chunks, a missing index moves the later chunks down and leaves no gap (`MissingIndexShiftsLater`). A zero-filled gap can only come from a short chunk that is not in the last position.
