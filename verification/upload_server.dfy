/** The upload server: a directory `target/` that holds one `chunkDir_<fileHash>`
    directory of received chunks per file being uploaded and the merged files
    `<fileHash><ext>`, and the request handlers that store a chunk, answer
    `/verify` and perform `/merge`. */
module UploadServer {

  import opened JsText
  import opened ByteFile
  import opened ChunkOrder

  /** `extractExt(fileName)`: `fileName.slice(fileName.lastIndexOf("."), fileName.length)`.
      With a `.` this is the extension from the last `.` on; without one,
      `lastIndexOf` gives -1 and the slice keeps just the last character. */
  function ExtractExt(fileName: string): (ext: string)
    ensures |ext| <= |fileName| && ext == fileName[|fileName| - |ext|..]
    ensures '.' in fileName ==> |ext| > 0 && ext[0] == '.' && '.' !in ext[1..]
    ensures '.' !in fileName ==> ext == if fileName == [] then [] else [fileName[|fileName| - 1]]
  {
    Slice(fileName, LastIndexOf(fileName, '.'), |fileName|)
  }

  /** The name of the directory holding the chunks of one file. */
  function ChunkDir(fileHash: string): string
  {
    "chunkDir_" + fileHash
  }

  /** The name of the merged file, the same for `/merge` and `/verify`. */
  function FinalFile(fileHash: string, fileName: string): string
  {
    fileHash + ExtractExt(fileName)
  }

  /** Reply to a chunk upload: stored, or refused by `fse.move` because a chunk
      of that name is already there. */
  datatype StoreResult = Stored | DestinationExists

  /** Reply to `/verify`. */
  datatype VerifyResponse = AlreadyUploaded | ShouldUpload(uploadedList: seq<string>)

  /** Outcome of a merge: done; `readdir` failed because there is no chunk
      directory; or a chunk name whose index this model cannot read. */
  datatype MergeResult = Merged | NoChunkDir | UnindexedChunk(name: string)

  /** `fse.readdir`: the entries of a directory, each once, in an order the
      file system chooses. */
  method ReadDir(dir: map<string, Bytes>) returns (names: seq<string>)
    ensures IsListing(names, dir)
  {
    names := [];
    var rest := dir.Keys;
    while rest != {}
      invariant rest <= dir.Keys
      invariant forall k :: 0 <= k < |names| ==> names[k] in dir && names[k] !in rest
      invariant forall n :: n in dir ==> n in rest || n in names
      invariant NoDuplicates(names)
      decreases rest
    {
      var n :| n in rest;
      names := names + [n];
      rest := rest - {n};
    }
  }

  /** The first name whose index cannot be read, if any. */
  function FirstUnindexed(names: seq<string>): (r: Option<string>)
    ensures r.None? <==> Indexed(names)
    ensures r.Some? ==> r.value in names && ChunkIndex(r.value).None?
  {
    if names == [] then None
    else if ChunkIndex(names[0]).None? then Some(names[0])
    else
      assert names == [names[0]] + names[1..];
      FirstUnindexed(names[1..])
  }

  /** Every name in the directory has an index the model can read. */
  predicate AllIndexed(dir: map<string, Bytes>)
  {
    forall n :: n in dir ==> ChunkIndex(n).Some?
  }

  /** A chunk directory after the chunks named in `names` have been deleted from it, one by one. */
  function Removed(dir: map<string, Bytes>, names: seq<string>): map<string, Bytes>
  {
    if names == [] then dir
    else Removed(dir, names[..|names| - 1]) - {names[|names| - 1]}
  }

  /** Deleting chunks one by one leaves exactly the chunks not named, unchanged. */
  lemma {:induction false} RemovedKeeps(dir: map<string, Bytes>, names: seq<string>)
    ensures forall n :: n in Removed(dir, names) <==> n in dir && n !in names
    ensures forall n :: n in Removed(dir, names) ==> Removed(dir, names)[n] == dir[n]
  {
    if names != [] {
      var init := names[..|names| - 1];
      RemovedKeeps(dir, init);
      assert names == init + [names[|names| - 1]];
    }
  }

  lemma RemovedStep(dir: map<string, Bytes>, names: seq<string>, i: nat)
    requires i < |names|
    ensures Removed(dir, names[..i + 1]) == Removed(dir, names[..i]) - {names[i]}
  {
    assert names[..i + 1][..i] == names[..i];
  }

  lemma UpdateTwice<K, V>(m: map<K, V>, k: K, first: V, second: V)
    ensures m[k := first][k := second] == m[k := second]
  {
  }

  lemma UpdateThenRemove<K, V>(m: map<K, V>, k: K, v: V)
    ensures m[k := v] - {k} == m - {k}
  {
  }

  class UploadDir {
    /** Chunk directories by name (`chunkDir_<fileHash>`), each a map from chunk name to bytes. */
    var chunkDirs: map<string, map<string, Bytes>>
    /** Merged files by name (`<fileHash><ext>`). */
    var files: map<string, Bytes>

    constructor ()
      ensures chunkDirs == map[] && files == map[]
    {
      chunkDirs := map[];
      files := map[];
    }

    /** A chunk upload: create `chunkDir_<fileHash>` when it does not exist,
        then move the received chunk into it under the name `chunkHash`. */
    method StoreChunk(fileHash: string, chunkHash: string, chunk: Bytes) returns (r: StoreResult)
      modifies this
      ensures files == old(files)
      ensures ChunkDir(fileHash) in chunkDirs
      ensures r == DestinationExists <==>
        ChunkDir(fileHash) in old(chunkDirs) && chunkHash in old(chunkDirs)[ChunkDir(fileHash)]
      ensures r == DestinationExists ==> chunkDirs == old(chunkDirs)
      ensures r == Stored ==>
        chunkDirs[ChunkDir(fileHash)] ==
          (if ChunkDir(fileHash) in old(chunkDirs) then old(chunkDirs)[ChunkDir(fileHash)] else map[])[chunkHash := chunk]
      ensures forall d :: d != ChunkDir(fileHash) ==>
        (d in chunkDirs <==> d in old(chunkDirs)) && (d in chunkDirs ==> chunkDirs[d] == old(chunkDirs)[d])
    {
      var dir := ChunkDir(fileHash);
      if dir !in chunkDirs {
        chunkDirs := chunkDirs[dir := map[]];
      }
      if chunkHash in chunkDirs[dir] {
        r := DestinationExists;
      } else {
        chunkDirs := chunkDirs[dir := chunkDirs[dir][chunkHash := chunk]];
        r := Stored;
      }
    }

    /** `createUploadedList(fileHash)`: the chunk names stored for the file, or
        `[]` when it has no chunk directory. */
    method CreateUploadedList(fileHash: string) returns (names: seq<string>)
      ensures ChunkDir(fileHash) in chunkDirs ==> IsListing(names, chunkDirs[ChunkDir(fileHash)])
      ensures ChunkDir(fileHash) !in chunkDirs ==> names == []
    {
      var dir := ChunkDir(fileHash);
      if dir in chunkDirs {
        names := ReadDir(chunkDirs[dir]);
      } else {
        names := [];
      }
    }

    /** The `/verify` request: nothing to upload when the merged file exists,
        otherwise the list of chunks already stored. */
    method Verify(fileHash: string, fileName: string) returns (resp: VerifyResponse)
      ensures resp == AlreadyUploaded <==> FinalFile(fileHash, fileName) in files
      ensures resp.ShouldUpload? && ChunkDir(fileHash) in chunkDirs ==>
        IsListing(resp.uploadedList, chunkDirs[ChunkDir(fileHash)])
      ensures resp.ShouldUpload? && ChunkDir(fileHash) !in chunkDirs ==> resp.uploadedList == []
    {
      var filePath := FinalFile(fileHash, fileName);
      if filePath in files {
        resp := AlreadyUploaded;
      } else {
        var uploadedList := CreateUploadedList(fileHash);
        resp := ShouldUpload(uploadedList);
      }
    }

    /** `pipeStream`: copy one chunk into the merged file from byte `start` on,
        then delete the chunk. */
    method PipeStream(dir: string, chunkName: string, filePath: string, start: nat)
      requires dir in chunkDirs && chunkName in chunkDirs[dir] && filePath in files
      modifies this
      ensures files == old(files)[filePath := WriteAt(old(files)[filePath], start, old(chunkDirs)[dir][chunkName])]
      ensures chunkDirs == old(chunkDirs)[dir := old(chunkDirs)[dir] - {chunkName}]
    {
      files := files[filePath := WriteAt(files[filePath], start, chunkDirs[dir][chunkName])];
      chunkDirs := chunkDirs[dir := chunkDirs[dir] - {chunkName}];
    }

    /** The `Promise.all` over `chunkPaths.map(...)` in `mergeFileChunk`: pipe the
        chunk at position k of `chunkPaths` into `filePath` from byte `k * chunkSize`
        on. The write streams create (or truncate) the file first. */
    method WriteChunks(dir: string, chunkPaths: seq<string>, filePath: string, chunkSize: nat)
      requires dir in chunkDirs && NoDuplicates(chunkPaths)
      requires forall k :: 0 <= k < |chunkPaths| ==> chunkPaths[k] in chunkDirs[dir]
      modifies this
      ensures chunkDirs == old(chunkDirs)[dir := Removed(old(chunkDirs)[dir], chunkPaths)]
      ensures files == if chunkPaths == [] then old(files)
                       else old(files)[filePath := Assemble(ChunksAt(old(chunkDirs)[dir], chunkPaths), chunkSize)]
    {
      ghost var stored := chunkDirs[dir];
      if |chunkPaths| == 0 {
        assert chunkDirs == old(chunkDirs)[dir := Removed(stored, chunkPaths)];
        return;
      }
      files := files[filePath := []];
      var index := 0;
      while index < |chunkPaths|
        invariant 0 <= index <= |chunkPaths|
        invariant chunkDirs == old(chunkDirs)[dir := Removed(stored, chunkPaths[..index])]
        invariant files == old(files)[filePath := Assemble(ChunksAt(stored, chunkPaths[..index]), chunkSize)]
      {
        ghost var removed := Removed(stored, chunkPaths[..index]);
        ghost var assembled := Assemble(ChunksAt(stored, chunkPaths[..index]), chunkSize);
        assert chunkPaths[index] in removed && removed[chunkPaths[index]] == stored[chunkPaths[index]] by {
          assert forall j :: 0 <= j < index ==> chunkPaths[..index][j] != chunkPaths[index];
          RemovedKeeps(stored, chunkPaths[..index]);
        }
        OffsetIsProduct(index, chunkSize);
        PipeStream(dir, chunkPaths[index], filePath, index * chunkSize);
        assert chunkDirs == old(chunkDirs)[dir := Removed(stored, chunkPaths[..index + 1])] by {
          RemovedStep(stored, chunkPaths, index);
          UpdateTwice(old(chunkDirs), dir, removed, Removed(stored, chunkPaths[..index + 1]));
        }
        assert files == old(files)[filePath := Assemble(ChunksAt(stored, chunkPaths[..index + 1]), chunkSize)] by {
          AssembleStep(stored, chunkPaths, index, chunkSize);
          UpdateTwice(old(files), filePath, assembled, Assemble(ChunksAt(stored, chunkPaths[..index + 1]), chunkSize));
        }
        index := index + 1;
      }
      assert chunkPaths[..index] == chunkPaths;
    }

    /** `mergeFileChunk`: list the chunk directory, sort the names by index,
        write the chunk at position k of the sorted list at byte `k * chunkSize`
        of `filePath` (deleting each chunk once copied), then remove the directory.
        `order` is the sorted listing the merge used. */
    method MergeFileChunk(filePath: string, fileHash: string, chunkSize: nat) returns (r: MergeResult, ghost order: seq<string>)
      modifies this
      ensures r == NoChunkDir <==> ChunkDir(fileHash) !in old(chunkDirs)
      ensures r != Merged ==> chunkDirs == old(chunkDirs) && files == old(files)
      ensures r.UnindexedChunk? ==>
        ChunkDir(fileHash) in old(chunkDirs) && r.name in old(chunkDirs)[ChunkDir(fileHash)] && ChunkIndex(r.name).None?
      ensures ChunkDir(fileHash) in old(chunkDirs) && AllIndexed(old(chunkDirs)[ChunkDir(fileHash)]) ==> r == Merged
      ensures r == Merged ==>
        && ChunkDir(fileHash) in old(chunkDirs)
        && IsListing(order, old(chunkDirs)[ChunkDir(fileHash)])
        && Indexed(order) && SortedByIndex(order)
        && chunkDirs == old(chunkDirs) - {ChunkDir(fileHash)}
        && files == if order == [] then old(files)
                    else old(files)[filePath := Assemble(ChunksAt(old(chunkDirs)[ChunkDir(fileHash)], order), chunkSize)]
    {
      var dir := ChunkDir(fileHash);
      order := [];
      if dir !in chunkDirs {
        r := NoChunkDir;
        return;
      }
      ghost var stored := chunkDirs[dir];
      var chunkPaths := ReadDir(chunkDirs[dir]);
      var unindexed := FirstUnindexed(chunkPaths);
      if unindexed.Some? {
        r := UnindexedChunk(unindexed.value);
        return;
      }
      SortedListing(chunkPaths, stored);
      chunkPaths := SortByIndex(chunkPaths);
      order := chunkPaths;
      ghost var beforeWrites := chunkDirs;
      WriteChunks(dir, chunkPaths, filePath, chunkSize);
      // every chunk has been deleted, so `rmdirSync` removes an empty directory
      RemovedKeeps(stored, chunkPaths);
      assert chunkDirs[dir].Keys == {};
      UpdateThenRemove(beforeWrites, dir, chunkDirs[dir]);
      chunkDirs := chunkDirs - {dir};
      r := Merged;
    }

    /** The `/merge` request: merge the chunks of `fileHash` into `<fileHash><ext>`. */
    method Merge(fileHash: string, filename: string, chunkSize: nat) returns (r: MergeResult, ghost order: seq<string>)
      modifies this
      ensures r == NoChunkDir <==> ChunkDir(fileHash) !in old(chunkDirs)
      ensures r != Merged ==> chunkDirs == old(chunkDirs) && files == old(files)
      ensures ChunkDir(fileHash) in old(chunkDirs) && AllIndexed(old(chunkDirs)[ChunkDir(fileHash)]) ==> r == Merged
      ensures r == Merged ==>
        && ChunkDir(fileHash) in old(chunkDirs)
        && IsListing(order, old(chunkDirs)[ChunkDir(fileHash)])
        && Indexed(order) && SortedByIndex(order)
        && chunkDirs == old(chunkDirs) - {ChunkDir(fileHash)}
        && files == if order == [] then old(files)
                    else old(files)[FinalFile(fileHash, filename) :=
                                    Assemble(ChunksAt(old(chunkDirs)[ChunkDir(fileHash)], order), chunkSize)]
    {
      var filePath := FinalFile(fileHash, filename);
      r, order := MergeFileChunk(filePath, fileHash, chunkSize);
    }

    /** A `/merge` of a complete upload followed by a `/verify` and a listing for
        the same file: the merged file is the original bytes, `/verify` finds it
        under the same name and reports nothing to upload, and the chunk
        directory is gone, so a listing is empty. */
    method MergeThenVerify(fileHash: string, fileName: string, chunkSize: nat, ghost parts: seq<Bytes>)
      returns (r: MergeResult, resp: VerifyResponse, listing: seq<string>)
      requires '-' !in fileHash && 0 < |parts| && FullButLast(parts, chunkSize)
      requires ChunkDir(fileHash) in chunkDirs && HoldsChunks(chunkDirs[ChunkDir(fileHash)], fileHash, parts)
      modifies this
      ensures r == Merged
      ensures files == old(files)[FinalFile(fileHash, fileName) := Flatten(parts)]
      ensures chunkDirs == old(chunkDirs) - {ChunkDir(fileHash)}
      ensures resp == AlreadyUploaded && listing == []
    {
      ghost var stored := chunkDirs[ChunkDir(fileHash)];
      forall n | n in stored ensures ChunkIndex(n).Some? {
        NameInCompleteDir(stored, fileHash, parts, n);
      }
      ghost var order;
      r, order := Merge(fileHash, fileName, chunkSize);
      assert order[0] == ChunkName(fileHash, 0) by {
        CompleteListingInOrder(order, stored, fileHash, parts);
      }
      CompleteMergeRebuildsFile(order, stored, fileHash, parts, chunkSize);
      resp := Verify(fileHash, fileName);
      listing := CreateUploadedList(fileHash);
    }
  }
}
