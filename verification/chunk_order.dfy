/** What the merge step does with the names and bytes of the stored chunks:
    read each name's index as `Number(name.split("-")[1])`, sort the names by
    it, and write the k-th chunk of the sorted list at byte offset
    `k * chunkSize` of the merged file. */
module ChunkOrder {

  import opened JsText
  import opened ByteFile

  /** The name the client gives chunk `index` of the file with fingerprint
      `fileHash`: `<fileHash>-<index>`. */
  function ChunkName(fileHash: string, index: nat): string
  {
    fileHash + "-" + DecimalString(index)
  }

  /** The sort key of a chunk name, `Number(name.split("-")[1])`; `None` when
      the name has no `-` or the field after it is not written in decimal digits. */
  function ChunkIndex(name: string): Option<nat>
  {
    match SecondField(name, '-')
    case None => None
    case Some(field) => DecimalNumber(field)
  }

  /** The name of chunk `index` reads back as `index`, as long as the
      fingerprint itself has no `-` (an MD5 hex digest has none). */
  lemma ChunkIndexOfName(fileHash: string, index: nat)
    requires '-' !in fileHash
    ensures ChunkIndex(ChunkName(fileHash, index)) == Some(index)
  {
    var name := ChunkName(fileHash, index);
    var digits := DecimalString(index);
    var i := IndexOf(name, '-');
    assert name[|fileHash|] == '-';
    assert name[..|fileHash|] == fileHash;
    assert forall m :: 0 <= m < |fileHash| ==> name[m] == fileHash[m];
    assert i == |fileHash|;
    assert name[i + 1..] == digits;
    assert '-' !in digits by {
      forall k | 0 <= k < |digits| ensures digits[k] != '-' {
        assert IsDigit(digits[k]);
      }
    }
    var field := FieldPrefix(digits, '-');
    assert field == digits;
    DecimalRoundTrip(index);
  }

  /** Distinct indices give distinct chunk names. */
  lemma ChunkNameInjective(fileHash: string, i: nat, j: nat)
    requires '-' !in fileHash
    requires ChunkName(fileHash, i) == ChunkName(fileHash, j)
    ensures i == j
  {
    ChunkIndexOfName(fileHash, i);
    ChunkIndexOfName(fileHash, j);
  }

  /** The numeric key the comparator reads from a chunk name. Names whose key
      does not parse get 0 here; the merge refuses them before sorting. */
  function Index(name: string): nat
  {
    match ChunkIndex(name)
    case None => 0
    case Some(v) => v
  }

  predicate Indexed(names: seq<string>)
  {
    forall k :: 0 <= k < |names| ==> ChunkIndex(names[k]).Some?
  }

  /** Ascending by `key`. */
  predicate SortedBy(names: seq<string>, key: string -> nat)
  {
    forall i, j :: 0 <= i < j < |names| ==> key(names[i]) <= key(names[j])
  }

  /** A name whose key is not above the first one's keeps a sorted list sorted. */
  lemma PrependSorted(x: string, names: seq<string>, key: string -> nat)
    requires SortedBy(names, key)
    requires names != [] ==> key(x) <= key(names[0])
    ensures SortedBy([x] + names, key)
  {
    var r := [x] + names;
    forall i, j | 0 <= i < j < |r| ensures key(r[i]) <= key(r[j]) {
      assert r[j] == names[j - 1];
      if i > 0 {
        assert r[i] == names[i - 1];
      } else if j > 1 {
        assert key(names[0]) <= key(names[j - 1]);
      }
    }
  }

  lemma SortedTail(names: seq<string>, key: string -> nat)
    requires SortedBy(names, key) && names != []
    ensures SortedBy(names[1..], key)
    ensures |names| > 1 ==> key(names[0]) <= key(names[1..][0])
  {
    forall i, j | 0 <= i < j < |names| - 1 ensures key(names[1..][i]) <= key(names[1..][j]) {
      assert names[1..][i] == names[i + 1] && names[1..][j] == names[j + 1];
    }
  }

  /** Putting the first name back in front of `x` inserted into the rest. */
  lemma InsertAfterFirst(x: string, sorted: seq<string>, rest: seq<string>, key: string -> nat)
    requires SortedBy(sorted, key) && sorted != [] && key(sorted[0]) < key(x)
    requires SortedBy(rest, key) && multiset(rest) == multiset(sorted[1..]) + multiset{x}
    requires |rest| == |sorted| && (rest[0] == x || (|sorted| > 1 && rest[0] == sorted[1]))
    ensures SortedBy([sorted[0]] + rest, key)
    ensures multiset([sorted[0]] + rest) == multiset(sorted) + multiset{x}
    ensures [sorted[0]] + rest != [] && ([sorted[0]] + rest)[0] == sorted[0]
  {
    SortedTail(sorted, key);
    assert sorted == [sorted[0]] + sorted[1..];
    assert multiset(sorted) == multiset{sorted[0]} + multiset(sorted[1..]);
    PrependSorted(sorted[0], rest, key);
  }

  /** Inserts `x` in front of the first name whose key is not below its own. */
  function InsertBy(x: string, sorted: seq<string>, key: string -> nat): (r: seq<string>)
    requires SortedBy(sorted, key)
    ensures SortedBy(r, key)
    ensures multiset(r) == multiset(sorted) + multiset{x}
    ensures |r| == |sorted| + 1
    ensures sorted == [] ==> r == [x]
    ensures sorted != [] ==> r[0] == x || r[0] == sorted[0]
  {
    if sorted == [] || key(x) <= key(sorted[0]) then
      PrependSorted(x, sorted, key);
      [x] + sorted
    else
      SortedTail(sorted, key);
      var rest := InsertBy(x, sorted[1..], key);
      InsertAfterFirst(x, sorted, rest, key);
      [sorted[0]] + rest
  }

  /** Insertion sort by `key`; each name is inserted before the names already
      placed with an equal key, so names with equal keys keep their order. */
  function SortBy(names: seq<string>, key: string -> nat): (r: seq<string>)
    ensures SortedBy(r, key)
    ensures multiset(r) == multiset(names)
  {
    if names == [] then []
    else
      assert names == [names[0]] + names[1..];
      InsertBy(names[0], SortBy(names[1..], key), key)
  }

  /** Ascending by the numeric key, the order the comparator
      `Number(a.split("-")[1]) - Number(b.split("-")[1])` asks for. */
  predicate SortedByIndex(names: seq<string>)
  {
    SortedBy(names, Index)
  }

  /** `chunkPaths.sort(...)` with the numeric comparator, on names whose key
      parses: the result holds the same names, each as often, ascending by
      index. */
  function SortByIndex(names: seq<string>): (r: seq<string>)
    requires Indexed(names)
    ensures Indexed(r) && SortedByIndex(r)
    ensures multiset(r) == multiset(names)
  {
    var r := SortBy(names, Index);
    forall k | 0 <= k < |r| ensures ChunkIndex(r[k]).Some? {
      assert r[k] in multiset(names);
    }
    r
  }

  lemma InsertFront(x: string, sorted: seq<string>, key: string -> nat)
    requires SortedBy(sorted, key)
    requires sorted == [] || key(x) <= key(sorted[0])
    ensures InsertBy(x, sorted, key) == [x] + sorted
  {
  }

  lemma InsertPast(x: string, sorted: seq<string>, key: string -> nat)
    requires SortedBy(sorted, key)
    requires sorted != [] && key(sorted[0]) < key(x)
    ensures SortedBy(sorted[1..], key)
    ensures InsertBy(x, sorted, key) == [sorted[0]] + InsertBy(x, sorted[1..], key)
  {
  }

  lemma SortTwo(b: string, c: string, key: string -> nat)
    requires key(c) < key(b)
    ensures SortedBy([c, b], key) && SortBy([b, c], key) == [c, b]
  {
    assert [b, c][1..] == [c];
    assert [c][1..] == [];
    InsertFront(c, [], key);
    InsertPast(b, [c], key);
    InsertFront(b, [], key);
  }

  lemma InsertBetween(a: string, b: string, c: string, key: string -> nat)
    requires key(c) < key(a) < key(b) && SortedBy([c, b], key)
    ensures InsertBy(a, [c, b], key) == [c, a, b]
  {
    InsertPast(a, [c, b], key);
    assert [c, b][1..] == [b];
    InsertFront(a, [b], key);
  }

  /** Names `a, b, c` whose keys are ordered `c < a < b` sort as `c, a, b`. */
  lemma SortThree(a: string, b: string, c: string, key: string -> nat)
    requires key(c) < key(a) < key(b)
    ensures SortBy([a, b, c], key) == [c, a, b]
  {
    SortTwo(b, c, key);
    InsertBetween(a, b, c, key);
    assert [a, b, c][1..] == [b, c];
  }

  /** Names with indices 2, 10 and 1, in that order, sort as the third, the first, the second. */
  lemma SortIndexedThree(a: string, b: string, c: string)
    requires ChunkIndex(a) == Some(2) && ChunkIndex(b) == Some(10) && ChunkIndex(c) == Some(1)
    ensures Indexed([a, b, c]) && SortByIndex([a, b, c]) == [c, a, b]
  {
    var names := [a, b, c];
    assert Indexed(names) by {
      forall k | 0 <= k < 3 ensures ChunkIndex(names[k]).Some? {
        assert names[k] == a || names[k] == b || names[k] == c;
      }
    }
    assert Index(c) < Index(a) < Index(b);
    SortThree(a, b, c, Index);
  }

  /** Chunks 2, 10 and 1 of one file sort as 1, 2, 10. */
  lemma NumericOrder(fileHash: string)
    requires '-' !in fileHash
    ensures var names := [ChunkName(fileHash, 2), ChunkName(fileHash, 10), ChunkName(fileHash, 1)];
      Indexed(names) &&
      SortByIndex(names) == [ChunkName(fileHash, 1), ChunkName(fileHash, 2), ChunkName(fileHash, 10)]
  {
    ChunkIndexOfName(fileHash, 2);
    ChunkIndexOfName(fileHash, 10);
    ChunkIndexOfName(fileHash, 1);
    SortIndexedThree(ChunkName(fileHash, 2), ChunkName(fileHash, 10), ChunkName(fileHash, 1));
  }

  lemma LiteralNames()
    ensures ChunkName("h", 1) == "h-1" && ChunkName("h", 2) == "h-2" && ChunkName("h", 10) == "h-10"
  {
    assert DigitChar(1) == '1' && DigitChar(2) == '2' && DigitChar(0) == '0';
    assert DecimalString(10) == DecimalString(1) + [DigitChar(0)];
  }

  /** Names `h-2, h-10, h-1` sort to `h-1, h-2, h-10`: by number, not by text
      (a text sort would give `h-1, h-10, h-2`). */
  lemma NumericNotLexical()
    ensures Indexed(["h-2", "h-10", "h-1"])
    ensures SortByIndex(["h-2", "h-10", "h-1"]) == ["h-1", "h-2", "h-10"]
  {
    LiteralNames();
    NumericOrder("h");
  }

  predicate NoDuplicates(names: seq<string>)
  {
    forall i, j :: 0 <= i < j < |names| ==> names[i] != names[j]
  }

  /** `names` is what `readdir` returns for a directory holding `dir`:
      every entry once, in an order the file system chooses. */
  predicate IsListing(names: seq<string>, dir: map<string, Bytes>)
  {
    && (forall k :: 0 <= k < |names| ==> names[k] in dir)
    && (forall n :: n in dir ==> n in names)
    && NoDuplicates(names)
  }

  lemma {:induction false} NoDuplicatesCount(a: seq<string>, x: string)
    requires NoDuplicates(a)
    ensures multiset(a)[x] <= 1
  {
    if a != [] {
      assert a == [a[0]] + a[1..];
      NoDuplicatesCount(a[1..], x);
      assert a[0] == x ==> x !in a[1..];
    }
  }

  lemma EqualPairCount(b: seq<string>, i: nat, j: nat)
    requires i < j < |b|
    ensures b[i] == b[j] ==> multiset(b)[b[i]] >= 2
  {
    assert b == b[..i] + [b[i]] + b[i + 1..j] + [b[j]] + b[j + 1..];
  }

  /** A permutation of a list without duplicates has none. */
  lemma PermutationKeepsNoDuplicates(a: seq<string>, b: seq<string>)
    requires multiset(a) == multiset(b) && NoDuplicates(a)
    ensures NoDuplicates(b)
  {
    forall i, j | 0 <= i < j < |b| ensures b[i] != b[j] {
      EqualPairCount(b, i, j);
      NoDuplicatesCount(a, b[i]);
    }
  }

  /** The sorted listing is again a listing of the same directory. */
  lemma SortedListing(names: seq<string>, dir: map<string, Bytes>)
    requires IsListing(names, dir) && Indexed(names)
    ensures IsListing(SortByIndex(names), dir)
  {
    var sorted := SortByIndex(names);
    PermutationKeepsNoDuplicates(names, sorted);
    forall k | 0 <= k < |sorted| ensures sorted[k] in dir {
      assert sorted[k] in multiset(names);
    }
    forall n | n in dir ensures n in sorted {
      assert n in multiset(names);
    }
  }

  /** The bytes of the listed chunks, in listing order. */
  function ChunksAt(dir: map<string, Bytes>, order: seq<string>): (chunks: seq<Bytes>)
    requires forall k :: 0 <= k < |order| ==> order[k] in dir
    ensures |chunks| == |order|
    ensures forall k :: 0 <= k < |order| ==> chunks[k] == dir[order[k]]
  {
    seq(|order|, k requires 0 <= k < |order| => dir[order[k]])
  }

  /** The byte offset the write stream of the chunk at `position` starts at,
      `{ start: index * chunkSize }`, written as repeated addition
      (`OffsetIsProduct` shows it is the product). */
  function Offset(position: nat, chunkSize: nat): nat
  {
    if position == 0 then 0 else Offset(position - 1, chunkSize) + chunkSize
  }

  lemma {:induction false} OffsetIsProduct(position: nat, chunkSize: nat)
    ensures Offset(position, chunkSize) == position * chunkSize
  {
    if position > 0 {
      OffsetIsProduct(position - 1, chunkSize);
      assert position * chunkSize == (position - 1) * chunkSize + chunkSize;
    }
  }

  /** The merged file: starting from an empty file, the k-th chunk is written
      at `Offset(k, chunkSize)`, k being its position in the list, not its parsed index. */
  function Assemble(chunks: seq<Bytes>, chunkSize: nat): Bytes
  {
    if chunks == [] then []
    else WriteAt(Assemble(chunks[..|chunks| - 1], chunkSize), Offset(|chunks| - 1, chunkSize), chunks[|chunks| - 1])
  }

  /** Writing one more chunk of a listing extends the assembled file by one write. */
  lemma AssembleStep(dir: map<string, Bytes>, order: seq<string>, i: nat, chunkSize: nat)
    requires i < |order|
    requires forall k :: 0 <= k < |order| ==> order[k] in dir
    ensures Assemble(ChunksAt(dir, order[..i + 1]), chunkSize)
         == WriteAt(Assemble(ChunksAt(dir, order[..i]), chunkSize), Offset(i, chunkSize), dir[order[i]])
  {
    var longer := ChunksAt(dir, order[..i + 1]);
    assert longer[..i] == ChunksAt(dir, order[..i]);
  }

  /** A later position starts at least one chunk size further on. */
  lemma {:induction false} OffsetGrows(j: nat, k: nat, chunkSize: nat)
    requires j < k
    ensures Offset(j, chunkSize) + chunkSize <= Offset(k, chunkSize)
    decreases k
  {
    if j < k - 1 {
      OffsetGrows(j, k - 1, chunkSize);
    }
  }

  /** When no chunk is longer than `chunkSize`, the byte ranges the merge writes,
      `[Offset(k), Offset(k) + |chunks[k]|)`, do not overlap. */
  lemma WrittenRangesDisjoint(chunks: seq<Bytes>, chunkSize: nat)
    requires forall k :: 0 <= k < |chunks| ==> |chunks[k]| <= chunkSize
    ensures forall j, k :: 0 <= j < k < |chunks| ==>
      Offset(j, chunkSize) + |chunks[j]| <= Offset(k, chunkSize)
  {
    forall j, k | 0 <= j < k < |chunks| ensures Offset(j, chunkSize) + |chunks[j]| <= Offset(k, chunkSize) {
      OffsetGrows(j, k, chunkSize);
    }
  }

  /** When no chunk is longer than `chunkSize`, every chunk can be read back
      from the merged file at its own offset: no later write overwrites it. */
  lemma {:induction false} AssembleKeepsEveryChunk(chunks: seq<Bytes>, chunkSize: nat)
    requires forall k :: 0 <= k < |chunks| ==> |chunks[k]| <= chunkSize
    ensures forall k :: 0 <= k < |chunks| ==> HoldsAt(Assemble(chunks, chunkSize), Offset(k, chunkSize), chunks[k])
  {
    if chunks != [] {
      var n := |chunks|;
      var prefix := chunks[..n - 1];
      AssembleKeepsEveryChunk(prefix, chunkSize);
      var p := Assemble(prefix, chunkSize);
      var last := Offset(n - 1, chunkSize);
      forall k | 0 <= k < n ensures HoldsAt(WriteAt(p, last, chunks[n - 1]), Offset(k, chunkSize), chunks[k]) {
        if k < n - 1 {
          OffsetGrows(k, n - 1, chunkSize);
          assert prefix[k] == chunks[k];
          WriteAtKeepsEarlier(p, last, chunks[n - 1], Offset(k, chunkSize), chunks[k]);
        } else {
          WriteAtHolds(p, last, chunks[n - 1]);
        }
      }
    }
  }

  /** Chunks of full size (but the last) are assembled into their concatenation. */
  lemma {:induction false} AssembleFullChunks(chunks: seq<Bytes>, chunkSize: nat)
    requires FullButLast(chunks, chunkSize)
    ensures Assemble(chunks, chunkSize) == Flatten(chunks)
  {
    if chunks != [] {
      var prefix := chunks[..|chunks| - 1];
      AssembleFullChunks(prefix, chunkSize);
      FlattenFullLength(prefix, chunkSize);
      OffsetIsProduct(|prefix|, chunkSize);
      WriteAtEnd(Flatten(prefix), chunks[|chunks| - 1]);
    }
  }

  /** Chunks are placed by their position in the sorted listing, not by their
      index: when full-size chunks 0, 1 and 3 are present and chunk 2 is
      missing, chunk 3 lands right after chunk 1, at `2 * chunkSize`, and the
      merged file is the three chunks end to end with no gap. */
  lemma MissingIndexShiftsLater(p0: Bytes, p1: Bytes, p3: Bytes, chunkSize: nat)
    requires |p0| == chunkSize && |p1| == chunkSize
    ensures Assemble([p0, p1, p3], chunkSize) == p0 + p1 + p3
    ensures HoldsAt(Assemble([p0, p1, p3], chunkSize), 2 * chunkSize, p3)
    ensures |Assemble([p0, p1, p3], chunkSize)| == 2 * chunkSize + |p3|
  {
    var chunks := [p0, p1, p3];
    AssembleFullChunks(chunks, chunkSize);
    assert chunks[..2] == [p0, p1] && [p0, p1][..1] == [p0] && [p0][..0] == [];
    assert Flatten([p0]) == p0 by { assert Flatten([p0]) == Flatten([]) + p0; }
    assert Flatten([p0, p1]) == p0 + p1;
    assert Flatten(chunks) == p0 + p1 + p3;
    var r := p0 + p1 + p3;
    assert r[2 * chunkSize..2 * chunkSize + |p3|] == p3;
  }

  /** The directory holds exactly the chunks of a file cut into `parts`:
      chunk k under the name `<fileHash>-<k>`, and nothing else. */
  ghost predicate HoldsChunks(dir: map<string, Bytes>, fileHash: string, parts: seq<Bytes>)
  {
    && (forall k :: 0 <= k < |parts| ==> ChunkName(fileHash, k) in dir && dir[ChunkName(fileHash, k)] == parts[k])
    && (forall n :: n in dir ==> exists k :: 0 <= k < |parts| && n == ChunkName(fileHash, k))
  }

  lemma NameInCompleteDir(dir: map<string, Bytes>, fileHash: string, parts: seq<Bytes>, n: string)
    requires '-' !in fileHash && HoldsChunks(dir, fileHash, parts) && n in dir
    ensures ChunkIndex(n).Some? && Index(n) < |parts| && n == ChunkName(fileHash, Index(n))
  {
    var k :| 0 <= k < |parts| && n == ChunkName(fileHash, k);
    ChunkIndexOfName(fileHash, k);
  }

  /** Some name of `order` has key `v`. */
  predicate HasKey(order: seq<string>, key: string -> nat, v: nat)
  {
    exists j :: 0 <= j < |order| && key(order[j]) == v
  }

  /** A list sorted by a key whose values are distinct, below `n`, and cover
      every value below `n`, has exactly the key `k` at position `k`. */
  lemma {:induction false} KeyAtPosition(order: seq<string>, key: string -> nat, n: nat, k: nat)
    requires SortedBy(order, key)
    requires forall i, j :: 0 <= i < j < |order| ==> key(order[i]) != key(order[j])
    requires forall i :: 0 <= i < |order| ==> key(order[i]) < n
    requires forall v :: 0 <= v < n ==> HasKey(order, key, v)
    requires k < |order|
    ensures key(order[k]) == k
    decreases k
  {
    if k > 0 {
      KeyAtPosition(order, key, n, k - 1);
      assert key(order[k - 1]) < key(order[k]);
    }
    // key k is held somewhere; not before position k, whose keys are 0..k-1
    assert key(order[k]) >= k;
    assert HasKey(order, key, k);
    var j :| 0 <= j < |order| && key(order[j]) == k;
    if j < k {
      KeyAtPosition(order, key, n, j);
    }
    assert j >= k;
  }

  /** Under the same conditions the list holds exactly `n` names. */
  lemma KeysCoverPositions(order: seq<string>, key: string -> nat, n: nat)
    requires SortedBy(order, key)
    requires forall i, j :: 0 <= i < j < |order| ==> key(order[i]) != key(order[j])
    requires forall i :: 0 <= i < |order| ==> key(order[i]) < n
    requires forall v :: 0 <= v < n ==> HasKey(order, key, v)
    ensures |order| == n
    ensures forall k :: 0 <= k < |order| ==> key(order[k]) == k
  {
    forall k | 0 <= k < |order| ensures key(order[k]) == k {
      KeyAtPosition(order, key, n, k);
    }
    if |order| > 0 {
      assert key(order[|order| - 1]) == |order| - 1;
    }
    if n > 0 {
      assert HasKey(order, key, n - 1);
      var j :| 0 <= j < |order| && key(order[j]) == n - 1;
      assert key(order[j]) == j;
    }
  }

  /** A sorted listing of a complete directory is `<fileHash>-0, <fileHash>-1, …`,
      whatever order `readdir` gave. */
  lemma CompleteListingInOrder(order: seq<string>, dir: map<string, Bytes>, fileHash: string, parts: seq<Bytes>)
    requires '-' !in fileHash && HoldsChunks(dir, fileHash, parts)
    requires IsListing(order, dir) && Indexed(order) && SortedByIndex(order)
    ensures |order| == |parts|
    ensures forall k :: 0 <= k < |order| ==> order[k] == ChunkName(fileHash, k)
  {
    forall i | 0 <= i < |order| ensures Index(order[i]) < |parts| && order[i] == ChunkName(fileHash, Index(order[i])) {
      NameInCompleteDir(dir, fileHash, parts, order[i]);
    }
    forall i, j | 0 <= i < j < |order| ensures Index(order[i]) != Index(order[j]) {
      assert order[i] != order[j];
    }
    forall v | 0 <= v < |parts| ensures HasKey(order, Index, v) {
      ChunkIndexOfName(fileHash, v);
      var name := ChunkName(fileHash, v);
      assert name in order;
      var j :| 0 <= j < |order| && order[j] == name;
      assert Index(order[j]) == v;
    }
    KeysCoverPositions(order, Index, |parts|);
  }

  /** Merging a complete chunk set whose chunks are full-size (but the last)
      rebuilds the original file: the concatenation of the chunks in index order. */
  lemma CompleteMergeRebuildsFile(order: seq<string>, dir: map<string, Bytes>, fileHash: string, parts: seq<Bytes>, chunkSize: nat)
    requires '-' !in fileHash && HoldsChunks(dir, fileHash, parts)
    requires IsListing(order, dir) && Indexed(order) && SortedByIndex(order)
    requires FullButLast(parts, chunkSize)
    ensures Assemble(ChunksAt(dir, order), chunkSize) == Flatten(parts)
  {
    CompleteListingInOrder(order, dir, fileHash, parts);
    assert ChunksAt(dir, order) == parts;
    AssembleFullChunks(parts, chunkSize);
  }
}
