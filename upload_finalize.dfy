/** `POST /api/upload-finalize`: lists `chunks/<filename>/`, sorts the pieces
    by the number after the `-` in their names, writes their concatenation to
    a durable file with a fresh random name, removes the staging directory and
    answers with `/f/<name>`. */
module UploadFinalize {
  import opened Runtime
  import opened Storage
  import UploadChunk

  // ---------------------------------------------------------------------------
  // generateRandomFilename
  // ---------------------------------------------------------------------------

  const Alphanumeric := "ABCDEFGHIJKLMNOPQRSTUVWXYZabcdefghijklmnopqrstuvwxyz0123456789"

  /** Values that `Math.random()` can return. */
  predicate ValidDraws(draws: seq<real>)
  {
    forall i | 0 <= i < |draws| :: 0.0 <= draws[i] < 1.0
  }

  /** `characters.charAt(Math.floor(r * characters.length))` for one draw `r` of `Math.random()`. */
  function CharFor(draw: real): (c: char)
    requires 0.0 <= draw < 1.0
    ensures c in Alphanumeric
  {
    Alphanumeric[(draw * (|Alphanumeric| as real)).Floor]
  }

  /** `generateRandomString(length)`, fed by the successive draws of `Math.random()`. */
  method GenerateRandomString(length: nat, draws: seq<real>) returns (result: string)
    requires |draws| >= length && ValidDraws(draws)
    ensures |result| == length
    ensures forall i | 0 <= i < length :: result[i] == CharFor(draws[i])
  {
    result := "";
    var i := 0;
    while i < length
      invariant 0 <= i <= length && |result| == i
      invariant forall j | 0 <= j < i :: result[j] == CharFor(draws[j])
    {
      result := result + [CharFor(draws[i])];
      i := i + 1;
    }
  }

  const NameLength: nat := 6

  /** The name `generateRandomFilename(original)` returns for the given draws. */
  function RandomFilename(original: string, draws: seq<real>): (name: string)
    requires |draws| >= NameLength && ValidDraws(draws)
    ensures |name| == NameLength + |ExtName(original)|
    ensures forall i | 0 <= i < NameLength :: name[i] in Alphanumeric
    ensures name[NameLength..] == ExtName(original)
  {
    seq(NameLength, i requires 0 <= i < NameLength => CharFor(draws[i])) + ExtName(original)
  }

  method GenerateRandomFilename(original: string, draws: seq<real>) returns (name: string)
    requires |draws| >= NameLength && ValidDraws(draws)
    ensures name == RandomFilename(original, draws)
  {
    var ext := ExtName(original);
    var randomName := GenerateRandomString(NameLength, draws);
    name := randomName + ext;
  }

  // ---------------------------------------------------------------------------
  // The sort: `chunkFiles.sort((a, b) => parseInt(a.split('-')[1]) - parseInt(b.split('-')[1]))`
  // ---------------------------------------------------------------------------

  /** `parseInt(name.split('-')[1])`; `None` stands for `NaN`. */
  function ChunkIndex(name: string): Option<int>
  {
    match SecondField(name, '-')
    case None => None
    case Some(text) => ParseInt(text)
  }

  /** The pieces the chunk receiver names for an index sent as `String(k)` sort under `k`. */
  lemma ChunkIndexOfPieceName(k: nat)
    ensures ChunkIndex(UploadChunk.PieceName(DecimalString(k))) == Some(k)
  {
    var digits := DecimalString(k);
    assert '-' !in digits by {
      forall i | 0 <= i < |digits| ensures digits[i] != '-' { assert IsDecimalDigit(digits[i]); }
    }
    assert "chunk-" + digits == "chunk" + ['-'] + digits;
    SecondFieldOfJoin("chunk", digits, '-');
    ParseIntDecimal(k);
  }

  /** Every name has a sort key. */
  predicate Keyed(s: seq<string>, key: string -> Option<int>)
  {
    forall i | 0 <= i < |s| :: key(s[i]).Some?
  }

  predicate SortedBy(s: seq<string>, key: string -> Option<int>)
  {
    Keyed(s, key) && forall i, j | 0 <= i < j < |s| :: key(s[i]).value <= key(s[j]).value
  }

  /** No two different names share a key. */
  predicate KeysIdentify(s: seq<string>, key: string -> Option<int>)
  {
    Keyed(s, key)
    && forall i, j | 0 <= i < |s| && 0 <= j < |s| :: key(s[i]).value == key(s[j]).value ==> s[i] == s[j]
  }

  /** `comparefn(x, y) < 0` for the comparator `key(x) - key(y)`; a `NaN`
      difference is never below zero. */
  predicate Precedes(key: string -> Option<int>, x: string, y: string)
  {
    key(x).Some? && key(y).Some? && key(x).value < key(y).value
  }

  /** Puts `x` into `t` after every element it does not precede: one step of a
      stable insertion sort, working from the back. */
  function Insert(t: seq<string>, x: string, key: string -> Option<int>): seq<string>
  {
    if t == [] then [x]
    else if Precedes(key, x, t[|t| - 1]) then Insert(t[..|t| - 1], x, key) + [t[|t| - 1]]
    else t + [x]
  }

  /** A stable sort by `key`: equal keys keep their listing order, as `Array.prototype.sort` does. */
  function SortBy(s: seq<string>, key: string -> Option<int>): seq<string>
  {
    if s == [] then [] else Insert(SortBy(s[..|s| - 1], key), s[|s| - 1], key)
  }

  lemma KeyedByMultiset(s: seq<string>, t: seq<string>, key: string -> Option<int>)
    requires Keyed(s, key) && multiset(s) == multiset(t)
    ensures Keyed(t, key)
  {
    forall i | 0 <= i < |t| ensures key(t[i]).Some? {
      assert t[i] in multiset(t);
      assert t[i] in s;
    }
  }

  lemma {:induction false} InsertPermutes(t: seq<string>, x: string, key: string -> Option<int>)
    ensures multiset(Insert(t, x, key)) == multiset(t) + multiset{x}
  {
    if t != [] && Precedes(key, x, t[|t| - 1]) {
      InsertPermutes(t[..|t| - 1], x, key);
      assert t == t[..|t| - 1] + [t[|t| - 1]];
    }
  }

  /** The sort only rearranges the names. */
  lemma {:induction false} SortByPermutes(s: seq<string>, key: string -> Option<int>)
    ensures multiset(SortBy(s, key)) == multiset(s)
  {
    if s != [] {
      SortByPermutes(s[..|s| - 1], key);
      InsertPermutes(SortBy(s[..|s| - 1], key), s[|s| - 1], key);
      assert s == s[..|s| - 1] + [s[|s| - 1]];
    }
  }

  lemma {:induction false} InsertSorted(t: seq<string>, x: string, key: string -> Option<int>)
    requires SortedBy(t, key) && key(x).Some?
    ensures SortedBy(Insert(t, x, key), key)
  {
    var r := Insert(t, x, key);
    InsertPermutes(t, x, key);
    KeyedByMultiset(t + [x], r, key);
    if t != [] && Precedes(key, x, t[|t| - 1]) {
      var init := t[..|t| - 1];
      InsertSorted(init, x, key);
      var u := Insert(init, x, key);
      InsertPermutes(init, x, key);
      forall i | 0 <= i < |u| ensures key(u[i]).value <= key(t[|t| - 1]).value {
        assert u[i] in multiset(init) + multiset{x};
        if u[i] != x {
          assert u[i] in init;
        }
      }
    }
  }

  /** The sort puts the names in ascending order of their keys. */
  lemma {:induction false} SortBySorted(s: seq<string>, key: string -> Option<int>)
    requires Keyed(s, key)
    ensures SortedBy(SortBy(s, key), key)
  {
    if s != [] {
      var init := s[..|s| - 1];
      SortBySorted(init, key);
      SortByPermutes(init, key);
      InsertSorted(SortBy(init, key), s[|s| - 1], key);
    }
  }

  /** Names that are already in order come out as they went in. */
  lemma {:induction false} SortByOfSorted(s: seq<string>, key: string -> Option<int>)
    requires SortedBy(s, key)
    ensures SortBy(s, key) == s
  {
    if s != [] {
      var init := s[..|s| - 1];
      assert SortedBy(init, key);
      SortByOfSorted(init, key);
      assert init + [s[|s| - 1]] == s;
    }
  }

  /** Two sorted orderings of the same names, where no two different names share a key,
      are the same ordering. */
  lemma {:induction false} SortedUnique(a: seq<string>, b: seq<string>, key: string -> Option<int>)
    requires SortedBy(a, key) && SortedBy(b, key) && KeysIdentify(a, key)
    requires multiset(a) == multiset(b)
    ensures a == b
  {
    if a != [] {
      SortedHeads(a, b, key);
      SortedTail(a, key);
      SortedTail(b, key);
      TailMultiset(a);
      TailMultiset(b);
      SortedUnique(a[1..], b[1..], key);
      assert a == [a[0]] + a[1..] && b == [b[0]] + b[1..];
    }
  }

  /** Two sorted orderings of the same names, where no two names share a key, start alike. */
  lemma SortedHeads(a: seq<string>, b: seq<string>, key: string -> Option<int>)
    requires SortedBy(a, key) && SortedBy(b, key) && KeysIdentify(a, key)
    requires multiset(a) == multiset(b) && a != []
    ensures b != [] && a[0] == b[0]
  {
    assert |b| == |multiset(b)| == |a|;
    assert b[0] in multiset(a);
    var i :| 0 <= i < |a| && a[i] == b[0];
    assert a[0] in multiset(b);
    var j :| 0 <= j < |b| && b[j] == a[0];
    assert key(a[0]).value <= key(a[i]).value;
    assert key(b[0]).value <= key(b[j]).value;
  }

  lemma SortedTail(a: seq<string>, key: string -> Option<int>)
    requires SortedBy(a, key) && a != []
    ensures SortedBy(a[1..], key)
    ensures KeysIdentify(a, key) ==> KeysIdentify(a[1..], key)
  {
    assert forall i | 0 <= i < |a| - 1 :: a[1..][i] == a[i + 1];
  }

  lemma TailMultiset(a: seq<string>)
    requires a != []
    ensures multiset(a[1..]) == multiset(a) - multiset{a[0]}
  {
    assert a == [a[0]] + a[1..];
  }

  /** When no two different pieces share an index, the order in which the
      directory happens to be listed does not matter: every listing sorts the same. */
  lemma SortIgnoresListingOrder(a: seq<string>, b: seq<string>, key: string -> Option<int>)
    requires KeysIdentify(a, key) && multiset(a) == multiset(b)
    ensures Keyed(b, key) && SortBy(a, key) == SortBy(b, key)
  {
    KeyedByMultiset(a, b, key);
    SortBySorted(a, key);
    SortBySorted(b, key);
    SortByPermutes(a, key);
    SortByPermutes(b, key);
    var sa := SortBy(a, key);
    forall i, j | 0 <= i < |sa| && 0 <= j < |sa| && key(sa[i]).value == key(sa[j]).value
      ensures sa[i] == sa[j]
    {
      assert sa[i] in multiset(a) && sa[j] in multiset(a);
      var p :| 0 <= p < |a| && a[p] == sa[i];
      var q :| 0 <= q < |a| && a[q] == sa[j];
    }
    SortedUnique(sa, SortBy(b, key), key);
  }

  lemma SortPair(x: string, y: string, key: string -> Option<int>)
    requires Precedes(key, y, x)
    ensures SortBy([x, y], key) == [y, x]
  {
    assert [x, y][..1] == [x] && [x][..0] == [];
    assert SortBy([x], key) == [x];
    assert Insert([x], y, key) == Insert([], y, key) + [x];
  }

  /** Pieces sort by the number they carry, not by their text: `chunk-2` before `chunk-10`. */
  lemma NumericOrder(k: nat, m: nat)
    requires k < m
    ensures SortBy([UploadChunk.PieceName(DecimalString(m)), UploadChunk.PieceName(DecimalString(k))], ChunkIndex)
         == [UploadChunk.PieceName(DecimalString(k)), UploadChunk.PieceName(DecimalString(m))]
  {
    ChunkIndexOfPieceName(k);
    ChunkIndexOfPieceName(m);
    SortPair(UploadChunk.PieceName(DecimalString(m)), UploadChunk.PieceName(DecimalString(k)), ChunkIndex);
  }

  /** `chunkFiles.sort(...)` with the comparator `key(a) - key(b)`: an insertion sort
      in place, giving the same stable order as `SortBy`. */
  method SortInPlace(a: array<string>, key: string -> Option<int>)
    modifies a
    ensures a[..] == SortBy(old(a[..]), key)
  {
    ghost var s := a[..];
    var i := 0;
    while i < a.Length
      invariant 0 <= i <= a.Length
      invariant a[..i] == SortBy(s[..i], key)
      invariant a[i..] == s[i..]
    {
      assert s[..i + 1] == s[..i] + [s[i]];
      assert a[i] == s[i];
      InsertLast(a, i, key);
      i := i + 1;
    }
    assert a[..] == a[..a.Length];
    assert s == s[..a.Length];
  }

  lemma InsertStep(t: seq<string>, x: string, key: string -> Option<int>, j: nat)
    requires 0 < j <= |t| && Precedes(key, x, t[j - 1])
    ensures Insert(t[..j], x, key) + t[j..] == Insert(t[..j - 1], x, key) + t[j - 1..]
  {
    assert t[..j][..j - 1] == t[..j - 1];
    assert t[j - 1..] == [t[j - 1]] + t[j..];
  }

  lemma InsertStop(t: seq<string>, x: string, key: string -> Option<int>, j: nat)
    requires j <= |t| && (j == 0 || !Precedes(key, x, t[j - 1]))
    ensures Insert(t[..j], x, key) == t[..j] + [x]
  {
    if j > 0 {
      assert t[..j][..j - 1] == t[..j - 1];
    }
  }

  /** One pass of the insertion sort: moves `a[i]` left past the larger keys before it. */
  method InsertLast(a: array<string>, i: nat, key: string -> Option<int>)
    requires i < a.Length
    modifies a
    ensures a[..i + 1] == Insert(old(a[..i]), old(a[i]), key)
    ensures a[i + 1..] == old(a[i + 1..])
  {
    var x := a[i];
    ghost var t := a[..i];
    var j := i;
    assert t[..j] == t && t[j..] == [];
    while j > 0 && Precedes(key, x, a[j - 1])
      invariant 0 <= j <= i
      invariant forall k | 0 <= k < j :: a[k] == t[k]
      invariant forall k | j < k <= i :: a[k] == t[k - 1]
      invariant forall k | i < k < a.Length :: a[k] == old(a[k])
      invariant Insert(t, x, key) == Insert(t[..j], x, key) + t[j..]
    {
      InsertStep(t, x, key, j);
      a[j] := a[j - 1];
      j := j - 1;
    }
    InsertStop(t, x, key, j);
    a[j] := x;
    Placed(a[..i + 1], t, x, j);
    assert a[i + 1..] == old(a[i + 1..]);
  }

  /** The array after a pass: `x` sits at `j`, with `t` around it. */
  lemma Placed<T>(s: seq<T>, t: seq<T>, x: T, j: nat)
    requires |s| == |t| + 1 && j <= |t| && s[j] == x
    requires forall k | 0 <= k < j :: s[k] == t[k]
    requires forall k | j < k < |s| :: s[k] == t[k - 1]
    ensures s == t[..j] + [x] + t[j..]
  {
    var placed := t[..j] + [x] + t[j..];
    forall k | 0 <= k < |s| ensures s[k] == placed[k] {
      if k < j {
        assert placed[k] == t[k];
      } else if j < k {
        assert placed[k] == t[j..][k - j - 1] == t[k - 1];
      }
    }
  }

  // ---------------------------------------------------------------------------
  // The assembled file
  // ---------------------------------------------------------------------------

  /** The bytes of the listed pieces in the order given, each read by `read`, as
      `writeStream.write` appends them. */
  function Concatenation<N>(read: N -> Bytes, names: seq<N>): Bytes
  {
    if names == [] then []
    else Concatenation(read, names[..|names| - 1]) + read(names[|names| - 1])
  }

  /** The bytes of the piece called `name`; nothing when there is none. */
  function Read(d: Dir, name: string): Bytes
  {
    match Lookup(d, name) case Some(c) => c case None => []
  }

  /** `fs.readFile` on the staging directory `d`. */
  function Reader(d: Dir): string -> Bytes
  {
    name => Read(d, name)
  }

  /** The durable file that finalizing the staging directory `d` writes. */
  function Assembled(d: Dir): Bytes
  {
    Concatenation(Reader(d), SortBy(Names(d), ChunkIndex))
  }

  /** Every piece's bytes, in the order the directory lists them. */
  function Contents(d: Dir): Bytes
  {
    if d == [] then [] else Contents(d[..|d| - 1]) + d[|d| - 1].content
  }

  lemma {:induction false} ConcatenationAppend<N>(read: N -> Bytes, a: seq<N>, b: seq<N>)
    ensures Concatenation(read, a + b) == Concatenation(read, a) + Concatenation(read, b)
    decreases |b|
  {
    if b == [] {
      assert a + b == a;
    } else {
      var init := b[..|b| - 1];
      ConcatenationAppend(read, a, init);
      assert (a + b)[..|a + b| - 1] == a + init;
    }
  }

  /** Reading every listed piece in listing order gives the directory's contents. */
  lemma {:induction false} ConcatenationOfListing(d: Dir, k: nat)
    requires UniqueNames(d) && k <= |d|
    ensures Concatenation(Reader(d), Names(d)[..k]) == Contents(d[..k])
  {
    if k > 0 {
      ConcatenationOfListing(d, k - 1);
      assert Names(d)[..k][..k - 1] == Names(d)[..k - 1];
      assert d[..k][..k - 1] == d[..k - 1];
      UniqueLookup(d, k - 1);
      assert Reader(d)(Names(d)[..k][k - 1]) == d[k - 1].content;
    }
  }

  /** Taking one name out of the middle shortens the concatenation by that piece. */
  lemma ConcatenationRemove<N>(read: N -> Bytes, b: seq<N>, k: nat)
    requires k < |b|
    ensures |Concatenation(read, b)| == |Concatenation(read, b[..k] + b[k + 1..])| + |read(b[k])|
  {
    assert b == b[..k] + [b[k]] + b[k + 1..];
    ConcatenationAppend(read, b[..k] + [b[k]], b[k + 1..]);
    ConcatenationAppend(read, b[..k], [b[k]]);
    ConcatenationAppend(read, b[..k], b[k + 1..]);
    assert [b[k]][..0] == [];
  }

  /** The length of a concatenation depends only on which names are read, not on their order. */
  lemma {:induction false} ConcatenationLengthPermutes<N>(read: N -> Bytes, a: seq<N>, b: seq<N>)
    requires multiset(a) == multiset(b)
    ensures |Concatenation(read, a)| == |Concatenation(read, b)|
  {
    if a == [] {
      assert |b| == |multiset(b)| == 0;
    } else {
      var x := a[|a| - 1];
      var init := a[..|a| - 1];
      assert a == init + [x];
      assert x in multiset(b);
      var k :| 0 <= k < |b| && b[k] == x;
      MultisetRemove(b, k);
      ConcatenationLengthPermutes(read, init, b[..k] + b[k + 1..]);
      ConcatenationRemove(read, b, k);
    }
  }

  /** Every piece of the staging directory ends up in the file, whatever its index. */
  lemma AssembledKeepsEveryPiece(d: Dir)
    requires UniqueNames(d)
    ensures |Assembled(d)| == |Contents(d)|
  {
    SortByPermutes(Names(d), ChunkIndex);
    ConcatenationLengthPermutes(Reader(d), SortBy(Names(d), ChunkIndex), Names(d));
    ConcatenationOfListing(d, |d|);
    assert Names(d)[..|d|] == Names(d) && d[..|d|] == d;
  }

  /** Pieces that were listed in index order are joined in listing order. */
  lemma AssembledInListingOrder(d: Dir)
    requires UniqueNames(d) && SortedBy(Names(d), ChunkIndex)
    ensures Assembled(d) == Contents(d)
  {
    SortByOfSorted(Names(d), ChunkIndex);
    ConcatenationOfListing(d, |d|);
    assert Names(d)[..|d|] == Names(d) && d[..|d|] == d;
  }

  datatype Response = Response(status: nat, body: string)

  const FinalizationFailed := Response(500, "File finalization failed")

  /** The handler. `body` is the `filename` of the JSON body, `None` when the body
      does not parse or its `filename` is not a string (then `path.join` throws);
      `writeFails` stands for an error of the write stream. */
  method Post(store: UploadsDir, body: Option<string>, draws: seq<real>, writeFails: bool) returns (r: Response)
    requires store.Valid() && |draws| >= NameLength && ValidDraws(draws)
    modifies store
    ensures store.Valid()
    ensures body.None? || body.value !in old(store.staging) || writeFails ==>
      r == FinalizationFailed && store.staging == old(store.staging) && store.files == old(store.files)
    ensures body.Some? && body.value in old(store.staging) && !writeFails ==>
      var name := RandomFilename(body.value, draws);
      && r == Response(200, "/f/" + name)
      && store.files == old(store.files)[name := Assembled(old(store.staging)[body.value])]
      && store.staging == old(store.staging) - {body.value}
  {
    if body.None? {
      return FinalizationFailed;
    }
    var filename := body.value;
    var finalFilename := GenerateRandomFilename(filename, draws);
    var listing := store.ReadDir(filename);
    if listing.None? {
      return FinalizationFailed;
    }
    var chunkFiles := SortedListing(listing.value);
    SortByPermutes(listing.value, ChunkIndex);
    forall i | 0 <= i < |chunkFiles| ensures chunkFiles[i] in listing.value {
      assert chunkFiles[i] in multiset(chunkFiles);
    }
    var content := ReadPieces(store, filename, chunkFiles);
    if writeFails {
      return FinalizationFailed;
    }
    store.WriteFile(finalFilename, content);
    store.RemoveStagingDir(filename);
    r := Response(200, "/f/" + finalFilename);
  }

  /** The listing, copied into an array and sorted there by chunk index. */
  method SortedListing(listing: seq<string>) returns (chunkFiles: seq<string>)
    ensures chunkFiles == SortBy(listing, ChunkIndex)
  {
    var a := new string[|listing|](i requires 0 <= i < |listing| => listing[i]);
    assert a[..] == listing;
    SortInPlace(a, ChunkIndex);
    chunkFiles := a[..];
  }

  /** Reads the pieces in the given order and appends each to the output. */
  method ReadPieces(store: UploadsDir, dirName: string, names: seq<string>) returns (content: Bytes)
    requires dirName in store.staging
    requires forall i | 0 <= i < |names| :: names[i] in Names(store.staging[dirName])
    ensures content == Concatenation(Reader(store.staging[dirName]), names)
  {
    content := [];
    for i := 0 to |names|
      invariant content == Concatenation(Reader(store.staging[dirName]), names[..i])
    {
      var chunk := store.ReadPiece(dirName, names[i]);
      assert names[..i + 1][..i] == names[..i];
      assert Reader(store.staging[dirName])(names[i]) == chunk.value;
      content := content + chunk.value;
    }
    assert names == names[..|names|];
  }
}
