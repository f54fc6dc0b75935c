/** The `public/uploads` directory that the upload routes share: the staging
    area `chunks/<filename>/` holding the pieces of unfinished uploads, and the
    durable files beside it. Node's `fs` calls on it become the methods of
    `UploadsDir`. */
module Storage {
  import opened Runtime

  /** One file of a staging directory. */
  datatype Piece = Piece(name: string, content: Bytes)

  /** A staging directory, in the order `fs.readdir` lists it: a piece keeps
      its place when it is overwritten, and a new piece comes last. */
  type Dir = seq<Piece>

  function Names(d: Dir): seq<string>
  {
    seq(|d|, i requires 0 <= i < |d| => d[i].name)
  }

  predicate UniqueNames(d: Dir)
  {
    forall i, j | 0 <= i < j < |d| :: d[i].name != d[j].name
  }

  /** The content of the piece called `name`, as `fs.readFile` reads it. */
  function Lookup(d: Dir, name: string): (r: Option<Bytes>)
    ensures r.Some? <==> name in Names(d)
  {
    if d == [] then None
    else
      assert Names(d) == [d[0].name] + Names(d[1..]);
      if d[0].name == name then Some(d[0].content) else Lookup(d[1..], name)
  }

  /** `fs.writeFile(<dir>/<name>, content)`: the piece called `name` gets the
      new content, in place if it exists and at the end otherwise. */
  function Write(d: Dir, name: string, content: Bytes): (r: Dir)
    ensures Lookup(r, name) == Some(content)
    ensures forall n | n != name :: Lookup(r, n) == Lookup(d, n)
    ensures Names(r) == if name in Names(d) then Names(d) else Names(d) + [name]
    ensures UniqueNames(d) ==> UniqueNames(r)
    decreases |d|, 1
  {
    if d == [] then
      assert Names([Piece(name, content)]) == [name];
      [Piece(name, content)]
    else
      assert Names(d) == [d[0].name] + Names(d[1..]);
      if d[0].name == name then
        var r := [Piece(name, content)] + d[1..];
        assert r[1..] == d[1..];
        assert Names(r) == Names(d);
        r
      else
        WriteBehind(d, name, content)
  }

  /** The case of `Write` where the first piece is another one. */
  function WriteBehind(d: Dir, name: string, content: Bytes): (r: Dir)
    requires d != [] && d[0].name != name
    ensures Lookup(r, name) == Some(content)
    ensures forall n | n != name :: Lookup(r, n) == Lookup(d, n)
    ensures Names(r) == if name in Names(d) then Names(d) else Names(d) + [name]
    ensures UniqueNames(d) ==> UniqueNames(r)
    decreases |d|, 0
  {
    var rest := Write(d[1..], name, content);
    assert d == [d[0]] + d[1..];
    Cons(d[0], d[1..]);
    Cons(d[0], rest);
    assert name in Names(d) <==> name in Names(d[1..]);
    [d[0]] + rest
  }

  /** A directory seen as its first piece and the rest. */
  lemma Cons(p: Piece, rest: Dir)
    ensures ([p] + rest)[0] == p && ([p] + rest)[1..] == rest
    ensures Names([p] + rest) == [p.name] + Names(rest)
    ensures UniqueNames([p] + rest) <==> p.name !in Names(rest) && UniqueNames(rest)
  {
    var d := [p] + rest;
    assert d[0] == p && d[1..] == rest;
    assert Names(d) == [p.name] + Names(rest);
    if UniqueNames(d) {
      assert UniqueNames(rest) by {
        forall i, j | 0 <= i < j < |rest| ensures rest[i].name != rest[j].name {
          assert rest[i] == d[i + 1] && rest[j] == d[j + 1];
        }
      }
      assert p.name !in Names(rest) by {
        forall i | 0 <= i < |rest| ensures Names(rest)[i] != p.name {
          assert Names(rest)[i] == d[i + 1].name;
        }
      }
    }
    if p.name !in Names(rest) && UniqueNames(rest) {
      forall i, j | 0 <= i < j < |d| ensures d[i].name != d[j].name {
        assert d[j].name == Names(rest)[j - 1];
        if i > 0 {
          assert d[i] == rest[i - 1] && d[j] == rest[j - 1];
        }
      }
    }
  }

  /** Overwriting a piece twice leaves only the second content. */
  lemma WriteTwice(d: Dir, name: string, first: Bytes, second: Bytes)
    requires UniqueNames(d)
    ensures Write(Write(d, name, first), name, second) == Write(d, name, second)
  {
    var d1 := Write(d, name, first);
    SameDir(Write(d1, name, second), Write(d, name, second));
  }

  /** In a directory whose names are unique, looking a listed name up finds its own piece. */
  lemma {:induction false} UniqueLookup(d: Dir, i: nat)
    requires UniqueNames(d) && i < |d|
    ensures Lookup(d, d[i].name) == Some(d[i].content)
  {
    if i > 0 {
      assert d[1..][i - 1] == d[i];
      UniqueLookup(d[1..], i - 1);
    }
  }

  lemma {:induction false} LookupAppend(d: Dir, p: Piece, name: string)
    requires name != p.name
    ensures Lookup(d + [p], name) == Lookup(d, name)
  {
    if d != [] {
      assert (d + [p])[1..] == d[1..] + [p];
      LookupAppend(d[1..], p, name);
    }
  }

  /** Two directories with unique names, the same listing and the same contents are the same. */
  lemma SameDir(a: Dir, b: Dir)
    requires UniqueNames(a) && UniqueNames(b) && Names(a) == Names(b)
    requires forall n :: Lookup(a, n) == Lookup(b, n)
    ensures a == b
  {
    assert |a| == |Names(a)| == |b|;
    forall i | 0 <= i < |a| ensures a[i] == b[i] {
      assert a[i].name == Names(a)[i] == b[i].name;
      UniqueLookup(a, i);
      UniqueLookup(b, i);
    }
  }

  /** Writing a piece the directory does not have yet lists it last. */
  lemma WriteNew(d: Dir, name: string, content: Bytes)
    requires UniqueNames(d) && name !in Names(d)
    ensures Write(d, name, content) == d + [Piece(name, content)]
  {
    var e := d + [Piece(name, content)];
    assert Names(e) == Names(d) + [name];
    assert UniqueNames(e) by {
      forall i, j | 0 <= i < j < |e| ensures e[i].name != e[j].name {
        if j == |d| {
          assert e[i].name == Names(d)[i];
        }
      }
    }
    forall n ensures Lookup(Write(d, name, content), n) == Lookup(e, n) {
      if n == name {
        UniqueLookup(e, |d|);
      } else {
        LookupAppend(d, Piece(name, content), n);
      }
    }
    SameDir(Write(d, name, content), e);
  }

  class UploadsDir {
    /** `chunks/<filename>/` for every upload that has one. */
    var staging: map<string, Dir>
    /** The durable files, by name. */
    var files: map<string, Bytes>

    ghost predicate Valid()
      reads this
    {
      forall k | k in staging :: UniqueNames(staging[k])
    }

    constructor ()
      ensures Valid() && staging == map[] && files == map[]
    {
      staging := map[];
      files := map[];
    }

    /** `fs.mkdir(chunks/<name>, { recursive: true })`: creates the directory
        when it is missing and leaves an existing one and its pieces alone. */
    method MakeStagingDir(name: string)
      requires Valid()
      modifies this
      ensures Valid() && files == old(files)
      ensures staging == if name in old(staging) then old(staging) else old(staging)[name := []]
    {
      if name !in staging {
        staging := staging[name := []];
      }
    }

    /** `fs.writeFile(chunks/<dirName>/<pieceName>, content)` */
    method WritePiece(dirName: string, pieceName: string, content: Bytes)
      requires Valid() && dirName in staging
      modifies this
      ensures Valid() && files == old(files)
      ensures staging == old(staging)[dirName := Write(old(staging)[dirName], pieceName, content)]
    {
      staging := staging[dirName := Write(staging[dirName], pieceName, content)];
    }

    /** `fs.readdir(chunks/<dirName>)`; `None` when the directory does not exist. */
    method ReadDir(dirName: string) returns (names: Option<seq<string>>)
      ensures dirName in staging ==> names == Some(Names(staging[dirName]))
      ensures dirName !in staging ==> names == None
    {
      if dirName in staging {
        names := Some(Names(staging[dirName]));
      } else {
        names := None;
      }
    }

    /** `fs.readFile(chunks/<dirName>/<pieceName>)`; `None` when it does not exist. */
    method ReadPiece(dirName: string, pieceName: string) returns (content: Option<Bytes>)
      ensures dirName in staging ==> content == Lookup(staging[dirName], pieceName)
      ensures dirName !in staging ==> content == None
    {
      if dirName in staging {
        content := Lookup(staging[dirName], pieceName);
      } else {
        content := None;
      }
    }

    /** `fs.rm(chunks/<name>, { recursive: true, force: true })`: no error when it is missing. */
    method RemoveStagingDir(name: string)
      requires Valid()
      modifies this
      ensures Valid() && files == old(files)
      ensures staging == old(staging) - {name}
    {
      staging := staging - {name};
    }

    /** Writing the durable file `<name>`, replacing any file of that name. */
    method WriteFile(name: string, content: Bytes)
      requires Valid()
      modifies this
      ensures Valid() && staging == old(staging)
      ensures files == old(files)[name := content]
    {
      files := files[name := content];
    }
  }
}
